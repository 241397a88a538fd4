/**
 * user/ls.c: the flag parsing of umain, the choice in ls between listing a
 * directory's entries and listing the path itself, the directory loop of
 * lsdir, and the single output line ls1 builds. The file system (stat, open,
 * readn) becomes a parameter, and printing becomes the sequence of lines
 * printed. FTYPE_ISDIR and FTYPE_IEXEC come from inc/fs.h, which is not part
 * of this model: a file type is given by the two facts ls tests.
 */
module Ls {
  import opened Wrappers
  import opened GoSys

  /** FTYPE_ISDIR(type) and (type & FTYPE_IEXEC). */
  datatype FileType = FileType(isDir: bool, isExec: bool)

  /** What stat reports of a path. */
  datatype Stat = Stat(ftype: FileType, size: int)

  /** One whole `struct File` record read from a directory. */
  datatype DirEntry = DirEntry(name: string, ftype: FileType, size: int)

  /**
   * The reads of one open directory file: the whole records in order, then
   * the first readn result that is not a whole record (0 at end of file, a
   * positive count for a short read, a negative error).
   */
  datatype DirRead = DirRead(records: seq<DirEntry>, last: int)

  /** The file system as ls sees it: stat and open-and-read, None for a negative result. */
  datatype FileSystem = FileSystem(stat: string -> Option<Stat>, readDir: string -> Option<DirRead>)

  /** The three counters of flag[] that ls consults, as set or not. */
  datatype Opts = Opts(dirSelf: bool, classify: bool, long: bool)

  const FLAGS: nat := 256

  /** The options the counters in `flag` switch on. */
  function OptsOf(flag: array<int>): Opts
    requires flag.Length == FLAGS
    reads flag
  {
    Opts(flag['d' as int] != 0, flag['F' as int] != 0, flag['l' as int] != 0)
  }

  // ------------------------------------------------------------- ls1

  /** printf's right-justified field: `s` after enough spaces to fill `width`. */
  function PadLeft(s: string, width: nat): (r: string)
    ensures |r| == if |s| < width then width else |s|
    ensures r[|r| - |s|..] == s
  {
    (if |s| < width then seq(width - |s|, _ => ' ') else []) + s
  }

  /** The padding is made of spaces only. */
  lemma PadLeftSpaces(s: string, width: nat)
    ensures var r := PadLeft(s, width);
            forall k :: 0 <= k < |r| - |s| ==> r[k] == ' '
  {
  }

  /** The long-listing prefix of -l: "%11d %c ", the size and 'd' or '-'. */
  function LongField(o: Opts, t: FileType, size: int): string
  {
    if o.long then PadLeft(ItoaSpec(size), 11) + [if t.isDir then 'd' else '-', ' '] else ""
  }

  /** The separator ls1 puts between a prefix and the name. */
  function Separator(prefix: string): string
  {
    if |prefix| > 0 && prefix[|prefix| - 1] != '/' then "/" else ""
  }

  /** The path ls1 prints: the prefix and separator (a NULL prefix prints nothing), then the name. */
  function PathText(prefix: Option<string>, name: string): string
  {
    match prefix
    case None => name
    case Some(p) => p + Separator(p) + name
  }

  /** What -F appends: "/" for a directory, then "*" for an executable. */
  function ClassifySuffix(o: Opts, t: FileType): string
  {
    (if o.classify && t.isDir then "/" else "") + (if o.classify && t.isExec then "*" else "")
  }

  /** ls1: the line printed for one file. */
  function Ls1Line(o: Opts, prefix: Option<string>, t: FileType, size: int, name: string): string
  {
    LongField(o, t, size) + PathText(prefix, name) + ClassifySuffix(o, t) + "\n"
  }

  /**
   * The path of a line: a NULL prefix prints just the name; a prefix is
   * followed by the name, with exactly one '/' put between them when the
   * prefix is non-empty and does not already end in one.
   */
  lemma PathTextJoins(prefix: Option<string>, name: string)
    ensures prefix.None? ==> PathText(prefix, name) == name
    ensures prefix.Some? ==>
              var p, r := prefix.value, PathText(prefix, name);
              |r| == |p| + |name| + (if |p| > 0 && p[|p| - 1] != '/' then 1 else 0) &&
              r[..|p|] == p && r[|r| - |name|..] == name &&
              (|p| > 0 ==> r[|r| - |name| - 1] == '/')
  {
    if prefix.Some? {
      var p := prefix.value;
      var r := PathText(prefix, name);
      assert r == p + Separator(p) + name;
      assert r[..|p|] == p;
      assert r[|r| - |name|..] == name;
    }
  }

  /** Every ls1 line ends in a newline, and without -F the newline follows the path directly. */
  lemma Ls1LineEnds(o: Opts, prefix: Option<string>, t: FileType, size: int, name: string)
    ensures var line := Ls1Line(o, prefix, t, size, name);
            |line| > 0 && line[|line| - 1] == '\n'
    ensures !o.classify ==> Ls1Line(o, prefix, t, size, name) == LongField(o, t, size) + PathText(prefix, name) + "\n"
  {
    var head := LongField(o, t, size) + PathText(prefix, name);
    if !o.classify {
      assert ClassifySuffix(o, t) == "";
      assert head + "" == head;
    }
  }

  /**
   * With -l a line starts with the size right-justified in eleven columns,
   * then 'd' for a directory or '-', then a space.
   */
  lemma Ls1LineLong(o: Opts, prefix: Option<string>, t: FileType, size: int, name: string)
    requires o.long
    ensures var line, f := Ls1Line(o, prefix, t, size, name), PadLeft(ItoaSpec(size), 11);
            |line| > |f| + 1 && line[..|f|] == f && line[|f|] == (if t.isDir then 'd' else '-') && line[|f| + 1] == ' '
  {
    var f := PadLeft(ItoaSpec(size), 11);
    var c := if t.isDir then 'd' else '-';
    var rest := PathText(prefix, name) + ClassifySuffix(o, t) + "\n";
    LineAfterField(o, prefix, t, size, name);
    assert LongField(o, t, size) == f + [c, ' '];
    Regroup(f, [c, ' '], rest);
    FieldThenRest(f, c, rest);
  }

  /** An ls1 line is the -l field followed by the rest of the line. */
  lemma LineAfterField(o: Opts, prefix: Option<string>, t: FileType, size: int, name: string)
    ensures Ls1Line(o, prefix, t, size, name) == LongField(o, t, size) + (PathText(prefix, name) + ClassifySuffix(o, t) + "\n")
  {
    var f, p, c := LongField(o, t, size), PathText(prefix, name), ClassifySuffix(o, t);
    Regroup(f + p, c, "\n");
    Regroup(f, p, c + "\n");
    Regroup(p, c, "\n");
  }

  /** Concatenation regroups. */
  lemma Regroup<T>(a: seq<T>, b: seq<T>, c: seq<T>)
    ensures (a + b) + c == a + (b + c)
  {
  }

  /** The characters of a field, a mark and a space, then the rest, are found where they were put. */
  lemma FieldThenRest(f: string, c: char, rest: string)
    ensures var l := f + ([c, ' '] + rest);
            |l| > |f| + 1 && l[..|f|] == f && l[|f|] == c && l[|f| + 1] == ' '
  {
  }

  /** Without -l a line starts with the path. */
  lemma Ls1LineShort(o: Opts, prefix: Option<string>, t: FileType, size: int, name: string)
    requires !o.long
    ensures var path := PathText(prefix, name);
            Ls1Line(o, prefix, t, size, name)[..|path|] == path
  {
    var path := PathText(prefix, name);
    assert LongField(o, t, size) == "";
    assert Ls1Line(o, prefix, t, size, name) == path + (ClassifySuffix(o, t) + "\n");
  }

  /** With -F a directory's path is followed by '/', and an executable's line ends in "*\n". */
  lemma Ls1LineClassify(o: Opts, prefix: Option<string>, t: FileType, size: int, name: string)
    requires o.classify
    ensures var line, n := Ls1Line(o, prefix, t, size, name), |LongField(o, t, size) + PathText(prefix, name)|;
            t.isDir ==> |line| > n && line[n] == '/'
    ensures var line := Ls1Line(o, prefix, t, size, name);
            t.isExec ==> |line| >= 2 && line[|line| - 2] == '*'
  {
    var head := LongField(o, t, size) + PathText(prefix, name);
    var line := Ls1Line(o, prefix, t, size, name);
    var d := if t.isDir then "/" else "";
    var x := if t.isExec then "*" else "";
    assert line == head + (d + x + "\n");
  }

  // ------------------------------------------------------------- lsdir and ls

  /** The records lsdir prints: those whose name is not empty, in order. */
  function Named(records: seq<DirEntry>): (r: seq<DirEntry>)
    ensures |r| <= |records|
    decreases |records|
  {
    if |records| == 0 then []
    else (if records[0].name != "" then [records[0]] else []) + Named(records[1..])
  }

  /** Named keeps exactly the records with a name. */
  lemma {:induction false} NamedMembers(records: seq<DirEntry>)
    ensures forall k :: 0 <= k < |Named(records)| ==> Named(records)[k] in records && Named(records)[k].name != ""
    ensures forall e :: e in records && e.name != "" ==> e in Named(records)
    decreases |records|
  {
    if |records| > 0 {
      NamedMembers(records[1..]);
      var h := if records[0].name != "" then [records[0]] else [];
      assert Named(records) == h + Named(records[1..]);
      forall e | e in records && e.name != ""
        ensures e in Named(records)
      {
        if e != records[0] {
          assert e in records[1..];
        }
      }
    }
  }

  /** f applied to each element, built from the front as a loop appends. */
  function MapSeq<A, B>(f: A -> B, s: seq<A>): (r: seq<B>)
    ensures |r| == |s|
    decreases |s|
  {
    if |s| == 0 then [] else MapSeq(f, s[..|s| - 1]) + [f(s[|s| - 1])]
  }

  /** The k-th element of MapSeq is f of the k-th element. */
  lemma {:induction false} MapSeqEach<A, B>(f: A -> B, s: seq<A>)
    ensures forall k :: 0 <= k < |s| ==> MapSeq(f, s)[k] == f(s[k])
    decreases |s|
  {
    if |s| > 0 {
      var init := s[..|s| - 1];
      MapSeqEach(f, init);
      var all := MapSeq(f, s);
      assert all == MapSeq(f, init) + [f(s[|s| - 1])];
      forall k | 0 <= k < |s|
        ensures all[k] == f(s[k])
      {
        if k < |init| {
          assert s[k] == init[k];
        }
      }
    }
  }

  /** One more element adds its image at the end. */
  lemma MapSeqSnoc<A, B>(f: A -> B, s: seq<A>, x: A)
    ensures MapSeq(f, s + [x]) == MapSeq(f, s) + [f(x)]
  {
    assert (s + [x])[..|s|] == s;
  }

  /** The line lsdir prints for one record: its ls1 line under the directory's prefix. */
  function EntryLine(o: Opts, prefix: string, e: DirEntry): string
  {
    Ls1Line(o, Some(prefix), e.ftype, e.size, e.name)
  }

  /** The lines of the given records, one per record, each with the directory's prefix. */
  function EntryLines(o: Opts, prefix: string, records: seq<DirEntry>): (r: seq<string>)
    ensures |r| == |records|
  {
    MapSeq(e => EntryLine(o, prefix, e), records)
  }

  /** The k-th line is the ls1 line of the k-th record. */
  lemma EntryLinesEach(o: Opts, prefix: string, records: seq<DirEntry>)
    ensures forall k :: 0 <= k < |records| ==>
              EntryLines(o, prefix, records)[k] == EntryLine(o, prefix, records[k])
  {
    MapSeqEach(e => EntryLine(o, prefix, e), records);
  }

  /** One more record adds its line at the end. */
  lemma EntryLinesSnoc(o: Opts, prefix: string, records: seq<DirEntry>, e: DirEntry)
    ensures EntryLines(o, prefix, records + [e]) == EntryLines(o, prefix, records) + [EntryLine(o, prefix, e)]
  {
    MapSeqSnoc(x => EntryLine(o, prefix, x), records, e);
  }

  /** Skipping the unnamed records commutes with taking a prefix. */
  lemma {:induction false} NamedSnoc(records: seq<DirEntry>, e: DirEntry)
    ensures Named(records + [e]) == Named(records) + (if e.name != "" then [e] else [])
    decreases |records|
  {
    var last := if e.name != "" then [e] else [];
    var r := records + [e];
    if |records| == 0 {
      assert r == [e] && r[1..] == [];
      assert Named(r) == last + Named([]);
      assert last + [] == last;
    } else {
      assert r[0] == records[0];
      assert r[1..] == records[1..] + [e];
      NamedSnoc(records[1..], e);
      var h := if records[0].name != "" then [records[0]] else [];
      assert Named(r) == h + (Named(records[1..]) + last);
      assert Named(records) == h + Named(records[1..]);
      Regroup(h, Named(records[1..]), last);
    }
  }

  /** One more record read adds its line when it has a name, and nothing otherwise. */
  lemma LsDirStep(o: Opts, prefix: string, recs: seq<DirEntry>, i: nat)
    requires i < |recs|
    ensures var f := recs[i];
            EntryLines(o, prefix, Named(recs[..i + 1])) ==
            EntryLines(o, prefix, Named(recs[..i])) + (if f.name != "" then [EntryLine(o, prefix, f)] else [])
  {
    var f := recs[i];
    NamedSnoc(recs[..i], f);
    assert recs[..i + 1] == recs[..i] + [f];
    if f.name != "" {
      EntryLinesSnoc(o, prefix, Named(recs[..i]), f);
    } else {
      var named := Named(recs[..i]);
      assert named + [] == named;
      assert EntryLines(o, prefix, named) + [] == EntryLines(o, prefix, named);
    }
  }

  /** What lsdir does with a directory: panics when it cannot be read to its end, else its named entries' lines. */
  function LsDirResult(o: Opts, prefix: string, d: Option<DirRead>): Exit<seq<string>>
  {
    if d.None? || d.value.last != 0 then Panicked
    else Returned(EntryLines(o, prefix, Named(d.value.records)))
  }

  /** lsdir: reads the records one by one, printing those with a name, and panics on a short read or an error. */
  method LsDir(o: Opts, fs: FileSystem, path: string, prefix: string) returns (r: Exit<seq<string>>)
    ensures r == LsDirResult(o, prefix, fs.readDir(path))
  {
    var d := fs.readDir(path);
    if d.None? {
      return Panicked;
    }
    var lines := PrintNamed(o, prefix, d.value.records);
    if d.value.last > 0 {
      return Panicked;
    }
    if d.value.last < 0 {
      return Panicked;
    }
    r := Returned(lines);
  }

  /** lsdir's read loop: the line of each record with a name, in order. */
  method PrintNamed(o: Opts, prefix: string, recs: seq<DirEntry>) returns (lines: seq<string>)
    ensures lines == EntryLines(o, prefix, Named(recs))
  {
    lines := [];
    for i := 0 to |recs|
      invariant lines == EntryLines(o, prefix, Named(recs[..i]))
    {
      var f := recs[i];
      LsDirStep(o, prefix, recs, i);
      if f.name != "" {
        lines := lines + [EntryLine(o, prefix, f)];
      }
    }
    assert recs[..|recs|] == recs;
  }

  /** What ls does with a path: a directory's entries unless -d, otherwise the path alone. */
  function LsResult(o: Opts, fs: FileSystem, path: string, prefix: string): Exit<seq<string>>
  {
    match fs.stat(path)
    case None => Panicked
    case Some(st) =>
      if st.ftype.isDir && !o.dirSelf then LsDirResult(o, prefix, fs.readDir(path))
      else Returned([Ls1Line(o, None, st.ftype, st.size, path)])
  }

  /**
   * A path that is not a directory, or any path under -d, is listed as one
   * line holding the path itself and no prefix.
   */
  lemma LsListsPathItself(o: Opts, fs: FileSystem, path: string, prefix: string)
    requires fs.stat(path).Some? && (!fs.stat(path).value.ftype.isDir || o.dirSelf)
    ensures var st := fs.stat(path).value;
            LsResult(o, fs, path, prefix) == Returned([Ls1Line(o, None, st.ftype, st.size, path)])
    ensures !o.long && !o.classify ==> LsResult(o, fs, path, prefix) == Returned([path + "\n"])
  {
    var st := fs.stat(path).value;
    if !o.long && !o.classify {
      Ls1LineEnds(o, None, st.ftype, st.size, path);
      assert LongField(o, st.ftype, st.size) + PathText(None, path) == path;
    }
  }

  /** ls: stat the path, then list the directory or the path. */
  method List(o: Opts, fs: FileSystem, path: string, prefix: string) returns (r: Exit<seq<string>>)
    ensures r == LsResult(o, fs, path, prefix)
  {
    var st := fs.stat(path);
    if st.None? {
      return Panicked;
    }
    if st.value.ftype.isDir && !o.dirSelf {
      r := LsDir(o, fs, path, prefix);
    } else {
      r := Returned([Ls1Line(o, None, st.value.ftype, st.value.size, path)]);
    }
  }

  // ------------------------------------------------------------- umain

  /** A flag ls accepts. */
  predicate IsFlag(c: char)
  {
    c == 'd' || c == 'F' || c == 'l'
  }

  /** How many times `c` occurs in `s`. */
  function Count(s: seq<char>, c: char): (n: nat)
    ensures n <= |s|
    decreases |s|
  {
    if |s| == 0 then 0 else Count(s[..|s| - 1], c) + (if s[|s| - 1] == c then 1 else 0)
  }

  /** The position of the first option ls rejects, or the number of options when it rejects none. */
  function FirstBad(opts: seq<char>): (i: nat)
    ensures i <= |opts|
    ensures forall j :: 0 <= j < i ==> IsFlag(opts[j])
    ensures i < |opts| ==> !IsFlag(opts[i])
    decreases |opts|
  {
    if |opts| == 0 then 0 else if !IsFlag(opts[0]) then 0 else 1 + FirstBad(opts[1..])
  }

  const USAGE: string := "usage: ls [-dFl] [file...]\n"

  /**
   * The flag loop of umain: each accepted option increments its counter;
   * the first other option calls usage, which exits. Returns false when it
   * did.
   */
  method ParseFlags(flag: array<int>, opts: seq<char>) returns (ok: bool)
    requires flag.Length == FLAGS
    modifies flag
    ensures ok <==> FirstBad(opts) == |opts|
    ensures forall j :: 0 <= j < FLAGS ==> flag[j] == old(flag[j]) + Count(opts[..FirstBad(opts)], j as char)
  {
    ghost var f0 := flag[..];
    var i := 0;
    assert opts[..0] == [];
    while i < |opts|
      invariant 0 <= i <= FirstBad(opts)
      invariant forall j :: 0 <= j < FLAGS ==> flag[j] == f0[j] + Count(opts[..i], j as char)
    {
      var c := opts[i];
      if !IsFlag(c) {
        return false;
      }
      flag[c as int] := flag[c as int] + 1;
      assert opts[..i + 1][..i] == opts[..i];
      i := i + 1;
    }
    ok := true;
  }

  /** The lines of the operands listed one after another, each path its own prefix; the first panic ends the run. */
  function ListAll(o: Opts, fs: FileSystem, paths: seq<string>): Exit<seq<string>>
    decreases |paths|
  {
    if |paths| == 0 then Returned([])
    else
      match ListAll(o, fs, paths[..|paths| - 1])
      case Panicked => Panicked
      case Returned(done) =>
        match LsResult(o, fs, paths[|paths| - 1], paths[|paths| - 1])
        case Panicked => Panicked
        case Returned(more) => Returned(done + more)
  }

  /** Once an operand panics, the whole run has panicked. */
  lemma ListAllStopsAtPanic(o: Opts, fs: FileSystem, paths: seq<string>, i: nat)
    requires i <= |paths| && ListAll(o, fs, paths[..i]) == Panicked
    ensures ListAll(o, fs, paths) == Panicked
    decreases |paths| - i
  {
    if i < |paths| {
      assert paths[..i + 1][..i] == paths[..i];
      ListAllStopsAtPanic(o, fs, paths, i + 1);
    } else {
      assert paths[..i] == paths;
    }
  }

  /** With no operands ls lists "/" with the empty prefix, else each operand as its own prefix. */
  function UmainResult(o: Opts, fs: FileSystem, operands: seq<string>): Exit<seq<string>>
  {
    if |operands| == 0 then LsResult(o, fs, "/", "") else ListAll(o, fs, operands)
  }

  /**
   * umain: the options (argnext's results, in order), then the operands
   * left in argv. A rejected option prints the usage line and exits before
   * anything is listed.
   */
  method Umain(flag: array<int>, opts: seq<char>, operands: seq<string>, fs: FileSystem) returns (r: Exit<seq<string>>)
    requires flag.Length == FLAGS
    modifies flag
    ensures FirstBad(opts) < |opts| ==> r == Returned([USAGE])
    ensures FirstBad(opts) == |opts| ==> r == UmainResult(OptsOf(flag), fs, operands)
    ensures forall j :: 0 <= j < FLAGS ==> flag[j] == old(flag[j]) + Count(opts[..FirstBad(opts)], j as char)
  {
    var ok := ParseFlags(flag, opts);
    if !ok {
      return Returned([USAGE]);
    }
    var o := OptsOf(flag);
    ghost var parsed := flag[..];
    if |operands| == 0 {
      r := List(o, fs, "/", "");
      return;
    }
    var lines: seq<string> := [];
    var i := 0;
    while i < |operands|
      invariant 0 <= i <= |operands|
      invariant ListAll(o, fs, operands[..i]) == Returned(lines)
      invariant flag[..] == parsed
    {
      assert operands[..i + 1][..i] == operands[..i];
      var more := List(o, fs, operands[i], operands[i]);
      if more.Panicked? {
        ListAllStopsAtPanic(o, fs, operands, i + 1);
        return Panicked;
      }
      lines := lines + more.value;
      i := i + 1;
    }
    assert operands[..i] == operands;
    r := Returned(lines);
  }

  /** From zero counters, the option set after umain's loop is exactly the flags given. */
  lemma FlagsGiven(opts: seq<char>, counts: seq<int>, o: Opts)
    requires FirstBad(opts) == |opts| && |counts| == FLAGS
    requires forall j :: 0 <= j < FLAGS ==> counts[j] == Count(opts, j as char)
    requires o == Opts(counts['d' as int] != 0, counts['F' as int] != 0, counts['l' as int] != 0)
    ensures o.dirSelf <==> 'd' in opts
    ensures o.classify <==> 'F' in opts
    ensures o.long <==> 'l' in opts
  {
    CountIn(opts, 'd');
    CountIn(opts, 'F');
    CountIn(opts, 'l');
  }

  /** A character occurs iff its count is positive. */
  lemma {:induction false} CountIn(s: seq<char>, c: char)
    ensures Count(s, c) > 0 <==> c in s
    decreases |s|
  {
    if |s| > 0 {
      CountIn(s[..|s| - 1], c);
      assert s == s[..|s| - 1] + [s[|s| - 1]];
    }
  }
}
