/**
 * The kernel monitor of kern/monitor.c: runcmd splits a NUL-terminated
 * command line in place into whitespace-separated arguments, looks the first
 * one up in the command table and runs that command; the monitor loop runs
 * lines until a command returns a negative value. Of the commands only
 * showmappings computes anything the loop can see; the others return 0 and
 * their printing is not modelled. Console input (readline) becomes a
 * sequence of lines, and atoi, whose body is not part of this model, a
 * function parameter.
 */
module Monitor {
  import opened MemLayout
  import opened Wrappers
  import opened PhysAddr

  const NUL: char := '\0'

  /** The characters of WHITESPACE: tab, carriage return, newline, space. */
  predicate IsWhite(c: char)
  {
    c == '\t' || c == '\r' || c == '\n' || c == ' '
  }

  const MAXARGS: nat := 16

  /** The names of the command table, in order. */
  const CommandNames: seq<string> := ["help", "kerninfo", "backtrace", "showmappings", "modperms", "dumpmem"]

  /** The index of showmappings in the table. */
  const SHOWMAPPINGS: nat := 3

  // ------------------------------------------------------------- tokens

  /** The first position at or after `i` that is not whitespace. */
  function SkipWhite(s: string, i: nat): (j: nat)
    requires i <= |s|
    ensures i <= j <= |s| && (j == |s| || !IsWhite(s[j]))
    decreases |s| - i
  {
    if i == |s| || !IsWhite(s[i]) then i else SkipWhite(s, i + 1)
  }

  /** Everything SkipWhite passes over is whitespace. */
  lemma {:induction false} SkipWhiteSkipsWhite(s: string, i: nat)
    requires i <= |s|
    ensures forall k :: i <= k < SkipWhite(s, i) ==> IsWhite(s[k])
    decreases |s| - i
  {
    if i < |s| && IsWhite(s[i]) {
      SkipWhiteSkipsWhite(s, i + 1);
    }
  }

  /** The first position at or after `i` that is whitespace, or the end. */
  function EndOfToken(s: string, i: nat): (j: nat)
    requires i <= |s|
    ensures i <= j <= |s| && (j == |s| || IsWhite(s[j]))
    decreases |s| - i
  {
    if i == |s| || IsWhite(s[i]) then i else EndOfToken(s, i + 1)
  }

  /** An argument holds no whitespace. */
  lemma {:induction false} TokenHasNoWhite(s: string, i: nat)
    requires i <= |s|
    ensures forall k :: i <= k < EndOfToken(s, i) ==> !IsWhite(s[k])
    decreases |s| - i
  {
    if i < |s| && !IsWhite(s[i]) {
      TokenHasNoWhite(s, i + 1);
    }
  }

  /** The start positions of the arguments found by scanning from `i`: each is a non-white character. */
  function StartsFrom(s: string, i: nat): (r: seq<nat>)
    requires i <= |s|
    ensures forall k :: 0 <= k < |r| ==> i <= r[k] < |s| && !IsWhite(s[r[k]])
    decreases |s| - i
  {
    var j := SkipWhite(s, i);
    if j == |s| then [] else [j] + StartsFrom(s, EndOfToken(s, j))
  }

  /** The argument starting at `st`. */
  function TokenAt(s: string, st: nat): string
    requires st <= |s|
  {
    s[st..EndOfToken(s, st)]
  }

  /** The arguments at the given start positions. */
  function Words(s: string, starts: seq<nat>): (r: seq<string>)
    requires forall k :: 0 <= k < |starts| ==> starts[k] <= |s|
    ensures |r| == |starts| && forall k :: 0 <= k < |r| ==> r[k] == TokenAt(s, starts[k])
    decreases |starts|
  {
    if |starts| == 0 then [] else [TokenAt(s, starts[0])] + Words(s, starts[1..])
  }

  /** The arguments of a command line, in order. */
  function Tokens(s: string): seq<string>
  {
    Words(s, StartsFrom(s, 0))
  }

  /** The characters of `s` that are not whitespace, in order. */
  function NonWhite(s: string): string
    decreases |s|
  {
    if |s| == 0 then [] else (if IsWhite(s[0]) then [] else [s[0]]) + NonWhite(s[1..])
  }

  function Flatten(ws: seq<string>): string
    decreases |ws|
  {
    if |ws| == 0 then [] else ws[0] + Flatten(ws[1..])
  }

  lemma {:induction false} NonWhiteAppend(a: string, b: string)
    ensures NonWhite(a + b) == NonWhite(a) + NonWhite(b)
    decreases |a|
  {
    if |a| > 0 {
      assert (a + b)[1..] == a[1..] + b;
      NonWhiteAppend(a[1..], b);
    } else {
      assert a + b == b;
    }
  }

  /** SkipWhite passes over nothing but whitespace. */
  lemma {:induction false} NonWhiteOfGap(s: string, i: nat)
    requires i <= |s|
    ensures NonWhite(s[i..SkipWhite(s, i)]) == []
    decreases |s| - i
  {
    if i < |s| && IsWhite(s[i]) {
      NonWhiteOfGap(s, i + 1);
      assert s[i..SkipWhite(s, i)][1..] == s[i + 1..SkipWhite(s, i + 1)];
    }
  }

  /** An argument keeps all its characters under NonWhite. */
  lemma {:induction false} NonWhiteOfToken(s: string, i: nat)
    requires i <= |s|
    ensures NonWhite(TokenAt(s, i)) == TokenAt(s, i)
    decreases |s| - i
  {
    if i < |s| && !IsWhite(s[i]) {
      NonWhiteOfToken(s, i + 1);
      assert TokenAt(s, i)[1..] == TokenAt(s, i + 1);
    }
  }

  /** Whitespace skipped at `i` contributes nothing to the non-white characters. */
  lemma GapThenRest(s: string, i: nat)
    requires i <= |s|
    ensures NonWhite(s[i..]) == NonWhite(s[SkipWhite(s, i)..])
  {
    var j := SkipWhite(s, i);
    assert s[i..] == s[i..j] + s[j..];
    NonWhiteAppend(s[i..j], s[j..]);
    NonWhiteOfGap(s, i);
  }

  /** The non-white characters from a token's start are the token, then those after it. */
  lemma TokenThenRest(s: string, j: nat)
    requires j <= |s|
    ensures NonWhite(s[j..]) == TokenAt(s, j) + NonWhite(s[EndOfToken(s, j)..])
  {
    var e := EndOfToken(s, j);
    assert s[j..] == s[j..e] + s[e..];
    NonWhiteAppend(s[j..e], s[e..]);
    NonWhiteOfToken(s, j);
  }

  /** The words at one more start: that start's token, then the others. */
  lemma WordsCons(s: string, j: nat, rest: seq<nat>)
    requires j <= |s| && forall k :: 0 <= k < |rest| ==> rest[k] <= |s|
    ensures Flatten(Words(s, [j] + rest)) == TokenAt(s, j) + Flatten(Words(s, rest))
  {
    var ws := Words(s, [j] + rest);
    assert ([j] + rest)[1..] == rest;
    assert ws[1..] == Words(s, rest);
  }

  /** Scanning from `i` loses no character: the arguments joined are the non-white characters. */
  lemma {:induction false} StartsFromCoverAll(s: string, i: nat)
    requires i <= |s|
    ensures Flatten(Words(s, StartsFrom(s, i))) == NonWhite(s[i..])
    decreases |s| - i
  {
    var j := SkipWhite(s, i);
    GapThenRest(s, i);
    if j < |s| {
      var e := EndOfToken(s, j);
      StartsFromCoverAll(s, e);
      TokenThenRest(s, j);
      WordsCons(s, j, StartsFrom(s, e));
    }
  }

  /**
   * runcmd's split: the arguments are non-empty runs without whitespace,
   * each bounded by whitespace or the ends of the line, and together they
   * are exactly the line's non-white characters.
   */
  lemma TokensSplitLine(s: string)
    ensures Flatten(Tokens(s)) == NonWhite(s)
    ensures forall k :: 0 <= k < |Tokens(s)| ==> |Tokens(s)[k]| > 0
    ensures forall k, c :: 0 <= k < |Tokens(s)| && 0 <= c < |Tokens(s)[k]| ==> !IsWhite(Tokens(s)[k][c])
    ensures forall k :: 0 <= k < |StartsFrom(s, 0)| ==>
              var st := StartsFrom(s, 0)[k];
              (st == 0 || IsWhite(s[st - 1])) && (EndOfToken(s, st) == |s| || IsWhite(s[EndOfToken(s, st)]))
  {
    StartsFromCoverAll(s, 0);
    assert s[0..] == s;
    TokensHaveNoWhite(s);
    StartsBetweenWhite(s);
  }

  /** Each argument is a non-empty run of non-white characters. */
  lemma TokensHaveNoWhite(s: string)
    ensures forall k :: 0 <= k < |Tokens(s)| ==>
              |Tokens(s)[k]| > 0 && forall c :: 0 <= c < |Tokens(s)[k]| ==> !IsWhite(Tokens(s)[k][c])
  {
    var st := StartsFrom(s, 0);
    forall k | 0 <= k < |Tokens(s)|
      ensures |Tokens(s)[k]| > 0 && forall c :: 0 <= c < |Tokens(s)[k]| ==> !IsWhite(Tokens(s)[k][c])
    {
      TokenHasNoWhite(s, st[k]);
      assert Tokens(s)[k] == s[st[k]..EndOfToken(s, st[k])];
    }
  }

  /** Each argument starts at the line start or after whitespace, and ends at the line end or at whitespace. */
  lemma StartsBetweenWhite(s: string)
    ensures forall k :: 0 <= k < |StartsFrom(s, 0)| ==>
              var st := StartsFrom(s, 0)[k];
              (st == 0 || IsWhite(s[st - 1])) && (EndOfToken(s, st) == |s| || IsWhite(s[EndOfToken(s, st)]))
  {
    StartsAfterWhite(s, 0);
  }

  /** Every start found from a line start or a token end follows whitespace, or is the line start. */
  lemma {:induction false} StartsAfterWhite(s: string, i: nat)
    requires i <= |s| && (i == 0 || i == |s| || IsWhite(s[i]))
    ensures forall k :: 0 <= k < |StartsFrom(s, i)| ==> StartsFrom(s, i)[k] == 0 || IsWhite(s[StartsFrom(s, i)[k] - 1])
    decreases |s| - i
  {
    var j := SkipWhite(s, i);
    SkipWhiteSkipsWhite(s, i);
    if j < |s| {
      StartsAfterWhite(s, EndOfToken(s, j));
    }
  }

  // ------------------------------------------------------------- commands

  /** The index of the first name equal to `name`, or the table size when none is. */
  function IndexOf(names: seq<string>, name: string): (i: nat)
    ensures i <= |names|
    ensures i < |names| ==> names[i] == name
    ensures forall j :: 0 <= j < i ==> names[j] != name
    decreases |names|
  {
    if |names| == 0 then 0 else if names[0] == name then 0 else 1 + IndexOf(names[1..], name)
  }

  /** What runcmd does with a line. */
  datatype CmdOutcome = TooManyArgs | NoCommand | Unknown(name: string) | Invoke(cmd: nat, args: seq<string>)

  /** The outcome the line's arguments call for. */
  function Interpret(s: string): CmdOutcome
  {
    Outcome(Tokens(s))
  }

  /** The outcome the arguments `t` call for. */
  function Outcome(t: seq<string>): CmdOutcome
  {
    if |t| >= MAXARGS then TooManyArgs
    else if |t| == 0 then NoCommand
    else
      var c := IndexOf(CommandNames, t[0]);
      if c == |CommandNames| then Unknown(t[0]) else Invoke(c, t)
  }

  /** The result runcmd returns for an outcome: the command's result, else 0. */
  function CommandResult(o: CmdOutcome, atoi: string -> int): Exit<int>
  {
    match o
    case Invoke(c, args) =>
      if c == SHOWMAPPINGS then
        if |args| < 3 then ShowMappingsResult(|args|, 0, 0)
        else ShowMappingsResult(|args|, atoi(args[1]), atoi(args[2]))
      else Returned(0)
    case _ => Returned(0)
  }

  /** How runcmd's outcome shows in its result: only a command can return anything but 0. */
  lemma OnlyCommandsReturnNonzero(s: string, atoi: string -> int)
    ensures !Interpret(s).Invoke? ==> CommandResult(Interpret(s), atoi) == Returned(0)
    ensures Interpret(s).TooManyArgs? <==> |Tokens(s)| >= MAXARGS
    ensures Interpret(s).NoCommand? <==> |Tokens(s)| == 0
    ensures Interpret(s).Invoke? ==> CommandNames[Interpret(s).cmd] == Tokens(s)[0] && Interpret(s).args == Tokens(s)
  {
  }

  // ------------------------------------------------------------- showmappings

  /** The (va, pa) pairs showmappings prints for the pages from `lo` up to `hi`. */
  function Mappings(lo: u32, hi: u32): (r: seq<(u32, u32)>)
    requires lo % PGSIZE == 0 && hi % PGSIZE == 0 && KERNBASE <= lo
    ensures |r| == if lo < hi then (hi - lo) / PGSIZE else 0
    ensures forall k :: 0 <= k < |r| ==> r[k].0 == lo + k * PGSIZE && r[k].1 == r[k].0 - KERNBASE
  {
    if lo < hi then seq((hi - lo) / PGSIZE, k requires 0 <= k < (hi - lo) / PGSIZE => (lo + k * PGSIZE, lo + k * PGSIZE - KERNBASE))
    else []
  }

  /** The page range showmappings walks: begin rounded down, end rounded up, as uint32_t. */
  function PageStart(begin: int): u32
  {
    RoundDown(begin % 0x1_0000_0000)
  }

  function PageEnd(end: int): u32
  {
    RoundUp(end % 0x1_0000_0000)
  }

  /**
   * mon_showmappings' result: -1 (which makes the monitor exit) for fewer
   * than three arguments; a PADDR panic when the range is non-empty and
   * starts below KERNBASE; otherwise 0.
   */
  function ShowMappingsResult(argc: int, begin: int, end: int): Exit<int>
  {
    if argc < 3 then Returned(-1)
    else if PageStart(begin) < PageEnd(end) && PageStart(begin) < KERNBASE then Panicked
    else Returned(0)
  }

  /** mon_showmappings: prints the va and PADDR(va) of every page in the range. */
  method ShowMappings(argc: int, begin: int, end: int) returns (r: Exit<int>, printed: seq<(u32, u32)>)
    ensures r == ShowMappingsResult(argc, begin, end)
    ensures r.Returned? && argc >= 3 && PageStart(begin) < PageEnd(end) ==> printed == Mappings(PageStart(begin), PageEnd(end))
    ensures r.Panicked? || argc < 3 || PageEnd(end) <= PageStart(begin) ==> printed == []
  {
    printed := [];
    if argc < 3 {
      return Returned(-1), printed;
    }
    var pgstart := PageStart(begin);
    var pgend := PageEnd(end);
    var i := pgstart;
    while i < pgend
      invariant pgstart <= i && i % PGSIZE == 0
      invariant i <= pgend || i == pgstart
      invariant i > pgstart ==> KERNBASE <= pgstart && printed == Mappings(pgstart, i)
      invariant i == pgstart ==> printed == []
      decreases pgend - i
    {
      var pa := Paddr(i);
      if pa.Panicked? {
        return Panicked, [];
      }
      NextPageWithin(i, pgend);
      MappingsSnoc(pgstart, i);
      printed := printed + [(i, pa.value)];
      i := i + PGSIZE;
    }
    r := Returned(0);
  }

  /** The next page of the walk is still at most the end, and page aligned. */
  lemma NextPageWithin(i: u32, pgend: u32)
    requires i % PGSIZE == 0 && pgend % PGSIZE == 0 && i < pgend
    ensures i + PGSIZE <= pgend && (i + PGSIZE) % PGSIZE == 0
  {
    var qi, qe := i / 4096, pgend / 4096;
    assert i == 4096 * qi && pgend == 4096 * qe;
    assert qi < qe;
    assert i + 4096 == 4096 * (qi + 1);
  }

  /** One more page of the walk adds its pair at the end. */
  lemma MappingsSnoc(lo: u32, i: u32)
    requires lo % PGSIZE == 0 && i % PGSIZE == 0 && KERNBASE <= lo <= i && i + PGSIZE < 0x1_0000_0000
    ensures Mappings(lo, i) + [(i, i - KERNBASE)] == Mappings(lo, i + PGSIZE)
  {
    var q := (i - lo) / 4096;
    assert i - lo == 4096 * q;
    assert (i + 4096 - lo) / 4096 == q + 1;
    var a, b := Mappings(lo, i) + [(i, i - KERNBASE)], Mappings(lo, i + PGSIZE);
    assert |a| == |b| == q + 1;
    forall k | 0 <= k < q + 1
      ensures a[k] == b[k]
    {
      if k == q {
        assert b[k].0 == lo + q * PGSIZE == i;
      }
    }
  }

  /** Every page touching [begin, end) is printed, when neither end wraps. */
  lemma MappingsCoverRange(begin: u32, end: u32, a: u32)
    requires begin <= a < end && end + PGSIZE - 1 < 0x1_0000_0000 && KERNBASE <= begin
    ensures exists k :: 0 <= k < |Mappings(PageStart(begin), PageEnd(end))| && Mappings(PageStart(begin), PageEnd(end))[k].0 == RoundDown(a)
  {
    var lo, hi := PageStart(begin), PageEnd(end);
    assert lo == RoundDown(begin) && hi == RoundUp(end);
    assert PGSIZE == 4096;
    var qa, qb := a / 4096, begin / 4096;
    assert RoundDown(a) == 4096 * qa;
    assert lo == 4096 * qb;
    assert KERNBASE == 4096 * 0xF_0000 && qb >= 0xF_0000;
    assert KERNBASE <= lo && lo % PGSIZE == 0 && hi % PGSIZE == 0;
    assert qb <= qa;
    var k := qa - qb;
    assert lo + k * PGSIZE == RoundDown(a);
    var m := (hi - lo) / 4096;
    assert hi % 4096 == 0 && lo % 4096 == 0 && lo < hi;
    assert hi - lo == 4096 * m;
    assert 4096 * m > 4096 * k;
    assert |Mappings(lo, hi)| == m;
    assert Mappings(lo, hi)[k].0 == RoundDown(a);
  }

  // ------------------------------------------------------------- runcmd

  /** The buffer holds a C string of length `n`. */
  predicate CString(buf: seq<char>, n: nat)
  {
    n < |buf| && buf[n] == NUL && forall i :: 0 <= i < n ==> buf[i] != NUL
  }

  /** The line `s0` with the whitespace before position `p` overwritten with NUL. */
  function Blanked(s0: seq<char>, p: nat): (r: seq<char>)
    ensures |r| == |s0|
  {
    seq(|s0|, i requires 0 <= i < |s0| => if i < p && IsWhite(s0[i]) then NUL else s0[i])
  }

  /** The buffer after runcmd has overwritten the whitespace before position `p` with NUL. */
  predicate BlankedBelow(buf: seq<char>, s0: seq<char>, p: nat)
  {
    buf == Blanked(s0, p)
  }

  /** Before the scan nothing is blanked. */
  lemma BlankedNothing(s0: seq<char>)
    ensures Blanked(s0, 0) == s0
  {
  }

  /** Blanking one more separator. */
  lemma BlankOne(s0: seq<char>, q: nat)
    requires q < |s0| && IsWhite(s0[q])
    ensures Blanked(s0, q)[q := NUL] == Blanked(s0, q + 1)
  {
  }

  /** Passing a character that is not whitespace blanks nothing. */
  lemma BlankNone(s0: seq<char>, q: nat)
    requires q < |s0| && !IsWhite(s0[q])
    ensures Blanked(s0, q) == Blanked(s0, q + 1)
  {
  }

  /** The whitespace loop: each separator becomes NUL. */
  method Gobble(buf: array<char>, p: nat, ghost s0: seq<char>, ghost n: nat) returns (q: nat)
    requires CString(s0, n) && p <= n && BlankedBelow(buf[..], s0, p)
    modifies buf
    ensures q == SkipWhite(s0[..n], p)
    ensures BlankedBelow(buf[..], s0, q)
    ensures q == n <==> buf[q] == NUL
  {
    q := p;
    while buf[q] != NUL && IsWhite(buf[q])
      invariant p <= q <= n && BlankedBelow(buf[..], s0, q)
      invariant SkipWhite(s0[..n], q) == SkipWhite(s0[..n], p)
      decreases n - q
    {
      BlankOne(s0, q);
      buf[q] := NUL;
      q := q + 1;
    }
  }

  /** The argument loop: the scan stops at whitespace or the terminator. */
  method ScanToken(buf: array<char>, p: nat, ghost s0: seq<char>, ghost n: nat) returns (q: nat)
    requires CString(s0, n) && p <= n && BlankedBelow(buf[..], s0, p)
    ensures q == EndOfToken(s0[..n], p)
    ensures BlankedBelow(buf[..], s0, q)
  {
    q := p;
    while buf[q] != NUL && !IsWhite(buf[q])
      invariant p <= q <= n && BlankedBelow(buf[..], s0, q)
      invariant EndOfToken(s0[..n], q) == EndOfToken(s0[..n], p)
      decreases n - q
    {
      BlankNone(s0, q);
      q := q + 1;
    }
  }

  /**
   * The whitespace loop and the test for the end of the line: `found` when
   * another argument starts at `q`, the next of the full list of starts.
   */
  method NextArg(buf: array<char>, p: nat, ghost s0: seq<char>, ghost n: nat, ghost argv: seq<nat>, ghost all: seq<nat>)
    returns (q: nat, found: bool)
    requires CString(s0, n) && p <= n && BlankedBelow(buf[..], s0, p)
    requires argv + StartsFrom(s0[..n], p) == all
    modifies buf
    ensures q <= n && BlankedBelow(buf[..], s0, q)
    ensures !found ==> q == n && argv == all
    ensures found ==> p <= q < EndOfToken(s0[..n], q) && |all| > |argv| && all[|argv|] == q
    ensures found ==> (argv + [q]) + StartsFrom(s0[..n], EndOfToken(s0[..n], q)) == all
  {
    q := Gobble(buf, p, s0, n);
    NextStart(s0[..n], p, argv, all);
    found := buf[q] != NUL;
  }

  /**
   * runcmd's parse: the start positions of the arguments (argv), or
   * `tooMany` when a sixteenth argument would start, the buffer then blanked
   * only up to that argument.
   */
  method Tokenize(buf: array<char>, ghost s0: seq<char>, ghost n: nat) returns (argv: seq<nat>, tooMany: bool)
    requires buf[..] == s0 && CString(s0, n)
    modifies buf
    ensures tooMany <==> |StartsFrom(s0[..n], 0)| >= MAXARGS
    ensures !tooMany ==> argv == StartsFrom(s0[..n], 0) && BlankedBelow(buf[..], s0, n)
    ensures tooMany ==> BlankedBelow(buf[..], s0, StartsFrom(s0[..n], 0)[MAXARGS - 1])
  {
    ghost var s := s0[..n];
    ghost var all := StartsFrom(s, 0);
    var p := 0;
    argv := [];
    BlankedNothing(s0);
    assert argv + StartsFrom(s, p) == all;
    while true
      invariant p <= n && |argv| < MAXARGS
      invariant argv + StartsFrom(s, p) == all
      invariant BlankedBelow(buf[..], s0, p)
      decreases n - p
    {
      var found;
      p, found := NextArg(buf, p, s0, n, argv, all);
      if !found {
        return argv, false;
      }
      if |argv| == MAXARGS - 1 {
        return argv, true;
      }
      argv := argv + [p];
      p := ScanToken(buf, p, s0, n);
    }
  }

  /** Skipping whitespace finds the same argument starts. */
  lemma GapStarts(s: string, i: nat)
    requires i <= |s|
    ensures StartsFrom(s, SkipWhite(s, i)) == StartsFrom(s, i)
  {
    var j := SkipWhite(s, i);
    assert SkipWhite(s, j) == j;
  }

  /**
   * After the whitespace at `p0`: either the line has ended and the starts
   * found so far are all of them, or the next start is the next entry of
   * the full list.
   */
  lemma NextStart(s: string, p0: nat, argv: seq<nat>, all: seq<nat>)
    requires p0 <= |s| && argv + StartsFrom(s, p0) == all
    ensures var p := SkipWhite(s, p0);
            && (p == |s| ==> argv == all)
            && (p < |s| ==> |all| > |argv| && all[|argv|] == p && (argv + [p]) + StartsFrom(s, EndOfToken(s, p)) == all)
  {
    var p := SkipWhite(s, p0);
    GapStarts(s, p0);
    if p == |s| {
      assert StartsFrom(s, p) == [];
      assert argv + [] == argv;
    } else {
      var rest := StartsFrom(s, EndOfToken(s, p));
      assert StartsFrom(s, p) == [p] + rest;
      StartFound(argv, p, rest, all);
    }
  }

  /** One more start found: it is the next entry of the full list. */
  lemma StartFound(argv: seq<nat>, p: nat, rest: seq<nat>, all: seq<nat>)
    requires argv + ([p] + rest) == all
    ensures (argv + [p]) + rest == all
    ensures |all| > |argv| && all[|argv|] == p
  {
    assert all[|argv|] == ([p] + rest)[0];
  }

  /** Reads the C string at `at`: the characters up to the first NUL. */
  method ReadCString(buf: array<char>, at: nat, ghost e: nat) returns (w: string)
    requires at <= e < buf.Length && buf[e] == NUL && forall i :: at <= i < e ==> buf[i] != NUL
    ensures w == buf[at..e]
  {
    var q := at;
    while buf[q] != NUL
      invariant at <= q <= e
      decreases e - q
    {
      q := q + 1;
    }
    w := buf[at..q];
  }

  /** After the parse, each argument stands NUL-terminated where it started. */
  lemma TokenInPlace(buf: seq<char>, s0: seq<char>, n: nat, st: nat)
    requires CString(s0, n) && BlankedBelow(buf, s0, n) && st < n
    ensures var e := EndOfToken(s0[..n], st);
            e < |buf| && buf[e] == NUL && (forall i :: st <= i < e ==> buf[i] != NUL) && buf[st..e] == TokenAt(s0[..n], st)
  {
    TokenHasNoWhite(s0[..n], st);
  }

  /** runcmd: parse the line in place, then look up and run the command. */
  method RunCmd(buf: array<char>, ghost n: nat, atoi: string -> int) returns (outcome: CmdOutcome, r: Exit<int>)
    requires CString(buf[..], n)
    modifies buf
    ensures outcome == Interpret(old(buf[..n]))
    ensures r == CommandResult(outcome, atoi)
    ensures !outcome.TooManyArgs? ==> BlankedBelow(buf[..], old(buf[..]), n)
    ensures outcome.TooManyArgs? ==> BlankedBelow(buf[..], old(buf[..]), StartsFrom(old(buf[..n]), 0)[MAXARGS - 1])
  {
    ghost var s0 := buf[..];
    ghost var s := buf[..n];
    var argv, tooMany := Tokenize(buf, s0, n);
    if tooMany {
      return TooManyArgs, Returned(0);
    }
    var args := ReadArgs(buf, argv, s0, n);
    outcome, r := Execute(args, atoi);
  }

  /** Reads each argument back from the parsed buffer, as the C string at its start. */
  method ReadArgs(buf: array<char>, argv: seq<nat>, ghost s0: seq<char>, ghost n: nat) returns (args: seq<string>)
    requires CString(s0, n) && BlankedBelow(buf[..], s0, n)
    requires forall k :: 0 <= k < |argv| ==> argv[k] < n
    ensures args == Words(s0[..n], argv)
  {
    ghost var s := s0[..n];
    args := [];
    for k := 0 to |argv|
      invariant |args| == k && forall j :: 0 <= j < k ==> args[j] == TokenAt(s, argv[j])
    {
      TokenInPlace(buf[..], s0, n, argv[k]);
      var w := ReadCString(buf, argv[k], EndOfToken(s, argv[k]));
      args := args + [w];
    }
  }

  /** runcmd's lookup and call, once the line is split into at most fifteen arguments. */
  method Execute(args: seq<string>, atoi: string -> int) returns (outcome: CmdOutcome, r: Exit<int>)
    requires |args| < MAXARGS
    ensures outcome == Outcome(args)
    ensures r == CommandResult(outcome, atoi)
  {
    if |args| == 0 {
      return NoCommand, Returned(0);
    }
    var c := LookupCommand(CommandNames, args[0]);
    if c == |CommandNames| {
      return Unknown(args[0]), Returned(0);
    }
    outcome := Invoke(c, args);
    r := Call(c, args, atoi);
  }

  /** The call through the command table: only showmappings returns anything but 0. */
  method Call(c: nat, args: seq<string>, atoi: string -> int) returns (r: Exit<int>)
    ensures r == CommandResult(Invoke(c, args), atoi)
  {
    if c == SHOWMAPPINGS {
      var printed;
      if |args| < 3 {
        r, printed := ShowMappings(|args|, 0, 0);
      } else {
        r, printed := ShowMappings(|args|, atoi(args[1]), atoi(args[2]));
      }
    } else {
      r := Returned(0);
    }
  }

  /** The command lookup: the first entry of the table `names` equal to `name`. */
  method LookupCommand(names: seq<string>, name: string) returns (c: nat)
    ensures c == IndexOf(names, name)
    ensures c < |names| ==> names[c] == name
    ensures c == |names| <==> name !in names
  {
    c := 0;
    while c < |names| && names[c] != name
      invariant c <= |names|
      invariant IndexOf(names[c..], name) + c == IndexOf(names, name)
    {
      assert names[c..][1..] == names[c + 1..];
      c := c + 1;
    }
  }

  // ------------------------------------------------------------- monitor loop

  /** How the monitor loop ends on a finite input. */
  datatype MonitorEnd = Exited(line: nat) | Crashed(line: nat) | InputEnded

  /** The line's result, or 0 for a NULL line from readline, which is skipped. */
  function LineResult(line: Option<string>, atoi: string -> int): Exit<int>
  {
    match line
    case None => Returned(0)
    case Some(s) => CommandResult(Interpret(s), atoi)
  }

  /** The loop goes on after this line. */
  predicate Continues(x: Exit<int>)
  {
    x.Returned? && x.value >= 0
  }

  /** A line readline can return: no NUL inside. */
  predicate LineOk(line: Option<string>)
  {
    line.Some? ==> forall i :: 0 <= i < |line.value| ==> line.value[i] != NUL
  }

  /** One line from readline: a NULL line is skipped, any other is copied into a
      NUL-terminated buffer and handed to runcmd. */
  method RunLine(line: Option<string>, atoi: string -> int) returns (r: Exit<int>)
    requires LineOk(line)
    ensures r == LineResult(line, atoi)
  {
    if line.None? {
      return Returned(0);
    }
    var s := line.value;
    var buf := new char[|s| + 1](j => if 0 <= j < |s| then s[j] else NUL);
    assert buf[..|s|] == s;
    var outcome;
    outcome, r := RunCmd(buf, |s|, atoi);
  }

  /** Every line before the `i`-th lets the loop go on. */
  predicate ContinuesBefore(input: seq<Option<string>>, atoi: string -> int, i: nat)
    requires i <= |input|
  {
    forall j :: 0 <= j < i ==> Continues(LineResult(input[j], atoi))
  }

  /** A line that lets the loop go on extends the run of such lines. */
  lemma ContinuesOneMore(input: seq<Option<string>>, atoi: string -> int, i: nat)
    requires i < |input| && ContinuesBefore(input, atoi, i) && Continues(LineResult(input[i], atoi))
    ensures ContinuesBefore(input, atoi, i + 1)
  {
  }

  /** monitor: runs the lines in order until a command returns a negative value (or panics). */
  method RunMonitor(input: seq<Option<string>>, atoi: string -> int) returns (end: MonitorEnd)
    requires forall i :: 0 <= i < |input| ==> LineOk(input[i])
    ensures end.Exited? ==> end.line < |input| && LineResult(input[end.line], atoi).Returned? && LineResult(input[end.line], atoi).value < 0
    ensures end.Crashed? ==> end.line < |input| && LineResult(input[end.line], atoi).Panicked?
    ensures end.Exited? || end.Crashed? ==> ContinuesBefore(input, atoi, end.line)
    ensures end.InputEnded? ==> ContinuesBefore(input, atoi, |input|)
  {
    for i := 0 to |input|
      invariant ContinuesBefore(input, atoi, i)
    {
      var r := RunLine(input[i], atoi);
      if !Continues(r) {
        return if r.Panicked? then Crashed(i) else Exited(i);
      }
      ContinuesOneMore(input, atoi, i);
    }
    end := InputEnded;
  }
}
