/**
 * The Go printing helpers of lib/sys.go: Itoa, which writes the decimal
 * digits of a 32-bit Go `int` backwards into a 32-byte array, sprintArg and
 * Sprint, which build the text of a list of arguments, and the argument
 * list Println hands to Print. Writing the text to the console (sys_cputs)
 * is output and not modelled; Println returns the text it would print.
 */
module GoSys {
  import opened MemLayout

  /** The character of a decimal digit. */
  function DigitChar(d: int): char
    requires 0 <= d < 10
  {
    ('0' as int + d) as char
  }

  /** The decimal digits of `n`, most significant first, without leading zeros. */
  function DecimalDigits(n: nat): string
    decreases n
  {
    if n < 10 then [DigitChar(n)] else DecimalDigits(n / 10) + [DigitChar(n % 10)]
  }

  /** The value of a string of decimal digits. */
  function ParseDecimal(s: string): int
    decreases |s|
  {
    if |s| == 0 then 0 else ParseDecimal(s[..|s| - 1]) * 10 + (s[|s| - 1] as int - '0' as int)
  }

  /** The text Itoa is meant to produce: a minus sign for negatives, then the digits of the magnitude. */
  function ItoaSpec(i: int): string
  {
    if i < 0 then "-" + DecimalDigits(-i) else DecimalDigits(i)
  }

  /** The value of the text of a signed integer. */
  function ParseInt(s: string): int
  {
    if |s| > 0 && s[0] == '-' then -ParseDecimal(s[1..]) else ParseDecimal(s)
  }

  /** Decimal digits are digits only, at least one, and start with '0' only for zero. */
  lemma {:induction false} DigitsWellFormed(n: nat)
    ensures |DecimalDigits(n)| >= 1
    ensures forall j :: 0 <= j < |DecimalDigits(n)| ==> '0' <= DecimalDigits(n)[j] <= '9'
    ensures DecimalDigits(n)[0] == '0' <==> n == 0
    decreases n
  {
    if n >= 10 {
      DigitsWellFormed(n / 10);
      assert DecimalDigits(n)[0] == DecimalDigits(n / 10)[0];
    }
  }

  /** Reading the digits back gives the number. */
  lemma {:induction false} ParseDigits(n: nat)
    ensures ParseDecimal(DecimalDigits(n)) == n
    decreases n
  {
    if n >= 10 {
      ParseDigits(n / 10);
      var s := DecimalDigits(n);
      assert s[..|s| - 1] == DecimalDigits(n / 10);
    }
  }

  /** Reading Itoa's text back gives the number: the text determines the integer. */
  lemma ParseItoa(i: int)
    ensures ParseInt(ItoaSpec(i)) == i
  {
    if i < 0 {
      ParseDigits(-i);
      assert ("-" + DecimalDigits(-i))[1..] == DecimalDigits(-i);
    } else {
      ParseDigits(i);
      DigitsWellFormed(i);
    }
  }

  /** A number below 10^k has at most k digits. */
  lemma {:induction false} DigitsLength(n: nat, k: nat, bound: nat)
    requires bound == Pow10(k) && n < bound && k >= 1
    ensures |DecimalDigits(n)| <= k
    decreases k
  {
    if n >= 10 {
      DigitsLength(n / 10, k - 1, Pow10(k - 1));
    }
  }

  function Pow10(k: nat): nat
  {
    if k == 0 then 1 else 10 * Pow10(k - 1)
  }

  /** The magnitude of every 32-bit int has at most ten digits, so Itoa's text fits in 32 bytes. */
  lemma ItoaFits(n: nat)
    requires n <= -INT_MIN
    ensures |DecimalDigits(n)| <= 10
  {
    assert Pow10(10) == 10_000_000_000;
    DigitsLength(n, 10, Pow10(10));
  }

  /** Zero prints as "0"; a negative number prints as a minus sign before the text of its magnitude. */
  lemma ItoaCases(i: int)
    ensures ItoaSpec(0) == "0"
    ensures i < 0 ==> ItoaSpec(i) == "-" + ItoaSpec(-i)
  {
  }

  const BUFSIZE: nat := 32

  /**
   * Itoa: the digits of the magnitude are produced least significant first,
   * each stored one place further left in the buffer, then the sign. The
   * negation `-i` is 32-bit; the minimum int is excluded here (its negation
   * is itself, see ItoaAsWritten).
   */
  method Itoa(i: int) returns (s: string)
    requires INT_MIN < i <= INT_MAX
    ensures s == ItoaSpec(i)
  {
    var a := new char[BUFSIZE];
    var neg := i < 0;
    var n: nat := if neg then -i else i;
    ghost var n0 := n;
    ItoaFits(n);

    var k := BUFSIZE;
    ghost var tail: string := [];
    while n >= 10
      invariant DecimalDigits(n0) == DecimalDigits(n) + tail
      invariant |DecimalDigits(n0)| <= 10
      invariant k == BUFSIZE - |tail|
      invariant a[k..] == tail
      decreases n
    {
      k := k - 1;
      var q := n / 10;
      a[k] := DigitChar(n - q * 10);
      tail := [DigitChar(n % 10)] + tail;
      n := q;
    }
    DigitsWellFormed(n);
    k := k - 1;
    a[k] := DigitChar(n);
    tail := [DigitChar(n)] + tail;
    if neg {
      k := k - 1;
      a[k] := '-';
      tail := ['-'] + tail;
    }
    assert a[k..] == tail;
    s := a[k..];
  }

  /** The low byte of an int, as Go's byte() conversion takes it. */
  function LowByte(x: int): int
  {
    x % 256
  }

  /** Go's 32-bit int arithmetic: the value wrapped into [INT_MIN, INT_MAX]. */
  function WrapInt(x: int): int
  {
    (x - INT_MIN) % 0x1_0000_0000 + INT_MIN
  }

  /**
   * Itoa as written for every 32-bit int: the negation wraps, so the
   * minimum int stays negative, the digit loop does not run, and the last
   * digit is the low byte of `i + '0'`.
   */
  function ItoaAsWritten(i: int): string
    requires INT_MIN <= i <= INT_MAX
  {
    var n := if i < 0 then WrapInt(-i) else i;
    var body := if n >= 0 then DecimalDigits(n) else [LowByte(n + '0' as int) as char];
    if i < 0 then "-" + body else body
  }

  /**
   * For the minimum int, Itoa as written produces "-0", whose value is 0:
   * the round trip ParseItoa proves for ItoaSpec fails here.
   */
  lemma ItoaAsWrittenOfMinInt()
    ensures ItoaAsWritten(INT_MIN) == "-0"
    ensures ParseInt(ItoaAsWritten(INT_MIN)) == 0 != INT_MIN
  {
    assert WrapInt(-INT_MIN) == INT_MIN;
    assert LowByte(INT_MIN + '0' as int) == '0' as int;
    var t := ItoaAsWritten(INT_MIN);
    assert t[1..] == "0" && t[1..][..0] == [];
    assert ParseDecimal(t[1..]) == ParseDecimal(t[1..][..0]) * 10 + 0;
  }

  /** Everywhere else Itoa as written agrees with ItoaSpec. */
  lemma ItoaAsWrittenElsewhere(i: int)
    requires INT_MIN < i <= INT_MAX
    ensures ItoaAsWritten(i) == ItoaSpec(i)
  {
  }

  /** An argument of Sprint: a string, an int, or a value of another type. */
  datatype Arg = StrArg(s: string) | IntArg(i: int) | OtherArg

  /** An argument Itoa accepts. */
  predicate ArgOk(arg: Arg)
  {
    arg.IntArg? ==> INT_MIN < arg.i <= INT_MAX
  }

  /** The text sprintArg gives an argument. */
  function ArgText(arg: Arg): string
  {
    match arg
    case StrArg(s) => s
    case IntArg(i) => ItoaSpec(i)
    case OtherArg => "XXX"
  }

  /** The arguments' texts, in order, one after the other. */
  function Concat(args: seq<Arg>): string
    decreases |args|
  {
    if |args| == 0 then "" else Concat(args[..|args| - 1]) + ArgText(args[|args| - 1])
  }

  /** One more argument appends its text. */
  lemma ConcatSnoc(args: seq<Arg>, arg: Arg)
    ensures Concat(args + [arg]) == Concat(args) + ArgText(arg)
  {
    assert (args + [arg])[..|args|] == args;
  }

  /** A single argument's text is the whole of Sprint's text. */
  lemma ConcatSingle(arg: Arg)
    ensures Concat([arg]) == ArgText(arg)
  {
    assert [arg][..0] == [];
  }

  /** sprintArg: a string as itself, an int through Itoa, anything else as "XXX". */
  method SprintArg(arg: Arg) returns (s: string)
    requires ArgOk(arg)
    ensures s == ArgText(arg)
    ensures arg.OtherArg? ==> s == "XXX"
  {
    match arg {
      case StrArg(t) => s := t;
      case IntArg(i) => s := Itoa(i);
      case OtherArg => s := "XXX";
    }
  }

  /** Sprint: the texts of the arguments accumulated from first to last. */
  method Sprint(args: seq<Arg>) returns (s: string)
    requires forall j :: 0 <= j < |args| ==> ArgOk(args[j])
    ensures s == Concat(args)
    ensures |args| == 0 ==> s == ""
  {
    s := "";
    for j := 0 to |args|
      invariant s == Concat(args[..j])
    {
      var t := SprintArg(args[j]);
      assert args[..j + 1][..j] == args[..j];
      s := s + t;
    }
    assert args[..|args|] == args;
  }

  /** Println: Sprint of the arguments with "\n" appended to the list, which is their text and a newline. */
  method Println(args: seq<Arg>) returns (s: string)
    requires forall j :: 0 <= j < |args| ==> ArgOk(args[j])
    ensures s == Concat(args) + "\n"
  {
    var newline := StrArg("\n");
    s := Sprint(args + [newline]);
    ConcatSnoc(args, newline);
  }
}
