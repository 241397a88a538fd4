/**
 * user/gofib.go: a closure over two Go ints that yields successive
 * Fibonacci numbers, and a main that prints the first ten. Go's `int` is 32
 * bits here, so the sum wraps.
 */
module GoFib {
  import opened MemLayout
  import opened GoSys

  /** The Fibonacci numbers with F(0) = 0 and F(1) = F(2) = 1. */
  function Fib(n: nat): nat
  {
    if n < 2 then n else Fib(n - 1) + Fib(n - 2)
  }

  /** 32-bit addition of wrapped values wraps the exact sum. */
  lemma WrapAdd(x: int, y: int)
    ensures WrapInt(WrapInt(x) + WrapInt(y)) == WrapInt(x + y)
  {
  }

  function Pow2(k: nat): nat
  {
    if k == 0 then 1 else 2 * Pow2(k - 1)
  }

  /** Fib(n) stays below 2^n. */
  lemma {:induction false} FibBelowPow2(n: nat)
    ensures Fib(n) < Pow2(n)
  {
    if n >= 2 {
      FibBelowPow2(n - 1);
      FibBelowPow2(n - 2);
    }
  }

  /** The first 31 Fibonacci numbers are ints, so the closure returns them exactly. */
  lemma FibFits(n: nat)
    requires n <= 31
    ensures WrapInt(Fib(n)) == Fib(n)
  {
    FibBelowPow2(n);
    PowMono(n, 31);
    Pow2Of31();
    WrapSmall(Fib(n));
  }

  /** 2^31, the first value a Go int cannot hold. */
  lemma Pow2Of31()
    ensures Pow2(31) == 0x8000_0000
  {
    Pow2Add(1, 30);
    Pow2Add(10, 20);
    Pow2Add(10, 10);
    assert Pow2(10) == 1024;
  }

  /** A value a Go int can hold is not changed by wrapping. */
  lemma WrapSmall(x: int)
    requires INT_MIN <= x <= INT_MAX
    ensures WrapInt(x) == x
  {
  }

  lemma {:induction false} Pow2Add(m: nat, n: nat)
    ensures Pow2(m + n) == Pow2(m) * Pow2(n)
  {
    if m > 0 {
      Pow2Add(m - 1, n);
      var a, b := Pow2(m - 1), Pow2(n);
      assert Pow2(m + n) == 2 * Pow2(m - 1 + n);
      assert 2 * (a * b) == (2 * a) * b;
    }
  }

  lemma {:induction false} PowMono(m: nat, n: nat)
    requires m <= n
    ensures Pow2(m) <= Pow2(n)
    decreases n - m
  {
    if m < n {
      PowMono(m, n - 1);
    }
  }

  /** The closure fib returns: the captured variables a and b. */
  class FibClosure {
    var a: int
    var b: int
    /** How many times the closure has been called. */
    ghost var calls: nat

    /** After `calls` calls, a and b are consecutive Fibonacci numbers, as 32-bit ints. */
    ghost predicate Valid()
      reads this
    {
      a == WrapInt(Fib(calls)) && b == WrapInt(Fib(calls + 1))
    }

    /** fib: a, b := 0, 1. */
    constructor()
      ensures Valid() && calls == 0
      ensures a == 0 && b == 1
    {
      a, b := 0, 1;
      calls := 0;
    }

    /** One call: a, b = b, a+b, returning the new a. */
    method Call() returns (r: int)
      requires Valid()
      modifies this
      ensures Valid() && calls == old(calls) + 1
      ensures a == old(b) && b == WrapInt(old(a) + old(b)) && r == a
      ensures r == WrapInt(Fib(calls))
      ensures calls <= 31 ==> r == Fib(calls)
    {
      FibStep(a, b, calls);
      a, b := b, WrapInt(a + b);
      calls := calls + 1;
      if calls <= 31 {
        FibFits(calls);
      }
      r := a;
    }
  }

  /** The closure's update carries consecutive wrapped Fibonacci numbers one place on. */
  lemma FibStep(a: int, b: int, n: nat)
    requires a == WrapInt(Fib(n)) && b == WrapInt(Fib(n + 1))
    ensures WrapInt(a + b) == WrapInt(Fib(n + 2))
  {
    WrapAdd(Fib(n), Fib(n + 1));
  }

  /**
   * main: ten calls of the closure, each value printed by Println. Returns
   * the values and the lines printed.
   */
  method FibMain() returns (values: seq<int>, lines: seq<string>)
    ensures |values| == 10 && |lines| == 10
    ensures forall j :: 0 <= j < 10 ==> values[j] == Fib(j + 1)
    ensures forall j :: 0 <= j < 10 ==> lines[j] == ItoaSpec(Fib(j + 1)) + "\n"
  {
    var f := new FibClosure();
    values, lines := [], [];
    for i := 0 to 10
      invariant f.Valid() && f.calls == i
      invariant FibsPrinted(values, lines, i)
    {
      var v := f.Call();
      FibPositive(i + 1);
      var line := PrintlnInt(v);
      FibsPrintedStep(values, lines, i, v, line);
      values, lines := values + [v], lines + [line];
    }
  }

  /** The first n values are F(1..n) and the first n lines their decimal texts. */
  ghost predicate FibsPrinted(values: seq<int>, lines: seq<string>, n: nat)
  {
    |values| == n && |lines| == n &&
    (forall j :: 0 <= j < n ==> values[j] == Fib(j + 1)) &&
    (forall j :: 0 <= j < n ==> lines[j] == ItoaSpec(Fib(j + 1)) + "\n")
  }

  /** Printing F(n+1) extends the printed values and lines by one. */
  lemma FibsPrintedStep(values: seq<int>, lines: seq<string>, n: nat, v: int, line: string)
    requires FibsPrinted(values, lines, n)
    requires v == Fib(n + 1) && line == ItoaSpec(v) + "\n"
    ensures FibsPrinted(values + [v], lines + [line], n + 1)
  {
  }

  /** sys.Println(v) for one int argument: its decimal text and a newline. */
  method PrintlnInt(v: int) returns (line: string)
    requires INT_MIN < v <= INT_MAX
    ensures line == ItoaSpec(v) + "\n"
  {
    line := Println([IntArg(v)]);
    ConcatSingle(IntArg(v));
  }

  lemma FibPositive(n: nat)
    requires 1 <= n <= 31
    ensures 0 < Fib(n) <= INT_MAX
  {
    FibFits(n);
    if n >= 2 {
      FibGrows(n);
    }
  }

  lemma {:induction false} FibGrows(n: nat)
    requires n >= 1
    ensures Fib(n) >= 1
  {
    if n > 2 {
      FibGrows(n - 1);
    }
  }
}
