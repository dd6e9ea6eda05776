/**
 warmup/fact.c: a recursive factorial that maps 0 to 0, and the program
 around it, which prints "Huh?" for a missing or non-numeric argument,
 "Overflow" for an argument above 12, and the factorial otherwise.
 */
module Factorial {

  /** The largest value of a 32-bit `int`. */
  const IntMax: int := 0x7fff_ffff

  /** The largest argument whose result the program prints. */
  const MaxArg: nat := 12

  /**
   fact: 0 and 1 are returned as they are, anything larger is `n` times the
   previous value. Only non-negative arguments reach it (a negative one
   would recurse without end).
   */
  function Fact(n: nat): nat
  {
    if n == 0 || n == 1 then n else n * Fact(n - 1)
  }

  /** The mathematical factorial, with 0! = 1. */
  function Factorial(n: nat): nat {
    if n == 0 then 1 else n * Factorial(n - 1)
  }

  /** fact agrees with the factorial everywhere except at 0, where it returns 0 instead of 1. */
  lemma {:induction false} FactIsFactorial(n: nat)
    ensures n >= 1 ==> Fact(n) == Factorial(n)
    ensures n == 0 ==> Fact(n) == 0 && Factorial(n) == 1
  {
    if n > 1 {
      FactIsFactorial(n - 1);
    }
  }

  /** A positive factor does not shrink a natural number. */
  lemma {:induction false} MulAtLeast(a: nat, b: nat)
    requires a >= 1
    ensures a * b >= b
    decreases a
  {
    if a > 1 {
      MulAtLeast(a - 1, b);
      assert a * b == (a - 1) * b + b;
    }
  }

  /** fact grows with its argument. */
  lemma {:induction false} FactMonotone(m: nat, n: nat)
    requires m <= n
    ensures Fact(m) <= Fact(n)
    decreases n - m
  {
    if m < n {
      FactMonotone(m, n - 1);
      if n > 1 {
        MulAtLeast(n, Fact(n - 1));
      }
    }
  }

  /** Every argument the program passes to fact gives a result that fits in an `int`; 13 would not. */
  lemma FitsUpToTwelve(n: nat)
    requires n <= MaxArg
    ensures Fact(n) <= IntMax
    ensures Fact(MaxArg + 1) > IntMax
  {
    assert Fact(12) == 479001600 by {
      assert Fact(2) == 2;
      assert Fact(3) == 6;
      assert Fact(4) == 24;
      assert Fact(5) == 120;
      assert Fact(6) == 720;
      assert Fact(7) == 5040;
      assert Fact(8) == 40320;
      assert Fact(9) == 362880;
      assert Fact(10) == 3628800;
      assert Fact(11) == 39916800;
    }
    FactMonotone(n, 12);
  }

  /** A C string: no byte of it is the terminator. */
  type CString = s: string | forall i :: 0 <= i < |s| ==> s[i] != '\0'

  predicate IsDigit(c: char) {
    '0' <= c <= '9'
  }

  predicate AllDigits(s: string) {
    forall i :: 0 <= i < |s| ==> IsDigit(s[i])
  }

  /** atoi on a string of digits, read left to right, without a bound. */
  function Atoi(s: string): nat
    requires AllDigits(s)
    decreases |s|
  {
    if |s| == 0 then 0 else Atoi(s[..|s| - 1]) * 10 + (s[|s| - 1] - '0') as int
  }

  /** main's validation loop: walk to the terminator, stopping at the first non-digit. */
  method CheckDigits(s: CString) returns (ok: bool)
    ensures ok <==> AllDigits(s)
  {
    var i := 0;
    while i < |s|
      invariant 0 <= i <= |s|
      invariant forall j :: 0 <= j < i ==> IsDigit(s[j])
    {
      if !IsDigit(s[i]) {
        return false;
      }
      i := i + 1;
    }
    return true;
  }

  /** What the program prints. */
  datatype Output = Huh | Overflow | Value(v: int)

  /**
   main: `argv` with the program name first. Fewer than two entries, or a
   non-digit in the first argument, print "Huh?"; an argument above 12
   prints "Overflow"; otherwise its fact is printed. The empty argument
   reads as 0.
   */
  function Run(argv: seq<CString>): (r: Output)
    ensures |argv| < 2 ==> r == Huh
    ensures |argv| >= 2 ==> (r == Huh <==> exists i :: 0 <= i < |argv[1]| && !IsDigit(argv[1][i]))
    ensures r == Overflow <==> |argv| >= 2 && AllDigits(argv[1]) && Atoi(argv[1]) > MaxArg
    ensures r.Value? ==> |argv| >= 2 && AllDigits(argv[1]) && Atoi(argv[1]) <= MaxArg &&
                         r.v == Fact(Atoi(argv[1]))
  {
    if |argv| < 2 then Huh
    else if !AllDigits(argv[1]) then Huh
    else
      var num := Atoi(argv[1]);
      if num > MaxArg then Overflow else Value(Fact(num))
  }

  /** Whatever the arguments, a printed value is a valid `int`, and a factorial unless the argument is 0. */
  lemma PrintedValueFits(argv: seq<CString>)
    ensures Run(argv).Value? ==> 0 <= Run(argv).v <= IntMax
    ensures Run(argv).Value? && Atoi(argv[1]) >= 1 ==> Run(argv).v == Factorial(Atoi(argv[1]))
  {
    if Run(argv).Value? {
      FitsUpToTwelve(Atoi(argv[1]));
      FactIsFactorial(Atoi(argv[1]));
    }
  }

  /** "5" prints 120, "" and "0" print 0, "13" overflows, "1x" and a missing argument are rejected. */
  lemma SampleRuns()
    ensures Run(["fact", "5"]) == Value(120)
    ensures Run(["fact", ""]) == Value(0) && Run(["fact", "0"]) == Value(0)
    ensures Run(["fact", "13"]) == Overflow
    ensures Run(["fact", "1x"]) == Huh && Run(["fact"]) == Huh
  {
    assert Atoi("5") == 5 by {
      assert "5"[..0] == "";
    }
    assert Atoi("0") == 0 by {
      assert "0"[..0] == "";
    }
    assert Atoi("13") == 13 by {
      assert "13"[..1] == "1";
      assert "1"[..0] == "";
    }
    assert !IsDigit("1x"[1]);
  }
}
