/**
  Jain's fairness index over byte counters: n counters have the index
  (sum of the counters)^2 / (n * sum of the squares).  The program forms both
  parts in 64-bit unsigned arithmetic before it divides.
 */
module Fairness {

  const UINT64_LIMIT: nat := 0x1_0000_0000_0000_0000

  function Sum(s: seq<nat>): nat {
    if s == [] then 0 else Sum(s[..|s| - 1]) + s[|s| - 1]
  }

  function SumSquares(s: seq<nat>): nat {
    if s == [] then 0 else SumSquares(s[..|s| - 1]) + s[|s| - 1] * s[|s| - 1]
  }

  // ----- the inequality of Cauchy and Schwarz

  /** The summed squares of the distances to x. */
  ghost function Spread(s: seq<nat>, x: nat): int {
    if s == [] then 0
    else
      var d := s[|s| - 1] - x;
      Spread(s[..|s| - 1], x) + d * d
  }

  lemma SquareOfDifference(a: int, b: int)
    ensures (a - b) * (a - b) == a * a - 2 * (a * b) + b * b
  {
  }

  lemma {:induction false} SpreadExpands(s: seq<nat>, x: nat)
    ensures Spread(s, x) == SumSquares(s) + |s| * (x * x) - 2 * (Sum(s) * x)
  {
    if s != [] {
      var n := |s| - 1;
      SpreadExpands(s[..n], x);
      SpreadStep(SumSquares(s[..n]), n, x, Sum(s[..n]), s[n]);
    }
  }

  lemma SpreadStep(q: int, n: int, x: int, t: int, y: int)
    ensures q + n * (x * x) - 2 * (t * x) + (y - x) * (y - x)
         == q + y * y + (n + 1) * (x * x) - 2 * ((t + y) * x)
  {
    SquareOfDifference(y, x);
    assert (t + y) * x == t * x + y * x;
    assert (n + 1) * (x * x) == n * (x * x) + x * x;
  }

  lemma {:induction false} SpreadSign(s: seq<nat>, x: nat)
    ensures Spread(s, x) >= 0
    ensures Spread(s, x) == 0 <==> forall i :: 0 <= i < |s| ==> s[i] == x
  {
    if s != [] {
      var n := |s| - 1;
      var d := s[n] - x;
      SpreadSign(s[..n], x);
      SquareSign(d);
    }
  }

  lemma SquareSign(d: int)
    ensures d * d >= 0 && (d * d == 0 <==> d == 0)
  {
    if d > 0 {
      assert d * d > 0;
    } else if d < 0 {
      assert d * d == (-d) * (-d) > 0;
    }
  }

  ghost predicate AllEqual(s: seq<nat>) {
    forall i, j :: 0 <= i < j < |s| ==> s[i] == s[j]
  }

  /** By how much n times the sum of squares exceeds the square of the sum. */
  ghost function Excess(s: seq<nat>): int {
    |s| * SumSquares(s) - Sum(s) * Sum(s)
  }

  lemma ExcessGrows(s: seq<nat>, x: nat)
    ensures Excess(s + [x]) == Excess(s) + Spread(s, x)
  {
    assert (s + [x])[..|s|] == s;
    SpreadExpands(s, x);
    ExcessStep(|s|, SumSquares(s), Sum(s), x);
  }

  lemma ExcessStep(n: int, q: int, t: int, x: int)
    ensures (n + 1) * (q + x * x) - (t + x) * (t + x) == n * q - t * t + (q + n * (x * x) - 2 * (t * x))
  {
    assert (n + 1) * (q + x * x) == n * q + n * (x * x) + q + x * x;
    SquareOfDifference(t, -x);
    assert t * (-x) == -(t * x) && (-x) * (-x) == x * x;
  }

  lemma {:induction false} ExcessSign(s: seq<nat>)
    ensures Excess(s) >= 0 && (Excess(s) == 0 <==> AllEqual(s))
  {
    if s != [] {
      var n := |s| - 1;
      var front, x := s[..n], s[n];
      ExcessSign(front);
      ExcessGrows(front, x);
      SpreadSign(front, x);
      assert s == front + [x];
    }
  }

  lemma {:induction false} SquaresBelowSquare(s: seq<nat>)
    ensures SumSquares(s) <= Sum(s) * Sum(s)
    ensures SumSquares(s) == 0 <==> forall i :: 0 <= i < |s| ==> s[i] == 0
  {
    if s != [] {
      var n := |s| - 1;
      var t, x := Sum(s[..n]), s[n];
      SquaresBelowSquare(s[..n]);
      assert (t + x) * (t + x) == t * t + 2 * (t * x) + x * x;
      assert t * x >= 0;
      SquareSign(x);
    }
  }

  /** The exact index of counters that are not all zero. */
  ghost function Index(s: seq<nat>): real
    requires |s| * SumSquares(s) > 0
  {
    (Sum(s) * Sum(s)) as real / (|s| * SumSquares(s)) as real
  }

  lemma Quotient(a: nat, n: nat, q: nat)
    requires n > 0 && q > 0 && q <= a <= n * q
    ensures 1.0 / n as real <= a as real / (n * q) as real <= 1.0
    ensures a as real / (n * q) as real == 1.0 <==> a == n * q
  {
    var d := (n * q) as real;
    RealProduct(n, q);
    CancelFactor(n as real, q as real);
    DivideOrder(q as real, a as real, d);
    QuotientIsOne(a as real, d);
  }

  lemma RealProduct(n: nat, q: nat)
    ensures (n * q) as real == n as real * q as real
  {
  }

  lemma QuotientIsOne(a: real, d: real)
    requires a <= d && d > 0.0
    ensures a / d <= 1.0
    ensures a / d == 1.0 <==> a == d
  {
    DivideOrder(a, d, d);
    DivideExact(d, d, 1.0);
    assert a == a / d * d;
  }

  lemma CancelFactor(n: real, q: real)
    requires n > 0.0 && q > 0.0
    ensures q / (n * q) == 1.0 / n
  {
    var d, x := n * q, 1.0 / n;
    assert x * n == 1.0;
    assert x * d == x * n * q == q;
    DivideExact(q, d, x);
  }

  lemma DivideExact(a: real, d: real, x: real)
    requires d > 0.0 && x * d == a
    ensures a / d == x
  {
  }

  lemma DivideOrder(a: real, b: real, d: real)
    requires a <= b && d > 0.0
    ensures a / d <= b / d
  {
  }

  /** The index lies between 1/n and 1, and is 1 exactly when all counters are equal. */
  lemma IndexRange(s: seq<nat>)
    requires exists i :: 0 <= i < |s| && s[i] != 0
    ensures |s| * SumSquares(s) > 0
    ensures 1.0 / |s| as real <= Index(s) <= 1.0
    ensures Index(s) == 1.0 <==> AllEqual(s)
  {
    SquaresBelowSquare(s);
    ExcessSign(s);
    assert |s| * SumSquares(s) >= SumSquares(s);
    Quotient(Sum(s) * Sum(s), |s|, SumSquares(s));
  }

  // ----- as the program computes it

  /** The two parts of the quotient, each formed in 64 bits. */
  method Parts(counters: array<nat>) returns (numerator: nat, denominator: nat)
    ensures var s := counters[..];
      var sum, sumSquares := Sum(s) % UINT64_LIMIT, SumSquares(s) % UINT64_LIMIT;
      && numerator == sum * sum % UINT64_LIMIT
      && denominator == counters.Length * sumSquares % UINT64_LIMIT
  {
    var sum, sumSquares := 0, 0;
    for i := 0 to counters.Length
      invariant sum == Sum(counters[..i]) % UINT64_LIMIT
      invariant sumSquares == SumSquares(counters[..i]) % UINT64_LIMIT
    {
      var x := counters[i];
      assert counters[..i + 1][..i] == counters[..i];
      WrapAdd(Sum(counters[..i]), x);
      WrapAdd(SumSquares(counters[..i]), x * x);
      sum := (sum + x) % UINT64_LIMIT;
      sumSquares := (sumSquares + x * x % UINT64_LIMIT) % UINT64_LIMIT;
    }
    assert counters[..counters.Length] == counters[..];
    numerator := sum * sum % UINT64_LIMIT;
    denominator := counters.Length * sumSquares % UINT64_LIMIT;
  }

  lemma WrapAdd(a: nat, b: nat)
    ensures (a % UINT64_LIMIT + b) % UINT64_LIMIT == (a + b) % UINT64_LIMIT
    ensures (a % UINT64_LIMIT + b % UINT64_LIMIT) % UINT64_LIMIT == (a + b) % UINT64_LIMIT
  {
  }

  /** No value on the way to the index wraps exactly when n times the sum of squares fits into 64 bits. */
  lemma NoWrapIff(s: seq<nat>)
    requires s != []
    ensures (Sum(s) < UINT64_LIMIT && SumSquares(s) < UINT64_LIMIT &&
             Sum(s) * Sum(s) < UINT64_LIMIT && |s| * SumSquares(s) < UINT64_LIMIT)
       <==> |s| * SumSquares(s) < UINT64_LIMIT
  {
    ExcessSign(s);
    AtLeastFactor(|s|, SumSquares(s));
    if Sum(s) > 0 {
      AtLeastFactor(Sum(s), Sum(s));
    }
  }

  lemma AtLeastFactor(a: nat, b: nat)
    requires a > 0
    ensures b <= a * b
  {
  }

  /** As long as nothing wraps, the program's quotient is the exact index. */
  lemma PartsAreExact(s: seq<nat>)
    requires s != [] && |s| * SumSquares(s) < UINT64_LIMIT
    ensures var sum, sumSquares := Sum(s) % UINT64_LIMIT, SumSquares(s) % UINT64_LIMIT;
      && sum * sum % UINT64_LIMIT == Sum(s) * Sum(s)
      && |s| * sumSquares % UINT64_LIMIT == |s| * SumSquares(s)
  {
    NoWrapIff(s);
    assert Sum(s) % UINT64_LIMIT == Sum(s);
    assert SumSquares(s) % UINT64_LIMIT == SumSquares(s);
    Small(Sum(s) * Sum(s));
    Small(|s| * SumSquares(s));
  }

  lemma Small(x: nat)
    requires x < UINT64_LIMIT
    ensures x % UINT64_LIMIT == x
  {
  }

  /** With one counter of 2^32 among ten, both parts wrap to zero and there is no quotient. */
  lemma WrapWitness()
    ensures var s := [0x1_0000_0000, 0, 0, 0, 0, 0, 0, 0, 0, 0];
      && Sum(s) * Sum(s) % UINT64_LIMIT == 0
      && |s| * (SumSquares(s) % UINT64_LIMIT) % UINT64_LIMIT == 0
      && |s| * SumSquares(s) >= UINT64_LIMIT
  {
    var x: nat := 0x1_0000_0000;
    ZerosBehind([x], 0);
    ZerosBehind([x], 9);
    assert [x, 0, 0, 0, 0, 0, 0, 0, 0, 0] == [x] + seq(9, _ => 0);
    assert [x] + seq(0, _ => 0) == [x];
    assert [x][..0] == [];
  }

  lemma {:induction false} ZerosBehind(s: seq<nat>, n: nat)
    ensures Sum(s + seq(n, _ => 0)) == Sum(s)
    ensures SumSquares(s + seq(n, _ => 0)) == SumSquares(s)
  {
    if n == 0 {
      assert s + seq(0, _ => 0) == s;
    } else {
      var longer := s + seq(n, _ => 0);
      assert longer[..|longer| - 1] == s + seq(n - 1, _ => 0);
      ZerosBehind(s, n - 1);
    }
  }
}
