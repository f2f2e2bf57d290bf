/**
  Greatest common factor, least common multiple and fractions in lowest terms,
  on integers. Division and remainder round down, with either sign.
 */
module Fractions {
  import opened Wrappers

  function Times(d: int, k: int): int {
    d * k
  }

  ghost predicate Divides(d: int, a: int) {
    exists k :: Times(d, k) == a
  }

  /** g is not negative, divides a and b, and is a combination of them; so every common divisor divides it. */
  ghost predicate IsGcf(g: int, a: int, b: int) {
    g >= 0 && Divides(g, a) && Divides(g, b) && Combines(g, a, b)
  }

  ghost predicate Combines(g: int, a: int, b: int) {
    exists x, y :: Times(a, x) + Times(b, y) == g
  }

  function FloorDiv(a: int, b: int): int
    requires b != 0
  {
    if b > 0 then a / b else (-a) / (-b)
  }

  function FloorMod(a: int, b: int): (r: int)
    requires b != 0
    ensures r == a - b * FloorDiv(a, b)
    ensures if b > 0 then 0 <= r < b else b < r <= 0
  {
    if b > 0 then a % b else -((-a) % (-b))
  }

  function Abs(a: int): nat {
    if a < 0 then -a else a
  }

  // ----- laws of divisors

  lemma DividesTimes(d: int, a: int, k: int)
    requires Divides(d, a)
    ensures Divides(d, a * k)
  {
    var m :| Times(d, m) == a;
    assert Times(d, m * k) == a * k by {
      assert d * (m * k) == (d * m) * k;
    }
  }

  lemma DividesSum(d: int, a: int, b: int)
    requires Divides(d, a) && Divides(d, b)
    ensures Divides(d, a + b)
  {
    var m :| Times(d, m) == a;
    var n :| Times(d, n) == b;
    assert Times(d, m + n) == a + b;
  }

  /** Every common divisor divides the greatest one. */
  lemma CommonDivides(g: int, a: int, b: int, d: int)
    requires IsGcf(g, a, b) && Divides(d, a) && Divides(d, b)
    ensures Divides(d, g)
  {
    var x, y :| Times(a, x) + Times(b, y) == g;
    DividesTimes(d, a, x);
    DividesTimes(d, b, y);
    DividesSum(d, a * x, b * y);
  }

  lemma DivisorIsSmaller(d: int, a: int)
    requires Divides(d, a) && a > 0
    ensures d <= a
  {
    var k :| Times(d, k) == a;
    if d > 0 && k > 0 {
      Grows(d, 0, k);
    } else if d > 0 && k < 0 {
      Grows(d, k, 0);
    }
  }

  lemma Grows(g: int, m: int, n: int)
    requires g > 0 && m < n
    ensures g * n >= g * m + g
  {
    assert g * (n - m - 1) >= 0;
  }

  /** Hence there is only one. */
  lemma GcfUnique(g: int, g': int, a: int, b: int)
    requires IsGcf(g, a, b) && IsGcf(g', a, b)
    ensures g == g'
  {
    CommonDivides(g, a, b, g');
    CommonDivides(g', a, b, g);
    if g == 0 || g' == 0 {
      var k :| Times(g, k) == g';
      var k' :| Times(g', k') == g;
    } else {
      DivisorIsSmaller(g, g');
      DivisorIsSmaller(g', g);
    }
  }

  // ----- the operations

  lemma Combine(a: int, b: int, x: int, y: int, g: int)
    requires g == a * x + b * y
    ensures Combines(g, a, b)
  {
    assert Times(a, x) + Times(b, y) == g;
  }

  /** A remainder step keeps the common divisors and stays a combination. */
  lemma StepBack(g: int, result: int, remainder: int)
    requires remainder != 0
    requires Divides(g, remainder) && Divides(g, FloorMod(result, remainder))
    ensures Divides(g, result)
  {
    var q := FloorDiv(result, remainder);
    DividesTimes(g, remainder, q);
    DividesSum(g, remainder * q, FloorMod(result, remainder));
  }

  lemma StepCombines(r: int, s: int, q: int, a: int, b: int, x: int, y: int, z: int, w: int)
    requires r == a * x + b * y && s == a * z + b * w
    ensures r - s * q == a * (x - z * q) + b * (y - w * q)
  {
    assert s * q == a * (z * q) + b * (w * q) by {
      assert (a * z) * q == a * (z * q) && (b * w) * q == b * (w * q);
      assert s * q == (a * z) * q + (b * w) * q;
    }
    assert a * (x - z * q) == a * x - a * (z * q);
    assert b * (y - w * q) == b * y - b * (w * q);
  }

  /** What divides r and s divides a and b. */
  ghost predicate Carries(r: int, s: int, a: int, b: int) {
    forall d {:trigger Divides(d, r)} :: Divides(d, r) && Divides(d, s) ==> Divides(d, a) && Divides(d, b)
  }

  lemma StepCarries(r: int, s: int, a: int, b: int)
    requires s != 0 && Carries(r, s, a, b)
    ensures Carries(s, FloorMod(r, s), a, b)
  {
    forall d | Divides(d, s) && Divides(d, FloorMod(r, s))
      ensures Divides(d, a) && Divides(d, b)
    {
      StepBack(d, r, s);
    }
  }

  method Gcf(a: int, b: int) returns (g: int)
    ensures IsGcf(g, a, b)
  {
    var result := if a >= b then a else b;
    var remainder := if a >= b then b else a;
    ghost var x, y, z, w := if a >= b then 1 else 0, if a >= b then 0 else 1,
                            if a >= b then 0 else 1, if a >= b then 1 else 0;
    while remainder != 0
      invariant Carries(result, remainder, a, b)
      invariant result == a * x + b * y && remainder == a * z + b * w
      decreases Abs(remainder)
    {
      var newRemainder := FloorMod(result, remainder);
      ghost var q := FloorDiv(result, remainder);
      StepCarries(result, remainder, a, b);
      StepCombines(result, remainder, q, a, b, x, y, z, w);
      x, y, z, w := z, w, x - z * q, y - w * q;
      result := remainder;
      remainder := newRemainder;
    }
    g := Abs(result);
    SizeIsGcf(result, a, b, x, y);
  }

  lemma SizeIsGcf(r: int, a: int, b: int, x: int, y: int)
    requires r == a * x + b * y && Carries(r, 0, a, b)
    ensures IsGcf(Abs(r), a, b)
  {
    var g := Abs(r);
    assert Times(g, if r < 0 then -1 else 1) == r && Times(g, 0) == 0;
    assert Divides(g, r) && Divides(g, 0);
    if r < 0 {
      assert a * -x == -(a * x) && b * -y == -(b * y);
      Combine(a, b, -x, -y, g);
    } else {
      Combine(a, b, x, y, g);
    }
  }

  lemma ExactQuotient(g: int, a: int)
    requires g > 0 && Divides(g, a)
    ensures g * (a / g) == a && FloorDiv(a, g) == a / g
  {
    var k :| Times(g, k) == a;
    Euclid(a, g);
    if k > a / g {
      Grows(g, a / g, k);
    } else if k < a / g {
      Grows(g, k, a / g);
    }
  }

  lemma Euclid(a: int, g: int)
    requires g > 0
    ensures g * (a / g) <= a < g * (a / g) + g
  {
  }

  lemma CancelFactor(g: int, m: int, n: int)
    requires g > 0 && g * m == g * n
    ensures m == n
  {
    if m < n {
      Grows(g, m, n);
    } else if n < m {
      Grows(g, n, m);
    }
  }

  /**
    A common multiple that divides every common multiple. Its sign is the
    product's, so it is negative for operands of different signs.
   */
  method Lcm(a: int, b: int) returns (m: int)
    ensures Divides(a, m) && Divides(b, m)
    ensures forall n {:trigger Divides(a, n)} :: Divides(a, n) && Divides(b, n) ==> Divides(m, n)
    ensures m < 0 <==> a < 0 < b || b < 0 < a
  {
    var denom := Gcf(a, b);
    if denom == 0 {
      m := 0;
      assert Times(0, 0) == 0;
      BothZero(a, b);
    } else {
      m := a * FloorDiv(b, denom);
      LcmLaws(a, b, denom);
    }
  }

  lemma BothZero(a: int, b: int)
    requires Divides(0, a) && Divides(0, b)
    ensures a == 0 && b == 0
  {
    var k :| Times(0, k) == a;
    var l :| Times(0, l) == b;
  }

  lemma LcmLaws(a: int, b: int, g: int)
    requires IsGcf(g, a, b) && g > 0
    ensures var m := a * FloorDiv(b, g);
            Divides(a, m) && Divides(b, m)
            && (m < 0 <==> a < 0 < b || b < 0 < a)
            && forall n {:trigger Divides(a, n)} :: Divides(a, n) && Divides(b, n) ==> Divides(m, n)
  {
    var m, p, q := a * FloorDiv(b, g), a / g, b / g;
    ExactQuotient(g, a);
    ExactQuotient(g, b);
    assert Times(a, q) == m;
    assert Times(b, p) == m by {
      assert b * p == (g * q) * p == (g * p) * q == a * q;
    }
    SignOfProduct(a, b, g, q);
    forall n | Divides(a, n) && Divides(b, n)
      ensures Divides(m, n)
    {
      MultipleOfLcm(a, b, g, q, n);
    }
  }

  lemma SignOfProduct(a: int, b: int, g: int, q: int)
    requires g > 0 && b == g * q
    ensures a * q < 0 <==> a < 0 < b || b < 0 < a
  {
    assert (b < 0 <==> q < 0) && (b > 0 <==> q > 0);
    if (a > 0 && q < 0) || (a < 0 && q > 0) {
      assert a * q < 0;
    } else if (a > 0 && q > 0) || (a < 0 && q < 0) {
      assert a * q > 0;
    }
  }

  lemma MultipleOfLcm(a: int, b: int, g: int, q: int, n: int)
    requires g > 0 && b == g * q && Combines(g, a, b) && Divides(a, n) && Divides(b, n)
    ensures Divides(a * q, n)
  {
    var x, y :| Times(a, x) + Times(b, y) == g;
    var k :| Times(a, k) == n;
    var l :| Times(b, l) == n;
    var c := x * l + y * k;
    assert g * n == (a * x) * n + (b * y) * n;
    CommonMultiple(a, b, x, y, k, l);
    assert (a * b) * c == g * ((a * q) * c) by {
      assert a * b == g * (a * q);
    }
    CancelFactor(g, n, (a * q) * c);
    assert Times(a * q, c) == n;
  }

  lemma CommonMultiple(a: int, b: int, x: int, y: int, k: int, l: int)
    requires a * k == b * l
    ensures (a * x) * (a * k) + (b * y) * (a * k) == (a * b) * (x * l + y * k)
  {
    assert (a * x) * (b * l) == (a * b) * (x * l);
    assert (b * y) * (a * k) == (a * b) * (y * k);
  }

  /** Two numbers without a common divisor but 1 and -1. */
  ghost predicate LowestTerms(p: int, q: int) {
    IsGcf(1, p, q)
  }

  lemma QuotientsAreCoprime(g: int, a: int, b: int)
    requires IsGcf(g, a, b) && g > 0
    ensures LowestTerms(a / g, b / g)
  {
    var p, q := a / g, b / g;
    ExactQuotient(g, a);
    ExactQuotient(g, b);
    assert Times(1, p) == p && Times(1, q) == q;
    var x, y :| Times(a, x) + Times(b, y) == g;
    assert a * x == g * (p * x) && b * y == g * (q * y);
    assert g * (p * x + q * y) == g * 1;
    CancelFactor(g, p * x + q * y, 1);
    Combine(p, q, x, y, 1);
  }

  /** The same fraction in lowest terms; None for the division by zero, which only 0/0 meets. */
  method ReduceFraction(numerator: int, denominator: int) returns (r: Option<(int, int)>)
    ensures r.None? <==> numerator == 0 && denominator == 0
    ensures r.Some? ==> LowestTerms(r.value.0, r.value.1)
                        && exists g :: g > 0 && Times(g, r.value.0) == numerator
                                       && Times(g, r.value.1) == denominator
  {
    var g := Gcf(numerator, denominator);
    var common := Abs(g);
    if common == 0 {
      BothZero(numerator, denominator);
      return None;
    }
    QuotientsAreCoprime(g, numerator, denominator);
    ExactQuotient(g, numerator);
    ExactQuotient(g, denominator);
    var p, q := FloorDiv(numerator, common), FloorDiv(denominator, common);
    assert Times(g, p) == numerator && Times(g, q) == denominator;
    r := Some((p, q));
    if numerator == 0 && denominator == 0 {
      ZeroHasNoTerms(g);
    }
  }

  lemma ZeroHasNoTerms(g: int)
    requires IsGcf(g, 0, 0)
    ensures g == 0
  {
    var x, y :| Times(0, x) + Times(0, y) == g;
  }
}
