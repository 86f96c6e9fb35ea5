/** The rounding modes of dtoa.c, as functions on non-negative reals. */
module Rounding {
  import opened Reals

  datatype Mode = NearestEven | NearestAway | TowardZero

  /** x rounded to an integer. */
  function Round(x: real, mode: Mode): int {
    var k := x.Floor;
    var f := x - k as real;
    match mode
    case NearestEven => if f < 0.5 || (f == 0.5 && k % 2 == 0) then k else k + 1
    case NearestAway => if f < 0.5 then k else k + 1
    case TowardZero => k
  }

  function Abs(x: real): real {
    if x < 0.0 then -x else x
  }

  /** Nearest means nearest, and ties go to the even neighbour or up; truncation never exceeds x. */
  lemma RoundIsNearest(x: real, n: int)
    ensures Abs(x - Round(x, NearestEven) as real) <= Abs(x - n as real)
    ensures Abs(x - Round(x, NearestEven) as real) == Abs(x - n as real) && n != Round(x, NearestEven)
            ==> Round(x, NearestEven) % 2 == 0
    ensures Abs(x - Round(x, NearestAway) as real) <= Abs(x - n as real)
    ensures Abs(x - Round(x, NearestAway) as real) == Abs(x - n as real) ==> n <= Round(x, NearestAway)
    ensures n as real <= x <==> n <= Round(x, TowardZero)
  {
    var k := x.Floor;
    assert n <= k || n >= k + 1;
  }

  /** Rounding sees only the integer part and the order with the midpoint. */
  lemma RoundSame(x: real, y: real, k: int, mode: Mode)
    requires k as real <= x < k as real + 1.0 && k as real <= y < k as real + 1.0
    requires x < k as real + 0.5 <==> y < k as real + 0.5
    requires x == k as real + 0.5 <==> y == k as real + 0.5
    ensures Round(x, mode) == Round(y, mode)
  {
    assert x.Floor == k && y.Floor == k;
  }

  lemma RoundMonotone(x: real, y: real, mode: Mode)
    requires x <= y
    ensures Round(x, mode) <= Round(y, mode)
  {
    assert x.Floor <= y.Floor;
  }

  lemma RoundInteger(n: int, mode: Mode)
    ensures Round(n as real, mode) == n
  {
  }

  /** Whether rounding v / p goes up from the truncated quotient. */
  predicate Increment(v: nat, p: int, mode: Mode)
    requires p > 0
  {
    match mode
    case NearestEven => 2 * (v % p) > p || (2 * (v % p) == p && v / p % 2 == 1)
    case NearestAway => 2 * (v % p) >= p
    case TowardZero => false
  }

  /** y is 1 / p. */
  ghost predicate Inverse(p: int, y: real) {
    p as real * y == 1.0
  }

  /** Rounding a quotient of integers, y being 1 / p. */
  lemma RoundOfRatio(v: nat, p: int, y: real, mode: Mode)
    requires p > 0 && Inverse(p, y)
    ensures Round(v as real * y, mode) == v / p + (if Increment(v, p, mode) then 1 else 0)
  {
    hide Inverse;
    DivMod(v, p);
    var q, r := v / p, v % p;
    RatioParts(v, p, y, q, r);
    var x, f := v as real * y, r as real * y;
    assert x == q as real + f;
    FractionOrder(r, p, y);
    assert x.Floor == q;
  }

  lemma DivMod(v: int, p: int)
    requires p > 0
    ensures v == p * (v / p) + v % p && 0 <= v % p < p
  {
  }

  lemma RatioParts(v: int, p: int, y: real, q: int, r: int)
    requires Inverse(p, y) && v == p * q + r
    ensures v as real * y == q as real + r as real * y
  {
    RealProduct(p, q);
    var a, b, c := p as real, q as real, r as real;
    assert (a * b + c) * y == (a * b) * y + c * y;
    Swap(a, b, y);
  }

  /** The order of r / p with 0, 1/2 and 1. */
  lemma FractionOrder(r: int, p: int, y: real)
    requires p > 0 && Inverse(p, y) && 0 <= r < p
    ensures 0.0 <= r as real * y < 1.0
    ensures r as real * y < 0.5 <==> 2 * r < p
    ensures r as real * y == 0.5 <==> 2 * r == p
  {
    hide Inverse;
    RatioOrder(r, p, y);
    TwiceOrder(r, p, y);
    Grows(0.0, r as real, y);
  }

  lemma TwiceOrder(r: int, p: int, y: real)
    requires p > 0 && Inverse(p, y)
    ensures r as real * y < 0.5 <==> 2 * r < p
    ensures r as real * y == 0.5 <==> 2 * r == p
  {
    hide Inverse;
    var d, f := 2 * r, r as real * y;
    RatioOrder(d, p, y);
    Double(r, d, y);
    var g := d as real * y;
    assert g == 2.0 * f;
  }

  lemma Double(r: int, d: int, y: real)
    requires d == 2 * r
    ensures d as real * y == 2.0 * (r as real * y)
  {
  }

  lemma RatioOrder(x: int, p: int, y: real)
    requires p > 0 && Inverse(p, y)
    ensures y > 0.0
    ensures x < p <==> x as real * y < 1.0
    ensures x == p <==> x as real * y == 1.0
  {
    hide Inverse;
    OneOrder(x as real, p, y);
    CastOrder(x, p);
  }

  lemma OneOrder(a: real, p: int, y: real)
    requires p > 0 && Inverse(p, y)
    ensures y > 0.0
    ensures a < p as real <==> a * y < 1.0
    ensures a == p as real <==> a * y == 1.0
  {
    hide Inverse;
    InverseIs(p, y);
    CompareTo(a, p as real, y, 1.0);
  }

  lemma CompareTo(a: real, b: real, y: real, v: real)
    requires y > 0.0 && b * y == v
    ensures a < b <==> a * y < v
    ensures a == b <==> a * y == v
  {
    Compare(a, b, y);
  }

  lemma CastOrder(x: int, p: int)
    ensures x < p <==> x as real < p as real
    ensures x == p <==> x as real == p as real
  {
  }

  lemma InversePositive(p: int, y: real)
    requires p > 0 && Inverse(p, y)
    ensures y > 0.0
  {
    InverseIs(p, y);
  }

  lemma InverseIs(p: int, y: real)
    requires p > 0 && Inverse(p, y)
    ensures y > 0.0 && p as real * y == 1.0
  {
    if y <= 0.0 { Grows(y, 0.0, p as real); }
  }

  /** Scaling by a positive factor keeps the order. */
  lemma Compare(x: real, a: real, y: real)
    requires y > 0.0
    ensures x < a <==> x * y < a * y
    ensures x == a <==> x * y == a * y
  {
    if x < a {
      GrowsStrictly(x, a, y);
    } else if a < x {
      GrowsStrictly(a, x, y);
    }
  }
}
