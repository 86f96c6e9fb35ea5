/** The digits of a float64 in a radix: nearest numerals, and the least number of digits that reads back. */
module DtoaShortest {
  import opened Powers
  import opened Reals
  import opened Rounding
  import opened DtoaTables
  import opened Float64
  import opened DtoaNearest
  import opened DtoaReadBack
  import opened DtoaLogTable

  /** The number that the integer c denotes k places to the left. */
  ghost function Numeral(c: int, radix: int, k: int): real
    requires radix >= 1
  {
    c as real * Exp(radix, k)
  }

  /** d moved f places to the left. */
  ghost function Moved(d: real, radix: int, f: int): real
    requires radix >= 1
  {
    d * Exp(radix, f)
  }

  lemma NumeralScale(c: int, radix: int, n: nat, k: int)
    requires radix >= 1
    ensures Numeral(c * Pow(radix, n), radix, k) == Numeral(c, radix, k + n)
  {
    hide Exp, Pow;
    ExpIsPow(radix, n);
    ExpAdd(radix, n, k);
    RealProduct(c, Pow(radix, n));
    Associates(c as real, Exp(radix, n), Exp(radix, k));
  }

  lemma NumeralPower(radix: int, n: nat, k: int)
    requires radix >= 1
    ensures Numeral(Pow(radix, n), radix, k) == Exp(radix, k + n)
  {
    hide Exp, Pow;
    ExpIsPow(radix, n);
    ExpAdd(radix, n, k);
  }

  lemma NumeralMoved(c: int, radix: int, f: int)
    requires radix >= 1
    ensures Moved(Numeral(c, radix, -f), radix, f) == c as real
  {
    hide Exp;
    ExpInverse(radix, f);
    Associates(c as real, Exp(radix, -f), Exp(radix, f));
  }

  lemma DistanceMoved(d: real, c: int, radix: int, f: int, x: real)
    requires radix >= 1
    ensures Distance(d, Numeral(c, radix, -f)) <= x <==> Distance(Moved(d, radix, f), c as real) <= Moved(x, radix, f)
    ensures Distance(d, Numeral(c, radix, -f)) == x ==> Distance(Moved(d, radix, f), c as real) == Moved(x, radix, f)
  {
    hide Exp, Numeral;
    ExpPositive(radix, f);
    NumeralMoved(c, radix, f);
    DistanceTimes(d, Numeral(c, radix, -f), Exp(radix, f));
    Compare(Distance(d, Numeral(c, radix, -f)), x, Exp(radix, f));
  }

  lemma MovedOrder(d: real, radix: int, f: int, k: int)
    requires radix >= 1
    ensures d < Exp(radix, k) <==> Moved(d, radix, f) < Exp(radix, k + f)
    ensures d == Exp(radix, k) ==> Moved(d, radix, f) == Exp(radix, k + f)
  {
    hide Exp;
    ExpAdd(radix, k, f);
    ExpPositive(radix, f);
    Compare(d, Exp(radix, k), Exp(radix, f));
  }

  /** Among the numerals with f places, the rounded one is nearest, and it is within half a place. */
  lemma NearestNumeral(d: real, radix: int, f: int, c: int, mode: Mode)
    requires mode != TowardZero
    requires radix >= 1
    ensures var n := Round(Moved(d, radix, f), mode);
            Distance(d, Numeral(n, radix, -f)) <= Distance(d, Numeral(c, radix, -f))
  {
    hide Exp, Numeral, Moved, Round;
    var n, x := Round(Moved(d, radix, f), mode), Distance(d, Numeral(c, radix, -f));
    RoundIsNearest(Moved(d, radix, f), c);
    DistanceMoved(d, n, radix, f, x);
    DistanceMoved(d, c, radix, f, x);
  }

  /** v is nearest to d among all numerals of at most p digits, wherever their point is. */
  ghost predicate Nearest(d: real, radix: int, p: nat, v: real)
    requires radix >= 1
  {
    forall c: int, k: int {:trigger Numeral(c, radix, k)} ::
      0 <= c <= Pow(radix, p) ==> Distance(d, v) <= Distance(d, Numeral(c, radix, k))
  }

  /** When d has at least p digits before the last place of n, rounding finds the nearest numeral. */
  lemma RoundedIsNearest(d: real, radix: int, p: nat, exp: int, mode: Mode)
    requires mode != TowardZero
    requires radix >= 2 && p >= 1 && d >= Exp(radix, exp - 1)
    ensures Nearest(d, radix, p, Numeral(Round(Moved(d, radix, p - exp), mode), radix, exp - p))
  {
    hide Exp, Numeral, Moved, Round, Pow;
    forall c: int, k: int {:trigger Numeral(c, radix, k)} | 0 <= c <= Pow(radix, p)
      ensures Distance(d, Numeral(Round(Moved(d, radix, p - exp), mode), radix, exp - p))
              <= Distance(d, Numeral(c, radix, k))
    {
      assert exp - p == -(p - exp);
      if k >= exp - p {
        NumeralScale(c, radix, k - (exp - p), exp - p);
        NearestNumeral(d, radix, p - exp, c * Pow(radix, k - (exp - p)), mode);
      } else {
        NearestNumeral(d, radix, p - exp, Pow(radix, p - 1), mode);
        FinerIsBelow(d, radix, p, exp, c, k);
      }
    }
  }

  lemma FinerIsBelow(d: real, radix: int, p: nat, exp: int, c: int, k: int)
    requires radix >= 2 && p >= 1 && d >= Exp(radix, exp - 1) && 0 <= c <= Pow(radix, p) && k < exp - p
    ensures Numeral(c, radix, k) <= Numeral(Pow(radix, p - 1), radix, exp - p) <= d
  {
    hide Exp, Pow;
    NumeralPower(radix, p - 1, exp - p);
    NumeralPower(radix, p, k);
    ExpMonotone(radix, k + p, exp - 1);
    ExpPositive(radix, k);
    Grows(c as real, Pow(radix, p) as real, Exp(radix, k));
  }

  /** Fewer digits are a special case. */
  lemma NearestFewer(d: real, radix: int, p: nat, q: nat, v: real)
    requires radix >= 1 && q <= p && Nearest(d, radix, p, v)
    ensures Nearest(d, radix, q, v)
  {
    hide Numeral;
    PowMonotone(radix, q, p);
  }

  /** Digits with the point after exp of them: p digits, the first one not zero. */
  predicate HasDigits(n: int, radix: int, p: nat) {
    p >= 1 && Pow(radix, p - 1) <= n < Pow(radix, p)
  }

  // ----- the choice of the exponent -----

  /** The facts about d = m * 2^(e-53) and the exponent that mul_log2_radix gives. */
  ghost predicate FirstExponent(radix: int, e: int, exp0: int)
    requires radix >= 2
  {
    FloorLog(radix, e - 1, exp0 - 1)
  }

  lemma FirstExponentIs(radix: int, e: int, exp0: int)
    requires radix >= 2 && FirstExponent(radix, e, exp0)
    ensures Exp(radix, exp0 - 1) <= Exp(2, e - 1) < Exp(radix, exp0)
    ensures Exp(2, e) <= 2.0 * Exp(radix, exp0)
  {
    hide Exp;
    assert exp0 - 1 + 1 == exp0;
    ExpStep(2, e - 1);
  }

  /** At the first exponent the mantissa has p digits, or it is a little too large. */
  lemma FirstTry(d: real, radix: int, p: nat, e: int, exp0: int, mode: Mode)
    requires mode != TowardZero
    requires radix >= 2 && p >= 1 && HasExponent(d, e) && FirstExponent(radix, e, exp0)
    ensures Pow(radix, p - 1) <= Round(Moved(d, radix, p - exp0), mode) <= 2 * Pow(radix, p)
  {
    hide Exp, Moved, Round, Pow;
    FirstExponentIs(radix, e, exp0);
    var y := Moved(d, radix, p - exp0);
    MovedOrder(d, radix, p - exp0, exp0 - 1);
    ExpIsPow(radix, p - 1);
    ExpIsPow(radix, p);
    assert exp0 - 1 + (p - exp0) == p - 1;
    UpperMoved(d, radix, p - exp0, exp0);
    RoundBetween(y, Pow(radix, p - 1), 2 * Pow(radix, p), mode);
  }

  lemma UpperMoved(d: real, radix: int, f: int, exp: int)
    requires radix >= 1 && d <= 2.0 * Exp(radix, exp)
    ensures Moved(d, radix, f) <= 2.0 * Exp(radix, exp + f)
  {
    hide Exp;
    ExpAdd(radix, exp, f);
    ExpPositive(radix, f);
    Grows(d, 2.0 * Exp(radix, exp), Exp(radix, f));
    Associates(2.0, Exp(radix, exp), Exp(radix, f));
  }

  /** A mantissa with p digits whose numeral is nearest to d. */
  ghost predicate Candidate(d: real, radix: int, p: nat, exp: int, n: int)
    requires radix >= 1
  {
    HasDigits(n, radix, p) && Nearest(d, radix, p, Numeral(n, radix, exp - p))
  }

  lemma FirstCandidate(d: real, radix: int, p: nat, e: int, exp0: int, mode: Mode)
    requires mode != TowardZero
    requires radix >= 2 && p >= 1 && HasExponent(d, e) && FirstExponent(radix, e, exp0)
    requires Round(Moved(d, radix, p - exp0), mode) < Pow(radix, p)
    ensures Candidate(d, radix, p, exp0, Round(Moved(d, radix, p - exp0), mode))
  {
    hide Exp, Moved, Round, Pow, Nearest, Numeral;
    FirstTry(d, radix, p, e, exp0, mode);
    FirstExponentIs(radix, e, exp0);
    RoundedIsNearest(d, radix, p, exp0, mode);
  }

  /** The second try, one exponent higher, has p digits in either case. */
  lemma SecondCandidate(d: real, radix: int, p: nat, e: int, exp0: int, mode: Mode)
    requires mode != TowardZero
    requires radix >= 2 && p >= 1 && HasExponent(d, e) && FirstExponent(radix, e, exp0)
    requires Round(Moved(d, radix, p - exp0), mode) >= Pow(radix, p)
    ensures Candidate(d, radix, p, exp0 + 1, Round(Moved(d, radix, p - (exp0 + 1)), mode))
  {
    hide Exp, Moved, Round, Pow, Nearest, Numeral, FirstExponent;
    if d >= Exp(radix, exp0) {
      SecondLarge(d, radix, p, e, exp0, mode);
      RoundedIsNearest(d, radix, p, exp0 + 1, mode);
    } else {
      RoundedUp(d, radix, p, e, exp0, mode);
      FirstExponentIs(radix, e, exp0);
      RoundedIsNearest(d, radix, p, exp0, mode);
    }
  }

  lemma SecondLarge(d: real, radix: int, p: nat, e: int, exp0: int, mode: Mode)
    requires mode != TowardZero
    requires radix >= 2 && p >= 1 && HasExponent(d, e) && FirstExponent(radix, e, exp0) && d >= Exp(radix, exp0)
    ensures HasDigits(Round(Moved(d, radix, p - (exp0 + 1)), mode), radix, p)
  {
    hide Exp, Moved, Round, Pow;
    FirstExponentIs(radix, e, exp0);
    RadixAboveTwo(d, radix, e, exp0);
    var f := p - (exp0 + 1);
    var y := Moved(d, radix, f);
    MovedOrder(d, radix, f, exp0);
    UpperMoved(d, radix, f, exp0);
    assert exp0 + f == p - 1;
    ExpIsPow(radix, p - 1);
    RoundBetween(y, Pow(radix, p - 1), 2 * Pow(radix, p - 1), mode);
    PowPositive(radix, p - 1);
    NextPow(radix, p);
  }

  lemma NextPow(radix: int, p: nat)
    requires radix >= 3 && p >= 1 && Pow(radix, p - 1) > 0
    ensures 2 * Pow(radix, p - 1) < Pow(radix, p)
  {
    MulMonotone(3, radix, Pow(radix, p - 1), Pow(radix, p - 1));
  }

  /** In radix 2 the first exponent is the binary one, and the first try never overflows by size. */
  lemma RadixAboveTwo(d: real, radix: int, e: int, exp0: int)
    requires radix >= 2 && HasExponent(d, e) && FirstExponent(radix, e, exp0) && d >= Exp(radix, exp0)
    ensures radix >= 3
  {
    hide Exp;
    FirstExponentIs(radix, e, exp0);
    if radix == 2 {
      ExpOrder(e - 1, exp0);
      ExpOrder(exp0, e);
    }
  }

  /** Below radix^exp0, but rounded up to it: both exponents give that power. */
  lemma RoundedUp(d: real, radix: int, p: nat, e: int, exp0: int, mode: Mode)
    requires mode != TowardZero
    requires radix >= 2 && p >= 1 && HasExponent(d, e) && FirstExponent(radix, e, exp0) && d < Exp(radix, exp0)
    requires Round(Moved(d, radix, p - exp0), mode) >= Pow(radix, p)
    ensures HasDigits(Round(Moved(d, radix, p - (exp0 + 1)), mode), radix, p)
    ensures Numeral(Round(Moved(d, radix, p - (exp0 + 1)), mode), radix, exp0 + 1 - p)
         == Numeral(Round(Moved(d, radix, p - exp0), mode), radix, exp0 - p)
  {
    hide Exp, Moved, Pow, Numeral, Round;
    RoundsToPower(d, radix, p, exp0, mode);
    NumeralPower(radix, p, exp0 - p);
    NumeralPower(radix, p - 1, exp0 + 1 - p);
    PowPositive(radix, p - 1);
    NextPow2(radix, p);
  }

  lemma RoundsToPower(d: real, radix: int, p: nat, exp0: int, mode: Mode)
    requires mode != TowardZero
    requires radix >= 2 && p >= 1 && d < Exp(radix, exp0)
    requires Round(Moved(d, radix, p - exp0), mode) >= Pow(radix, p)
    ensures Round(Moved(d, radix, p - exp0), mode) == Pow(radix, p)
    ensures Round(Moved(d, radix, p - (exp0 + 1)), mode) == Pow(radix, p - 1)
  {
    hide Exp, Moved, Pow, Round, IsTimes;
    var f := p - (exp0 + 1);
    assert f + 1 == p - exp0 && exp0 + (f + 1) == p;
    MovedOrder(d, radix, f + 1, exp0);
    ExpIsPow(radix, p);
    JustBelow(Moved(d, radix, f + 1), Pow(radix, p), mode);
    PowPositive(radix, p - 1);
    NextPow2(radix, p);
    MovedDown(d, radix, f, Pow(radix, p - 1), Pow(radix, p), mode);
  }

  lemma NextPow2(radix: int, p: nat)
    requires radix >= 2 && p >= 1 && Pow(radix, p - 1) > 0
    ensures IsTimes(Pow(radix, p), radix, Pow(radix, p - 1)) && Pow(radix, p - 1) < Pow(radix, p)
  {
    MulMonotone(2, radix, Pow(radix, p - 1), Pow(radix, p - 1));
  }

  ghost predicate IsTimes(b: int, radix: int, a: int) {
    b == radix * a
  }

  lemma MovedDown(d: real, radix: int, f: int, a: int, b: int, mode: Mode)
    requires mode != TowardZero
    requires radix >= 2 && IsTimes(b, radix, a) && b as real - 0.5 <= Moved(d, radix, f + 1) < b as real
    ensures Round(Moved(d, radix, f), mode) == a
  {
    hide Moved, Round;
    MovedStep(d, radix, f);
    OneDigitLess(Moved(d, radix, f + 1), Moved(d, radix, f), radix, a, b, mode);
  }

  lemma MovedStep(d: real, radix: int, f: int)
    requires radix >= 1
    ensures Moved(d, radix, f + 1) == radix as real * Moved(d, radix, f)
  {
    hide Exp;
    ExpStep(radix, f);
    Associates(radix as real, d, Exp(radix, f));
    Associates(d, radix as real, Exp(radix, f));
  }

  lemma JustBelow(y: real, n: int, mode: Mode)
    requires mode != TowardZero
    requires y < n as real && Round(y, mode) >= n
    ensures Round(y, mode) == n && y >= n as real - 0.5
  {
  }

  lemma OneDigitLess(y0: real, y1: real, radix: int, a: int, b: int, mode: Mode)
    requires mode != TowardZero
    requires radix >= 2 && b == radix * a && y0 == radix as real * y1 && b as real - 0.5 <= y0 < b as real
    ensures Round(y1, mode) == a
  {
    hide Round;
    var z := y1 - a as real;
    RealProduct(radix, a);
    Split(radix as real, y1, a as real);
    if z < -0.25 { NegativeGrows(2.0, radix as real, z); }
    if z >= 0.0 { Grows(0.0, z, radix as real); }
    StrictlyWithin(y1, a, mode);
  }

  lemma Split(r: real, x: real, y: real)
    ensures r * (x - y) == r * x - r * y
  {
  }

  lemma NegativeGrows(x: real, y: real, z: real)
    requires x <= y && z < 0.0
    ensures y * z <= x * z
  {
  }

  // ----- the largest number of digits always reads back -----

  lemma HalfPlace(d: real, radix: int, f: int)
    requires radix >= 1
    ensures Distance(d, Numeral(Round(Moved(d, radix, f), NearestEven), radix, -f)) <= 0.5 * Exp(radix, -f)
  {
    hide Exp, Moved, Round, Numeral;
    var n, x := Round(Moved(d, radix, f), NearestEven), 0.5 * Exp(radix, -f);
    RoundsWithin(Moved(d, radix, f), n);
    HalfMoved(radix, f);
    DistanceMoved(d, n, radix, f, x);
  }

  lemma HalfMoved(radix: int, f: int)
    requires radix >= 1
    ensures Moved(0.5 * Exp(radix, -f), radix, f) == 0.5
  {
    hide Exp;
    ExpInverse(radix, -f);
    Associates(0.5, Exp(radix, -f), Exp(radix, f));
  }

  /** A place of the numeral is small when 53 bits fit the digits above it. */
  lemma SmallPlace(radix: int, k: int, p: nat, e: int)
    requires radix >= 1 && p >= 1 && Pow(radix, p - 1) >= TWO53
    ensures Exp(radix, k + p - 1) <= Exp(2, e) ==> Exp(radix, k) <= Exp(2, e - 53)
    ensures Exp(radix, k + p - 1) < Exp(2, e) ==> Exp(radix, k) < Exp(2, e - 53)
  {
    hide Exp, Pow;
    ExpAdd(radix, k, p - 1);
    ExpIsPow(radix, p - 1);
    PowValues();
    ExpAdd(2, e - 53, 53);
    PowIsExp(53);
    ExpPositive(radix, k);
    CancelFactor(Exp(radix, k), Pow(radix, p - 1) as real, Exp(2, e - 53), TWO53 as real);
  }

  lemma CancelFactor(x: real, q: real, y: real, t: real)
    requires x > 0.0 && q >= t && t > 0.0
    ensures x * q <= y * t ==> x <= y
    ensures x * q < y * t ==> x < y
  {
    Grows(t, q, x);
    Compare(x, y, t);
  }

  /** The first candidate with the largest number of digits reads back. */
  lemma FirstReadsBack(m: int, e: int, radix: int, p: nat, exp0: int)
    requires IsDouble(m, e) && radix >= 2 && p >= 1 && FirstExponent(radix, e, exp0) && Pow(radix, p - 1) >= TWO53
    ensures RoundsTo(Numeral(Round(Moved(DoubleValue(m, e), radix, p - exp0), NearestEven), radix, exp0 - p),
                     NearestEven, m, e)
  {
    hide Exp, Moved, Round, Numeral, Pow, DoubleValue, RoundsTo, IsDouble;
    var d := DoubleValue(m, e);
    DoubleIsNormalised(m, e);
    DoubleExponent(m, e);
    FirstTry(d, radix, p, e, exp0, NearestEven);
    FirstExponentIs(radix, e, exp0);
    HalfPlace(d, radix, p - exp0);
    assert -(p - exp0) == exp0 - p;
    SmallPlace(radix, exp0 - p, p, e - 1);
    ExpStep(2, e - 55);
    PowPositive(radix, p - 1);
    NumeralPositive(Round(Moved(d, radix, p - exp0), NearestEven), radix, exp0 - p);
    QuarterPlaceReadsBack(Numeral(Round(Moved(d, radix, p - exp0), NearestEven), radix, exp0 - p), m, e);
  }

  lemma NumeralPositive(n: int, radix: int, k: int)
    requires radix >= 1 && n >= 1
    ensures Numeral(n, radix, k) > 0.0
  {
    hide Exp;
    ExpPositive(radix, k);
    GrowsStrictly(0.0, n as real, Exp(radix, k));
  }

  /** So does the second one. */
  lemma SecondReadsBack(m: int, e: int, radix: int, p: nat, exp0: int)
    requires IsDouble(m, e) && radix >= 2 && p >= 1 && FirstExponent(radix, e, exp0) && Pow(radix, p - 1) >= TWO53
    requires Round(Moved(DoubleValue(m, e), radix, p - exp0), NearestEven) >= Pow(radix, p)
    ensures RoundsTo(Numeral(Round(Moved(DoubleValue(m, e), radix, p - (exp0 + 1)), NearestEven), radix, exp0 + 1 - p),
                     NearestEven, m, e)
  {
    hide Exp, Moved, Round, Numeral, Pow, DoubleValue, RoundsTo, IsDouble, FirstExponent;
    var d := DoubleValue(m, e);
    DoubleIsNormalised(m, e);
    DoubleExponent(m, e);
    if d < Exp(radix, exp0) {
      RoundedUp(d, radix, p, e, exp0, NearestEven);
      FirstReadsBack(m, e, radix, p, exp0);
    } else {
      SecondCandidate(d, radix, p, e, exp0, NearestEven);
      SecondHalf(d, radix, p, e, exp0);
      AboveBinade(m, e, radix, exp0);
      PowPositive(radix, p - 1);
      NumeralPositive(Round(Moved(d, radix, p - (exp0 + 1)), NearestEven), radix, exp0 + 1 - p);
      HalfPlaceReadsBack(Numeral(Round(Moved(d, radix, p - (exp0 + 1)), NearestEven), radix, exp0 + 1 - p), m, e);
    }
  }

  lemma SecondHalf(d: real, radix: int, p: nat, e: int, exp0: int)
    requires radix >= 2 && p >= 1 && HasExponent(d, e) && d >= Exp(radix, exp0) && Pow(radix, p - 1) >= TWO53
    ensures Distance(d, Numeral(Round(Moved(d, radix, p - (exp0 + 1)), NearestEven), radix, exp0 + 1 - p))
            < Exp(2, e - 54)
  {
    hide Exp, Moved, Round, Numeral, Pow;
    HalfPlace(d, radix, p - (exp0 + 1));
    assert -(p - (exp0 + 1)) == exp0 + 1 - p;
    SmallPlace(radix, exp0 + 1 - p, p, e);
    assert exp0 + 1 - p + p - 1 == exp0;
    ExpStep(2, e - 54);
  }

  /** Beyond a power of the radix inside its binade, a float64 is not the first of the binade. */
  lemma AboveBinade(m: int, e: int, radix: int, exp0: int)
    requires radix >= 2 && FirstExponent(radix, e, exp0) && DoubleValue(m, e) >= Exp(radix, exp0)
    ensures Symmetric(m, e)
  {
    hide Exp, DoubleValue;
    FirstExponentIs(radix, e, exp0);
    PowerValue(e);
  }
}
