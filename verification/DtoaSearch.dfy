/**
 * What the search of js_dtoa tries for each digit count, and exactly when trying only the numeral nearest to the
 * float64 misses a shorter one.
 */
module DtoaSearch {
  import opened Powers
  import opened Reals
  import opened Rounding
  import opened DtoaTables
  import opened Scaling
  import opened Float64
  import opened DtoaNearest
  import opened DtoaReadBack
  import opened DtoaShortest

  // ----- facts about failure -----

  /** Either c * radix^k does not read back to (m, e), or (m, e) begins a binade and c * radix^k lies above it. */
  ghost predicate OnlyAbove(m: int, e: int, radix: int, c: int, k: int)
    requires radix >= 1
  {
    RoundsTo(Numeral(c, radix, k), NearestEven, m, e) ==> !Symmetric(m, e) && Numeral(c, radix, k) > DoubleValue(m, e)
  }

  /** No numeral of at most q digits reads back when the nearest one does not. */
  lemma NoFewerDigits(m: int, e: int, radix: int, q: nat, v: real)
    requires radix >= 1 && IsDouble(m, e) && v > 0.0
    requires Nearest(DoubleValue(m, e), radix, q, v) && !RoundsTo(v, NearestEven, m, e)
    ensures forall c: int, k: int :: 0 < c <= Pow(radix, q) ==> OnlyAbove(m, e, radix, c, k)
  {
    hide Numeral, RoundsTo, IsDouble, DoubleValue, Pow;
    forall c: int, k: int | 0 < c <= Pow(radix, q)
      ensures OnlyAbove(m, e, radix, c, k)
    {
      var y := Numeral(c, radix, k);
      if RoundsTo(y, NearestEven, m, e) {
        NumeralPositive(c, radix, k);
        if Symmetric(m, e) {
          CloserReadsBack(v, y, m, e);
        } else if y <= DoubleValue(m, e) {
          BelowReadsBack(y, m, e);
          QuarterPlaceReadsBack(v, m, e);
        }
      }
    }
  }

  lemma OneDigit(m: int, e: int, radix: nat)
    requires radix >= 1
    ensures ShorterOnlyAbove(m, e, radix, 1)
  {
    PowZeroOne(radix);
  }

  /** No numeral with fewer than p digits reads back to (m, e), except above a float64 that begins a binade. */
  ghost predicate ShorterOnlyAbove(m: int, e: int, radix: int, p: nat)
    requires radix >= 1 && p >= 1
  {
    forall c: int, k: int :: 0 < c < Pow(radix, p - 1) ==> OnlyAbove(m, e, radix, c, k)
  }

  // ----- the tries -----

  /** d scaled to p digits at exponent exp. */
  ghost function Rescaled(m: int, e: int, radix: int, p: nat, exp: int): int
    requires radix >= 1
  {
    Round(Moved(DoubleValue(m, e), radix, p - exp), NearestEven)
  }

  lemma RescaledIs(m: int, e: int, radix: int, p: nat, exp: int)
    requires radix >= 1
    ensures Rescaled(m, e, radix, p, exp) == Round(Moved(DoubleValue(m, e), radix, p - exp), NearestEven)
  {
  }

  /** The exponent that q digits are rounded at: the first one, or the next one when the mantissa is too large. */
  ghost function TriedExponent(m: int, e: int, radix: int, q: nat, exp0: int): int
    requires radix >= 1
  {
    if Rescaled(m, e, radix, q, exp0) < Pow(radix, q) then exp0 else exp0 + 1
  }

  /** The numeral of q digits that is tried. */
  ghost function Try(m: int, e: int, radix: int, q: nat, exp0: int): real
    requires radix >= 1
  {
    var exp := TriedExponent(m, e, radix, q, exp0);
    Numeral(Rescaled(m, e, radix, q, exp), radix, exp - q)
  }

  ghost predicate Returns(m: int, e: int, radix: int, q: nat, exp0: int)
    requires radix >= 1
  {
    RoundsTo(Try(m, e, radix, q, exp0), NearestEven, m, e)
  }

  /** With p or more digits the numeral tried reads back. */
  ghost predicate AllReturn(m: int, e: int, radix: int, p: nat, exp0: int)
    requires radix >= 1
  {
    forall q: nat :: q >= p ==> Returns(m, e, radix, q, exp0)
  }

  /** The search ends with p digits: the tries from p digits on read back, the one before does not. */
  ghost predicate Searched(m: int, e: int, radix: int, p: nat, exp0: int)
    requires radix >= 1 && p >= 1
  {
    AllReturn(m, e, radix, p, exp0) && (p > 1 ==> !Returns(m, e, radix, p - 1, exp0))
  }

  lemma OneMore(m: int, e: int, radix: int, p: nat, q: nat, exp0: int, v: real)
    requires radix >= 1 && AllReturn(m, e, radix, q + 1, exp0) && RoundsTo(v, NearestEven, m, e)
    requires forall r: nat :: p <= r <= q ==> Try(m, e, radix, r, exp0) == v
    ensures AllReturn(m, e, radix, p, exp0)
  {
    hide Try, RoundsTo;
  }

  /** What is tried is the nearest numeral. */
  lemma TriedCandidate(m: int, e: int, radix: nat, q: nat, exp0: int)
    requires radix >= 2 && q >= 1 && IsDouble(m, e) && FirstExponent(radix, e, exp0)
    ensures var exp := TriedExponent(m, e, radix, q, exp0);
            Candidate(DoubleValue(m, e), radix, q, exp, Rescaled(m, e, radix, q, exp))
  {
    hide Pow, Exp, IsDouble, FirstExponent, Round, Moved, DoubleValue, Candidate, HasExponent;
    DoubleIsNormalised(m, e);
    DoubleExponent(m, e);
    if Rescaled(m, e, radix, q, exp0) < Pow(radix, q) {
      FirstCandidate(DoubleValue(m, e), radix, q, e, exp0, NearestEven);
    } else {
      SecondCandidate(DoubleValue(m, e), radix, q, e, exp0, NearestEven);
    }
  }

  /** With enough digits for 53 bits every try reads back. */
  lemma ManyDigitsReturn(m: int, e: int, radix: nat, q: nat, exp0: int)
    requires radix >= 2 && q >= 1 && IsDouble(m, e) && FirstExponent(radix, e, exp0) && Pow(radix, q - 1) >= TWO53
    ensures Returns(m, e, radix, q, exp0)
  {
    hide Pow, Exp, IsDouble, FirstExponent, Round, Moved, DoubleValue, RoundsTo, Numeral;
    if Rescaled(m, e, radix, q, exp0) < Pow(radix, q) {
      FirstReadsBack(m, e, radix, q, exp0);
    } else {
      SecondReadsBack(m, e, radix, q, exp0);
    }
  }

  lemma MaxReturn(m: int, e: int, radix: nat, p: nat, exp0: int)
    requires radix >= 2 && p >= 1 && IsDouble(m, e) && FirstExponent(radix, e, exp0) && Pow(radix, p - 1) >= TWO53
    ensures AllReturn(m, e, radix, p, exp0)
  {
    hide Pow, IsDouble, FirstExponent, Returns;
    forall q: nat | q >= p ensures Returns(m, e, radix, q, exp0) {
      PowMonotone(radix, p - 1, q - 1);
      ManyDigitsReturn(m, e, radix, q, exp0);
    }
  }

  /** When the mantissa ends in a zero digit, one digit less gives the same numeral. */
  lemma TryKept(m: int, e: int, radix: nat, p: nat, exp0: int, exp: int)
    requires radix >= 2 && p >= 2 && exp == TriedExponent(m, e, radix, p, exp0)
             && Rescaled(m, e, radix, p, exp) % radix == 0
    ensures Rescaled(m, e, radix, p - 1, exp) == Rescaled(m, e, radix, p, exp) / radix
    ensures TriedExponent(m, e, radix, p - 1, exp0) == exp
  {
    hide Pow, Moved, Round, DoubleValue;
    var d, n := DoubleValue(m, e), Rescaled(m, e, radix, p, exp);
    assert n == radix * (n / radix);
    assert p - 1 - exp + 1 == p - exp && p - 1 - exp0 + 1 == p - exp0;
    MovedStep(d, radix, p - 1 - exp);
    RoundQuotient(Moved(d, radix, p - exp), Moved(d, radix, p - 1 - exp), radix, n, n / radix);
    var a := Pow(radix, p - 1);
    assert Pow(radix, p) == radix * a by { PowUnfold(radix, p); }
    if exp == exp0 {
      SmallerQuotient(radix, n / radix, a);
    } else {
      MovedStep(d, radix, p - 1 - exp0);
      LargeQuotient(Moved(d, radix, p - exp0), Moved(d, radix, p - 1 - exp0), radix, Pow(radix, p), a);
    }
  }

  lemma PowUnfold(b: int, n: nat)
    requires n >= 1
    ensures Pow(b, n) == b * Pow(b, n - 1)
  {
  }

  lemma SmallerQuotient(radix: int, a: int, b: int)
    requires radix >= 1 && radix * a < radix * b
    ensures a < b
  {
  }

  lemma RoundQuotient(y1: real, y: real, radix: int, n1: int, n: int)
    requires radix >= 2 && Product(y1, radix, y) && n1 == radix * n && Round(y1, NearestEven) == n1
    ensures Round(y, NearestEven) == n
  {
    hide Round, Product;
    RoundsWithin(y1, n1);
    ScaledGap(y1, y, radix, n1, n);
    RoundsWithin(y, n);
  }

  ghost predicate Product(y1: real, radix: int, y: real) {
    y1 == radix as real * y
  }

  lemma ScaledGap(y1: real, y: real, radix: int, n1: int, n: int)
    requires radix >= 2 && Product(y1, radix, y) && n1 == radix * n
    ensures Distance(y1, n1 as real) <= 0.5 ==> Distance(y, n as real) < 0.5
    ensures y1 >= n1 as real - 0.5 ==> y > n as real - 0.5
  {
    var r, x := radix as real, y - n as real;
    assert n1 as real == r * n as real;
    assert y1 - n1 as real == r * x;
    if x >= 0.5 { assert r * x >= 2.0 * x; }
    if x <= -0.5 { assert r * x <= 2.0 * x; }
  }

  lemma LargeQuotient(y1: real, y: real, radix: int, n1: int, a: int)
    requires radix >= 2 && Product(y1, radix, y) && n1 == radix * a && Round(y1, NearestEven) >= n1
    ensures Round(y, NearestEven) >= a
  {
    hide Product;
    ScaledGap(y1, y, radix, n1, a);
    RoundAtLeast(y, a);
  }

  lemma RoundAtLeast(y: real, a: int)
    requires y > a as real - 0.5
    ensures Round(y, NearestEven) >= a
  {
  }

  // ----- numbers that begin a binade -----

  /** Exactly the reals from a quarter of a last place below to half of one above read back, ends included. */
  lemma BinadeInterval(x: real, e: int)
    requires e > -1021 && x > 0.0
    ensures RoundsTo(x, NearestEven, TWO52, e)
       <==> DoubleValue(TWO52, e) - Exp(2, e - 55) <= x <= DoubleValue(TWO52, e) + Exp(2, e - 54)
  {
    hide Exp, Pow, DoubleValue, RoundsTo;
    BinadeIsDouble(e);
    if RoundsTo(x, NearestEven, TWO52, e) {
      if x <= DoubleValue(TWO52, e) { BelowReadsBack(x, TWO52, e); } else { AboveReadsBack(x, TWO52, e); }
      ExpPositive(2, e - 54);
      ExpPositive(2, e - 55);
    }
    if DoubleValue(TWO52, e) - Exp(2, e - 55) <= x <= DoubleValue(TWO52, e) + Exp(2, e - 54) {
      if x >= DoubleValue(TWO52, e) { UpperHalf(x, e); } else { QuarterPlaceReadsBack(x, TWO52, e); }
    }
  }

  lemma BinadeIsDouble(e: int)
    requires e > -1021
    ensures IsDouble(TWO52, e) && !Symmetric(TWO52, e)
  {
    hide Pow;
    PowZeroOne(2);
  }

  /** For such a number the first exponent is the right one. */
  lemma BinadeTry(e: int, radix: nat, q: nat, exp0: int)
    requires radix >= 2 && q >= 1 && e > -1021 && FirstExponent(radix, e, exp0)
    ensures Exp(radix, exp0 - 1) <= DoubleValue(TWO52, e) < Exp(radix, exp0)
    ensures Try(TWO52, e, radix, q, exp0) == Numeral(Rescaled(TWO52, e, radix, q, exp0), radix, exp0 - q)
  {
    hide Pow, Exp, IsDouble, FirstExponent, Round, Moved, DoubleValue, Numeral, HasExponent;
    BinadeIsDouble(e);
    DoubleIsNormalised(TWO52, e);
    DoubleExponent(TWO52, e);
    FirstExponentIs(radix, e, exp0);
    PowerValue(e);
    if Rescaled(TWO52, e, radix, q, exp0) >= Pow(radix, q) {
      RoundedUp(DoubleValue(TWO52, e), radix, q, e, exp0, NearestEven);
    }
  }

  // ----- what the search misses -----

  /** A numeral with fewer than p digits that reads back. */
  ghost predicate Shorter(m: int, e: int, radix: int, p: nat, c: int, k: int)
    requires radix >= 1 && p >= 1
  {
    0 < c < Pow(radix, p - 1) && RoundsTo(Numeral(c, radix, k), NearestEven, m, e)
  }

  /**
   * Rounded to q digits, 2^(e-1) becomes n places of radix^(exp0-q), more than a quarter of a last place too small to
   * read back; n + 1 places are at most half of a last place too large.
   */
  ghost predicate MissedAt(e: int, radix: int, exp0: int, q: nat)
    requires radix >= 1
  {
    var d, n := DoubleValue(TWO52, e), Rescaled(TWO52, e, radix, q, exp0);
    Numeral(n, radix, exp0 - q) < d - Exp(2, e - 55) && Numeral(n + 1, radix, exp0 - q) <= d + Exp(2, e - 54)
  }

  /** That happens for some digit count below the largest one, to a number that begins a binade of normal numbers. */
  ghost predicate Misses(m: int, e: int, radix: int)
    requires 2 <= radix <= RADIX_MAX
  {
    !Symmetric(m, e)
    && exists exp0: int, q: nat ::
         FirstExponent(radix, e, exp0) && 1 <= q < DTOA_MAX_DIGITS[radix - 2] && MissedAt(e, radix, exp0, q)
  }

  /** No numeral with fewer than p digits reads back, except for exactly the numbers that the search misses one for. */
  ghost predicate FewestUnlessMissed(m: int, e: int, radix: int, p: nat)
    requires 2 <= radix <= RADIX_MAX && p >= 1
  {
    (exists c: int, k: int :: Shorter(m, e, radix, p, c, k)) <==> Misses(m, e, radix)
  }

  /**
   * Exactly when the p digits that the search ends with are not the fewest, in terms of the float64 and the radix
   * alone.
   */
  lemma NotShortestIff(m: int, e: int, radix: nat, p: nat, exp0: int)
    requires IsDouble(m, e) && 2 <= radix <= RADIX_MAX && 1 <= p <= DTOA_MAX_DIGITS[radix - 2]
             && FirstExponent(radix, e, exp0)
    requires Searched(m, e, radix, p, exp0)
    ensures FewestUnlessMissed(m, e, radix, p)
  {
    hide Pow, Exp, DoubleValue, RoundsTo, Numeral, IsDouble, FirstExponent, MissedAt, Returns, AllReturn, Shorter;
    if c: int, k: int :| Shorter(m, e, radix, p, c, k) {
      ShorterIsMissed(m, e, radix, p, exp0, c, k);
      assert MissedAt(e, radix, exp0, p - 1);
    }
    if Misses(m, e, radix) {
      var exp1: int, q: nat :| FirstExponent(radix, e, exp1) && 1 <= q < DTOA_MAX_DIGITS[radix - 2]
        && MissedAt(e, radix, exp1, q);
      FirstExponentUnique(radix, e, exp0, exp1);
      var c, k := MissedIsShorter(m, e, radix, p, exp0, q);
    }
  }

  lemma FirstExponentUnique(radix: int, e: int, i: int, j: int)
    requires radix >= 2 && FirstExponent(radix, e, i) && FirstExponent(radix, e, j)
    ensures i == j
  {
    hide Exp;
    FirstExponentIs(radix, e, i);
    FirstExponentIs(radix, e, j);
    if i < j { ExpMonotone(radix, i, j - 1); }
    if j < i { ExpMonotone(radix, j, i - 1); }
  }

  /** The numeral tried before is too small, and the next one is at most as large as the shorter one. */
  lemma ShorterIsMissed(m: int, e: int, radix: nat, p: nat, exp0: int, c: int, k: int)
    requires IsDouble(m, e) && radix >= 2 && p >= 1 && FirstExponent(radix, e, exp0)
    requires Searched(m, e, radix, p, exp0) && Shorter(m, e, radix, p, c, k)
    ensures !Symmetric(m, e) && p > 1 && MissedAt(e, radix, exp0, p - 1)
  {
    hide Pow, Exp, DoubleValue, RoundsTo, Numeral, FirstExponent, AllReturn, Candidate, HasDigits, Nearest;
    PowZeroOne(radix);
    var q: nat := p - 1;
    assert q >= 1;
    TriedCandidate(m, e, radix, q, exp0);
    var exp := TriedExponent(m, e, radix, q, exp0);
    TriedNearest(m, e, radix, q, exp0);
    NoFewerDigits(m, e, radix, q, Try(m, e, radix, q, exp0));
    assert OnlyAbove(m, e, radix, c, k);
    BinadeTry(e, radix, q, exp0);
    NumeralPositive(c, radix, k);
    BinadeInterval(Numeral(c, radix, k), e);
    BinadeInterval(Try(m, e, radix, q, exp0), e);
    NearestIs(DoubleValue(m, e), radix, q, Try(m, e, radix, q, exp0), c, k);
    ExpPositive(2, e - 55);
    NextNumeral(DoubleValue(m, e), radix, q, exp0, Rescaled(m, e, radix, q, exp0), c, k);
  }

  lemma TriedNearest(m: int, e: int, radix: nat, q: nat, exp0: int)
    requires radix >= 2 && q >= 1 && IsDouble(m, e) && FirstExponent(radix, e, exp0)
    ensures Nearest(DoubleValue(m, e), radix, q, Try(m, e, radix, q, exp0)) && Try(m, e, radix, q, exp0) > 0.0
  {
    hide Pow, DoubleValue, Numeral, FirstExponent, Nearest, IsDouble, Rescaled;
    TriedCandidate(m, e, radix, q, exp0);
    var exp := TriedExponent(m, e, radix, q, exp0);
    PowPositive(radix, q - 1);
    NumeralPositive(Rescaled(m, e, radix, q, exp), radix, exp - q);
  }

  lemma NearestIs(d: real, radix: int, q: nat, v: real, c: int, k: int)
    requires radix >= 1 && Nearest(d, radix, q, v) && 0 <= c <= Pow(radix, q)
    ensures Distance(d, v) <= Distance(d, Numeral(c, radix, k))
  {
    hide Numeral, Pow;
  }

  /** Of the numerals with at most q digits that are greater than d, the one next to n is the least. */
  lemma NextNumeral(d: real, radix: nat, q: nat, exp0: int, n: int, c: int, k: int)
    requires radix >= 2 && q >= 1 && Exp(radix, exp0 - 1) <= d && 0 < c <= Pow(radix, q) && d < Numeral(c, radix, k)
    requires Numeral(n, radix, exp0 - q) < d
    ensures Numeral(n + 1, radix, exp0 - q) <= Numeral(c, radix, k)
  {
    hide Pow, Exp, Numeral;
    if k >= exp0 - q {
      var c1 := c * Pow(radix, k - (exp0 - q));
      NumeralScale(c, radix, k - (exp0 - q), exp0 - q);
      NumeralOrder(n, c1, radix, exp0 - q);
      NumeralOrder(c1, n + 1, radix, exp0 - q);
    } else {
      NumeralOrder(Pow(radix, q), c, radix, k);
      NumeralPower(radix, q, k);
      ExpMonotone(radix, k + q, exp0 - 1);
    }
  }

  lemma NumeralOrder(a: int, b: int, radix: int, k: int)
    requires radix >= 1
    ensures a < b <==> Numeral(a, radix, k) < Numeral(b, radix, k)
  {
    hide Exp;
    ExpPositive(radix, k);
    Compare(a as real, b as real, Exp(radix, k));
  }

  /** The numeral above the one tried reads back with fewer digits than the search needs. */
  lemma MissedIsShorter(m: int, e: int, radix: nat, p: nat, exp0: int, q: nat) returns (c: int, k: int)
    requires IsDouble(m, e) && radix >= 2 && p >= 1 && FirstExponent(radix, e, exp0)
    requires Searched(m, e, radix, p, exp0) && !Symmetric(m, e) && 1 <= q && MissedAt(e, radix, exp0, q)
    ensures Shorter(m, e, radix, p, c, k)
  {
    hide Pow, Exp, DoubleValue, RoundsTo, Numeral, FirstExponent, Rescaled, Moved;
    var n, d := Rescaled(m, e, radix, q, exp0), DoubleValue(m, e);
    BinadeTry(e, radix, q, exp0);
    ExpPositive(2, e - 54);
    ExpPositive(2, e - 55);
    TriedNearest(m, e, radix, q, exp0);
    BinadeInterval(Try(m, e, radix, q, exp0), e);
    assert !Returns(m, e, radix, q, exp0);
    assert q <= p - 1;
    AboveTried(m, e, radix, q, exp0);
    BinadeInterval(Numeral(n + 1, radix, exp0 - q), e);
    MissedRange(e, radix, q, exp0);
    PowMonotone(radix, q, p - 1);
    if n + 1 < Pow(radix, p - 1) {
      c, k := n + 1, exp0 - q;
    } else {
      PowMonotone(radix, 1, p - 1);
      PowZeroOne(radix);
      NumeralPower(radix, q, exp0 - q);
      NumeralPower(radix, 0, exp0);
      c, k := 1, exp0;
    }
  }

  /** One place more than the rounded number of places is more than the number. */
  lemma AboveTried(m: int, e: int, radix: nat, q: nat, exp0: int)
    requires radix >= 2
    ensures Numeral(Rescaled(m, e, radix, q, exp0) + 1, radix, exp0 - q) > DoubleValue(m, e)
  {
    hide Exp, DoubleValue, Numeral, Moved;
    var n, d := Rescaled(m, e, radix, q, exp0), DoubleValue(m, e);
    assert -(q - exp0) == exp0 - q;
    NumeralMoved(n + 1, radix, q - exp0);
    ExpPositive(radix, q - exp0);
    MovedLess(d, Numeral(n + 1, radix, exp0 - q), radix, q - exp0);
  }

  lemma MovedLess(x: real, y: real, radix: int, f: int)
    requires radix >= 1
    ensures x < y <==> Moved(x, radix, f) < Moved(y, radix, f)
  {
    hide Exp;
    ExpPositive(radix, f);
    Compare(x, y, Exp(radix, f));
  }

  lemma MissedRange(e: int, radix: nat, q: nat, exp0: int)
    requires radix >= 2 && q >= 1 && e > -1021 && FirstExponent(radix, e, exp0) && MissedAt(e, radix, exp0, q)
    ensures 0 <= Rescaled(TWO52, e, radix, q, exp0) < Pow(radix, q)
  {
    hide Pow, Exp, DoubleValue, Numeral, FirstExponent, Rescaled, IsDouble, HasExponent, Moved, Round;
    BinadeIsDouble(e);
    DoubleIsNormalised(TWO52, e);
    DoubleExponent(TWO52, e);
    RescaledIs(TWO52, e, radix, q, exp0);
    FirstTry(DoubleValue(TWO52, e), radix, q, e, exp0, NearestEven);
    PowPositive(radix, q - 1);
    BinadeTry(e, radix, q, exp0);
    ExpPositive(2, e - 55);
    NumeralPower(radix, q, exp0 - q);
    NumeralOrder(Rescaled(TWO52, e, radix, q, exp0), Pow(radix, q), radix, exp0 - q);
  }
}
