/** The search of js_dtoa for the shortest digits that read back to the same float64. */
module DtoaFreeFormat {
  import opened Powers
  import opened Limbs
  import opened Reals
  import opened Rounding
  import opened Bignum
  import opened DtoaTables
  import opened Scaling
  import opened RadixScaling
  import opened Float64
  import opened DtoaNearest
  import opened DtoaReadBack
  import opened DtoaLogTable
  import opened DtoaRadixTables
  import opened DtoaShortest
  import opened DtoaSearch

  // ----- facts about candidates -----

  /** Dropping a trailing zero digit keeps the numeral and its properties. */
  lemma TrailingZero(d: real, radix: int, p: nat, exp: int, n: int)
    requires radix >= 2 && Candidate(d, radix, p, exp, n) && n % radix == 0
    ensures p >= 2 && Candidate(d, radix, p - 1, exp, n / radix)
    ensures Numeral(n / radix, radix, exp - (p - 1)) == Numeral(n, radix, exp - p)
  {
    hide Numeral, Nearest, Pow;
    CandidateIs(d, radix, p, exp, n);
    DivideExactly(n, radix);
    DigitRange(n, radix, p);
    PowZeroOne(radix);
    NumeralScale(n / radix, radix, 1, exp - p);
    NearestFewer(d, radix, p, p - 1, Numeral(n, radix, exp - p));
  }

  lemma CandidateIs(d: real, radix: int, p: nat, exp: int, n: int)
    requires radix >= 1 && Candidate(d, radix, p, exp, n)
    ensures HasDigits(n, radix, p) && Nearest(d, radix, p, Numeral(n, radix, exp - p))
    ensures n >= 1 && Numeral(n, radix, exp - p) > 0.0
  {
    PowPositive(radix, p - 1);
    NumeralPositive(n, radix, exp - p);
  }

  lemma DigitRange(n: int, radix: int, p: nat)
    requires radix >= 2 && HasDigits(n, radix, p) && n >= 1 && n == radix * (n / radix)
    ensures p >= 2 && HasDigits(n / radix, radix, p - 1)
  {
    var q := n / radix;
    PowPositive(radix, p - 1);
    if p == 1 {
      PowZeroOne(radix);
      if q >= 1 { MulMonotoneLeft(radix, 1, q); }
      if q <= 0 { MulMonotoneLeft(radix, q, 0); }
    } else {
      CancelDigit(radix, Pow(radix, p - 2), q);
      CancelDigit2(radix, q, Pow(radix, p - 1));
    }
  }

  lemma CancelDigit(radix: int, a: int, q: int)
    requires radix >= 1 && radix * a <= radix * q
    ensures a <= q
  {
    if q < a { MulMonotoneLeft(radix, q + 1, a); Distribute(q, 1, radix); }
  }

  lemma CancelDigit2(radix: int, q: int, b: int)
    requires radix >= 1 && radix * q < radix * b
    ensures q < b
  {
    if b <= q { MulMonotoneLeft(radix, b, q); }
  }

  lemma RoundsToUnique(x: real, mode: Mode, m: int, e: int, n: int, f: int)
    requires RoundsTo(x, mode, m, e) && RoundsTo(x, mode, n, f)
    ensures m == n && e == f
  {
    hide HasExponent;
    var e0 :| HasExponent(x, e0) && RoundsAt(x, mode, e0, m, e);
    var e1 :| HasExponent(x, e1) && RoundsAt(x, mode, e1, n, f);
    UniqueExponent(x, e0, e1);
  }

  // ----- the radix -----

  /** ctz32. */
  function TrailingZeros(x: nat): (n: nat)
    requires x > 0
  {
    if x % 2 == 1 then 0 else 1 + TrailingZeros(x / 2)
  }

  /** A radix is its odd part times a power of two. */
  lemma SplitRadix(radix: nat)
    requires 2 <= radix <= RADIX_MAX
    ensures var s := TrailingZeros(radix);
            && s <= 5 && Pow(2, s) > 0 && radix % Pow(2, s) == 0
            && var r1 := radix / Pow(2, s);
            && (r1 == 1 || OddRadix(r1)) && Radix(r1, s) == radix
  {
    hide Pow, TrailingZeros;
    var s := TrailingZeros(radix);
    OddPart(radix);
    PowPositive(2, s);
    if s >= 6 { PowMonotone(2, 6, s); PowSix(); }
  }

  lemma PowSix()
    ensures Pow(2, 6) == 64
  {
    assert Pow(2, 3) == 8;
    PowAdd(2, 3, 3);
  }

  lemma {:induction false} OddPart(x: nat)
    requires x > 0
    ensures Pow(2, TrailingZeros(x)) > 0
    ensures var p := Pow(2, TrailingZeros(x));
            p <= x && x % p == 0 && x / p % 2 == 1 && x == (x / p) * p && 1 <= x / p <= x
  {
    if x % 2 == 0 {
      OddPart(x / 2);
      var p := Pow(2, TrailingZeros(x / 2));
      var q := x / 2 / p;
      MulAssociates(q, 2, p);
      MulAssociates(2, q, p);
      Unique(x, 2 * p, q, 0);
    } else {
      Unique(x, 1, x, 0);
    }
  }

  // ----- what the two scalings compute -----

  lemma TargetMoved(m: nat, e: int, radix1: int, radixShift: nat, f: int)
    requires radix1 >= 1
    ensures Target(m, radix1, radixShift, f, e - 53) == Moved(DoubleValue(m, e), Radix(radix1, radixShift), f)
  {
    hide Exp, Radix;
    Swap(m as real, Exp(Radix(radix1, radixShift), f), Exp(2, e - 53));
  }

  lemma TargetNumeral(n: nat, radix1: int, radixShift: nat, f: int)
    requires radix1 >= 1
    ensures Target(n, radix1, radixShift, f, 0) == Numeral(n, Radix(radix1, radixShift), f)
  {
    hide Exp, Radix;
    ExpZero(2);
  }

  /** The first exponent lies between those of the smallest and the largest float64. */
  lemma ExponentBound(radix: int, e: int, exp0: int)
    requires radix >= 2 && FirstExponent(radix, e, exp0) && -1073 <= e <= 1024
    ensures -1074 <= exp0 <= 1025
  {
    hide Exp;
    FirstExponentIs(radix, e, exp0);
    if exp0 > 1025 {
      PowerAbove(radix, exp0 - 1);
      ExpOrder(e - 1, exp0 - 1);
    }
    if exp0 < -1074 {
      PowerBelow(radix, -exp0);
      ExpOrder(exp0, e - 1);
    }
  }

  lemma {:induction false} PowerAbove(radix: int, n: int)
    requires radix >= 2 && n >= 0
    ensures Exp(radix, n) >= Exp(2, n)
    decreases n
  {
    ExpIsPow(radix, n);
    ExpIsPow(2, n);
    PowBase(2, radix, n);
  }

  lemma PowerBelow(radix: int, n: int)
    requires radix >= 2 && n >= 0
    ensures Exp(radix, -n) <= Exp(2, -n)
  {
    hide Exp;
    PowerAbove(radix, n);
    if Exp(radix, -n) > Exp(2, -n) {
      ReciprocalOrder(2, -n, radix, -n);
    }
  }

  // ----- the search -----

  const DTOA_ROOM: int := 10000

  /** One try: the mantissa of p digits, at the first exponent or at the next one. */
  method TryDigits(tmp1: Mpb, m: nat, e: int, radix: nat, radix1: nat, radixShift: nat, p: nat, exp0: int)
    returns (mant: nat, exp: int)
    requires 2 <= radix <= RADIX_MAX && IsDouble(m, e) && -1073 <= e <= 1024 && FirstExponent(radix, e, exp0)
    requires (radix1 == 1 || OddRadix(radix1)) && radixShift <= 5 && Radix(radix1, radixShift) == radix
    requires 1 <= p <= DTOA_MAX_DIGITS[radix - 2] && tmp1.tab.Length >= DTOA_ROOM
    modifies tmp1`len, tmp1.tab
    ensures Candidate(DoubleValue(m, e), radix, p, exp, mant) && mant < BASE * BASE && exp0 <= exp <= exp0 + 1
    ensures exp == TriedExponent(m, e, radix, p, exp0) && mant == Rescaled(m, e, radix, p, exp)
  {
    hide Pow, Exp, IsDouble, OddRadix, FirstExponent, Round, Moved, DoubleValue, RoundsTo, Candidate, Target, Numeral,
      Radix, FastPow, RoundingRoom, Rescaled;
    DigitsFit(radix, p);
    ExponentBound(radix, e, exp0);
    DoubleFits(m, e);
    assert radix1 >= 1 by { RadixPositive(radix1); }
    var mantMax := PowUi(radix, p);
    exp := exp0;
    while true
      invariant exp == exp0 || (exp == exp0 + 1 && Rescaled(m, e, radix, p, exp0) >= Pow(radix, p))
      decreases exp0 + 1 - exp
    {
      RoomForTry(p, exp, e);
      MulPowRound(tmp1, m, e - 53, radix1, radixShift, p - exp, NearestEven);
      TargetMoved(m, e, radix1, radixShift, p - exp);
      assert tmp1.Val() == Rescaled(m, e, radix, p, exp) by { RescaledIs(m, e, radix, p, exp); }
      Tried(m, e, radix, p, exp0, exp);
      mant := tmp1.GetU64();
      if mant < mantMax {
        break;
      }
      exp := exp + 1;
    }
  }

  /** The table of digit counts: a mantissa and its doubled bound fit 64 bits. */
  lemma DigitsFit(radix: nat, p: nat)
    requires 2 <= radix <= RADIX_MAX && p <= DTOA_MAX_DIGITS[radix - 2]
    ensures Pow(radix, p) > 0 && 2 * Pow(radix, p) < BASE * BASE
    ensures p <= 54 && Pow(radix, DTOA_MAX_DIGITS[radix - 2] - 1) >= TWO53
  {
    hide Pow, FastPow;
    MaxDigits(radix);
    var n := DTOA_MAX_DIGITS[radix - 2];
    PowMonotone(radix, p, n);
    PowPositive(radix, p);
  }

  lemma MaxDigits(radix: nat)
    requires 2 <= radix <= RADIX_MAX
    ensures 1 <= DTOA_MAX_DIGITS[radix - 2] <= 54
    ensures Pow(radix, DTOA_MAX_DIGITS[radix - 2] - 1) >= TWO53 && Pow(radix, DTOA_MAX_DIGITS[radix - 2]) < TWO63
  {
    hide Pow, FastPow;
    AllRadixFacts(radix);
    var n := DTOA_MAX_DIGITS[radix - 2];
    FastPowIsPow(radix, n);
    FastPowIsPow(radix, n - 1);
    DigitLimit(radix - 2);
  }

  lemma DigitLimit(i: nat)
    requires i < |DTOA_MAX_DIGITS|
    ensures 1 <= DTOA_MAX_DIGITS[i] <= 54
  {
  }

  lemma DoubleFits(m: int, e: int)
    requires IsDouble(m, e)
    ensures 0 < m < TWO53 && HasExponent(DoubleValue(m, e), e)
  {
    hide DoubleValue, HasExponent;
    DoubleExponent(m, e);
  }

  lemma RoomForTry(p: nat, exp: int, e: int)
    requires p <= 54 && -1074 <= exp <= 1026 && -1073 <= e <= 1024
    ensures RoundingRoom(p - exp, e - 53) <= DTOA_ROOM
  {
  }

  /** What one round of the inner loop finds. */
  lemma Tried(m: int, e: int, radix: nat, p: nat, exp0: int, exp: int)
    requires radix >= 2 && p >= 1 && IsDouble(m, e) && FirstExponent(radix, e, exp0)
    requires exp == exp0 || (exp == exp0 + 1 && Rescaled(m, e, radix, p, exp0) >= Pow(radix, p))
    ensures var n := Rescaled(m, e, radix, p, exp);
            && n <= 2 * Pow(radix, p)
            && (n < Pow(radix, p) || exp == exp0)
            && (n < Pow(radix, p) ==> Candidate(DoubleValue(m, e), radix, p, exp, n))
  {
    hide Pow, Exp, IsDouble, FirstExponent, Round, Moved, DoubleValue, RoundsTo, Candidate, Numeral;
    var d := DoubleValue(m, e);
    DoubleFits(m, e);
    if exp == exp0 {
      FirstTry(d, radix, p, e, exp0, NearestEven);
      if Rescaled(m, e, radix, p, exp) < Pow(radix, p) {
        FirstCandidate(d, radix, p, e, exp0, NearestEven);
      }
    } else {
      SecondCandidate(d, radix, p, e, exp0, NearestEven);
      CandidateDigits(d, radix, p, exp, Rescaled(m, e, radix, p, exp));
    }
  }

  lemma CandidateDigits(d: real, radix: int, p: nat, exp: int, n: int)
    requires radix >= 1 && Candidate(d, radix, p, exp, n)
    ensures p >= 1 && 1 <= Pow(radix, p - 1) <= n < Pow(radix, p)
  {
    PowPositive(radix, p - 1);
  }

  /** The loop that removes trailing zero digits. */
  method RemoveZeros(n: nat, radix: nat, p0: nat, exp: int, ghost m: int, ghost e: int, ghost exp0: int)
    returns (mant: nat, p: nat)
    requires radix >= 2 && Candidate(DoubleValue(m, e), radix, p0, exp, n)
    requires exp == TriedExponent(m, e, radix, p0, exp0) && n == Rescaled(m, e, radix, p0, exp)
    ensures p <= p0 && mant <= n && mant % radix != 0 && Candidate(DoubleValue(m, e), radix, p, exp, mant)
    ensures Numeral(mant, radix, exp - p) == Numeral(n, radix, exp - p0)
    ensures forall r: nat :: p <= r <= p0 ==> Try(m, e, radix, r, exp0) == Numeral(n, radix, exp - p0)
  {
    hide Candidate, Numeral, Pow, DoubleValue, Rescaled, TriedExponent, Try;
    ghost var d := DoubleValue(m, e);
    TryIs(m, e, radix, p0, exp0, exp, n);
    mant, p := n, p0;
    CandidateDigits(d, radix, p, exp, mant);
    while mant % radix == 0
      invariant p <= p0 && 1 <= mant <= n && Candidate(d, radix, p, exp, mant)
      invariant exp == TriedExponent(m, e, radix, p, exp0) && mant == Rescaled(m, e, radix, p, exp)
      invariant forall r: nat :: p <= r <= p0 ==> Try(m, e, radix, r, exp0) == Numeral(n, radix, exp - p0)
      invariant Numeral(mant, radix, exp - p) == Numeral(n, radix, exp - p0)
      decreases p
    {
      TrailingZero(d, radix, p, exp, mant);
      TryKept(m, e, radix, p, exp0, exp);
      TryIs(m, e, radix, p - 1, exp0, exp, mant / radix);
      QuotientAtMost(mant, radix);
      mant := mant / radix;
      p := p - 1;
      CandidateDigits(d, radix, p, exp, mant);
    }
  }

  lemma TryIs(m: int, e: int, radix: int, p: nat, exp0: int, exp: int, n: int)
    requires radix >= 1 && exp == TriedExponent(m, e, radix, p, exp0) && n == Rescaled(m, e, radix, p, exp)
    ensures Try(m, e, radix, p, exp0) == Numeral(n, radix, exp - p)
  {
  }

  /** Reads mant * radix^(exp-p) back. */
  method ReadBack(tmp1: Mpb, mant: nat, radix1: nat, radixShift: nat, p: nat, exp: int) returns (m1: nat, e1: int)
    requires (radix1 == 1 || OddRadix(radix1)) && 1 <= mant < BASE * BASE
    requires p <= 54 && -1074 <= exp <= 1026 && tmp1.tab.Length >= DTOA_ROOM
    modifies tmp1`len, tmp1.tab
    ensures radix1 >= 1 && RoundsTo(Numeral(mant, Radix(radix1, radixShift), exp - p), NearestEven, m1, e1)
  {
    hide Pow, Exp, OddRadix, RoundsTo, Target, Numeral, Radix;
    RadixPositive(radix1);
    tmp1.SetU64(mant);
    m1, e1 := MulPowRoundToD(tmp1, radix1, radixShift, exp - p, NearestEven);
    TargetNumeral(mant, radix1, radixShift, exp - p);
  }

  /**
   * The free format of js_dtoa: digits that read back to the float64 (m, e), nearest to it among all numerals with as
   * many digits; and no numeral with fewer digits reads back, except for the numbers of which Misses is true: those,
   * and only those, have a shorter numeral, above them.
   */
  method FreeFormat(tmp1: Mpb, m: nat, e: int, radix: nat) returns (mant: nat, p: nat, exp: int)
    requires 2 <= radix <= RADIX_MAX && IsDouble(m, e) && -1073 <= e <= 1024
    requires tmp1.tab.Length >= DTOA_ROOM
    modifies tmp1`len, tmp1.tab
    ensures p <= DTOA_MAX_DIGITS[radix - 2] && HasDigits(mant, radix, p) && mant % radix != 0
    ensures RoundsTo(Numeral(mant, radix, exp - p), NearestEven, m, e)
    ensures Nearest(DoubleValue(m, e), radix, p, Numeral(mant, radix, exp - p))
    ensures ShorterOnlyAbove(m, e, radix, p)
    ensures FewestUnlessMissed(m, e, radix, p)
    ensures -1074 <= exp <= 1026
    ensures tmp1.Valid() && tmp1.Normal() && tmp1.Room(1) && tmp1.Val() == mant
  {
    hide Pow, Exp, IsDouble, OddRadix, FloorLog, FirstExponent, Round, Moved, DoubleValue, RoundsTo, Candidate, Numeral,
      Radix, Nearest, HasDigits, Symmetric, Found, ShorterOnlyAbove, Rescaled, TriedExponent, Try, Returns, AllReturn,
      FewestUnlessMissed;
    var radixShift := TrailingZeros(radix);
    SplitRadix(radix);
    var radix1 := radix / Pow(2, radixShift);
    var log := MulLog2Radix(e - 1, radix);
    var exp0 := 1 + log;
    assert FirstExponent(radix, e, exp0) by { IsFirstExponent(radix, e, exp0); }
    ExponentBound(radix, e, exp0);
    var pMax := DTOA_MAX_DIGITS[radix - 2];
    var expFound, pFound, mantFound := 0, 0, 0;
    DigitsFit(radix, pMax);
    MaxReturn(m, e, radix, pMax, exp0);
    p := pMax;
    while true
      invariant 1 <= p <= pMax && pFound <= pMax
      invariant pFound == 0 ==> p == pMax
      invariant AllReturn(m, e, radix, if pFound == 0 then pMax else pFound, exp0)
      invariant pFound != 0 ==> -1074 <= expFound <= 1026
      invariant pFound != 0 ==> p == pFound - 1 && Found(m, e, radix, pFound, expFound, mantFound)
      decreases p
    {
      if pFound != 0 { FoundIs(m, e, radix, pFound, expFound, mantFound); }
      var n, exp1 := TryDigits(tmp1, m, e, radix, radix1, radixShift, p, exp0);
      ghost var q := p;
      mant, p := RemoveZeros(n, radix, p, exp1, m, e, exp0);
      exp := exp1;
      CandidateDigits(DoubleValue(m, e), radix, p, exp, mant);
      ghost var v := Numeral(mant, radix, exp - p);
      if pFound != 0 {
        var m1, e1 := ReadBack(tmp1, mant, radix1, radixShift, p, exp);
        if !(m1 == m && e1 == e) {
          Failed(m, e, radix, q, exp1, n, p, mant, m1, e1);
          assert Searched(m, e, radix, pFound, exp0) by { TryFails(m, e, radix, q, exp0, v, m1, e1); }
          break;
        }
      }
      assert RoundsTo(v, NearestEven, m, e) by { if pFound == 0 { TryReturns(m, e, radix, q, exp0, v); } }
      assert Found(m, e, radix, p, exp, mant) by { FoundIs(m, e, radix, p, exp, mant); }
      assert AllReturn(m, e, radix, p, exp0) by {
        FewerReturn(m, e, radix, if pFound == 0 then q else q + 1, q + 1, exp0);
        OneMore(m, e, radix, p, q, exp0, v);
      }
      pFound, expFound, mantFound := p, exp, mant;
      if p == 1 {
        OneDigit(m, e, radix);
        assert Searched(m, e, radix, 1, exp0);
        break;
      }
      p := p - 1;
    }
    p, exp, mant := pFound, expFound, mantFound;
    FoundIs(m, e, radix, p, exp, mant);
    NotShortestIff(m, e, radix, p, exp0);
    tmp1.SetU64(mant);
  }

  lemma TryReturns(m: int, e: int, radix: int, q: nat, exp0: int, v: real)
    requires radix >= 1 && AllReturn(m, e, radix, q, exp0) && Try(m, e, radix, q, exp0) == v
    ensures RoundsTo(v, NearestEven, m, e)
  {
    hide Try, RoundsTo;
    assert Returns(m, e, radix, q, exp0);
  }

  lemma TryFails(m: int, e: int, radix: int, q: nat, exp0: int, v: real, m1: int, e1: int)
    requires radix >= 1 && Try(m, e, radix, q, exp0) == v && RoundsTo(v, NearestEven, m1, e1) && !(m1 == m && e1 == e)
    ensures !Returns(m, e, radix, q, exp0)
  {
    hide Try, RoundsTo;
    if RoundsTo(v, NearestEven, m, e) { RoundsToUnique(v, NearestEven, m, e, m1, e1); }
  }

  lemma FewerReturn(m: int, e: int, radix: int, p: nat, q: nat, exp0: int)
    requires radix >= 1 && p <= q && AllReturn(m, e, radix, p, exp0)
    ensures AllReturn(m, e, radix, q, exp0)
  {
    hide Returns;
  }

  /** The state of the search after a success. */
  ghost predicate Found(m: int, e: int, radix: nat, p: nat, exp: int, mant: nat)
    requires radix >= 1
  {
    && p >= 1 && mant < BASE * BASE && mant % radix != 0
    && Candidate(DoubleValue(m, e), radix, p, exp, mant)
    && RoundsTo(Numeral(mant, radix, exp - p), NearestEven, m, e)
  }

  lemma FoundIs(m: int, e: int, radix: nat, p: nat, exp: int, mant: nat)
    requires radix >= 1
    ensures Found(m, e, radix, p, exp, mant)
       <==> && p >= 1 && mant < BASE * BASE && mant % radix != 0
            && Candidate(DoubleValue(m, e), radix, p, exp, mant)
            && RoundsTo(Numeral(mant, radix, exp - p), NearestEven, m, e)
    ensures Found(m, e, radix, p, exp, mant)
            ==> HasDigits(mant, radix, p) && Nearest(DoubleValue(m, e), radix, p, Numeral(mant, radix, exp - p))
  {
    hide Pow, DoubleValue, RoundsTo, Numeral, Nearest, HasDigits;
  }

  lemma IsFirstExponent(radix: int, e: int, exp0: int)
    requires radix >= 2 && FloorLog(radix, e - 1, exp0 - 1)
    ensures FirstExponent(radix, e, exp0)
  {
  }

  /** The nearest numeral of q digits does not read back, so none of at most q digits does. */
  lemma Failed(m: int, e: int, radix: nat, q: nat, exp: int, n: nat, p: nat, mant: nat, m1: int, e1: int)
    requires radix >= 2 && IsDouble(m, e) && Candidate(DoubleValue(m, e), radix, q, exp, n)
    requires Numeral(mant, radix, exp - p) == Numeral(n, radix, exp - q)
    requires RoundsTo(Numeral(mant, radix, exp - p), NearestEven, m1, e1) && !(m1 == m && e1 == e)
    ensures ShorterOnlyAbove(m, e, radix, q + 1)
  {
    hide Pow, DoubleValue, RoundsTo, Numeral, Nearest, HasDigits, IsDouble, Symmetric;
    var v := Numeral(n, radix, exp - q);
    if RoundsTo(v, NearestEven, m, e) {
      RoundsToUnique(v, NearestEven, m, e, m1, e1);
    }
    CandidateIs(DoubleValue(m, e), radix, q, exp, n);
    NoFewerDigits(m, e, radix, q, v);
  }
}
