/** The formats of js_dtoa with a given number of digits: ties are rounded up, as toPrecision and toFixed ask for. */
module DtoaFixed {
  import opened Powers
  import opened Limbs
  import opened Reals
  import opened Rounding
  import opened Bignum
  import opened DtoaTables
  import opened Scaling
  import opened RadixScaling
  import opened Float64
  import opened DtoaReadBack
  import opened DtoaShortest
  import opened DtoaFreeFormat

  const DIGITS_MAX: int := 101 // JS_DTOA_MAX_DIGITS

  /** d moved by f places and rounded to an integer, ties up. */
  ghost function RoundedAt(m: int, e: int, radix: int, f: int): int
    requires radix >= 1
  {
    Round(Moved(DoubleValue(m, e), radix, f), NearestAway)
  }

  /** RoundedAt is nearest, and the larger one of two equally near integers. */
  lemma RoundedAtIsNearest(m: int, e: int, radix: int, f: int, n: int)
    requires radix >= 1
    ensures var y, v := Moved(DoubleValue(m, e), radix, f), RoundedAt(m, e, radix, f);
            && Abs(y - v as real) <= Abs(y - n as real)
            && (Abs(y - v as real) == Abs(y - n as real) ==> n <= v)
  {
    hide Moved, Round, DoubleValue;
    RoundIsNearest(Moved(DoubleValue(m, e), radix, f), n);
  }

  /** radix^p as a bignum. */
  method PowerOf(mantMax: Mpb, radix: nat, radix1: nat, radixShift: nat, p: nat)
    requires (radix1 == 1 || OddRadix(radix1)) && radixShift <= 5 && Radix(radix1, radixShift) == radix
             && p <= DIGITS_MAX
    requires mantMax.tab.Length >= 200
    modifies mantMax`len, mantMax.tab
    ensures mantMax.Valid() && mantMax.Normal() && mantMax.Val() == Pow(radix, p)
  {
    hide Pow, Exp, OddRadix, Target, Radix, Value, NormalLimbs, StickyFloor, Round, Scaled;
    mantMax.len, mantMax.tab[0] := 1, 1;
    OneLimb(mantMax.tab[..1]);
    var powShift := MulPow(mantMax, radix1, radixShift, p, false, 0);
    PowerScaled(mantMax.Val(), radix, radix1, radixShift, p, powShift);
    mantMax.ShrRound(powShift, TowardZero);
  }

  lemma PowerScaled(w: int, radix: nat, radix1: int, radixShift: nat, p: nat, powShift: int)
    requires (radix1 == 1 || OddRadix(radix1)) && radixShift <= 5 && Radix(radix1, radixShift) == radix
             && p <= DIGITS_MAX
    requires w >= 0 && powShift + p * radixShift == 0 && w as real == Target(1, radix1, radixShift, p, powShift)
    ensures -505 <= powShift <= 0
    ensures Round(Scaled(w, -powShift), TowardZero) == Pow(radix, p) > 0
  {
    hide Pow, Exp, OddRadix, Target, Radix, Round, Scaled;
    assert radix1 >= 1 by { RadixPositive(radix1); }
    ShiftSmall(p, radixShift);
    ExactScaled(1, w, radix1, radixShift, p, powShift, 0);
    TargetOne(radix, radix1, radixShift, p);
  }

  lemma ShiftSmall(p: nat, radixShift: nat)
    requires p <= DIGITS_MAX && radixShift <= 5
    ensures 0 <= p * radixShift <= 505
  {
  }

  lemma TargetOne(radix: nat, radix1: int, radixShift: nat, p: nat)
    requires radix1 >= 1 && Radix(radix1, radixShift) == radix && radix >= 1
    ensures Round(Target(1, radix1, radixShift, p, 0), TowardZero) == Pow(radix, p) > 0
  {
    hide Exp, Radix, Round, Pow;
    ExpZero(2);
    ExpIsPow(radix, p);
    PowPositive(radix, p);
    RoundInteger(Pow(radix, p), TowardZero);
  }

  /** What one round of the loop finds. */
  lemma FixedTry(m: int, e: int, radix: nat, p: nat, exp0: int, exp: int)
    requires radix >= 2 && p >= 1 && IsDouble(m, e) && FirstExponent(radix, e, exp0)
    requires exp == exp0 || (exp == exp0 + 1 && RoundedAt(m, e, radix, p - exp0) >= Pow(radix, p))
    ensures var n := RoundedAt(m, e, radix, p - exp);
            && (n < Pow(radix, p) || exp == exp0)
            && (n < Pow(radix, p) ==> Candidate(DoubleValue(m, e), radix, p, exp, n))
  {
    hide Pow, Exp, IsDouble, FirstExponent, Round, Moved, DoubleValue, Candidate;
    var d := DoubleValue(m, e);
    DoubleFits(m, e);
    if exp == exp0 {
      if RoundedAt(m, e, radix, p - exp) < Pow(radix, p) { FirstCandidate(d, radix, p, e, exp0, NearestAway); }
    } else {
      SecondCandidate(d, radix, p, e, exp0, NearestAway);
      CandidateDigits(d, radix, p, exp, RoundedAt(m, e, radix, p - exp));
    }
  }

  /** The format with p significant digits: the p-digit numeral nearest to the float64, the larger one of two. */
  method FixedFormat(tmp1: Mpb, mantMax: Mpb, m: nat, e: int, radix: nat, p: nat, exp0: int) returns (exp: int)
    requires 2 <= radix <= RADIX_MAX && IsDouble(m, e) && -1073 <= e <= 1024 && FirstExponent(radix, e, exp0)
    requires 1 <= p <= DIGITS_MAX && tmp1.tab.Length >= DTOA_ROOM && mantMax.tab.Length >= 200
    requires mantMax != tmp1 && mantMax.tab != tmp1.tab
    modifies tmp1`len, tmp1.tab, mantMax`len, mantMax.tab
    ensures tmp1.Valid() && tmp1.Normal() && tmp1.Room(1) && tmp1.Val() == RoundedAt(m, e, radix, p - exp)
    ensures Candidate(DoubleValue(m, e), radix, p, exp, tmp1.Val()) && exp0 <= exp <= exp0 + 1
  {
    hide Pow, Exp, IsDouble, OddRadix, FirstExponent, Round, Moved, DoubleValue, Candidate, Target, Radix, RoundingRoom,
      Value, NormalLimbs, RoundedAt;
    var radixShift := TrailingZeros(radix);
    SplitRadix(radix);
    var radix1 := radix / Pow(2, radixShift);
    ExponentBound(radix, e, exp0);
    DoubleFits(m, e);
    assert radix1 >= 1 by { RadixPositive(radix1); }
    PowerOf(mantMax, radix, radix1, radixShift, p);
    exp := exp0;
    while true
      invariant exp == exp0 || (exp == exp0 + 1 && RoundedAt(m, e, radix, p - exp0) >= Pow(radix, p))
      invariant mantMax.Valid() && mantMax.Normal() && mantMax.Val() == Pow(radix, p)
      decreases exp0 + 1 - exp
    {
      FixedRoom(p - exp, e);
      MulPowRound(tmp1, m, e - 53, radix1, radixShift, p - exp, NearestAway);
      TargetMoved(m, e, radix1, radixShift, p - exp);
      assert tmp1.Val() == RoundedAt(m, e, radix, p - exp) by { RoundedAtIs(m, e, radix, p - exp); }
      FixedTry(m, e, radix, p, exp0, exp);
      var c := tmp1.Cmp(mantMax);
      if c < 0 {
        break;
      }
      exp := exp + 1;
    }
  }

  lemma RoundedAtIs(m: int, e: int, radix: int, f: int)
    requires radix >= 1
    ensures RoundedAt(m, e, radix, f) == Round(Moved(DoubleValue(m, e), radix, f), NearestAway)
  {
  }

  lemma FixedRoom(f: int, e: int)
    requires -1130 <= f <= 1180 && -1073 <= e <= 1024
    ensures RoundingRoom(f, e - 53) <= DTOA_ROOM
  {
  }

  /** The format with f digits after the point. */
  method FracFormat(tmp1: Mpb, m: nat, e: int, radix: nat, f: nat)
    requires 2 <= radix <= RADIX_MAX && IsDouble(m, e) && -1073 <= e <= 1024
    requires f <= DIGITS_MAX && tmp1.tab.Length >= DTOA_ROOM
    modifies tmp1`len, tmp1.tab
    ensures tmp1.Valid() && tmp1.Normal() && tmp1.Room(1) && tmp1.Val() == RoundedAt(m, e, radix, f)
  {
    hide Pow, Exp, IsDouble, OddRadix, Round, Moved, DoubleValue, Target, Radix, RoundingRoom, Value, NormalLimbs,
      RoundedAt;
    var radixShift := TrailingZeros(radix);
    SplitRadix(radix);
    var radix1 := radix / Pow(2, radixShift);
    DoubleFits(m, e);
    assert radix1 >= 1 by { RadixPositive(radix1); }
    FixedRoom(f, e);
    MulPowRound(tmp1, m, e - 53, radix1, radixShift, f, NearestAway);
    TargetMoved(m, e, radix1, radixShift, f);
    RoundedAtIs(m, e, radix, f);
  }
}
