/** Rounding to float64 numbers m * 2^(e-53), subnormal ones included. */
module Float64 {
  import opened Powers
  import opened Limbs
  import opened Reals
  import opened Rounding
  import opened Bignum
  import opened DtoaTables
  import opened Scaling
  import opened RadixScaling

  const TWO52: int := 0x10_0000_0000_0000
  const MIN_ULP: int := -1074

  /** x lies in [2^(e-1), 2^e). */
  ghost predicate HasExponent(x: real, e: int) {
    Exp(2, e - 1) <= x < Exp(2, e)
  }

  /** The exponent of the last place of the numbers with exponent e; below 2^-1021 all have the same. */
  function Ulp(e: int): int {
    Max(e - 53, MIN_ULP)
  }

  /** x in units of 2^u. */
  ghost function Units(x: real, u: int): real {
    x * Exp(2, -u)
  }

  ghost function DoubleValue(m: int, e: int): real {
    m as real * Exp(2, e - 53)
  }

  /** x rounded to the last place of its exponent, normalised again when the mantissa overflows. */
  ghost predicate RoundsAt(x: real, mode: Mode, e0: int, m: int, e: int) {
    var m0 := Round(Units(x, Ulp(e0)), mode) * Pow(2, Ulp(e0) - (e0 - 53));
    if m0 >= TWO53 then m == m0 / 2 && e == e0 + 1 else m == m0 && e == e0
  }

  /** (m, e) is the float64 that x rounds to, if there were no largest exponent. */
  ghost predicate RoundsTo(x: real, mode: Mode, m: int, e: int) {
    exists e0 :: HasExponent(x, e0) && RoundsAt(x, mode, e0, m, e)
  }

  // ----- ranges -----

  lemma {:induction false} ExpOrder(i: int, j: int)
    ensures Exp(2, i) < Exp(2, j) <==> i < j
    ensures Exp(2, i) > 0.0
  {
    hide Exp;
    ExpPositive(2, i);
    ExpPositive(2, j);
    if i < j {
      ExpMonotone(2, i + 1, j);
      ExpStep(2, i);
    } else {
      ExpMonotone(2, j, i);
    }
  }

  lemma UniqueExponent(x: real, e: int, f: int)
    requires HasExponent(x, e) && HasExponent(x, f)
    ensures e == f
  {
    hide Exp;
    ExpOrder(e - 1, f);
    ExpOrder(f - 1, e);
  }

  lemma UnitsAre(x: real, u: int)
    ensures Units(x, u) == Times(x, Exp(2, -u))
  {
  }

  /** Changing the unit keeps the order with powers of two. */
  lemma UnitsOrder(x: real, u: int, k: int)
    ensures x < Exp(2, k) <==> Units(x, u) < Exp(2, k - u)
    ensures x == Exp(2, k) <==> Units(x, u) == Exp(2, k - u)
  {
    hide Exp;
    ExpAdd(2, k, -u);
    ExpPositive(2, -u);
    Compare(x, Exp(2, k), Exp(2, -u));
  }

  lemma PowIsExp(n: nat)
    ensures Exp(2, n) == Pow(2, n) as real
  {
    ExpIsPow(2, n);
  }

  /** The range of the mantissa before the overflow test. */
  lemma MantissaRange(x: real, e0: int, mode: Mode)
    requires HasExponent(x, e0)
    ensures var q := Round(Units(x, Ulp(e0)), mode);
            var m0 := q * Pow(2, Ulp(e0) - (e0 - 53));
            && 0 <= q <= TWO53
            && (m0 == 0 || TWO52 <= m0 <= TWO53)
  {
    hide Exp, Round, Pow, Units, HasExponent;
    var u := Ulp(e0);
    var prec := e0 - u;
    UnitsRange(x, e0, u);
    var y := Units(x, u);
    if prec >= 1 {
      PowIsExp(prec - 1);
      PowIsExp(prec);
      RoundBetween(y, Pow(2, prec - 1), Pow(2, prec), mode);
      PowAdd(2, prec - 1, 53 - prec);
      PowAdd(2, prec, 53 - prec);
      PowValues();
      PowPositive(2, 53 - prec);
      PowMonotone(2, prec, 53);
      PowPositive(2, prec - 1);
      Scale2(Pow(2, prec - 1), Round(y, mode), Pow(2, prec), Pow(2, 53 - prec));
    } else {
      SmallExp(prec - 1);
      SmallExp(prec);
      RoundSmall(y, prec, mode);
      PowValues();
    }
  }

  lemma UnitsRange(x: real, e0: int, u: int)
    requires HasExponent(x, e0)
    ensures Exp(2, e0 - u - 1) <= Units(x, u) < Exp(2, e0 - u)
  {
    hide Exp, Units;
    UnitsOrder(x, u, e0 - 1);
    UnitsOrder(x, u, e0);
  }

  lemma RoundBetween(y: real, a: int, b: int, mode: Mode)
    requires a as real <= y <= b as real
    ensures a <= Round(y, mode) <= b
  {
    hide Round;
    RoundMonotone(a as real, y, mode);
    RoundMonotone(y, b as real, mode);
    RoundInteger(a, mode);
    RoundInteger(b, mode);
  }

  lemma Scale2(a: int, x: int, b: int, p: int)
    requires a <= x <= b && p > 0
    ensures a * p <= x * p <= b * p
  {
  }

  lemma PowValues()
    ensures Pow(2, 52) == TWO52 && Pow(2, 53) == TWO53
  {
    FastPowIsPow(2, 52);
    FastPowIsPow(2, 53);
  }

  lemma SmallExp(k: int)
    requires k <= 0
    ensures 0.0 < Exp(2, k) <= 1.0
    ensures k <= -1 ==> Exp(2, k) <= 0.5
  {
    hide Exp;
    ExpPositive(2, k);
    ExpMonotone(2, k, 0);
    ExpZero(2);
    ExpStep(2, -1);
    if k <= -1 { ExpMonotone(2, k, -1); }
  }

  lemma RoundSmall(y: real, prec: int, mode: Mode)
    requires prec <= 0 && 0.0 <= y < 1.0 && (prec <= -1 ==> y < 0.5)
    ensures 0 <= Round(y, mode) <= 1
    ensures prec <= -1 ==> Round(y, mode) == 0
  {
    assert y.Floor == 0;
  }

  // ----- round_to_d -----

  lemma NonzeroValue(s: seq<Limb>)
    requires |s| >= 1 && NormalLimbs(s)
    ensures Value(s) == 0 <==> |s| == 1 && s[0] == 0
  {
    hide Value, Unit;
    if |s| == 1 { OneLimb(s); } else { NormalIff(s); }
  }

  lemma ScaledExponent(v: nat, log: nat, off: int)
    requires Pow(2, log) <= v < Pow(2, log + 1)
    ensures HasExponent(Scaled(v, -off), log + 1 - off)
  {
    hide Exp, Pow;
    PowIsExp(log);
    PowIsExp(log + 1);
    ExpAdd(2, log, -off);
    ExpAdd(2, log + 1, -off);
    ExpPositive(2, -off);
    Grows(Exp(2, log), v as real, Exp(2, -off));
    GrowsStrictly(v as real, Exp(2, log + 1), Exp(2, -off));
  }

  lemma ScaledUnits(v: nat, off: int, u: int)
    ensures Units(Scaled(v, -off), u) == Scaled(v, -(u + off))
  {
    hide Exp;
    ExpAdd(2, -off, -u);
    Associates(v as real, Exp(2, -off), Exp(2, -u));
  }

  /** A subnormal mantissa moved up by n bits. */
  function MovedUp(q: int, n: nat): int { q * Pow(2, n) }

  /** The value of the bignum after the shift, and where it ends up. */
  lemma Rounded(v: nat, log: nat, off: int, mode: Mode, q: nat, m: int, e: int)
    requires Pow(2, log) <= v < Pow(2, log + 1)
    requires q == Round(Scaled(v, -(Ulp(log + 1 - off) + off)), mode)
    requires var m0 := MovedUp(q, Ulp(log + 1 - off) - (log + 1 - off - 53));
             if m0 >= TWO53 then m == m0 / 2 && e == log + 1 - off + 1 else m == m0 && e == log + 1 - off
    ensures RoundsTo(Scaled(v, -off), mode, m, e)
    ensures m == 0 || TWO52 <= m < TWO53
  {
    hide Exp, Pow, Scaled, Round, Units, HasExponent;
    var x, e0 := Scaled(v, -off), log + 1 - off;
    ScaledExponent(v, log, off);
    ScaledUnits(v, off, Ulp(e0));
    MantissaRange(x, e0, mode);
    assert RoundsAt(x, mode, e0, m, e);
  }

  /** The intermediate values stay within 64 bits. */
  lemma RoundedFits(v: nat, log: nat, off: int, mode: Mode, q: nat)
    requires Pow(2, log) <= v < Pow(2, log + 1)
    requires q == Round(Scaled(v, -(Ulp(log + 1 - off) + off)), mode)
    ensures q <= TWO53
    ensures 0 <= MovedUp(q, Ulp(log + 1 - off) - (log + 1 - off - 53)) <= TWO53
  {
    hide Exp, Pow, Scaled, Round, Units, HasExponent;
    ScaledExponent(v, log, off);
    ScaledUnits(v, off, Ulp(log + 1 - off));
    MantissaRange(Scaled(v, -off), log + 1 - off, mode);
  }

  /** round_to_d: the number a * 2^-eOffset as a float64 (m, e). */
  method RoundToD(a: Mpb, eOffset: int, mode: Mode) returns (m: nat, e: int)
    requires a.Valid() && a.Normal() && a.Room(2)
    modifies a`len, a.tab
    ensures old(a.Val()) == 0 ==> m == 0
    ensures old(a.Val()) > 0 ==> RoundsTo(Scaled(old(a.Val()), -eOffset), mode, m, e)
    ensures m == 0 || TWO52 <= m < TWO53
  {
    hide Value, Pow, Exp, NormalLimbs, Scaled, Round, RoundsTo, RoundsAt, HasExponent, Ulp, MovedUp;
    ghost var v := a.Val();
    NonzeroValue(a.tab[..a.len]);
    if a.tab[0] == 0 && a.len == 1 {
      return 0, 0;
    }
    var log := a.FloorLog2();
    e := log + 1 - eOffset;
    var prec := 53;
    if e < -1021 {
      prec := prec - (-1021 - e);
    }
    UlpIs(e);
    a.ShrRound(e + eOffset - prec, mode);
    m := a.GetU64();
    ghost var q := a.Val();
    assert -(e + eOffset - prec) == -(Ulp(e) + eOffset);
    RoundedFits(v, log, eOffset, mode, q);
    m := MovedUp(m, 53 - prec) % (BASE * BASE);
    if m >= TWO53 {
      m := m / 2;
      e := e + 1;
    }
    Rounded(v, log, eOffset, mode, q, m, e);
  }

  lemma UlpIs(e: int)
    ensures e < -1021 ==> Ulp(e) == MIN_ULP
    ensures e >= -1021 ==> Ulp(e) == e - 53
  {
  }

  // ----- mul_pow_round_to_d -----

  /** A number with a sticky lowest bit and the number it stands for round to the same float64. */
  lemma StickyRoundsTo(t: real, w: nat, off: int, mode: Mode, m: int, e: int)
    requires t >= 0.0 && w == StickyFloor(t) && w >= Pow(2, 55)
    requires RoundsTo(Scaled(w, -off), mode, m, e)
    ensures RoundsTo(Times(t, Exp(2, -off)), mode, m, e)
  {
    hide Exp, Pow, Scaled, Round, Units, HasExponent, RoundsAt, StickyFloor, Times;
    var x := Scaled(w, -off);
    var e0 :| HasExponent(x, e0) && RoundsAt(x, mode, e0, m, e);
    StickyExponent(t, w, off, e0);
    StickyUnits(t, w, off, Ulp(e0), mode);
    SameRounding(x, Times(t, Exp(2, -off)), mode, e0, m, e);
  }

  lemma SameRounding(x: real, y: real, mode: Mode, e0: int, m: int, e: int)
    requires Round(Units(x, Ulp(e0)), mode) == Round(Units(y, Ulp(e0)), mode) && RoundsAt(x, mode, e0, m, e)
    ensures RoundsAt(y, mode, e0, m, e)
  {
    hide Round, Units;
  }

  /** Scaling by a power of two shifts the exponent. */
  lemma ScaleExponent(x: real, k: int, e: int)
    ensures HasExponent(Times(x, Exp(2, k)), e) <==> HasExponent(x, e - k)
  {
    hide Exp;
    ExpAdd(2, e - 1 - k, k);
    ExpAdd(2, e - k, k);
    ExpPositive(2, k);
    Compare(x, Exp(2, e - 1 - k), Exp(2, k));
    Compare(x, Exp(2, e - k), Exp(2, k));
  }

  lemma StickyExponent(t: real, w: nat, off: int, e0: int)
    requires t >= 0.0 && w == StickyFloor(t) && w >= Pow(2, 55)
    requires HasExponent(Scaled(w, -off), e0)
    ensures e0 + off >= 56 && HasExponent(Times(t, Exp(2, -off)), e0)
  {
    hide Exp, Pow, StickyFloor, Times;
    ScaledTimes(w, -off);
    ScaleExponent(w as real, -off, e0);
    ScaleExponent(t, -off, e0);
    var j := e0 + off;
    PowIsExp(55);
    ExpOrder(55, j);
    PowIsExp(j - 1);
    PowIsExp(j);
    EvenPower(j - 1, 1);
    EvenPower(j, 1);
    StickyOrder(t, Pow(2, j - 1));
    StickyOrder(t, Pow(2, j));
  }

  lemma StickyUnits(t: real, w: nat, off: int, u: int, mode: Mode)
    requires t >= 0.0 && w == StickyFloor(t) && u + off >= 2
    ensures Round(Units(Scaled(w, -off), u), mode) == Round(Units(Times(t, Exp(2, -off)), u), mode)
  {
    hide Exp, StickyFloor, Times, Round, Scaled, Units;
    ScaledUnits(w, off, u);
    ScaledTimes(w, -(u + off));
    TimesUnits(t, off, u);
    StickyIsInvisibleTimes(t, u + off, mode);
  }

  lemma TimesUnits(t: real, off: int, u: int)
    ensures Units(Times(t, Exp(2, -off)), u) == Times(t, Exp(2, -(u + off)))
  {
    hide Exp;
    ExpAdd(2, -off, -u);
    Associates(t, Exp(2, -off), Exp(2, -u));
  }

  /** mul_pow_round_to_d: the number a * radix^f rounded to a float64, without an intermediate rounding. */
  method MulPowRoundToD(a: Mpb, radix1: int, radixShift: nat, f: int, mode: Mode) returns (m: nat, e: int)
    requires radix1 == 1 || OddRadix(radix1)
    requires a.Valid() && a.Normal() && a.Room(ScalingRoom(f, 55) + 2)
    modifies a`len, a.tab
    ensures old(a.Val()) == 0 ==> m == 0
    ensures old(a.Val()) > 0 ==> RoundsTo(Target(old(a.Val()), radix1, radixShift, f, 0), mode, m, e)
    ensures m == 0 || TWO52 <= m < TWO53
  {
    hide Value, Pow, Exp, NormalLimbs, Target, StickyFloor, RoundsTo, Scaled, OddRadix, ScalingRoom;
    assert radix1 >= 1 by { RadixPositive(radix1); }
    ghost var v := a.Val();
    var eOffset := MulPow(a, radix1, radixShift, f, false, 55);
    ghost var w := a.Val();
    m, e := RoundToD(a, eOffset, mode);
    if v > 0 {
      TargetPositive(v, radix1, radixShift, f, eOffset);
      if f >= 0 || radix1 == 1 {
        ExactScaled(v, w, radix1, radixShift, f, eOffset, 0);
      } else {
        LargePositive(w);
        TargetTimes(v, radix1, radixShift, f, eOffset, -eOffset);
        StickyRoundsTo(Target(v, radix1, radixShift, f, eOffset), w, eOffset, mode, m, e);
      }
    } else {
      TargetZero(radix1, radixShift, f, eOffset);
    }
  }

  lemma RadixPositive(radix1: int)
    requires radix1 == 1 || OddRadix(radix1)
    ensures radix1 >= 1
  {
  }

  lemma LargePositive(w: int)
    requires Pow(2, 55) <= w
    ensures w > 0
  {
    PowPositive(2, 55);
  }

  lemma TargetZero(radix1: int, radixShift: nat, f: int, off: int)
    requires radix1 >= 1
    ensures StickyFloor(Target(0, radix1, radixShift, f, off)) == 0
  {
    hide Exp, Radix;
    assert Target(0, radix1, radixShift, f, off) == 0.0;
  }
}
