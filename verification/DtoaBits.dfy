/** The bits of float64 numbers: how js_dtoa takes them apart, and that printing and parsing are inverse. */
module DtoaBits {
  import opened Powers
  import opened Reals
  import opened Rounding
  import opened Bignum
  import opened DtoaTables
  import opened Scaling
  import opened Float64
  import opened DtoaNearest
  import opened DtoaReadBack
  import opened DtoaShortest
  import opened DtoaFreeFormat
  import opened AtodDigits
  import opened AtodConvert

  /** A magnitude taken apart: js_dtoa prints the first three directly. */
  datatype Decoded = NaN | Infinite | Zero | Finite(m: nat, e: int)

  /** clz64(m) - 11 for a nonzero fraction of 52 bits: the shift that brings its top bit to bit 52. */
  function NormalisingShift(m: nat): (l: nat)
    requires 0 < m < TWO52
    ensures l >= 1 && Log2(m) + l == 52
  {
    assert Log2(m) <= 51 by {
      PowValues();
      if Log2(m) >= 52 { PowMonotone(2, 52, Log2(m)); }
    }
    52 - Log2(m)
  }

  function Decode(bits: nat): Decoded {
    var e, m := bits / TWO52 % 0x800, bits % TWO52;
    if e == 0x7ff then (if m == 0 then Infinite else NaN)
    else if e == 0 then
      if m == 0 then Zero
      else
        var l := NormalisingShift(m);
        PowPositive(2, l);
        MulMonotone(0, m, 0, Pow(2, l));
        Finite(m * Pow(2, l), -1021 - l)
    else Finite(m + TWO52, e - 1022)
  }

  /**
   * The bits of a float64 as section 3.4 of IEEE 754 reads them: eleven bits of exponent with the bias 1023 over 52
   * bits of fraction, subnormal numbers and zero with the least exponent, infinity and NaN with the greatest.
   */
  lemma DecodedAsIeee(bits: nat)
    ensures var e, f := bits / 0x10_0000_0000_0000 % 2048, bits % 0x10_0000_0000_0000;
            match Decode(bits)
            case NaN => e == 2047 && f != 0
            case Infinite => e == 2047 && f == 0
            case Zero => e == 0 && f == 0
            case Finite(m, x) =>
              && e < 2047 && (e == 0 ==> f != 0)
              && DoubleValue(m, x) == if e == 0 then f as real * Exp(2, -1022 - 52)
                                      else (0x10_0000_0000_0000 + f) as real * Exp(2, e - 1023 - 52)
  {
    hide Exp, Pow;
    var e, f := bits / TWO52 % 0x800, bits % TWO52;
    if e == 0 && f != 0 { ShiftedFraction(f, NormalisingShift(f)); }
  }

  /** Moving the fraction up and the exponent down does not change the number. */
  lemma ShiftedFraction(f: nat, l: nat)
    ensures DoubleValue(f * Pow(2, l), -1021 - l) == f as real * Exp(2, -1022 - 52)
  {
    hide Exp, Pow;
    ExpIsPow(2, l);
    ExpAdd(2, l, -1021 - l - 53);
    var a, b := Exp(2, l), Exp(2, -1021 - l - 53);
    ProductIsReal(f, Pow(2, l));
    Regroup(f as real, a, b);
  }

  lemma ProductIsReal(a: int, b: int)
    ensures (a * b) as real == a as real * b as real
  {
  }

  lemma Regroup(x: real, a: real, b: real)
    ensures (x * a) * b == x * (a * b)
  {
  }

  /** The pair that js_dtoa works on is a float64 in range, and it stands for the same bits. */
  lemma DecodedIsDouble(bits: nat)
    requires bits < TWO63
    ensures var d := Decode(bits);
            d.Finite? ==> IsDouble(d.m, d.e) && -1073 <= d.e <= 1024 && Encode(d.m, d.e) == bits
  {
    var e, m := bits / TWO52 % 0x800, bits % TWO52;
    assert bits / TWO52 < 0x800 && bits == TWO52 * e + m;
    if e == 0 && m != 0 {
      Subnormal(m);
    } else if e != 0x7ff && e != 0 {
      NormalIsDouble(m + TWO52, e - 1022);
    }
  }

  lemma NormalIsDouble(m: nat, e: int)
    requires Normalised(m) && -1021 <= e <= 1024
    ensures IsDouble(m, e)
  {
    PowZeroOne(2);
  }

  lemma Subnormal(m: nat)
    requires 0 < m < TWO52
    ensures var l: int := NormalisingShift(m);
            && IsDouble(m * Pow(2, l), -1021 - l) && l <= 52
            && Encode(m * Pow(2, l), -1021 - l) == m
  {
    hide Pow, Log2;
    var l: int, b := NormalisingShift(m), Log2(m);
    PowPositive(2, l);
    PowAdd(2, b, l);
    PowAdd(2, b + 1, l);
    PowValues();
    Scale2(Pow(2, b), m, Pow(2, b + 1) - 1, Pow(2, l));
    Powers.Distribute(Pow(2, b + 1), -1, Pow(2, l));
    Unique(m * Pow(2, l), Pow(2, l), m, 0);
    assert Ulp(-1021 - l) - (-1021 - l - 53) == l;
  }

  /** Encoding loses nothing: the bits of a float64 in range are taken apart into that float64. */
  lemma EncodedDecodes(m: nat, e: int)
    requires IsDouble(m, e) && -1073 <= e <= 1024
    ensures Encode(m, e) < INFINITY_BITS && Decode(Encode(m, e)) == Finite(m, e)
  {
    hide Pow, Log2;
    if e >= -1021 {
      NormalFields(e + 1022, m - TWO52);
    } else {
      SubnormalDecodes(m, -1021 - e);
    }
  }

  lemma NormalFields(e: int, m: int)
    requires 1 <= e <= 2046 && 0 <= m < TWO52
    ensures (e * TWO52 + m) / TWO52 % 0x800 == e && (e * TWO52 + m) % TWO52 == m && e * TWO52 + m < INFINITY_BITS
  {
  }

  lemma SubnormalDecodes(m: nat, k: nat)
    requires IsDouble(m, -1021 - k) && 1 <= k <= 52
    ensures Encode(m, -1021 - k) < TWO52 && Decode(Encode(m, -1021 - k)) == Finite(m, -1021 - k)
  {
    hide Pow, Log2;
    var e: int, p := -1021 - k, Pow(2, k);
    PowPositive(2, k);
    assert Ulp(e) - (e - 53) == k;
    var f := m / p;
    assert m == f * p by { DivideExactly(m, p); }
    PowValues();
    PowAdd(2, 52 - k, k);
    PowAdd(2, 53 - k, k);
    FieldBounds(f, p, Pow(2, 52 - k), Pow(2, 53 - k), m);
    PowMonotone(2, 53 - k, 52);
    PowPositive(2, 52 - k);
    LogIs(f, 52 - k);
    assert Encode(m, e) == f;
    assert NormalisingShift(f) == k;
  }

  lemma FieldBounds(f: int, p: int, low: int, high: int, m: int)
    requires p > 0 && m == f * p && low * p <= m < high * p
    ensures low <= f < high
  {
    if f < low { MulMonotone(f + 1, low, p, p); }
    if f >= high { MulMonotone(high, f, p, p); }
  }

  lemma LogIs(x: nat, l: nat)
    requires Pow(2, l) <= x < Pow(2, l + 1) && x >= 1
    ensures Log2(x) == l
  {
    hide Pow;
    var b := Log2(x);
    if b < l { PowMonotone(2, b + 1, l); }
    if l < b { PowMonotone(2, l + 1, b); }
  }

  // ----- what correct bits denote -----

  /** Half of a last place below 2^1024: from there on numbers round beyond the largest float64. */
  ghost function Overflow(): real {
    Exp(2, 1024) - Exp(2, 970)
  }

  /** Where the float64 that x rounds to is infinite. */
  lemma OverflowIff(x: real, m: int, e: int)
    requires RoundsTo(x, NearestEven, m, e)
    ensures m != 0 && e > 1024 <==> x >= Overflow()
  {
    hide Exp, Units, Round, Pow, RoundsAt;
    var e0 :| HasExponent(x, e0) && RoundsAt(x, NearestEven, e0, m, e);
    RoundedValue(x, NearestEven, e0, m, e);
    ExpPositive(2, 970);
    ExpStep(2, 1023);
    ExpMonotone(2, 970, 1023);
    if e0 >= 1025 {
      ExpMonotone(2, 1024, e0 - 1);
      FullMantissa(x, e0, m, e);
    } else if e0 <= 1023 {
      ExpMonotone(2, e0, 1023);
    } else {
      FullMantissa(x, e0, m, e);
      LastBinade(x, m, e);
    }
  }

  /** Of the numbers in the last binade those from half a last place below 2^1024 on are rounded up to it. */
  lemma LastBinade(x: real, m: int, e: int)
    requires HasExponent(x, 1024) && RoundsAt(x, NearestEven, 1024, m, e)
    ensures e == 1025 <==> x >= Overflow()
  {
    hide Exp, Pow, Round, Units;
    var y := Units(x, 971);
    PowZeroOne(2);
    assert Ulp(1024) == 971 && 971 - (1024 - 53) == 0;
    TopRounds(y);
    DistanceUnitsOf(x);
  }

  lemma TopRounds(y: real)
    ensures Round(y, NearestEven) >= TWO53 <==> y >= TWO53 as real - 0.5
  {
  }

  lemma DistanceUnitsOf(x: real)
    ensures Units(x, 971) >= TWO53 as real - 0.5 <==> x >= Overflow()
  {
    hide Exp, Pow;
    PowValues();
    PowIsExp(53);
    ExpAdd(2, 53, 971);
    ExpAdd(2, -1, 971);
    HalfUnit();
    ExpPositive(2, -971);
    ExpAdd(2, 971, -971);
    ExpZero(2);
    var u, v, z := Exp(2, 971), Exp(2, -971), TWO53 as real - 0.5;
    assert Overflow() == z * u;
    Compare(x, z * u, v);
    Associates(z, u, v);
  }

  /** Where it is zero. */
  lemma ZeroIff(x: real, m: int, e: int)
    requires RoundsTo(x, NearestEven, m, e)
    ensures m == 0 <==> x <= Exp(2, -1075)
  {
    hide Exp, Units, Round, Pow, RoundsAt;
    var e0 :| HasExponent(x, e0) && RoundsAt(x, NearestEven, e0, m, e);
    ExpPositive(2, e0 - 1);
    if e0 >= -1021 {
      FullMantissa(x, e0, m, e);
      ExpOrder(-1075, e0 - 1);
    } else {
      ZeroBinade(x, e0, m, e);
    }
  }

  lemma ZeroBinade(x: real, e0: int, m: int, e: int)
    requires HasExponent(x, e0) && e0 < -1021 && RoundsAt(x, NearestEven, e0, m, e)
    ensures m == 0 <==> x <= Exp(2, -1075)
  {
    hide Exp, Pow, Round, Units, HasExponent, DoubleValue, Multiple;
    RoundedValue(x, NearestEven, e0, m, e);
    var q := Round(Units(x, -1074), NearestEven);
    assert Ulp(e0) == MIN_ULP;
    SameMultipleZero(m, e, q);
    UnitsPositive(x, e0);
    HalfIsZero(Units(x, -1074));
    UnitsOrder(x, -1074, -1075);
    HalfUnit();
  }

  lemma UnitsPositive(x: real, e0: int)
    requires HasExponent(x, e0)
    ensures Units(x, -1074) > 0.0
  {
    hide Exp;
    ExpPositive(2, e0 - 1);
    ExpPositive(2, 1074);
    Compare(0.0, x, Exp(2, 1074));
  }

  lemma SameMultipleZero(m: int, e: int, q: int)
    requires DoubleValue(m, e) == Multiple(q, MIN_ULP)
    ensures m == 0 <==> q == 0
  {
    hide Exp;
    ExpPositive(2, e - 53);
    ExpPositive(2, MIN_ULP);
    Compare(m as real, 0.0, Exp(2, e - 53));
    Compare(0.0, m as real, Exp(2, e - 53));
    Compare(q as real, 0.0, Exp(2, MIN_ULP));
    Compare(0.0, q as real, Exp(2, MIN_ULP));
  }

  lemma HalfIsZero(y: real)
    requires y > 0.0
    ensures Round(y, NearestEven) == 0 <==> y <= 0.5
  {
  }

  /** What a number rounds to is a float64: below the normal range the mantissa is a multiple of the last place. */
  lemma RoundedIsDouble(x: real, m: int, e: int)
    requires RoundsTo(x, NearestEven, m, e) && m != 0
    ensures IsDouble(m, e) && e >= -1073
  {
    hide Exp, Units, Round, HasExponent, Pow, DoubleValue, Multiple;
    NonzeroExponent(x, m, e);
    var e0 :| HasExponent(x, e0) && RoundsAt(x, NearestEven, e0, m, e);
    RoundedValue(x, NearestEven, e0, m, e);
    var k: nat := Ulp(e) - (e - 53);
    PowPositive(2, k);
    if e == e0 {
      MultipleOf(Round(Units(x, Ulp(e0)), NearestEven), Pow(2, k));
    } else {
      PowValues();
      PowAdd(2, 52 - k, k);
      MultipleOf(Pow(2, 52 - k), Pow(2, k));
    }
  }

  lemma MultipleOf(q: int, p: int)
    requires p > 0
    ensures q * p % p == 0
  {
    Unique(q * p, p, q, 0);
  }

  /**
   * What the bits that js_atod returns denote: the float64 that the number rounds to, subnormal numbers included;
   * infinity exactly from half a last place below 2^1024 on; zero exactly up to half of the smallest float64.
   */
  lemma BitsDenote(x: real, a: nat)
    requires CorrectBits(x, a)
    ensures a < TWO63
    ensures Decode(a).Infinite? <==> x >= Overflow()
    ensures Decode(a).Zero? <==> x <= Exp(2, -1075)
    ensures x < Overflow() && x > Exp(2, -1075)
            ==> var d := Decode(a); d.Finite? && IsDouble(d.m, d.e) && d.e <= 1024 && RoundsTo(x, NearestEven, d.m, d.e)
  {
    hide Exp, RoundsTo, IsDouble, Overflow;
    var m: nat, e: int :| (m == 0 || Normalised(m)) && RoundsTo(x, NearestEven, m, e) && a == Encode(m, e);
    OverflowIff(x, m, e);
    ZeroIff(x, m, e);
    OverflowLarge();
    InfinityDecodes();
    if m != 0 {
      RoundedIsDouble(x, m, e);
      if e <= 1024 { EncodedDecodes(m, e); }
    }
  }

  lemma OverflowLarge()
    ensures Overflow() > Exp(2, -1075)
  {
    hide Exp;
    ExpStep(2, 1023);
    ExpMonotone(2, 970, 1023);
    ExpOrder(-1075, 970);
    ExpOrder(970, 1023);
  }

  lemma InfinityDecodes()
    ensures Decode(INFINITY_BITS) == Infinite && Decode(0) == Zero && INFINITY_BITS < TWO63
  {
  }

  lemma CorrectBitsUnique(x: real, a: nat, b: nat)
    requires CorrectBits(x, a) && CorrectBits(x, b)
    ensures a == b
  {
    hide RoundsTo;
    var m: nat, e: int :| (m == 0 || Normalised(m)) && RoundsTo(x, NearestEven, m, e) && a == Encode(m, e);
    var n: nat, f: int :| (n == 0 || Normalised(n)) && RoundsTo(x, NearestEven, n, f) && b == Encode(n, f);
    RoundsToUnique(x, NearestEven, m, e, n, f);
  }

  /**
   * Printing and parsing are inverse: the digits that FreeFormat finds for a float64, written with any position of the
   * point and the exponent that goes with it, are read back as the bits of that float64.
   */
  lemma PrintedReadsBack(bits: nat, radix: nat, mant: nat, p: nat, exp: int, ds: seq<nat>, frac: int, expn: int, a: nat)
    requires bits < TWO63 && 2 <= radix <= RADIX_MAX && Decode(bits).Finite?
    requires RoundsTo(Numeral(mant, radix, exp - p), NearestEven, Decode(bits).m, Decode(bits).e)
    requires p <= DTOA_MAX_DIGITS[radix - 2]
    requires DigitsBelow(ds, radix) && |ds| == p && DigitsValue(ds, radix) == mant && expn - frac == exp - p
    requires CorrectBits(TextValue(Kept(ds, radix), radix, frac, expn, false), a)
    ensures a == bits
  {
    hide RoundsTo, DigitsValue, Numeral, CorrectBits, Encode, Decode, DigitsBelow, Kept, Exp;
    var d := Decode(bits);
    DecodedIsDouble(bits);
    EnoughKept(radix, ds);
    ExpZero(2);
    DoubleIsNormalised(d.m, d.e);
    RoundedBits(Numeral(mant, radix, exp - p), d.m, d.e);
    CorrectBitsUnique(Numeral(mant, radix, exp - p), a, bits);
  }

  /** js_atod keeps at least as many digits as js_dtoa prints. */
  lemma EnoughKept(radix: nat, ds: seq<nat>)
    requires 2 <= radix <= RADIX_MAX && DigitsBelow(ds, radix) && |ds| <= DTOA_MAX_DIGITS[radix - 2]
    ensures Kept(ds, radix) == ds
  {
    TableOrder(radix - 2);
  }

  lemma TableOrder(i: nat)
    requires i < |DTOA_MAX_DIGITS|
    ensures DTOA_MAX_DIGITS[i] <= ATOD_MAX_DIGITS[i]
  {
  }
}
