/** The last part of js_atod: from digits and exponents to the bits of a float64. */
module AtodConvert {
  import opened Powers
  import opened Limbs
  import opened Reals
  import opened Rounding
  import opened Bignum
  import opened DtoaTables
  import opened Scaling
  import opened RadixScaling
  import opened Float64
  import opened DtoaNearest
  import opened DtoaReadBack
  import opened DtoaLogTable
  import opened DtoaRadixTables
  import opened DtoaShortest
  import opened DtoaFreeFormat
  import opened AtodDigits

  const INFINITY_BITS: int := 0x7ff0_0000_0000_0000

  /** The bits of the magnitude m * 2^(e-53). */
  function Encode(m: nat, e: int): nat
    requires m == 0 || Normalised(m)
  {
    if m == 0 then 0
    else if e > 1024 then INFINITY_BITS
    else if e < -1073 then 0
    else if e < -1021 then SubnormalBits(m, -e - 1021)
    else (e + 1022) * TWO52 + (m - TWO52)
  }

  function SubnormalBits(m: nat, shift: nat): nat {
    PowPositive(2, shift);
    QuotientAtMost(m, Pow(2, shift));
    m / Pow(2, shift)
  }

  /** a is the float64 nearest to x, ties to even, with overflow to infinity. */
  ghost predicate CorrectBits(x: real, a: nat) {
    exists m: nat, e: int :: (m == 0 || Normalised(m)) && RoundsTo(x, NearestEven, m, e) && a == Encode(m, e)
  }

  // ----- results outside the range -----

  /** Every positive real has a binary exponent. */
  lemma AnyExponent(x: real) returns (e: int)
    requires x > 0.0
    ensures HasExponent(x, e)
  {
    hide Exp, HasExponent;
    var y := 1.0 / x;
    var n, k := x.Floor + 1, y.Floor + 1;
    ReciprocalPositive(x, y);
    PowerExceeds(n);
    PowerExceeds(k);
    ReciprocalBound(x, y, k);
    e := SomeExponent(x, -k, n);
  }

  lemma ReciprocalPositive(x: real, y: real)
    requires x > 0.0 && y == 1.0 / x
    ensures y > 0.0 && y * x == 1.0
  {
    Cancel(1.0, x);
  }

  lemma {:induction false} PowerExceeds(n: int)
    requires n >= 0
    ensures Exp(2, n) > n as real
    decreases n
  {
    if n > 0 {
      PowerExceeds(n - 1);
      ExpPositive(2, n - 1);
      ExpMonotone(2, 0, n - 1);
    }
  }

  lemma ReciprocalBound(x: real, y: real, k: int)
    requires x > 0.0 && y > 0.0 && y * x == 1.0 && Exp(2, k) > y
    ensures Exp(2, -k) <= x
  {
    hide Exp;
    ExpInverse(2, k);
    ExpPositive(2, -k);
    GrowsStrictly(y, Exp(2, k), Exp(2, -k));
    Compare(Exp(2, -k), x, y);
  }

  lemma TooLarge(x: real)
    requires x >= Exp(2, 1024)
    ensures CorrectBits(x, INFINITY_BITS)
  {
    hide Exp, Round, Units, HasExponent, Pow, RoundsTo, RoundsAt;
    ExpOrder(1024, 1024);
    var e0 := AnyExponent(x);
    assert e0 > 1024 by { LargeExponent(x, e0); }
    var m, e := Result(x, NearestEven, e0);
    MantissaRange(x, e0, NearestEven);
    RoundedValue(x, NearestEven, e0, m, e);
    FullMantissa(x, e0, m, e);
    assert RoundsTo(x, NearestEven, m, e) by { IsRounded(x, e0, m, e); }
    assert Encode(m, e) == INFINITY_BITS;
  }

  lemma IsRounded(x: real, e0: int, m: int, e: int)
    requires HasExponent(x, e0) && RoundsAt(x, NearestEven, e0, m, e)
    ensures RoundsTo(x, NearestEven, m, e)
  {
  }

  lemma LargeExponent(x: real, e0: int)
    requires x >= Exp(2, 1024) && HasExponent(x, e0)
    ensures e0 > 1024
  {
    hide Exp;
    ExpOrder(1024, e0);
  }

  /** A normal number does not round to zero. */
  lemma FullMantissa(x: real, e0: int, m: int, e: int)
    requires HasExponent(x, e0) && e0 >= -1021 && RoundsAt(x, NearestEven, e0, m, e)
    ensures m >= TWO52
  {
    hide Exp, Round, Units, HasExponent, Pow;
    UnitsRange(x, e0, e0 - 53);
    PowIsExp(52);
    PowIsExp(53);
    PowValues();
    PowZeroOne(2);
    RoundBetween(Units(x, e0 - 53), TWO52, TWO53, NearestEven);
  }

  lemma TooSmall(x: real)
    requires 0.0 < x <= Exp(2, -1075)
    ensures CorrectBits(x, 0)
  {
    hide Exp, Round, Units, HasExponent, Pow, RoundsTo, RoundsAt;
    var e0 := AnyExponent(x);
    assert e0 <= -1074 by { SmallExponent(x, e0); }
    var m, e := Result(x, NearestEven, e0);
    ZeroMantissa(x, e0, m, e);
    assert RoundsTo(x, NearestEven, m, e) by { IsRounded(x, e0, m, e); }
    assert Encode(m, e) == 0;
  }

  lemma SmallExponent(x: real, e0: int)
    requires x <= Exp(2, -1075) && HasExponent(x, e0)
    ensures e0 <= -1074
  {
    hide Exp;
    ExpOrder(-1075, e0 - 1);
    ExpOrder(e0 - 1, -1075);
    if e0 > -1074 { ExpMonotone(2, -1074, e0 - 1); ExpOrder(-1075, -1074); }
  }

  /** Up to half of the smallest number everything rounds to zero. */
  lemma ZeroMantissa(x: real, e0: int, m: int, e: int)
    requires 0.0 < x <= Exp(2, -1075) && HasExponent(x, e0) && e0 <= -1074 && RoundsAt(x, NearestEven, e0, m, e)
    ensures m == 0
  {
    hide Exp, Pow, Units;
    UnitsOrder(x, -1074, -1075);
    HalfUnit();
    ExpPositive(2, 1074);
    UnitsAre(x, -1074);
    Compare(0.0, x, Exp(2, 1074));
    ZeroUnits(Units(x, -1074));
  }

  lemma ZeroUnits(y: real)
    requires 0.0 <= y <= 0.5
    ensures Round(y, NearestEven) == 0
  {
    assert y.Floor == 0;
  }

  /** A float64 in range is encoded without loss. */
  lemma RoundedBits(x: real, m: nat, e: int)
    requires RoundsTo(x, NearestEven, m, e) && (m == 0 || Normalised(m))
    ensures CorrectBits(x, Encode(m, e))
  {
  }

  /** The guard for exponents below those of the subnormal numbers never fires for a nonzero mantissa. */
  lemma NonzeroExponent(x: real, m: int, e: int)
    requires RoundsTo(x, NearestEven, m, e) && m != 0
    ensures e >= -1073
  {
    hide Exp, Round, Units, HasExponent, Pow, RoundsAt, Multiple, DoubleValue;
    var e0 :| HasExponent(x, e0) && RoundsAt(x, NearestEven, e0, m, e);
    RoundedValue(x, NearestEven, e0, m, e);
    if e0 <= -1075 {
      VerySmall(x, e0, m, e);
    } else if e0 == -1074 {
      OnePlace(x, m, e);
    }
  }

  lemma VerySmall(x: real, e0: int, m: int, e: int)
    requires HasExponent(x, e0) && e0 <= -1075 && RoundsAt(x, NearestEven, e0, m, e)
    ensures m == 0
  {
    hide Exp, Pow, Units;
    UnitsRange(x, e0, -1074);
    SmallExp(e0 + 1074);
    SmallExp(e0 + 1073);
    RoundSmall(Units(x, -1074), e0 + 1074, NearestEven);
  }

  lemma OnePlace(x: real, m: int, e: int)
    requires HasExponent(x, -1074) && RoundsAt(x, NearestEven, -1074, m, e)
    ensures m == 0 || e == -1073
  {
    hide Exp, Units, HasExponent, Round;
    var q := Round(Units(x, -1074), NearestEven);
    PowValues();
    MantissaRange(x, -1074, NearestEven);
    assert Ulp(-1074) - (-1074 - 53) == 53;
    if q >= 1 { MulMonotone(1, q, TWO53, TWO53); }
    if q <= 0 { MulMonotone(0, 0, TWO53, TWO53); }
  }

  // ----- the number that the text denotes -----

  /**
   * The value of the digits ds with frac of them after the point, times the radix or two to the power of the exponent:
   * what a numeral denotes.
   */
  ghost function TextValue(ds: seq<nat>, radix: nat, frac: int, expn: int, binary: bool): real
    requires radix >= 2
  {
    Numeral(DigitsValue(ds, radix), radix, (if binary then 0 else expn) - frac) * Exp(2, if binary then expn else 0)
  }

  /** The number of bits of a digit for a power of two, otherwise 0. */
  function RadixShiftBits(radix: int): int {
    if RadixBits(radix) > 0 then RadixBits(radix) else 0
  }

  predicate FitsInt(x: int) {
    -0x8000_0000 <= x <= 0x7fff_ffff
  }

  /** The exponent of the lowest digit that the bignum holds. */
  function LowExponent(radix: int, offset: int, expn: int, binary: bool): int {
    var bits := RadixShiftBits(radix);
    if bits == 0 then expn - offset else (if binary then expn else expn * bits) - offset * bits
  }

  /** No int overflows on the way to that exponent. */
  predicate ExponentFits(radix: int, digits: nat, offset: int, expn: int, binary: bool) {
    var bits := RadixShiftBits(radix);
    && (binary || FitsInt(expn * bits)) && FitsInt(offset * bits)
    && FitsInt(LowExponent(radix, offset, expn, binary))
    && FitsInt(LowExponent(radix, offset, expn, binary) + digits * Max(bits, 1))
  }

  /** The digits that count: all of them for a power of two, at most the table's number otherwise. */
  ghost function Kept(ds: seq<nat>, radix: int): (ks: seq<nat>)
    requires 2 <= radix <= RADIX_MAX && DigitsBelow(ds, radix)
    ensures DigitsBelow(ks, radix) && |ks| == |ds|
  {
    var n := ATOD_MAX_DIGITS[radix - 2];
    if RadixBits(radix) > 0 || |ds| <= n then ds
    else ds[..n] + seq(|ds| - n, _ => 0)
  }

  lemma {:induction false} ZerosValue(n: nat, radix: nat)
    requires radix >= 1
    ensures DigitsBelow(seq(n, _ => 0), radix) && DigitsValue(seq(n, _ => 0), radix) == 0
  {
    if n > 0 {
      ZerosValue(n - 1, radix);
      assert seq(n, _ => 0)[..n - 1] == seq(n - 1, _ => 0);
    }
  }

  /** For other radices the digits kept are those of the bignum followed by zeros. */
  lemma KeptValue(ds: seq<nat>, radix: int, digits: nat)
    requires 2 <= radix <= RADIX_MAX && DigitsBelow(ds, radix) && digits == Min(|ds|, ATOD_MAX_DIGITS[radix - 2])
    requires RadixBits(radix) < 0
    ensures DigitsBelow(ds[..digits], radix)
    ensures DigitsValue(Kept(ds, radix), radix) == DigitsValue(ds[..digits], radix) * Pow(radix, |ds| - digits)
  {
    hide DigitsValue, Pow;
    PowZeroOne(radix);
    if |ds| > digits {
      var zs := seq(|ds| - digits, _ => 0);
      ZerosValue(|ds| - digits, radix);
      DigitsConcat(ds[..digits], zs, radix);
    } else {
      assert ds[..digits] == ds;
    }
  }

  // ----- powers of two -----

  lemma PowerRadix(radix: int, bits: nat, k: int)
    requires bits > 0 && bits == RadixBits(radix)
    ensures radix >= 2 && Exp(radix, k) == Exp(2, bits * k) && Pow(2, bits) == radix
  {
    hide Pow, Exp;
    BitsOfRadix(radix, bits);
    ExpOfPower(2, bits, k);
  }

  /** The value as a real mantissa times a power of two, the mantissa having `digits` digits before its point. */
  lemma BinaryValue(ds: seq<nat>, radix: int, digits: nat, frac: int, expn: int, binary: bool)
    requires RadixBits(radix) > 0 && DigitsBelow(ds, radix) && digits <= |ds|
    ensures TextValue(ds, radix, frac, expn, binary)
         == Times(Numeral(DigitsValue(ds, radix), radix, digits - |ds|),
                  Exp(2, LowExponent(radix, frac - (|ds| - digits), expn, binary)))
  {
    hide Pow, Exp, DigitsValue, DigitsBelow;
    var bits := RadixBits(radix);
    var v, j, k := DigitsValue(ds, radix), (if binary then 0 else expn) - frac, digits - |ds|;
    var b := if binary then expn else 0;
    PowerRadix(radix, bits, j);
    PowerRadix(radix, bits, k);
    ExpAdd(2, bits * j, b);
    ExpAdd(2, bits * k, LowExponent(radix, frac - (|ds| - digits), expn, binary));
    Associates(v as real, Exp(2, bits * j), Exp(2, b));
    Associates(v as real, Exp(2, bits * k), Exp(2, LowExponent(radix, frac - (|ds| - digits), expn, binary)));
    ExponentSum(bits, expn, frac, k, binary);
  }

  lemma ExponentSum(bits: int, expn: int, frac: int, k: int, binary: bool)
    ensures bits * ((if binary then 0 else expn) - frac) + (if binary then expn else 0)
         == bits * k + ((if binary then expn else expn * bits) - (frac + k) * bits)
  {
    Powers.Distribute(frac, k, bits);
    if !binary { Powers.Distribute(expn, -frac, bits); }
  }

  /** All the digits are the first ones and what follows them. */
  lemma SplitDigits(ds: seq<nat>, radix: nat, digits: nat)
    requires radix >= 2 && DigitsBelow(ds, radix) && digits <= |ds|
    ensures DigitsBelow(ds[..digits], radix) && DigitsBelow(ds[digits..], radix)
    ensures var p := Pow(radix, |ds| - digits);
            && p > 0 && DigitsValue(ds, radix) / p == DigitsValue(ds[..digits], radix)
            && DigitsValue(ds, radix) % p == DigitsValue(ds[digits..], radix)
  {
    hide Pow, DigitsValue;
    assert ds == ds[..digits] + ds[digits..];
    DigitsConcat(ds[..digits], ds[digits..], radix);
    DigitsBound(ds[digits..], radix);
    PowPositive(radix, |ds| - digits);
    var p := Pow(radix, |ds| - digits);
    Unique(DigitsValue(ds, radix), p, DigitsValue(ds[..digits], radix), DigitsValue(ds[digits..], radix));
  }

  lemma {:induction false} ZeroDigits(ds: seq<nat>, radix: nat)
    requires radix >= 1 && DigitsBelow(ds, radix)
    ensures DigitsValue(ds, radix) == 0 <==> forall i :: 0 <= i < |ds| ==> ds[i] == 0
  {
    if ds != [] {
      var n := |ds| - 1;
      ZeroDigits(ds[..n], radix);
      var v := DigitsValue(ds[..n], radix);
      if v >= 1 { MulMonotone(1, v, 1, radix); }
      assert forall i :: 0 <= i < n ==> ds[..n][i] == ds[i];
    }
  }

  /** The sticky bit stands for the digits beyond the limit. */
  lemma StickyDigits(ds: seq<nat>, radix: nat, digits: nat, extra: nat, w: nat)
    requires radix >= 2 && DigitsBelow(ds, radix) && digits <= |ds|
    requires extra == 0 <==> forall i :: digits <= i < |ds| ==> ds[i] == 0
    requires DigitsBelow(ds[..digits], radix)
    requires var n := DigitsValue(ds[..digits], radix); w == if extra == 0 || n % 2 == 1 then n else n + 1
    ensures w == StickyFloor(Numeral(DigitsValue(ds, radix), radix, digits - |ds|))
    ensures extra == 0 ==> w as real == Numeral(DigitsValue(ds, radix), radix, digits - |ds|)
  {
    hide Pow, DigitsValue, Exp, StickyFloor;
    SplitDigits(ds, radix, digits);
    ZeroDigits(ds[digits..], radix);
    RestIsZero(ds, digits, extra);
    var k := |ds| - digits;
    RadixInverse(radix, k);
    var v, y := DigitsValue(ds, radix), Exp(radix, -k);
    assert Numeral(v, radix, digits - |ds|) == v as real * y;
    StickyOfRatio(v, Pow(radix, k), y);
    if extra == 0 { ExactQuotientValue(v, Pow(radix, k), y); }
  }

  lemma RestIsZero(ds: seq<nat>, digits: nat, extra: nat)
    requires digits <= |ds| && (extra == 0 <==> forall i :: digits <= i < |ds| ==> ds[i] == 0)
    ensures extra == 0 <==> forall i :: 0 <= i < |ds[digits..]| ==> ds[digits..][i] == 0
  {
    if forall i :: 0 <= i < |ds[digits..]| ==> ds[digits..][i] == 0 {
      forall i | digits <= i < |ds| ensures ds[i] == 0 { assert ds[i] == ds[digits..][i - digits]; }
    }
  }

  lemma ExactQuotientValue(v: nat, p: int, y: real)
    requires p > 0 && Inverse(p, y) && v % p == 0
    ensures v as real * y == (v / p) as real
  {
    hide Inverse;
    Rounding.DivMod(v, p);
    RatioParts(v, p, y, v / p, 0);
  }

  // ----- early exits -----

  /** The size of a number with `digits` digits, the first one not zero, before the point. */
  lemma ValueRange(t: real, w: nat, radix: int, digits: nat, e: int)
    requires radix >= 2 && digits >= 1 && Pow(radix, digits - 1) <= w < Pow(radix, digits)
             && w as real <= t < w as real + 1.0
    ensures Exp(radix, digits - 1) * Exp(2, e) <= Times(t, Exp(2, e)) <= Exp(radix, digits) * Exp(2, e)
    ensures Times(t, Exp(2, e)) > 0.0
  {
    hide Exp, Pow;
    PowPositive(radix, digits - 1);
    ExpIsPow(radix, digits - 1);
    ExpIsPow(radix, digits);
    ExpPositive(2, e);
    Grows(Exp(radix, digits - 1), t, Exp(2, e));
    Grows(t, Exp(radix, digits), Exp(2, e));
    GrowsStrictly(0.0, t, Exp(2, e));
  }

  lemma BinaryBounds(radix: int, bits: nat, digits: nat, e: int)
    requires bits > 0 && bits == RadixBits(radix) && digits >= 1
    ensures radix >= 2
    ensures Exp(radix, digits - 1) * Exp(2, e) == Exp(2, e + digits * bits - bits)
    ensures Exp(radix, digits) * Exp(2, e) == Exp(2, e + digits * bits)
  {
    hide Exp;
    PowerRadix(radix, bits, digits - 1);
    PowerRadix(radix, bits, digits);
    ExpAdd(2, bits * (digits - 1), e);
    ExpAdd(2, bits * digits, e);
    Powers.Distribute(digits, -1, bits);
  }

  /** The limits of the exponents, as reals. */
  lemma LimitValues(radix: int)
    requires 2 <= radix <= RADIX_MAX
    ensures Exp(2, 1024) <= Exp(radix, MAX_EXPONENT[radix - 2])
    ensures Exp(radix, MIN_EXPONENT[radix - 2]) <= Exp(2, -1075)
    ensures MAX_EXPONENT[radix - 2] <= 1024 && -1075 <= MIN_EXPONENT[radix - 2]
  {
    hide Exp, Pow, LogTableOk;
    TablesOk(radix);
    ExpIsPow(2, 1024);
    ExpIsPow(radix, MAX_EXPONENT[radix - 2]);
    ExpIsPow(2, 1075);
    ExpIsPow(radix, -MIN_EXPONENT[radix - 2]);
    ReciprocalOrderWeak(2, 1075, radix, -MIN_EXPONENT[radix - 2]);
    LimitRange(radix - 2);
  }

  lemma LimitRange(i: nat)
    requires i < |MAX_EXPONENT|
    ensures MAX_EXPONENT[i] <= 1024 && -1075 <= MIN_EXPONENT[i]
  {
  }

  lemma ReciprocalOrderWeak(b: int, i: int, c: int, j: int)
    requires b >= 1 && c >= 1 && Exp(b, i) <= Exp(c, j)
    ensures Exp(c, -j) <= Exp(b, -i)
  {
    hide Exp;
    if Exp(b, -i) < Exp(c, -j) { ReciprocalOrder(b, -i, c, -j); }
  }

  // ----- the conversion -----

  datatype Converted = Overflowed | Bits(a: nat)

  const ATOD_ROOM: int := 10000

  /** The facts about the digits that the scanner leaves behind. */
  ghost predicate DigitsReady(ds: seq<nat>, radix: nat, digits: nat, extra: nat, w: nat) {
    && 2 <= radix <= RADIX_MAX && DigitsBelow(ds, radix) && |ds| > 0 && ds[0] != 0
    && digits == Min(|ds|, ATOD_MAX_DIGITS[radix - 2])
    && (extra == 0 <==> forall i :: digits <= i < |ds| ==> ds[i] == 0)
    && w == DigitsValue(ds[..digits], radix)
  }

  lemma ReadyRange(ds: seq<nat>, radix: nat, digits: nat, extra: nat, w: nat)
    requires DigitsReady(ds, radix, digits, extra, w)
    ensures 1 <= digits <= |ds| && digits <= 80 && Pow(radix, digits - 1) <= w < Pow(radix, digits) && w > 0
    ensures extra != 0 ==> digits == ATOD_MAX_DIGITS[radix - 2] < |ds|
  {
    hide Pow, DigitsValue;
    MaxScanned(radix);
    DigitsBound(ds[..digits], radix);
    PowPositive(radix, digits - 1);
  }

  /** js_atod for a power of two: all digits count, those beyond the limit by way of a sticky bit. */
  method ConvertBinary(r: Mpb, radix: nat, digits: nat, extra: nat, e: int, ghost ds: seq<nat>, ghost t: real)
    returns (a: nat)
    requires RadixBits(radix) > 0 && r.Valid() && r.Normal() && r.Room(2)
    requires DigitsReady(ds, radix, digits, extra, r.Val())
    requires t == Numeral(DigitsValue(ds, radix), radix, digits - |ds|)
    modifies r`len, r.tab
    ensures CorrectBits(Times(t, Exp(2, e)), a)
  {
    hide Value, Pow, Exp, NormalLimbs, Scaled, RoundsTo, CorrectBits, DigitsReady, DigitsValue, Numeral, StickyFloor,
      Encode;
    ghost var n := r.Val();
    ReadyRange(ds, radix, digits, extra, n);
    if extra != 0 {
      SetSticky(r);
    }
    ghost var w := r.Val();
    BinaryReady(ds, radix, digits, extra, n, w, t);
    var bits := RadixBits(radix);
    ValueRange(t, n, radix, digits, e);
    BinaryBounds(radix, bits, digits, e);
    var expn1 := e + digits * bits;
    if expn1 >= 1024 + bits {
      ExpMonotone(2, 1024, expn1 - bits);
      TooLarge(Times(t, Exp(2, e)));
      return INFINITY_BITS;
    } else if expn1 <= -1075 {
      ExpMonotone(2, expn1, -1075);
      TooSmall(Times(t, Exp(2, e)));
      return 0;
    }
    var m, e1 := RoundToD(r, -e, NearestEven);
    BinaryRounded(t, w, extra, e, m, e1);
    RoundedBits(Times(t, Exp(2, e)), m, e1);
    a := Encode(m, e1);
  }

  lemma BinaryReady(ds: seq<nat>, radix: nat, digits: nat, extra: nat, n: nat, w: nat, t: real)
    requires RadixBits(radix) > 0 && DigitsReady(ds, radix, digits, extra, n)
    requires t == Numeral(DigitsValue(ds, radix), radix, digits - |ds|)
    requires w == if extra == 0 || n % 2 == 1 then n else n + 1
    ensures n as real <= t < n as real + 1.0 && w == StickyFloor(t) && w > 0
    ensures extra == 0 ==> w as real == t
    ensures extra != 0 ==> w >= Pow(2, 55)
  {
    hide Pow, Exp, DigitsValue, Numeral;
    ReadyRange(ds, radix, digits, extra, n);
    StickyDigits(ds, radix, digits, extra, w);
    FloorOfDigits(ds, radix, digits, t);
    if extra != 0 {
      EnoughDigits(radix);
      PowMonotone(radix, digits - 1, digits - 1);
    }
  }

  lemma FloorOfDigits(ds: seq<nat>, radix: nat, digits: nat, t: real)
    requires radix >= 2 && DigitsBelow(ds, radix) && digits <= |ds|
    requires t == Numeral(DigitsValue(ds, radix), radix, digits - |ds|)
    ensures DigitsValue(ds[..digits], radix) as real <= t < DigitsValue(ds[..digits], radix) as real + 1.0
  {
    hide Pow, Exp, DigitsValue, Inverse, DigitsBelow;
    SplitDigits(ds, radix, digits);
    var k := |ds| - digits;
    RadixInverse(radix, k);
    FloorOfRatio(DigitsValue(ds, radix), Pow(radix, k), Exp(radix, -k));
  }

  lemma FloorOfRatio(v: nat, p: int, y: real)
    requires p > 0 && Inverse(p, y)
    ensures (v / p) as real <= v as real * y < (v / p) as real + 1.0
  {
    hide Inverse;
    Rounding.DivMod(v, p);
    var q, r := v / p, v % p;
    RatioParts(v, p, y, q, r);
    FractionOrder(r, p, y);
    var x, f := v as real * y, r as real * y;
    assert x == q as real + f;
  }

  /** The digits kept for a power of two have more than 55 bits. */
  lemma EnoughDigits(radix: nat)
    requires RadixBits(radix) > 0
    ensures Pow(radix, ATOD_MAX_DIGITS[radix - 2] - 1) >= Pow(2, 55)
  {
    hide Pow;
    var bits, n := RadixBits(radix), ATOD_MAX_DIGITS[radix - 2] - 1;
    BitsOfRadix(radix, bits);
    PowOfPow(2, bits, n);
    assert bits * n >= 55;
    PowMonotone(2, 55, bits * n);
  }

  lemma BinaryRounded(t: real, w: nat, extra: nat, e: int, m: nat, e1: int)
    requires w == StickyFloor(t) && w > 0 && t >= 0.0 && (extra == 0 ==> w as real == t)
             && (extra != 0 ==> w >= Pow(2, 55))
    requires RoundsTo(Scaled(w, e), NearestEven, m, e1)
    ensures RoundsTo(Times(t, Exp(2, e)), NearestEven, m, e1)
  {
    hide Pow, Exp, RoundsTo, Scaled, StickyFloor;
    assert e == -(-e);
    if extra == 0 {
      ScaledTimes(w, e);
    } else {
      StickyRoundsTo(t, w, -e, NearestEven, m, e1);
    }
  }

  /** The value of the digits kept, for a radix that is no power of two. */
  lemma OtherValue(ds: seq<nat>, radix: nat, digits: nat, extra: nat, n: nat, frac: int, expn: int)
    requires RadixBits(radix) < 0 && DigitsReady(ds, radix, digits, extra, n)
    ensures TextValue(Kept(ds, radix), radix, frac, expn, false)
         == Numeral(n, radix, expn - (frac - (|ds| - digits)))
  {
    hide Pow, Exp, DigitsValue, Kept, DigitsBelow;
    MaxScanned(radix);
    KeptValue(ds, radix, digits);
    NumeralScale(n, radix, |ds| - digits, expn - frac);
    ExpZero(2);
  }

  lemma OtherRange(n: nat, radix: int, digits: nat, e: int)
    requires radix >= 2 && digits >= 1 && Pow(radix, digits - 1) <= n < Pow(radix, digits)
    ensures Exp(radix, e + digits - 1) <= Numeral(n, radix, e) <= Exp(radix, e + digits)
    ensures Numeral(n, radix, e) > 0.0
  {
    hide Exp, Pow;
    PowPositive(radix, digits - 1);
    ExpIsPow(radix, digits - 1);
    ExpIsPow(radix, digits);
    ExpAdd(radix, digits - 1, e);
    ExpAdd(radix, digits, e);
    ExpPositive(radix, e);
    Grows(Exp(radix, digits - 1), n as real, Exp(radix, e));
    Grows(n as real, Exp(radix, digits), Exp(radix, e));
    NumeralPositive(n, radix, e);
  }

  /** js_atod for other radices: the number in the bignum times a power of the radix. */
  method ConvertOther(r: Mpb, radix: nat, digits: nat, e: int, ghost n: nat) returns (a: nat)
    requires 2 <= radix <= RADIX_MAX && 1 <= digits <= 80
    requires r.Valid() && r.Normal() && r.len <= 82 && r.tab.Length >= ATOD_ROOM
    requires n == r.Val() && n > 0 && Pow(radix, digits - 1) <= n < Pow(radix, digits)
    modifies r`len, r.tab
    ensures CorrectBits(Numeral(n, radix, e), a)
  {
    hide Value, Pow, Exp, NormalLimbs, RoundsTo, CorrectBits, Numeral, Encode, Target, Radix, OddRadix;
    OtherRange(n, radix, digits, e);
    LimitValues(radix);
    var expn1 := e + digits;
    if expn1 >= MAX_EXPONENT[radix - 2] + 1 {
      ExpMonotone(radix, MAX_EXPONENT[radix - 2], e + digits - 1);
      TooLarge(Numeral(n, radix, e));
      return INFINITY_BITS;
    } else if expn1 <= MIN_EXPONENT[radix - 2] {
      ExpMonotone(radix, e + digits, MIN_EXPONENT[radix - 2]);
      TooSmall(Numeral(n, radix, e));
      return 0;
    }
    SplitRadix(radix);
    var radixShift := TrailingZeros(radix);
    var radix1 := radix / Pow(2, radixShift);
    RadixPositive(radix1);
    var m, e1 := MulPowRoundToD(r, radix1, radixShift, e, NearestEven);
    TargetNumeral(n, radix1, radixShift, e);
    RoundedBits(Numeral(n, radix, e), m, e1);
    a := Encode(m, e1);
  }

  /**
   * The end of js_atod: the float64 nearest to the number that the digits and the exponent denote, unless the exponent
   * leaves the range of int on the way.
   */
  method Convert(r: Mpb, radix: nat, digits: nat, extra: nat, offset: int, expn: int, binary: bool, ghost ds: seq<nat>)
    returns (c: Converted)
    requires r.Valid() && r.Normal() && r.len <= 82 && r.tab.Length >= ATOD_ROOM
    requires 2 <= radix <= RADIX_MAX && DigitsReady(ds, radix, digits, extra, r.Val())
    requires binary ==> RadixBits(radix) > 0
    modifies r`len, r.tab
    ensures c.Overflowed? <==> !ExponentFits(radix, digits, offset, expn, binary)
    ensures c.Bits? ==> CorrectBits(TextValue(Kept(ds, radix), radix, offset + (|ds| - digits), expn, binary), c.a)
  {
    hide Value, Pow, Exp, NormalLimbs, CorrectBits, Numeral, DigitsReady, DigitsValue, DigitsBelow, Kept, TextValue,
      Times;
    ReadyRadix(ds, radix, digits, extra, r.Val());
    if !ExponentFits(radix, digits, offset, expn, binary) {
      return Overflowed;
    }
    ghost var n := r.Val();
    ReadyRange(ds, radix, digits, extra, n);
    var e := LowExponent(radix, offset, expn, binary);
    var a: nat;
    if RadixBits(radix) > 0 {
      KeptAll(ds, radix);
      BinaryValue(ds, radix, digits, offset + (|ds| - digits), expn, binary);
      a := ConvertBinary(r, radix, digits, extra, e, ds, Numeral(DigitsValue(ds, radix), radix, digits - |ds|));
    } else {
      OtherValue(ds, radix, digits, extra, n, offset + (|ds| - digits), expn);
      a := ConvertOther(r, radix, digits, e, n);
    }
    c := Bits(a);
  }

  lemma ReadyRadix(ds: seq<nat>, radix: nat, digits: nat, extra: nat, w: nat)
    requires DigitsReady(ds, radix, digits, extra, w)
    ensures 2 <= radix <= RADIX_MAX && DigitsBelow(ds, radix)
  {
  }

  lemma KeptAll(ds: seq<nat>, radix: nat)
    requires RadixBits(radix) > 0 && DigitsBelow(ds, radix)
    ensures Kept(ds, radix) == ds
  {
  }
}
