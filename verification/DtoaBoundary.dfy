/** A number that begins a binade and for which js_dtoa misses the shortest digits: 2^89 in decimal. */
module DtoaBoundary {
  import opened Powers
  import opened Reals
  import opened Rounding
  import opened Bignum
  import opened DtoaTables
  import opened Float64
  import opened DtoaNearest
  import opened DtoaReadBack
  import opened DtoaShortest
  import opened DtoaSearch
  import opened DtoaFreeFormat

  // ----- 2^89 in decimal -----

  const SHORTER: int := 6189700196426902 // 2^89 is 6189700196426901.37449562112 * 10^11
  const TEN11: int := 100000000000

  lemma Constants()
    ensures DoubleValue(TWO52, 90) == 618970019642690137449562112.0
    ensures Exp(2, 35) == 34359738368.0 && Exp(2, 36) == 68719476736.0
    ensures Exp(10, 11) == TEN11 as real
  {
    hide Pow, Exp, DoubleValue;
    PowerValue(90);
    ExpIsPow(2, 89);
    ExpIsPow(2, 35);
    ExpIsPow(2, 36);
    ExpIsPow(10, 11);
    FastPowIsPow(2, 89);
    FastPowIsPow(2, 35);
    FastPowIsPow(2, 36);
    FastPowIsPow(10, 11);
  }

  /** Sixteen digits suffice for 2^89. */
  lemma SixteenDigits()
    ensures RoundsTo(Numeral(SHORTER, 10, 11), NearestEven, TWO52, 90)
    ensures HasDigits(SHORTER, 10, 16)
  {
    hide Pow, Exp, DoubleValue, RoundsTo;
    Constants();
    BinadeInterval(Numeral(SHORTER, 10, 11), 90);
    FastPowIsPow(10, 15);
    FastPowIsPow(10, 16);
  }

  /** Every numeral of at most sixteen digits that reads back to 2^89 is this one. */
  lemma OnlyOne(c: int, k: int)
    requires 0 < c < Pow(10, 16) && RoundsTo(Numeral(c, 10, k), NearestEven, TWO52, 90)
    ensures Numeral(c, 10, k) == Numeral(SHORTER, 10, 11)
  {
    hide Pow, Exp, DoubleValue, RoundsTo, Numeral;
    Constants();
    NumeralPositive(c, 10, k);
    BinadeInterval(Numeral(c, 10, k), 90);
    if k < 11 {
      TooSmallNumeral(c, k);
    } else {
      NumeralScale(c, 10, k - 11, 11);
      MultipleOfTen11(c * Pow(10, k - 11));
    }
  }

  lemma TooSmallNumeral(c: int, k: int)
    requires 0 < c < Pow(10, 16) && k < 11
    ensures Numeral(c, 10, k) < 200000000000000000000000000.0
  {
    hide Pow, Exp;
    ExpMonotone(10, k, 10);
    ExpIsPow(10, 10);
    FastPowIsPow(10, 10);
    FastPowIsPow(10, 16);
    ExpPositive(10, k);
    ProductBelow(c as real, 10000000000000000.0, Exp(10, k), 10000000000.0);
  }

  lemma ProductBelow(x: real, a: real, y: real, b: real)
    requires 0.0 < x <= a && 0.0 < y <= b
    ensures x * y <= a * b
  {
    assert x * y <= a * y;
    assert a * y <= a * b;
  }

  lemma MultipleOfTen11(n: int)
    requires 618970019642690103089823744.0 <= Numeral(n, 10, 11) <= 618970019642690206169038848.0
    ensures n == SHORTER
  {
    hide Exp;
    Constants();
  }

  /** The nearest numeral of sixteen digits is another one, and it does not read back. */
  lemma NearestMisses(c: int, p: nat, k: int)
    requires HasDigits(c, 10, p) && p <= 16 && c % 10 != 0 && Nearest(DoubleValue(TWO52, 90), 10, p, Numeral(c, 10, k))
    ensures !RoundsTo(Numeral(c, 10, k), NearestEven, TWO52, 90)
  {
    hide Pow, Exp, DoubleValue, RoundsTo, Numeral, Nearest;
    PowMonotone(10, p, 16);
    PowPositive(10, p - 1);
    if RoundsTo(Numeral(c, 10, k), NearestEven, TWO52, 90) {
      OnlyOne(c, k);
      SameNumeral(c, k);
      assert p == 16 by { SixteenDigits(); if p < 16 { PowMonotone(10, p, 15); } }
      Farther();
    }
  }

  lemma Farther()
    ensures !Nearest(DoubleValue(TWO52, 90), 10, 16, Numeral(SHORTER, 10, 11))
  {
    hide Pow, Exp, DoubleValue;
    Constants();
    FastPowIsPow(10, 16);
    var d, v, w := DoubleValue(TWO52, 90), Numeral(SHORTER, 10, 11), Numeral(SHORTER - 1, 10, 11);
    assert Distance(d, w) < Distance(d, v);
  }

  /** A numeral without a zero at the end has only one mantissa and exponent. */
  lemma SameNumeral(c: int, k: int)
    requires c > 0 && c % 10 != 0 && Numeral(c, 10, k) == Numeral(SHORTER, 10, 11)
    ensures c == SHORTER && k == 11
  {
    hide Exp, Pow;
    if k >= 11 {
      NumeralScale(c, 10, k - 11, 11);
      Cancel(c * Pow(10, k - 11), SHORTER, 11);
      NoZeros(c, k - 11);
    } else {
      NumeralScale(SHORTER, 10, 11 - k, k);
      Cancel(SHORTER * Pow(10, 11 - k), c, k);
      TenDivides(SHORTER, 11 - k);
    }
  }

  lemma Cancel(a: int, b: int, k: int)
    requires Numeral(a, 10, k) == Numeral(b, 10, k)
    ensures a == b
  {
    hide Exp;
    ExpPositive(10, k);
    Compare(a as real, b as real, Exp(10, k));
  }

  lemma TenDivides(c: int, n: nat)
    requires n > 0
    ensures c * Pow(10, n) % 10 == 0
  {
    assert c * Pow(10, n) == 10 * (c * Pow(10, n - 1));
  }

  lemma NoZeros(c: int, n: nat)
    requires c * Pow(10, n) == SHORTER
    ensures n == 0 && c == SHORTER
  {
    if n > 0 { TenDivides(c, n); }
  }

  lemma HasDigitsBound()
    ensures 0 < SHORTER < Pow(10, 16)
  {
    hide Pow;
    FastPowIsPow(10, 16);
  }

  /** js_dtoa prints 2^89 with seventeen digits although sixteen would do. */
  method SeventeenDigits(tmp1: Mpb) returns (mant: nat, exp: int)
    requires tmp1.tab.Length >= DTOA_ROOM
    modifies tmp1`len, tmp1.tab
    ensures HasDigits(mant, 10, 17) && RoundsTo(Numeral(mant, 10, exp - 17), NearestEven, TWO52, 90)
    ensures HasDigits(SHORTER, 10, 16) && RoundsTo(Numeral(SHORTER, 10, 11), NearestEven, TWO52, 90)
    ensures Misses(TWO52, 90, 10)
  {
    hide Pow, RoundsTo, HasDigits, Nearest, Numeral, IsDouble, ShorterOnlyAbove, DoubleValue, Misses;
    BinadeIsDouble(90);
    SixteenDigits();
    var p;
    mant, p, exp := FreeFormat(tmp1, TWO52, 90, 10);
    if p <= 16 { NearestMisses(mant, p, exp - p); }
    assert p == 17;
    assert Shorter(TWO52, 90, 10, 17, SHORTER, 11) by { HasDigitsBound(); }
  }
}
