/** What it means that a real number rounds to a float64: nearest, ties to even, and which reals do so. */
module DtoaNearest {
  import opened Powers
  import opened Reals
  import opened Rounding
  import opened DtoaTables
  import opened Float64

  predicate Normalised(m: int) {
    TWO52 <= m < TWO53
  }

  /** n * 2^u. */
  ghost function Multiple(n: int, u: int): real {
    n as real * Exp(2, u)
  }

  lemma MultipleScale(n: int, k: nat, u: int)
    ensures Multiple(n * Pow(2, k), u) == Multiple(n, u + k)
  {
    hide Exp, Pow;
    PowIsExp(k);
    ExpAdd(2, k, u);
    RealProduct(n, Pow(2, k));
    Associates(n as real, Exp(2, k), Exp(2, u));
  }

  lemma DoubleExponent(m: int, e: int)
    requires Normalised(m)
    ensures HasExponent(DoubleValue(m, e), e)
  {
    hide Exp, Pow;
    PowValues();
    PowIsExp(52);
    PowIsExp(53);
    ExpAdd(2, 52, e - 53);
    ExpAdd(2, 53, e - 53);
    ExpPositive(2, e - 53);
    assert Exp(2, e - 1) == TWO52 as real * Exp(2, e - 53);
    assert Exp(2, e) == TWO53 as real * Exp(2, e - 53);
    Grows(TWO52 as real, m as real, Exp(2, e - 53));
    GrowsStrictly(m as real, TWO53 as real, Exp(2, e - 53));
  }

  lemma UniqueDouble(m: int, e: int, n: int, f: int)
    requires Normalised(m) && Normalised(n) && DoubleValue(m, e) == DoubleValue(n, f)
    ensures m == n && e == f
  {
    hide Exp, HasExponent;
    DoubleExponent(m, e);
    DoubleExponent(n, f);
    UniqueExponent(DoubleValue(m, e), e, f);
    ExpPositive(2, e - 53);
    Compare(m as real, n as real, Exp(2, e - 53));
  }

  /** The float64 that x rounds to is the rounded number of units, whether or not the mantissa overflows. */
  lemma RoundedValue(x: real, mode: Mode, e0: int, m: int, e: int)
    requires HasExponent(x, e0) && RoundsAt(x, mode, e0, m, e)
    ensures DoubleValue(m, e) == Multiple(Round(Units(x, Ulp(e0)), mode), Ulp(e0))
    ensures m == 0 || Normalised(m)
    ensures e == e0 || (e == e0 + 1 && m == TWO52)
  {
    hide Exp, Pow, HasExponent, Round, Units, Multiple;
    var u := Ulp(e0);
    var q := Round(Units(x, u), mode);
    MantissaRange(x, e0, mode);
    MultipleScale(q, u - (e0 - 53), e0 - 53);
    var m0 := q * Pow(2, u - (e0 - 53));
    MultipleDouble(m0, e0);
    if m0 >= TWO53 {
      OverflowValue(e0);
    }
  }

  lemma MultipleDouble(m: int, e: int)
    ensures DoubleValue(m, e) == Multiple(m, e - 53)
  {
  }

  lemma OverflowValue(e: int)
    ensures DoubleValue(TWO53, e) == DoubleValue(TWO52, e + 1)
  {
    hide Exp;
    ExpStep(2, e - 53);
  }

  /** A real rounds to (m, e) exactly when its rounded number of units has that value. */
  lemma RoundsByValue(x: real, mode: Mode, e0: int, m: int, e: int)
    requires HasExponent(x, e0) && Normalised(m)
    ensures RoundsTo(x, mode, m, e) <==> DoubleValue(m, e) == Multiple(Round(Units(x, Ulp(e0)), mode), Ulp(e0))
  {
    hide Exp, Pow, HasExponent, Round, Units, Multiple, DoubleValue, RoundsAt;
    var m1, e1 := Result(x, mode, e0);
    RoundedValue(x, mode, e0, m1, e1);
    if RoundsTo(x, mode, m, e) {
      var e2 :| HasExponent(x, e2) && RoundsAt(x, mode, e2, m, e);
      UniqueExponent(x, e0, e2);
      RoundedValue(x, mode, e0, m, e);
    }
    if DoubleValue(m, e) == DoubleValue(m1, e1) {
      ZeroDouble(m, e, m1, e1);
      UniqueDouble(m, e, m1, e1);
    }
  }

  lemma ZeroDouble(m: int, e: int, m1: int, e1: int)
    requires Normalised(m) && DoubleValue(m, e) == DoubleValue(m1, e1)
    ensures m1 != 0
  {
    hide Exp;
    ExpPositive(2, e - 53);
    GrowsStrictly(0.0, m as real, Exp(2, e - 53));
  }

  lemma Result(x: real, mode: Mode, e0: int) returns (m: int, e: int)
    ensures RoundsAt(x, mode, e0, m, e)
  {
    var m0 := Round(Units(x, Ulp(e0)), mode) * Pow(2, Ulp(e0) - (e0 - 53));
    if m0 >= TWO53 {
      m, e := m0 / 2, e0 + 1;
    } else {
      m, e := m0, e0;
    }
  }

  // ----- nearest -----

  /** The distance between two reals. */
  function Distance(x: real, y: real): real {
    if x < y then y - x else x - y
  }

  /** Distances in units. */
  lemma DistanceUnits(x: real, n: int, u: int, d: real)
    ensures Distance(x, Multiple(n, u)) <= d <==> Distance(Units(x, u), n as real) <= d * Exp(2, -u)
    ensures Distance(x, Multiple(n, u)) == d <==> Distance(Units(x, u), n as real) == d * Exp(2, -u)
  {
    hide Exp;
    ExpPositive(2, -u);
    MultipleUnits(n, u);
    var y := Multiple(n, u);
    DistanceTimes(x, y, Exp(2, -u));
    Compare(Distance(x, y), d, Exp(2, -u));
  }

  lemma MultipleUnits(n: int, u: int)
    ensures Units(Multiple(n, u), u) == n as real
  {
    hide Exp;
    ExpInverse(2, u);
    Associates(n as real, Exp(2, u), Exp(2, -u));
  }

  lemma DistanceTimes(x: real, y: real, z: real)
    requires z > 0.0
    ensures Distance(x, y) * z == Distance(x * z, y * z)
  {
    Compare(x, y, z);
  }

  /** Among the multiples of its unit, the rounded value is nearest to x; a tie goes to the even multiple. */
  lemma NearestMultiple(x: real, u: int, n: int)
    ensures var q := Round(Units(x, u), NearestEven);
            && Distance(x, Multiple(q, u)) <= Distance(x, Multiple(n, u))
            && (Distance(x, Multiple(q, u)) == Distance(x, Multiple(n, u)) && n != q ==> q % 2 == 0)
  {
    hide Exp, Units, Multiple, Round;
    var q := Round(Units(x, u), NearestEven);
    RoundIsNearest(Units(x, u), n);
    var d := Distance(x, Multiple(n, u));
    DistanceUnits(x, q, u, d);
    DistanceUnits(x, n, u, d);
  }

  /**
   * Rounding is to the nearest float64 number: no n * 2^k with n of at most 53 bits and k at least -1074 is closer to
   * x, and where another one is as close, the chosen one is the even multiple of the last place.
   */
  lemma RoundsToNearest(x: real, e0: int, m: int, e: int, n: nat, k: int)
    requires HasExponent(x, e0) && RoundsTo(x, NearestEven, m, e) && n <= TWO53 && k >= MIN_ULP
    ensures Distance(x, DoubleValue(m, e)) <= Distance(x, Multiple(n, k))
    ensures Distance(x, DoubleValue(m, e)) == Distance(x, Multiple(n, k)) && DoubleValue(m, e) != Multiple(n, k)
            ==> Round(Units(x, Ulp(e0)), NearestEven) % 2 == 0
  {
    hide Exp, Pow, Units, Multiple, Round, HasExponent, RoundsAt, DoubleValue;
    var e1 :| HasExponent(x, e1) && RoundsAt(x, NearestEven, e1, m, e);
    UniqueExponent(x, e0, e1);
    var u := Ulp(e0);
    RoundedValue(x, NearestEven, e0, m, e);
    if k >= u {
      MultipleScale(n, k - u, u);
      NearestMultiple(x, u, n * Pow(2, k - u));
    } else {
      NearestMultiple(x, u, TWO52);
      BelowBinade(x, e0, n, k);
    }
  }

  /** Numbers on a finer grid than that of x lie below its binade. */
  lemma BelowBinade(x: real, e0: int, n: nat, k: int)
    requires HasExponent(x, e0) && n <= TWO53 && MIN_ULP <= k < Ulp(e0)
    ensures Multiple(n, k) <= Multiple(TWO52, Ulp(e0)) <= x
  {
    hide Exp, Pow;
    PowValues();
    PowIsExp(52);
    PowIsExp(53);
    ExpAdd(2, 52, e0 - 53);
    ExpAdd(2, 53, k);
    ExpMonotone(2, 53 + k, e0 - 1);
    ExpPositive(2, k);
    Grows(n as real, TWO53 as real, Exp(2, k));
  }
}
