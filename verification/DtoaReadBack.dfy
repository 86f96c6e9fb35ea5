/** Which reals read back to a given float64. */
module DtoaReadBack {
  import opened Powers
  import opened Reals
  import opened Rounding
  import opened DtoaTables
  import opened Scaling
  import opened Float64
  import opened DtoaNearest

  /** A normalised pair whose value is a multiple of the last place: a positive float64. */
  ghost predicate IsDouble(m: int, e: int) {
    PowPositive(2, Ulp(e) - (e - 53));
    Normalised(m) && m % Pow(2, Ulp(e) - (e - 53)) == 0
  }

  /** Both neighbours are at the same distance. */
  predicate Symmetric(m: int, e: int) {
    m != TWO52 || e <= -1021
  }

  /** The value in units of the last place. */
  ghost function Places(m: int, e: int): int {
    PowPositive(2, Ulp(e) - (e - 53));
    m / Pow(2, Ulp(e) - (e - 53))
  }

  lemma PlacesValue(m: int, e: int)
    requires IsDouble(m, e)
    ensures DoubleValue(m, e) == Multiple(Places(m, e), Ulp(e))
    ensures 1 <= Places(m, e) <= TWO53 - 1
    ensures e >= -1021 ==> Places(m, e) == m
  {
    hide Exp, Pow, Multiple;
    var k := Ulp(e) - (e - 53);
    PowPositive(2, k);
    DivideExactly(m, Pow(2, k));
    MultipleScale(Places(m, e), k, e - 53);
    MultipleDouble(m, e);
    QuotientRange(m, Pow(2, k));
    PowZeroOne(2);
  }

  lemma QuotientRange(m: int, p: int)
    requires p >= 1 && m % p == 0 && 1 <= m < TWO53
    ensures 1 <= m / p <= TWO53 - 1
  {
    DivideExactly(m, p);
    if m / p <= 0 { MulMonotoneLeft(p, m / p, 0); }
    MulGrows(p, m / p);
  }

  /** The sequence of binades covers the positive reals. */
  lemma {:induction false} SomeExponent(x: real, low: int, high: int) returns (e: int)
    requires Exp(2, low) <= x < Exp(2, high)
    ensures low < e <= high && HasExponent(x, e)
    decreases high - low
  {
    hide Exp;
    ExpOrder(low, high);
    if x >= Exp(2, high - 1) {
      e := high;
    } else {
      e := SomeExponent(x, low, high - 1);
    }
  }

  /** A real strictly within a half unit of q, or at half a unit of an even q, rounds to q. */
  lemma RoundsWithin(y: real, q: int)
    ensures Distance(y, q as real) < 0.5 ==> Round(y, NearestEven) == q
    ensures Distance(y, q as real) <= 0.5 && q % 2 == 0 ==> Round(y, NearestEven) == q
    ensures Round(y, NearestEven) == q ==> Distance(y, q as real) <= 0.5
    ensures Round(y, NearestEven) == q && Distance(y, q as real) == 0.5 ==> q % 2 == 0
  {
    var k := y.Floor;
    assert k as real <= y < k as real + 1.0;
  }

  lemma StrictlyWithin(y: real, q: int, mode: Mode)
    requires mode != TowardZero && Distance(y, q as real) < 0.5
    ensures Round(y, mode) == q
  {
    var k := y.Floor;
    assert k as real <= y < k as real + 1.0;
  }

  /** The closer real rounds to q if the farther one does. */
  lemma CloserRounds(x: real, y: real, q: int)
    requires Round(y, NearestEven) == q && Distance(x, q as real) <= Distance(y, q as real)
    ensures Round(x, NearestEven) == q
  {
    hide Round;
    RoundsWithin(x, q);
    RoundsWithin(y, q);
  }

  /**
   * Around a float64 with equally distant neighbours, the reals that read back to it are those whose units round to it.
   */
  lemma ReadsBackIff(y: real, m: int, e: int)
    requires IsDouble(m, e) && Symmetric(m, e) && y > 0.0
    ensures RoundsTo(y, NearestEven, m, e) ==> Round(Units(y, Ulp(e)), NearestEven) == Places(m, e)
    ensures Round(Units(y, Ulp(e)), NearestEven) == Places(m, e) ==> RoundsTo(y, NearestEven, m, e)
  {
    hide Exp, Pow, Multiple, Units, Round, IsDouble, DoubleValue, Places, HasExponent, RoundsAt;
    PlacesValue(m, e);
    var u, q := Ulp(e), Places(m, e);
    if RoundsTo(y, NearestEven, m, e) {
      var e0 :| HasExponent(y, e0) && RoundsAt(y, NearestEven, e0, m, e);
      RoundedValue(y, NearestEven, e0, m, e);
      assert Ulp(e0) == u;
      SameMultiple(Round(Units(y, u), NearestEven), q, u);
    }
    if Round(Units(y, u), NearestEven) == q {
      var e0 := ExponentNear(y, m, e);
      DoubleIsNormalised(m, e);
      RoundsByValue(y, NearestEven, e0, m, e);
    }
  }

  lemma DoubleIsNormalised(m: int, e: int)
    requires IsDouble(m, e)
    ensures Normalised(m)
  {
  }

  lemma SameMultiple(a: int, b: int, u: int)
    requires Multiple(a, u) == Multiple(b, u)
    ensures a == b
  {
    hide Exp;
    ExpPositive(2, u);
    Compare(a as real, b as real, Exp(2, u));
  }

  /** A real whose units round to the places of a float64 has the same last place. */
  lemma ExponentNear(y: real, m: int, e: int) returns (e0: int)
    requires IsDouble(m, e) && Symmetric(m, e) && y > 0.0
    requires Round(Units(y, Ulp(e)), NearestEven) == Places(m, e)
    ensures HasExponent(y, e0) && Ulp(e0) == Ulp(e)
  {
    hide Exp, Pow, Units, Round, IsDouble, Places, HasExponent;
    var u, q := Ulp(e), Places(m, e);
    PlacesValue(m, e);
    DoubleIsNormalised(m, e);
    RoundsWithin(Units(y, u), q);
    PlacesBelow(m, e);
    UnitsOrder(y, u, e);
    if e >= -1021 {
      PowValues();
      PowIsExp(52);
      UnitsOrder(y, u, e - 1);
      if q != TWO52 {
        e0 := e;
        ExponentIs(y, e);
        return;
      }
    }
    HalfUnit();
    UnitsOrder(y, u, -1075);
    e0 := SomeExponent(y, -1075, e);
  }

  lemma ExponentIs(y: real, e: int)
    requires !(y < Exp(2, e - 1)) && y < Exp(2, e)
    ensures HasExponent(y, e)
  {
  }

  lemma HalfUnit()
    ensures Exp(2, -1) == 0.5
  {
    ExpZero(2);
    ExpStep(2, -1);
  }

  lemma PlacesBelow(m: int, e: int)
    requires IsDouble(m, e)
    ensures Places(m, e) as real + 0.5 < Exp(2, e - Ulp(e))
  {
    hide Exp, Pow;
    var k := Ulp(e) - (e - 53);
    PowPositive(2, k);
    PowValues();
    DivideExactly(m, Pow(2, k));
    PlacesValue(m, e);
    FewPlacesLost(m, k, Places(m, e));
    PowAdd(2, k, 53 - k);
    QuotientBelow(m, Pow(2, k), Pow(2, 53 - k));
    PowIsExp(53 - k);
  }

  lemma FewPlacesLost(m: int, k: nat, q: int)
    requires m < TWO53 && m == Pow(2, k) * q && q >= 1
    ensures k <= 52
  {
    hide Pow;
    PowPositive(2, k);
    PowValues();
    MulMonotone(Pow(2, k), Pow(2, k), 1, q);
    if k >= 53 { PowMonotone(2, 53, k); }
  }

  /** What is closer to a float64 than a real that reads back to it reads back as well. */
  lemma CloserReadsBack(x: real, y: real, m: int, e: int)
    requires IsDouble(m, e) && Symmetric(m, e) && x > 0.0 && y > 0.0
    requires RoundsTo(y, NearestEven, m, e)
    requires Distance(x, DoubleValue(m, e)) <= Distance(y, DoubleValue(m, e))
    ensures RoundsTo(x, NearestEven, m, e)
  {
    hide Exp, Multiple, Units, Round, IsDouble, DoubleValue, Places, RoundsTo, Symmetric;
    var u, q := Ulp(e), Places(m, e);
    PlacesValue(m, e);
    ReadsBackIff(y, m, e);
    ReadsBackIff(x, m, e);
    var d := Distance(y, Multiple(q, u));
    DistanceUnits(y, q, u, d);
    DistanceUnits(x, q, u, d);
    CloserRounds(Units(x, u), Units(y, u), q);
  }

  /** Reals within half a last place of a float64 read back to it. */
  lemma HalfPlaceReadsBack(x: real, m: int, e: int)
    requires IsDouble(m, e) && Symmetric(m, e) && x > 0.0
    requires Distance(x, DoubleValue(m, e)) < Exp(2, e - 54)
    ensures RoundsTo(x, NearestEven, m, e)
  {
    hide Exp, Multiple, Units, Round, IsDouble, DoubleValue, Places, RoundsTo, Symmetric;
    var u, q := Ulp(e), Places(m, e);
    PlacesValue(m, e);
    ReadsBackIff(x, m, e);
    var d := Distance(x, Multiple(q, u));
    DistanceUnits(x, q, u, d);
    UnitsOrder(d, u, e - 54);
    ExpMonotone(2, e - 54 - u, -1);
    HalfUnit();
    UnitsAre(d, u);
    RoundsWithin(Units(x, u), q);
  }

  /** Below the smallest mantissa of a binade a quarter of a last place is enough. */
  lemma QuarterPlaceReadsBack(x: real, m: int, e: int)
    requires IsDouble(m, e) && x > 0.0
    requires Distance(x, DoubleValue(m, e)) <= Exp(2, e - 55)
    ensures RoundsTo(x, NearestEven, m, e)
  {
    hide Exp, Multiple, Units, Round, IsDouble, DoubleValue, Places, RoundsTo;
    ExpOrder(e - 55, e - 54);
    if Symmetric(m, e) {
      HalfPlaceReadsBack(x, m, e);
    } else if x >= DoubleValue(m, e) {
      UpperHalf(x, e);
    } else {
      LowerQuarter(x, m, e);
    }
  }

  /** Below a float64 that begins a binade, only a quarter of a last place reads back to it. */
  lemma BelowReadsBack(y: real, m: int, e: int)
    requires IsDouble(m, e) && !Symmetric(m, e) && 0.0 < y <= DoubleValue(m, e)
    requires RoundsTo(y, NearestEven, m, e)
    ensures Distance(y, DoubleValue(m, e)) <= Exp(2, e - 55)
  {
    hide Exp, Multiple, Units, Round, DoubleValue, RoundsAt;
    ExpPositive(2, e - 55);
    if y < DoubleValue(m, e) {
      PowerValue(e);
      var e0 :| HasExponent(y, e0) && RoundsAt(y, NearestEven, e0, m, e);
      RoundedValue(y, NearestEven, e0, m, e);
      assert e0 == e - 1 && Ulp(e0) == e - 54;
      SameMultiple(Round(Units(y, e - 54), NearestEven), TWO53, e - 54);
      WithinHalf(y, TWO53, e - 54);
    }
  }

  /** Above it, half of a last place. */
  lemma AboveReadsBack(y: real, m: int, e: int)
    requires IsDouble(m, e) && !Symmetric(m, e) && y >= DoubleValue(m, e)
    requires RoundsTo(y, NearestEven, m, e)
    ensures Distance(y, DoubleValue(m, e)) <= Exp(2, e - 54)
  {
    hide Exp, Multiple, Units, Round, DoubleValue, RoundsAt;
    PowerValue(e);
    var e0 :| HasExponent(y, e0) && RoundsAt(y, NearestEven, e0, m, e);
    RoundedValue(y, NearestEven, e0, m, e);
    if e0 == e - 1 { ExpOrder(e0, e - 1); }
    assert e0 == e && Ulp(e0) == e - 53;
    MultipleDouble(TWO52, e);
    SameMultiple(Round(Units(y, e - 53), NearestEven), TWO52, e - 53);
    WithinHalf(y, TWO52, e - 53);
  }

  /** A real that rounds to q units lies within half a unit of them. */
  lemma WithinHalf(y: real, q: int, u: int)
    requires Round(Units(y, u), NearestEven) == q
    ensures Distance(y, Multiple(q, u)) <= Exp(2, u - 1)
  {
    hide Exp, Multiple, Units, Round;
    RoundsWithin(Units(y, u), q);
    DistanceUnits(y, q, u, Exp(2, u - 1));
    ExpAdd(2, u - 1, -u);
    assert u - 1 + -u == -1;
    HalfUnit();
  }

  /** And up to half of a last place above it everything reads back. */
  lemma UpperHalf(x: real, e: int)
    requires e > -1021
    requires DoubleValue(TWO52, e) <= x <= DoubleValue(TWO52, e) + Exp(2, e - 54)
    ensures RoundsTo(x, NearestEven, TWO52, e)
  {
    hide Exp, Multiple, Units, Round, DoubleValue, RoundsTo;
    MultipleDouble(TWO52, e);
    PowerValue(e);
    ExpOrder(e - 54, e - 1);
    ExpStep(2, e - 1);
    assert HasExponent(x, e);
    DistanceInUnits(x, TWO52, e - 53, -1);
    HalfUnit();
    RoundsWithin(Units(x, e - 53), TWO52);
    RoundsByValue(x, NearestEven, e, TWO52, e);
  }

  /** A distance in units. */
  lemma DistanceInUnits(x: real, q: int, u: int, k: int)
    requires Distance(x, Multiple(q, u)) <= Exp(2, u + k)
    ensures Distance(Units(x, u), q as real) <= Exp(2, k)
  {
    hide Exp, Multiple, Units;
    DistanceUnits(x, q, u, Exp(2, u + k));
    ExpAdd(2, u + k, -u);
    assert u + k + -u == k;
  }

  lemma PowerValue(e: int)
    ensures DoubleValue(TWO52, e) == Exp(2, e - 1)
    ensures DoubleValue(TWO52, e) == Multiple(TWO53, e - 54)
  {
    hide Exp, Multiple, Pow;
    PowValues();
    PowIsExp(52);
    ExpAdd(2, 52, e - 53);
    MultipleScale(TWO52, 1, e - 54);
    PowZeroOne(2);
    MultipleDouble(TWO52, e);
  }

  lemma LowerQuarter(x: real, m: int, e: int)
    requires e > -1021 && m == TWO52
    requires DoubleValue(m, e) - Exp(2, e - 55) <= x < DoubleValue(m, e)
    ensures RoundsTo(x, NearestEven, m, e)
  {
    hide Exp, Multiple, Units, Round, DoubleValue, RoundsTo;
    PowerValue(e);
    ExpMonotone(2, e - 55, e - 2);
    ExpStep(2, e - 2);
    assert HasExponent(x, e - 1);
    DistanceInUnits(x, TWO53, e - 54, -1);
    HalfUnit();
    RoundsWithin(Units(x, e - 54), TWO53);
    RoundsByValue(x, NearestEven, e - 1, m, e);
  }
}
