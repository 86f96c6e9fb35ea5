/** Scaling a bignum by a power of the radix, and rounding the result exactly. */
module Scaling {
  import opened Powers
  import opened Limbs
  import opened Reciprocal
  import opened Reals
  import opened Rounding
  import opened Bignum
  import opened DtoaTables

  /** pow_ui: a^b by tables or repeated squaring, for a power below 2^64. */
  method PowUi(a: nat, b: Limb) returns (r: nat)
    requires 1 <= a && Pow(a, b) < BASE * BASE
    ensures r == Pow(a, b)
  {
    hide Pow, ShiftRight, Pow5Entry;
    PowZeroOne(a);
    if b == 0 {
      return 1;
    }
    if b == 1 {
      return a;
    }
    if (a == 5 || a == 10) && b <= 17 {
      r := Pow5Entry(b);
      Pow5Correct(b);
      if a == 10 {
        PowOfTen(b);
        r := r * Pow(2, b) % (BASE * BASE);
      }
      return;
    }
    r := a;
    var i := Log2(b);
    TopBitOf(b);
    while i > 0
      invariant r == Pow(a, ShiftRight(b, i))
    {
      i := i - 1;
      HalfPower(a, b, i);
      r := r * r % (BASE * BASE);
      if ShiftRight(b, i) % 2 == 1 {
        r := r * a % (BASE * BASE);
      }
    }
    ShiftByZero(b);
  }

  lemma PowOfTen(b: nat)
    requires Pow(10, b) < BASE * BASE
    ensures Pow(5, b) * Pow(2, b) % (BASE * BASE) == Pow(10, b)
  {
    hide Pow;
    PowOfProduct(5, 2, b);
    PowPositive(10, b);
    SmallDivision(Pow(10, b), BASE * BASE);
  }

  lemma ShiftByZero(b: Limb)
    ensures ShiftRight(b, 0) == b
  {
  }

  lemma PowZeroOne(a: int)
    ensures Pow(a, 0) == 1 && Pow(a, 1) == a
  {
  }

  lemma TopBitOf(b: Limb)
    requires b >= 1
    ensures ShiftRight(b, Log2(b)) == 1
  {
    var l := Log2(b);
    PowPositive(2, l);
    Unique(b, Pow(2, l), 1, b - Pow(2, l));
  }

  /** One round of squaring: the next bit of the exponent, without overflow. */
  lemma HalfPower(a: nat, b: Limb, i: nat)
    requires 1 <= a && Pow(a, b) < BASE * BASE
    ensures var r := Pow(a, ShiftRight(b, i + 1));
            var s := r * r % (BASE * BASE);
            Pow(a, ShiftRight(b, i)) == if ShiftRight(b, i) % 2 == 1 then s * a % (BASE * BASE) else s
  {
    hide Pow, ShiftRight;
    NextBit(b, i);
    var h := ShiftRight(b, i + 1);
    PowAdd(a, h, h);
    FitsBelow(a, h + h, b);
    SmallDivision(Pow(a, h + h), BASE * BASE);
    if ShiftRight(b, i) % 2 == 1 {
      PowAdd(a, h + h, 1);
      PowZeroOne(a);
      FitsBelow(a, h + h + 1, b);
      SmallDivision(Pow(a, h + h + 1), BASE * BASE);
    }
  }

  lemma NextBit(b: Limb, i: nat)
    ensures ShiftRight(b, i) == 2 * ShiftRight(b, i + 1) + ShiftRight(b, i) % 2
    ensures ShiftRight(b, i) <= b
  {
    PowPositive(2, i);
    DivideTwice(b, Pow(2, i), 2, Pow(2, i) * 2);
    QuotientAtMost(b, Pow(2, i));
  }

  lemma FitsBelow(a: nat, m: nat, b: nat)
    requires 1 <= a && Pow(a, b) < BASE * BASE && m <= b
    ensures 0 <= Pow(a, m) < BASE * BASE
  {
    PowMonotone(a, m, b);
    PowPositive(a, m);
  }

  /** pow_ui_inv: a^b normalised, with its reciprocal and its shift. */
  method PowUiInv(a: nat, b: Limb) returns (r: Limb, inv: Limb, shift: nat)
    requires 1 <= a && Pow(a, b) < BASE
    ensures r >= BASE / 2 && IsReciprocal(r, inv)
    ensures shift < 32 && LowBits(r, shift) == 0 && ShiftRight(r, shift) == Pow(a, b)
  {
    hide Pow, Clz32, IsReciprocal, ShiftRight, ShiftLeft, LowBits;
    if a == 5 && 1 <= b <= 13 {
      r := POW5[b - 1];
      TableDivisor(b);
      shift := Clz32(r);
      NormalisedLimb(r);
      r := ShiftLeft(r, shift);
      inv := POW5_INV[b - 1];
    } else {
      PowPositive(a, b);
      var p := PowUi(a, b);
      r := p;
      shift := Clz32(r);
      NormalisedLimb(r);
      r := ShiftLeft(r, shift);
      inv := Udiv1NormInit(r);
    }
  }

  lemma TableDivisor(b: nat)
    requires 1 <= b <= 13
    ensures 0 < POW5[b - 1] < BASE && POW5[b - 1] == Pow(5, b)
    ensures POW5_INV[b - 1] < BASE && IsReciprocal(ShiftLeft(POW5[b - 1], Clz32(POW5[b - 1])), POW5_INV[b - 1])
  {
    hide Pow, Clz32, IsReciprocal, FastPow;
    Pow5InverseCorrect(b);
    Pow5Correct(b);
    PowPositive(5, b);
    SmallDivision(NormalisedPow5(b), BASE);
  }

  lemma NormalisedLimb(x: Limb)
    requires x != 0
    ensures ShiftLeft(x, Clz32(x)) >= BASE / 2
    ensures LowBits(ShiftLeft(x, Clz32(x)), Clz32(x)) == 0
    ensures ShiftRight(ShiftLeft(x, Clz32(x)), Clz32(x)) == x
  {
    hide Pow, Clz32;
    ClzNormalises(x);
    var p := Pow(2, Clz32(x));
    PowPositive(2, Clz32(x));
    SmallDivision(x * p, BASE);
    Unique(x * p, p, x, 0);
  }

  /** x rounded down to an integer whose lowest bit also records that something was cut off. */
  function StickyFloor(x: real): int {
    var k := x.Floor;
    if x == k as real || k % 2 == 1 then k else k + 1
  }

  function StickyQuotient(v: nat, p: int): int
    requires p > 0
  {
    if v % p == 0 || v / p % 2 == 1 then v / p else v / p + 1
  }

  lemma StickyOfRatio(v: nat, p: int, y: real)
    requires p > 0 && Inverse(p, y)
    ensures StickyFloor(v as real * y) == StickyQuotient(v, p)
  {
    hide Inverse;
    Rounding.DivMod(v, p);
    var q, r := v / p, v % p;
    RatioParts(v, p, y, q, r);
    FractionOrder(r, p, y);
    var x, f := v as real * y, r as real * y;
    assert x == q as real + f;
    assert x.Floor == q;
    ZeroFraction(r, p, y);
  }

  lemma ZeroFraction(r: int, p: int, y: real)
    requires p > 0 && Inverse(p, y)
    ensures r as real * y == 0.0 <==> r == 0
  {
    hide Inverse;
    InverseIs(p, y);
    Compare(0.0, r as real, y);
  }

  /** The sticky bit lies below the rounding bit, so rounding does not see what was cut off. */
  lemma StickyIsInvisible(x: real, s: int, mode: Mode)
    requires x >= 0.0 && s >= 2
    ensures Round(StickyFloor(x) as real * Exp(2, -s), mode) == Round(x * Exp(2, -s), mode)
  {
    hide Exp, StickyFloor, Round, Pow, Inverse, ScalesTo;
    assert Times(StickyFloor(x) as real, Exp(2, -s)) == StickyFloor(x) as real * Exp(2, -s);
    assert Times(x, Exp(2, -s)) == x * Exp(2, -s);
    StickyIsInvisibleTimes(x, s, mode);
  }

  function Times(x: real, y: real): real {
    x * y
  }

  lemma StickyIsInvisibleTimes(x: real, s: int, mode: Mode)
    requires x >= 0.0 && s >= 2
    ensures Round(Times(StickyFloor(x) as real, Exp(2, -s)), mode) == Round(Times(x, Exp(2, -s)), mode)
  {
    hide Exp, StickyFloor, Round, Pow, Inverse, ScalesTo, Times;
    var q, y, t := Pow(2, s - 2), Exp(2, -s), StickyFloor(x);
    PowPositive(2, s - 2);
    PowAdd(2, 2, s - 2);
    Four();
    PowerInverse(s);
    var n := x.Floor / (4 * q);
    Rounding.DivMod(x.Floor, 4 * q);
    MulAssociates(4, q, n);
    Halves(n, q, n * q, y);
    StickyRounds(x, t, n, n * q, q, y, mode);
  }

  /** e * y is h. */
  ghost predicate ScalesTo(e: int, y: real, h: real) {
    e as real * y == h
  }

  lemma StickyRounds(x: real, t: int, n: int, m: int, q: int, y: real, mode: Mode)
    requires q > 0 && Inverse(4 * q, y) && t == StickyFloor(x) && (4 * m) as real <= x < (4 * m + 4 * q) as real
    requires ScalesTo(4 * m, y, n as real)
    requires ScalesTo(4 * m + 2 * q, y, n as real + 0.5)
    requires ScalesTo(4 * m + 4 * q, y, n as real + 1.0)
    ensures Round(Times(t as real, y), mode) == Round(Times(x, y), mode)
  {
    hide StickyFloor, Round, Inverse, ScalesTo, Times;
    InversePositive(4 * q, y);
    StickyScaled(x, 4 * m, 2 * m, y, n as real);
    StickyScaled(x, 4 * m + 2 * q, 2 * m + q, y, n as real + 0.5);
    StickyScaled(x, 4 * m + 4 * q, 2 * m + 2 * q, y, n as real + 1.0);
    RoundSame(Times(t as real, y), Times(x, y), n, mode);
  }

  lemma Four()
    ensures Pow(2, 2) == 4
  {
  }

  /** Against even integers x and its sticky floor have the same order. */
  lemma StickyOrder(x: real, e: int)
    ensures e % 2 == 0 ==> (x < e as real <==> StickyFloor(x) < e) && (x == e as real <==> StickyFloor(x) == e)
  {
  }

  /** The same for their multiples. */
  lemma StickyScaled(x: real, e: int, half: int, y: real, h: real)
    requires y > 0.0 && ScalesTo(e, y, h) && e == 2 * half
    ensures Times(x, y) < h <==> Times(StickyFloor(x) as real, y) < h
    ensures Times(x, y) == h <==> Times(StickyFloor(x) as real, y) == h
    ensures x < e as real <==> Times(x, y) < h
  {
    hide StickyFloor, ScalesTo, Times;
    StickyOrder(x, e);
    ScaledOrder(x, e, StickyFloor(x) as real, y, h);
  }

  lemma ScaledOrder(x: real, e: int, t: real, y: real, h: real)
    requires y > 0.0 && ScalesTo(e, y, h)
    requires (x < e as real <==> t < e as real) && (x == e as real <==> t == e as real)
    ensures Times(x, y) < h <==> Times(t, y) < h
    ensures Times(x, y) == h <==> Times(t, y) == h
    ensures x < e as real <==> Times(x, y) < h
  {
    Compare(x, e as real, y);
    Compare(t, e as real, y);
  }

  lemma Halves(n: int, q: int, m: int, y: real)
    requires q > 0 && m == n * q && Inverse(4 * q, y)
    ensures ScalesTo(4 * m, y, n as real)
    ensures ScalesTo(4 * m + 2 * q, y, n as real + 0.5)
    ensures ScalesTo(4 * m + 4 * q, y, n as real + 1.0)
  {
    RealProduct(n, q);
    var a, b, c := n as real, q as real, m as real;
    Associates(a, b, y);
    assert b * y == 0.25;
    assert c * y == a * 0.25;
    assert (4.0 * c + 2.0 * b) * y == 4.0 * (c * y) + 2.0 * (b * y);
    assert (4.0 * c + 4.0 * b) * y == 4.0 * (c * y) + 4.0 * (b * y);
  }
}
