/** mul_pow: a bignum times a power of the radix, with a sticky bit for what does not fit. */
module RadixScaling {
  import opened Powers
  import opened Bits
  import opened Limbs
  import opened Reciprocal
  import opened Reals
  import opened Rounding
  import opened Bignum
  import opened DtoaTables
  import opened Scaling

  /** A radix without its factors of two: the only divisors and multipliers that mul_pow uses. */
  predicate OddRadix(radix1: int) {
    3 <= radix1 <= RADIX_MAX && radix1 % 2 == 1
  }

  function Radix(radix1: int, radixShift: nat): (r: int)
    requires radix1 >= 1
    ensures r >= 1
  {
    PowPositive(2, radixShift);
    MulPositive(radix1, Pow(2, radixShift));
    radix1 * Pow(2, radixShift)
  }

  /** The number v * radix^f * 2^off. */
  ghost function Target(v: nat, radix1: int, radixShift: nat, f: int, off: int): real
    requires radix1 >= 1
  {
    v as real * Exp(Radix(radix1, radixShift), f) * Exp(2, off)
  }

  lemma TargetSplit(v: nat, radix1: int, radixShift: nat, f: int, off: int)
    requires radix1 >= 1
    ensures Target(v, radix1, radixShift, f, off) == v as real * Exp(radix1, f) * Exp(2, off + f * radixShift)
  {
    hide Exp, Pow;
    PowPositive(2, radixShift);
    ExpOfProduct(radix1, Pow(2, radixShift), f);
    ExpOfPower(2, radixShift, f);
    ExpAdd(2, radixShift * f, off);
    Regroup(v as real, Exp(radix1, f), Exp(2, radixShift * f), Exp(2, off));
  }

  lemma Regroup(v: real, a: real, b: real, c: real)
    ensures v * (a * b) * c == v * a * (b * c)
  {
    Associates(v, a, b);
    Associates(v * a, b, c);
  }

  lemma TargetUp(v: nat, radix1: int, radixShift: nat, f: int)
    requires radix1 >= 1 && f >= 0
    ensures Target(v, radix1, radixShift, f, -f * radixShift) == (v * Pow(radix1, f)) as real
  {
    hide Exp, Pow, Target;
    TargetSplit(v, radix1, radixShift, f, -f * radixShift);
    ExpZero(2);
    ExpIsPow(radix1, f);
    RealProduct(v, Pow(radix1, f));
  }

  lemma TargetDown(v: nat, radix1: int, radixShift: nat, g: int, k: nat)
    requires radix1 >= 1 && g >= 0
    ensures Target(v, radix1, radixShift, -g, g * radixShift + k) == Times(ShiftedLeft(v, k) as real, Exp(radix1, -g))
  {
    hide Exp, Pow, Target;
    TargetSplit(v, radix1, radixShift, -g, g * radixShift + k);
    assert g * radixShift + k + -g * radixShift == k;
    ExpIsPow(2, k);
    RealProduct(v, Pow(2, k));
    Swap(v as real, Exp(radix1, -g), Exp(2, k));
  }

  lemma {:induction false} OddPow(b: int, n: nat)
    requires b % 2 == 1 && b > 0
    ensures Pow(b, n) % 2 == 1 && Pow(b, n) > 0
  {
    if n > 0 {
      OddPow(b, n - 1);
      MulPositive(b, Pow(b, n - 1));
      OddProduct(b, Pow(b, n - 1));
    }
  }

  lemma OddProduct(x: int, y: int)
    requires x % 2 == 1 && y % 2 == 1
    ensures x * y % 2 == 1
  {
    var a := x / 2;
    Distribute(2 * a, 1, y);
    MulAssociates(2, a, y);
    OddSum(a * y, y, x * y);
  }

  lemma OddSum(z: int, y: int, p: int)
    requires p == 2 * z + y && y % 2 == 1
    ensures p % 2 == 1
  {
  }

  /** The powers that the loops multiply and divide by fit a limb. */
  lemma ChunkFits(radix1: int, n: nat)
    requires OddRadix(radix1) && n <= DIGITS_PER_LIMB[radix1 - 2]
    ensures 1 <= Pow(radix1, n) < BASE
  {
    hide Pow, FastPow;
    AllRadixFacts(radix1);
    var d := DIGITS_PER_LIMB[radix1 - 2];
    FastPowIsPow(radix1, d);
    OddPow(radix1, d);
    PowMonotone(radix1, n, d);
    PowPositive(radix1, n);
  }

  /** The number of limbs reserved for the quotient is enough: radix1^g <= 2^(32*l). */
  lemma {:induction false} LimbsSuffice(radix1: int, g: nat, d: nat)
    requires OddRadix(radix1) && d == DIGITS_PER_LIMB[radix1 - 2] && d >= 1
    ensures (g + d - 1) / d >= 0 && Pow(radix1, g) <= Unit((g + d - 1) / d)
    decreases g
  {
    hide Pow, Unit;
    if g <= d {
      ChunkFits(radix1, g);
      SmallChunk(g, d);
      PowZeroOne(radix1);
    } else {
      LimbsSuffice(radix1, g - d, d);
      ChunkFits(radix1, d);
      NextChunk(g, d);
      PowAdd(radix1, d, g - d);
      var l := (g - d + d - 1) / d;
      UnitNext(l);
      PowPositive(radix1, g - d);
      MulMonotone(Pow(radix1, d), BASE, Pow(radix1, g - d), Unit(l));
    }
  }

  lemma SmallChunk(g: nat, d: nat)
    requires g <= d && d >= 1
    ensures (g + d - 1) / d == if g == 0 then 0 else 1
    ensures Unit(0) == 1 && Unit(1) == BASE
  {
    if g == 0 { Unique(d - 1, d, 0, d - 1); } else { Unique(g + d - 1, d, 1, g - 1); }
  }

  lemma NextChunk(g: nat, d: nat)
    requires g > d >= 1
    ensures (g + d - 1) / d == (g - d + d - 1) / d + 1 && (g - d + d - 1) / d >= 0
  {
    var x := g - 1;
    DivideExactly(x, d);
    Unique(g + d - 1, d, x / d + 1, x % d);
  }

  function Min(x: int, y: int): int {
    if x < y then x else y
  }

  function Max(x: int, y: int): int {
    if x > y then x else y
  }

  /** The loop of mul_pow that multiplies by radix1^f, as many digits at a time as fit a limb. */
  method MulLoop(a: Mpb, radix1: int, f: nat)
    requires OddRadix(radix1) && a.Valid() && a.Room(f)
    modifies a`len, a.tab
    ensures a.Valid() && a.Val() == old(a.Val()) * Pow(radix1, f)
    ensures old(a.Normal()) ==> a.Normal()
    ensures a.len <= old(a.len) + f
  {
    hide Value, Unit, Pow, NormalLimbs, OddRadix;
    DigitsPositive(radix1);
    var d := DIGITS_PER_LIMB[radix1 - 2];
    var b, n0 := 0, 0;
    var k := f;
    ghost var v := a.Val();
    PowZeroOne(radix1);
    while k != 0
      invariant 0 <= k <= f && a.Valid() && a.len + k <= old(a.len) + f
      invariant a.Val() == v * Pow(radix1, f - k)
      invariant old(a.Normal()) ==> a.Normal()
      invariant 0 <= n0 <= d && (n0 != 0 ==> b == Pow(radix1, n0))
    {
      var n := Min(k, d);
      ChunkFits(radix1, n);
      if n != n0 {
        b := PowUi(radix1, n);
        n0 := n;
      }
      MulStepOf(a, b);
      PowAdd(radix1, f - k, n);
      MulAssociates(v, Pow(radix1, f - k), b);
      k := k - n;
    }
  }

  lemma DigitsPositive(radix1: int)
    requires OddRadix(radix1)
    ensures radix1 >= 3 && radix1 <= RADIX_MAX && 6 <= DIGITS_PER_LIMB[radix1 - 2] < BASE
  {
    hide FastPow;
    AllRadixFacts(radix1);
    assert forall i :: 0 <= i < |DIGITS_PER_LIMB| ==> DIGITS_PER_LIMB[i] < BASE;
  }

  /** One multiplication by a limb, with the carry appended. */
  method MulStepOf(a: Mpb, b: Limb)
    requires a.Valid() && a.Room(1) && b >= 1
    modifies a`len, a.tab
    ensures a.Valid() && a.Val() == old(a.Val()) * b
    ensures old(a.Normal()) ==> a.Normal()
    ensures a.len <= old(a.len) + 1
  {
    hide Value, Unit, NormalLimbs;
    ghost var s := a.tab[..a.len];
    var h := Mul1(a.tab, a.len, b, 0);
    ProductNormal(s, a.tab[..a.len], b, h);
    if h != 0 {
      ValueSnoc(a.tab[..a.len], h);
      a.Append(h);
    }
  }

  lemma ProductNormal(s: seq<Limb>, t: seq<Limb>, b: Limb, h: Limb)
    requires |s| == |t| >= 1 && b >= 1 && Value(t) + Unit(|s|) * h == Value(s) * b + 0
    ensures h == 0 && NormalLimbs(s) ==> NormalLimbs(t)
    ensures h != 0 ==> NormalLimbs(t + [h])
  {
    hide Value, Unit;
    NormalIff(s);
    NormalIff(t);
    MulGrows(b, Value(s));
  }

  /** The loop of mul_pow that divides by radix1^g: one exact truncating division, and whether anything was cut off. */
  method DivLoop(a: Mpb, radix1: int, g: nat) returns (rem: Limb)
    requires OddRadix(radix1) && a.Valid() && g > 0
    modifies a`len, a.tab
    ensures Pow(radix1, g) > 0
    ensures a.Valid() && a.Normal() && a.len <= old(a.len)
    ensures a.Val() == old(a.Val()) / Pow(radix1, g)
    ensures rem == 0 <==> old(a.Val()) % Pow(radix1, g) == 0
  {
    hide Value, Unit, Pow, NormalLimbs, OddRadix, IsReciprocal, ShiftRight, LowBits, Divisor, Divided, Or;
    DigitsPositive(radix1);
    var d := DIGITS_PER_LIMB[radix1 - 2];
    var b: Limb, inv: Limb, shift: nat, n0: nat := 0, 0, 0, 0;
    var k := g;
    rem := 0;
    ghost var v := a.Val();
    NothingDivided(v, radix1);
    while k != 0
      invariant 0 <= k <= g && a.Valid() && a.len <= old(a.len)
      invariant k < g ==> a.Normal()
      invariant Divided(v, radix1, g - k, a.Val(), rem)
      invariant n0 != 0 ==> Divisor(radix1, n0, b, inv, shift)
    {
      var n := Min(k, d);
      ChunkFits(radix1, n);
      if n != n0 {
        b, inv, shift := PowUiInv(radix1, n);
        n0 := n;
        IsDivisor(radix1, n, b, inv, shift);
      }
      ghost var q := a.Val();
      var r := DivStepOf(a, radix1, n, b, inv, shift);
      OrLimb(rem, r);
      DividedFurther(v, radix1, g - k, n, q, rem, a.Val(), r);
      rem := Or(rem, r);
      k := k - n;
    }
    DividedIs(v, radix1, g, a.Val(), rem);
  }

  lemma IsDivisor(radix1: int, n: nat, b: Limb, inv: Limb, shift: nat)
    requires b >= BASE / 2 && IsReciprocal(b, inv)
    requires shift < 32 && LowBits(b, shift) == 0 && ShiftRight(b, shift) == Pow(radix1, n)
    ensures Divisor(radix1, n, b, inv, shift)
  {
  }

  lemma DividedIs(v: nat, radix1: int, n: nat, q: nat, rem: Limb)
    requires Divided(v, radix1, n, q, rem)
    ensures Pow(radix1, n) > 0 && q == v / Pow(radix1, n) && (rem == 0 <==> v % Pow(radix1, n) == 0)
  {
  }

  ghost predicate Divisor(radix1: int, n: nat, b: Limb, inv: Limb, shift: nat) {
    && BASE / 2 <= b && IsReciprocal(b, inv)
    && shift < 32 && LowBits(b, shift) == 0 && ShiftRight(b, shift) == Pow(radix1, n)
  }

  /** q is v / radix1^n, and rem tells whether the division was exact. */
  ghost predicate Divided(v: nat, radix1: int, n: nat, q: nat, rem: Limb) {
    Pow(radix1, n) > 0 && q == v / Pow(radix1, n) && (rem == 0 <==> v % Pow(radix1, n) == 0)
  }

  lemma NothingDivided(v: nat, radix1: int)
    ensures Divided(v, radix1, 0, v, 0)
  {
    PowZeroOne(radix1);
  }

  lemma OrLimb(x: Limb, y: Limb)
    ensures Or(x, y) < BASE
  {
    Pow32();
    OrBelow(x, y, 32);
  }

  lemma DividedFurther(v: nat, radix1: int, m: nat, n: nat, q: nat, rem: Limb, q1: nat, r: Limb)
    requires radix1 > 0 && Divided(v, radix1, m, q, rem)
    requires Pow(radix1, n) > 0 && q1 == q / Pow(radix1, n) && r == q % Pow(radix1, n)
    requires Or(rem, r) < BASE
    ensures Divided(v, radix1, m + n, q1, Or(rem, r))
  {
    hide Pow, Or;
    PowAdd(radix1, m, n);
    DivideTwice(v, Pow(radix1, m), Pow(radix1, n), Pow(radix1, m + n));
    DivideExactly(v, Pow(radix1, m));
    ZeroSum(v % Pow(radix1, m), Pow(radix1, m), r);
  }

  /** One division by a limb. */
  method DivStepOf(a: Mpb, radix1: int, n: nat, b: Limb, inv: Limb, shift: nat) returns (r: Limb)
    requires a.Valid() && Divisor(radix1, n, b, inv, shift)
    modifies a`len, a.tab
    ensures Pow(radix1, n) > 0
    ensures a.Valid() && a.Normal() && a.len <= old(a.len)
    ensures a.Val() == old(a.Val()) / Pow(radix1, n) && r == old(a.Val()) % Pow(radix1, n)
  {
    hide Value, Unit, Pow, NormalLimbs, IsReciprocal, ShiftRight, LowBits;
    DivisorPositive(b, shift);
    ghost var v := a.Val();
    r := Div1Norm(a.tab, a.len, b, 0, inv, shift);
    Unique(v, Pow(radix1, n), Value(a.tab[..a.len]), r);
    a.Renorm();
  }

  lemma DivisorPositive(b: Limb, shift: nat)
    requires b >= BASE / 2 && LowBits(b, shift) == 0
    ensures ShiftRight(b, shift) > 0
  {
    ShiftNormalised(b, shift);
  }

  /** The limbs that mul_pow and the rounding after it may need beyond those of the number. */
  function ScalingRoom(f: int, e: int): int {
    (if f < 0 then -f else f) + Max(e, 0) + 4
  }

  /**
   * mul_pow: multiplies by radix^f and returns the binary exponent that was taken out. The result is exact when f is
   * not negative or the radix is a power of two; otherwise it has enough bits for rounding, the lowest one being
   * sticky.
   */
  method MulPow(a: Mpb, radix1: int, radixShift: nat, f: int, isInt: bool, e: int) returns (eOffset: int)
    requires radix1 == 1 || OddRadix(radix1)
    requires a.Valid() && a.Normal() && a.Room(ScalingRoom(f, e))
    modifies a`len, a.tab
    ensures a.Valid() && a.Normal() && a.len <= old(a.len) + ScalingRoom(f, e)
    ensures a.Val() == StickyFloor(Target(old(a.Val()), radix1, radixShift, f, eOffset))
    ensures f >= 0 || radix1 == 1
            ==> eOffset == -f * radixShift && a.Val() as real == Target(old(a.Val()), radix1, radixShift, f, eOffset)
    ensures f < 0 && radix1 != 1 && isInt ==> eOffset >= e + 2
    ensures f < 0 && radix1 != 1 && !isInt && e >= 0 && old(a.Val()) > 0 ==> Pow(2, e) <= a.Val()
  {
    hide Value, Unit, Pow, Exp, NormalLimbs, OddRadix, Target, StickyFloor;
    eOffset := -f * radixShift;
    ghost var v := a.Val();
    if radix1 != 1 {
      DigitsPositive(radix1);
      if f >= 0 {
        MulLoop(a, radix1, f);
        TargetUp(v, radix1, radixShift, f);
        StickyOfInteger(a.Val());
      } else {
        MulMonotone(0, -f, 0, radixShift);
        var off := DivideOut(a, radix1, -f, isInt, e, eOffset);
        TargetDown(v, radix1, radixShift, -f, off);
        eOffset := eOffset + off;
      }
    } else {
      TargetOfOne(v, radixShift, f);
      StickyOfInteger(v);
    }
  }

  lemma StickyOfInteger(n: int)
    ensures StickyFloor(n as real) == n
  {
  }

  lemma TargetOfOne(v: nat, radixShift: nat, f: int)
    ensures Target(v, 1, radixShift, f, -f * radixShift) == v as real
  {
    hide Exp, Target;
    TargetSplit(v, 1, radixShift, f, -f * radixShift);
    ExpZero(2);
    ExpOfOne(f);
  }

  /** The part of mul_pow for a negative exponent -g; returns the number of bits that the number was shifted up by. */
  method DivideOut(a: Mpb, radix1: int, g: int, isInt: bool, e: int, e0: int) returns (off: nat)
    requires OddRadix(radix1) && g > 0
    requires a.Valid() && a.Normal() && a.Room(ScalingRoom(g, e)) && e0 >= 0
    modifies a`len, a.tab
    ensures a.Valid() && a.Normal() && a.len <= old(a.len) + ScalingRoom(g, e)
    ensures a.Val() == StickyFloor(Times(ShiftedLeft(old(a.Val()), off) as real, Exp(radix1, -g)))
    ensures isInt ==> e0 + off >= e + 2
    ensures !isInt && e >= 0 && old(a.Val()) > 0 ==> Pow(2, e) <= a.Val()
  {
    hide Value, Unit, Pow, Exp, NormalLimbs, OddRadix, StickyFloor, Round, Scaled, ShiftedLeft;
    ghost var v := a.Val();
    DigitsPositive(radix1);
    var d := DIGITS_PER_LIMB[radix1 - 2];
    var l := (g + d - 1) / d;
    LimbsSuffice(radix1, g, d);
    LimbCount(g, d);
    var extra: int;
    var log := 0;
    if !isInt {
      log := a.FloorLog2();
      extra := Max(e - log, 0);
    } else {
      extra := Max(2 + e - (e0 + l * 32), 0);
    }
    var up: int := l * 32 + extra;
    off := up;
    a.ShrRound(-up, TowardZero);
    RoundScaledUp(v, off, TowardZero);
    ghost var w := a.Val();
    var rem := DivLoop(a, radix1, g);
    StickyOfPower(w, radix1, g);
    if rem != 0 {
      SetSticky(a);
    }
    if !isInt && e >= 0 && v > 0 {
      EnoughBits(v, e, log, extra, l, radix1, g);
    }
  }

  lemma LimbCount(g: nat, d: nat)
    requires d >= 6 && g > 0
    ensures 0 <= (g + d - 1) / d <= g
  {
    DivideExactly(g + d - 1, d);
    if (g + d - 1) / d > g { MulMonotoneLeft(d, g + 1, (g + d - 1) / d); Distribute(g, 1, d); MulMonotone(6, d, g, g); }
  }

  lemma StickyOfPower(w: nat, radix1: int, g: int)
    requires radix1 >= 1 && g >= 0
    ensures Pow(radix1, g) > 0
    ensures StickyFloor(Times(w as real, Exp(radix1, -g))) == StickyQuotient(w, Pow(radix1, g))
  {
    hide Pow, Exp, StickyFloor, StickyQuotient, Inverse;
    PowPositive(radix1, g);
    RadixInverse(radix1, g);
    var y := Exp(radix1, -g);
    assert Times(w as real, y) == w as real * y;
    StickyOfRatio(w, Pow(radix1, g), y);
  }

  lemma RadixInverse(radix1: int, g: int)
    requires radix1 >= 1 && g >= 0
    ensures Inverse(Pow(radix1, g), Exp(radix1, -g))
  {
    hide Pow, Exp;
    ExpIsPow(radix1, g);
    ExpInverse(radix1, g);
  }

  /** tab[0] |= 1. */
  method SetSticky(a: Mpb)
    requires a.Valid()
    modifies a.tab
    ensures a.Valid() && a.Val() == if old(a.Val()) % 2 == 1 then old(a.Val()) else old(a.Val()) + 1
    ensures old(a.Normal()) ==> a.Normal()
  {
    hide Value, Or;
    ghost var s := a.tab[..a.len];
    OrOne(a.tab[0]);
    a.tab[0] := Or(a.tab[0], 1);
    LowLimb(s, a.tab[..a.len]);
  }

  lemma LowLimb(s: seq<Limb>, t: seq<Limb>)
    requires |s| == |t| >= 1 && s[1..] == t[1..] && t[0] == if s[0] % 2 == 0 then s[0] + 1 else s[0]
    ensures Value(t) == if Value(s) % 2 == 1 then Value(s) else Value(s) + 1
    ensures NormalLimbs(s) ==> NormalLimbs(t)
  {
    assert |s| > 1 ==> s[|s| - 1] == s[1..][|s| - 2] && t[|s| - 1] == t[1..][|s| - 2];
  }

  /** The quotient keeps at least e bits. */
  lemma EnoughBits(v: nat, e: nat, log: nat, extra: nat, l: nat, radix1: int, g: nat)
    requires Pow(2, log) <= v && log + extra >= e && radix1 >= 1 && Pow(radix1, g) <= Unit(l)
    ensures Pow(radix1, g) > 0
    ensures Pow(2, e) <= ShiftedLeft(v, l * 32 + extra) / Pow(radix1, g)
  {
    hide Pow, Unit;
    PowPositive(radix1, g);
    PowPositive(2, e);
    PowPositive(2, log);
    PowMonotone(2, e, log + extra);
    PowAdd(2, log, extra);
    PowAdd(2, extra, 32 * l);
    UnitIsPow(l);
    PowPositive(2, extra);
    MulMonotone(Pow(2, log), v, Pow(2, extra), Pow(2, extra));
    MulAssociates(v, Pow(2, extra), Unit(l));
    QuotientAtLeast(Pow(2, e), v * Pow(2, extra), Pow(radix1, g), Unit(l), ShiftedLeft(v, l * 32 + extra));
  }

  lemma QuotientAtLeast(a: int, x: int, p: int, u: int, v: int)
    requires 0 <= a <= x && 0 < p <= u && v == x * u
    ensures a <= v / p
  {
    MulMonotone(a, x, p, u);
    DivideExactly(v, p);
    if v / p < a { MulMonotoneLeft(p, v / p + 1, a); Distribute(v / p, 1, p); }
  }

  /** Room enough for scaling m by 2^e * radix^f and rounding. */
  function RoundingRoom(f: int, e: int): int {
    16 + 6 * (if f < 0 then -f else f) + 2 * (if e < 0 then -e else e)
  }

  /** mul_pow_round: the number is exactly m * 2^e * radix^f rounded in the given mode. */
  method MulPowRound(tmp1: Mpb, m: nat, e: int, radix1: int, radixShift: nat, f: int, mode: Mode)
    requires m < BASE * BASE && (radix1 == 1 || OddRadix(radix1)) && radixShift <= 5
    requires RoundingRoom(f, e) <= tmp1.tab.Length
    modifies tmp1`len, tmp1.tab
    ensures tmp1.Valid() && tmp1.Val() == Round(Target(m, radix1, radixShift, f, e), mode)
    ensures tmp1.Room(1) && (m > 0 ==> tmp1.Normal())
  {
    hide Value, Unit, Pow, Exp, NormalLimbs, Target, StickyFloor, Round, Scaled, ScalingRoom, RoundingRoom;
    assert radix1 >= 1;
    EnoughRoom(f, e);
    tmp1.SetU64(m);
    var eOffset := MulPow(tmp1, radix1, radixShift, f, true, e);
    ghost var w := tmp1.Val();
    if f >= 0 || radix1 == 1 {
      ShiftBound(f, radixShift, eOffset, e);
      ExactScaled(m, w, radix1, radixShift, f, eOffset, e);
    } else {
      StickyScaled(m, w, radix1, radixShift, f, eOffset, e, mode);
      ShiftBound(f, 0, 0, e);
    }
    if m > 0 { NothingLost(m, w, radix1, radixShift, f, eOffset, -e + eOffset, mode); }
    tmp1.ShrRound(-e + eOffset, mode);
  }

  /** A nonzero number stays nonzero until it is rounded to an integer, and then only a right shift can make it zero. */
  lemma NothingLost(m: nat, w: nat, radix1: int, radixShift: nat, f: int, off: int, shift: int, mode: Mode)
    requires m > 0 && radix1 >= 1 && w == StickyFloor(Target(m, radix1, radixShift, f, off))
    ensures shift < 0 ==> Round(Scaled(w, -shift), mode) != 0
  {
    hide Exp, Target, Round, Scaled, Pow;
    TargetPositive(m, radix1, radixShift, f, off);
    assert w >= 1;
    if shift < 0 {
      RoundScaledUp(w, -shift, mode);
      PowPositive(2, -shift);
      MulPositive(w, Pow(2, -shift));
    }
  }

  lemma TargetPositive(v: nat, radix1: int, radixShift: nat, f: int, off: int)
    requires v > 0 && radix1 >= 1
    ensures Target(v, radix1, radixShift, f, off) > 0.0
  {
    hide Exp, Radix;
    ExpPositive(Radix(radix1, radixShift), f);
    ExpPositive(2, off);
    GrowsStrictly(0.0, v as real, Exp(Radix(radix1, radixShift), f));
    GrowsStrictly(0.0, v as real * Exp(Radix(radix1, radixShift), f), Exp(2, off));
  }

  lemma EnoughRoom(f: int, e: int)
    ensures ScalingRoom(f, e) >= 0 && 3 + ScalingRoom(f, e) <= RoundingRoom(f, e)
  {
  }

  /** A left shift after exact scaling stays within the room. */
  lemma ShiftBound(f: int, radixShift: nat, off: int, e: int)
    requires radixShift <= 5 && off == -f * radixShift
    ensures -e + off < 0 ==> 4 + ScalingRoom(f, e) + (e - off) / 32 <= RoundingRoom(f, e)
    ensures 4 + ScalingRoom(f, e) <= RoundingRoom(f, e)
  {
    if f >= 0 { MulMonotone(f, f, radixShift, 5); } else { MulMonotone(-f, -f, radixShift, 5); }
  }

  lemma TargetShift(v: nat, radix1: int, radixShift: nat, f: int, off: int, s: int)
    requires radix1 >= 1
    ensures Target(v, radix1, radixShift, f, off) * Exp(2, s) == Target(v, radix1, radixShift, f, off + s)
    ensures Target(v, radix1, radixShift, f, off) >= 0.0
  {
    hide Exp, Radix;
    var x, a := v as real, Exp(Radix(radix1, radixShift), f);
    ExpAdd(2, off, s);
    Associates(x * a, Exp(2, off), Exp(2, s));
    ExpPositive(Radix(radix1, radixShift), f);
    ExpPositive(2, off);
    Grows(0.0, x, a);
    Grows(0.0, x * a, Exp(2, off));
  }

  lemma ExactScaled(m: nat, w: nat, radix1: int, radixShift: nat, f: int, off: int, e: int)
    requires radix1 >= 1 && w as real == Target(m, radix1, radixShift, f, off)
    ensures Scaled(w, e - off) == Target(m, radix1, radixShift, f, e)
  {
    hide Exp, Target;
    TargetShift(m, radix1, radixShift, f, off, e - off);
    var t := Target(m, radix1, radixShift, f, off);
    assert t * Exp(2, e - off) == Target(m, radix1, radixShift, f, e);
    assert Scaled(w, e - off) == w as real * Exp(2, e - off);
  }

  lemma StickyScaled(m: nat, w: nat, radix1: int, radixShift: nat, f: int, off: int, e: int, mode: Mode)
    requires radix1 >= 1 && w == StickyFloor(Target(m, radix1, radixShift, f, off)) && off >= e + 2
    ensures Round(Scaled(w, e - off), mode) == Round(Target(m, radix1, radixShift, f, e), mode)
  {
    hide Exp, Target, StickyFloor, Round, Scaled, Times;
    var s, t := off - e, Target(m, radix1, radixShift, f, off);
    TargetTimes(m, radix1, radixShift, f, off, -s);
    ScaledTimes(w, -s);
    assert e - off == -s && off + -s == e;
    StickyIsInvisibleTimes(t, s, mode);
  }

  lemma ScaledTimes(w: nat, k: int)
    ensures Scaled(w, k) == Times(w as real, Exp(2, k))
  {
  }

  lemma TargetTimes(v: nat, radix1: int, radixShift: nat, f: int, off: int, s: int)
    requires radix1 >= 1
    ensures Times(Target(v, radix1, radixShift, f, off), Exp(2, s)) == Target(v, radix1, radixShift, f, off + s)
    ensures Target(v, radix1, radixShift, f, off) >= 0.0
  {
    hide Exp, Target;
    TargetShift(v, radix1, radixShift, f, off, s);
  }
}
