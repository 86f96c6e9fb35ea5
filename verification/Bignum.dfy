/** The bignums of dtoa.c: a length and an array of limbs with room to grow. */
module Bignum {
  import opened Powers
  import opened Bits
  import opened Limbs
  import opened Reals
  import opened Rounding

  ghost predicate NormalLimbs(s: seq<Limb>) {
    |s| == 1 || (|s| > 1 && s[|s| - 1] != 0)
  }

  class Mpb {
    var len: nat
    const tab: array<Limb>

    ghost predicate Valid()
      reads this
    {
      1 <= len <= tab.Length
    }

    /** The number represented. */
    ghost function Val(): nat
      requires Valid()
      reads this, tab
    {
      Value(tab[..len])
    }

    /** No leading zero limb; zero has one limb. */
    ghost predicate Normal()
      requires Valid()
      reads this, tab
    {
      NormalLimbs(tab[..len])
    }

    /** Room for k more limbs. */
    ghost predicate Room(k: int)
      reads this
    {
      len + k <= tab.Length
    }

    constructor (capacity: nat)
      requires capacity >= 1
      ensures Valid() && fresh(tab) && tab.Length == capacity && len == 1 && Val() == 0
    {
      len := 1;
      tab := new Limb[capacity];
      new;
      tab[0] := 0;
      ValueCons(0, []);
      assert tab[..1] == [0] + [];
    }

    method Renorm()
      requires Valid()
      modifies this`len
      ensures Valid() && Normal() && len <= old(len)
      ensures Val() == old(Val())
    {
      while len > 1 && tab[len - 1] == 0
        invariant Valid() && len <= old(len)
        invariant Val() == old(Val())
      {
        assert tab[..len] == tab[..len - 1] + [0];
        ValueSnoc(tab[..len - 1], 0);
        len := len - 1;
      }
    }

    /** Bit k of the number, at any position. */
    method GetBit(k: nat) returns (bit: Limb)
      requires Valid()
      ensures Pow(2, k) > 0 && bit == Val() / Pow(2, k) % 2
    {
      hide Value, Pow, ShiftRight;
      var l, r := k / 32, k % 32;
      PowPositive(2, k);
      if l >= len {
        bit := 0;
        SmallQuotient(tab[..len], k);
      } else {
        bit := ShiftRight(tab[l], r) % 2;
        BitOfLimb(tab[..len], l, r);
      }
    }

    /** Whether a bit below position k is set: what the loop that ors the low limbs computes. */
    method LowBitsSet(k: nat) returns (any: bool)
      requires Valid()
      ensures Pow(2, k) > 0 && (any <==> Val() % Pow(2, k) != 0)
    {
      hide Value, Pow, LowBits, Or;
      var bits := 0;
      var l, r := k / 32, k % 32;
      PowPositive(2, k);
      var i := 0;
      Empty();
      while i < (if l < len then l else len)
        invariant 0 <= i <= l && i <= len
        invariant bits == 0 <==> Value(tab[..i]) == 0
      {
        bits := Or(bits, tab[i]);
        assert tab[..i + 1] == tab[..i] + [tab[i]];
        ValueSnoc(tab[..i], tab[i]);
        i := i + 1;
      }
      if l < len {
        bits := Or(bits, LowBits(tab[l], r));
        LowPart(tab[..len], l, r);
        assert tab[..len][..l] == tab[..l];
      } else {
        SmallQuotient(tab[..len], k);
      }
      any := bits != 0;
    }

    /** The rounding decision of mpb_shr_round. */
    method RoundUp(shift: nat, mode: Mode) returns (addOne: Limb)
      requires Valid() && shift >= 1
      ensures Pow(2, shift) > 0 && addOne == (if Increment(Val(), Pow(2, shift), mode) then 1 else 0)
    {
      hide Value, Pow;
      PowPositive(2, shift);
      if mode == TowardZero {
        return 0;
      }
      var bit1 := GetBit(shift - 1);
      HalfSplit(Val(), shift);
      if bit1 == 0 {
        return 0;
      }
      var bit2 := mode == NearestAway;
      if mode == NearestEven && shift >= 2 {
        bit2 := LowBitsSet(shift - 1);
      }
      if bit2 {
        addOne := 1;
      } else {
        addOne := GetBit(shift);
      }
    }

    /** The loop that drops the l lowest limbs. */
    method MoveDown(l: nat)
      requires Valid() && l < len
      modifies this`len, tab
      ensures Valid() && len == old(len) - l && tab[..len] == old(tab[l..len])
    {
      ghost var was := tab[..];
      len := len - l;
      ghost var n := len;
      var i := 0;
      while i < len
        invariant 0 <= i <= len == n
        invariant forall j :: 0 <= j < i ==> tab[j] == was[j + l]
        invariant forall j :: i <= j < tab.Length ==> tab[j] == was[j]
      {
        tab[i] := tab[i + l];
        i := i + 1;
      }
    }

    /** The loops that insert l zero limbs below the lowest. */
    method MoveUp(l: nat)
      requires Valid() && Room(l)
      modifies this`len, tab
      ensures Valid() && len == old(len) + l && tab[..len] == Zeros(l) + old(tab[..len])
    {
      ghost var was := tab[..len];
      var i := len;
      while i > 0
        invariant 0 <= i <= len == |was|
        invariant forall j :: i <= j < len ==> tab[l + j] == was[j]
        invariant forall j :: 0 <= j < i ==> tab[j] == was[j]
      {
        i := i - 1;
        tab[i + l] := tab[i];
      }
      assert tab[l..l + len] == was;
      ClearLow(l, was);
      len := len + l;
    }

    method ClearLow(l: nat, ghost was: seq<Limb>)
      requires l + |was| <= tab.Length && tab[l..l + |was|] == was
      modifies tab
      ensures tab[..l + |was|] == Zeros(l) + was
    {
      var i := 0;
      while i < l
        invariant 0 <= i <= l
        invariant tab[l..l + |was|] == was
        invariant tab[..i] == Zeros(i)
      {
        tab[i] := 0;
        assert tab[..i + 1] == tab[..i] + [0];
        i := i + 1;
      }
      assert tab[..l + |was|] == tab[..l] + tab[l..l + |was|];
    }

    /** Appends a limb. */
    method Append(x: Limb)
      requires Valid() && Room(1)
      modifies this`len, tab
      ensures Valid() && len == old(len) + 1 && tab[..len] == old(tab[..len]) + [x]
    {
      tab[len] := x;
      len := len + 1;
    }

    /** The right shift of mpb_shr_round, with the rounding increment. */
    method ShiftDown(shift: nat, addOne: Limb)
      requires Valid() && Room(1) && addOne <= 1
      modifies this`len, tab
      ensures Pow(2, shift) > 0
      ensures Valid() && Val() == old(Val()) / Pow(2, shift) + addOne
      ensures old(Normal()) ==> Normal()
      ensures len <= old(len) + 1
    {
      hide Value, Pow, Unit, NormalLimbs;
      var l, r := shift / 32, shift % 32;
      ghost var s := tab[..len];
      if l >= len {
        len := 1;
        tab[0] := addOne;
        SmallQuotient(s, shift);
        OneLimb(tab[..len]);
        return;
      }
      if l > 0 {
        MoveDown(l);
      }
      assert tab[..len] == s[l..];
      DropLimbs(s, l);
      ghost var w := Val();
      if r != 0 {
        ShiftRightBits(r);
      }
      TwoStepDivision(Value(s), l, r);
      DivideByOne(w, r);
      if addOne != 0 {
        AddOne();
      }
    }

    method ShiftRightBits(r: nat)
      requires Valid() && 1 <= r < 32
      modifies this`len, tab
      ensures Pow(2, r) > 0
      ensures Valid() && Normal() && Val() == old(Val()) / Pow(2, r)
      ensures len <= old(len)
    {
      hide Value, Pow, Unit;
      PowersOfShift(r);
      ghost var v := Val();
      var rem := Shr(tab, len, r, 0);
      Unique(v, Pow(2, r), Val(), rem);
      Renorm();
    }

    method AddOne()
      requires Valid() && Room(1)
      modifies this`len, tab
      ensures Valid() && Val() == old(Val()) + 1
      ensures old(Normal()) ==> Normal()
      ensures len <= old(len) + 1
    {
      hide Value, Unit, NormalLimbs;
      ghost var s := tab[..len];
      var a := AddUi(tab, 1, len);
      CarryOfOne(s, tab[..len], a);
      if a != 0 {
        ValueSnoc(tab[..len], a);
        Append(a);
      }
    }

    /** The left shift of mpb_shr_round, for a negative shift count. */
    method ShiftUp(shift: nat)
      requires Valid() && Room(shift / 32 + 1)
      modifies this`len, tab
      ensures Valid() && Val() == ShiftedLeft(old(Val()), shift)
      ensures old(Normal()) && Val() != 0 ==> Normal()
      ensures len <= old(len) + shift / 32 + 1
    {
      hide Value, Unit, ShiftedLeft, NormalLimbs, Zeros;
      var l, r := shift / 32, shift % 32;
      ghost var v := Val();
      NoShift(v);
      if r != 0 {
        ShiftBits(r);
      }
      ghost var low := tab[..len];
      if l > 0 {
        MoveUp(l);
        MovedUp(l, low, tab[..len]);
      }
      ShiftSplit(v, l, r, low, tab[..len]);
    }

    /** Shifts left by less than a limb. */
    method ShiftBits(r: nat)
      requires Valid() && Room(1) && 1 <= r < 32
      modifies this`len, tab
      ensures Valid() && Normal() && Val() == ShiftedLeft(old(Val()), r)
      ensures len <= old(len) + 1
    {
      hide Value, Pow, Unit;
      PowersOfShift(r);
      var h := Shl(tab, len, r, 0);
      ValueSnoc(tab[..len], h);
      Append(h);
      Renorm();
    }

    /**
     * Rounds the number divided by 2^shift, a multiplication when shift is negative. Rounding is exact in every mode,
     * and a nonzero result has no leading zero limb when the argument had none.
     */
    method ShrRound(shift: int, mode: Mode)
      requires Valid() && Room(1 + (if shift < 0 then -shift / 32 else 0))
      modifies this`len, tab
      ensures Valid() && Val() == Round(Scaled(old(Val()), -shift), mode)
      ensures old(Normal()) && (Val() != 0 || shift >= 0) ==> Normal()
      ensures len <= old(len) + 1 + (if shift < 0 then -shift / 32 else 0)
    {
      hide Value, Unit, Pow, NormalLimbs, Round, Scaled, Increment;
      ghost var v := Val();
      if shift == 0 {
        RoundUnscaled(v, mode);
        return;
      }
      if shift < 0 {
        ShiftUp(-shift);
        RoundScaledUp(v, -shift, mode);
      } else {
        var addOne := RoundUp(shift, mode);
        ShiftDown(shift, addOne);
        RoundScaledDown(v, shift, mode);
      }
    }

    /** mpb_cmp. */
    method Cmp(b: Mpb) returns (c: int)
      requires Valid() && b.Valid() && Normal() && b.Normal()
      ensures c == if Val() < b.Val() then -1 else if Val() > b.Val() then 1 else 0
    {
      hide Value, Unit, NormalLimbs;
      if len < b.len {
        LongerIsGreater(tab[..len], b.tab[..b.len]);
        return -1;
      } else if len > b.len {
        LongerIsGreater(b.tab[..b.len], tab[..len]);
        return 1;
      }
      var i := len;
      while i > 0
        invariant 0 <= i <= len
        invariant forall j :: i <= j < len ==> tab[j] == b.tab[j]
      {
        i := i - 1;
        if tab[i] != b.tab[i] {
          TopDifference(tab[..len], b.tab[..len], i);
          return if tab[i] < b.tab[i] then -1 else 1;
        }
      }
      assert tab[..len] == b.tab[..len];
      return 0;
    }

    /** mpb_set_u64: the limbs of a 64-bit number. */
    method SetU64(m: nat)
      requires m < BASE * BASE && tab.Length >= 2
      modifies this`len, tab
      ensures Valid() && Normal() && Val() == m && len <= 2
    {
      tab[0] := m % BASE;
      tab[1] := m / BASE;
      TwoLimbs(tab[..2]);
      OneLimb(tab[..1]);
      len := if tab[1] == 0 then 1 else 2;
    }

    /** mpb_get_u64: the number itself when it has at most 64 bits. */
    method GetU64() returns (m: nat)
      requires Valid()
      ensures m < BASE * BASE && m == Val() % (BASE * BASE)
    {
      if len == 1 {
        OneLimb(tab[..1]);
        m := tab[0];
      } else {
        m := tab[0] + BASE * tab[1];
        LowTwoLimbs(tab[..len]);
      }
    }

    /** mpb_floor_log2: the position of the highest bit, or -1 for zero. */
    method FloorLog2() returns (r: int)
      requires Valid() && Normal()
      ensures Val() == 0 ==> r == -1
      ensures Val() > 0 ==> r >= 0 && Pow(2, r) <= Val() < Pow(2, r + 1)
      ensures r < 32 * len
    {
      hide Value, Pow, NormalLimbs, Clz32;
      var v := tab[len - 1];
      if v == 0 {
        TopZero(tab[..len]);
        return -1;
      }
      r := len * 32 - 1 - Clz32(v);
      TopBit(tab[..len]);
    }
  }

  /** v * 2^k. */
  ghost function Scaled(v: nat, k: int): real {
    v as real * Exp(2, k)
  }

  lemma RoundUnscaled(v: nat, mode: Mode)
    ensures v == Round(Scaled(v, 0), mode)
  {
    ExpZero(2);
    assert Scaled(v, 0) == v as real;
    RoundInteger(v, mode);
  }

  lemma RoundScaledUp(v: nat, k: nat, mode: Mode)
    ensures ShiftedLeft(v, k) == Round(Scaled(v, k), mode)
  {
    hide Round, Exp, Pow;
    ExpIsPow(2, k);
    RealProduct(v, Pow(2, k));
    assert Scaled(v, k) == ShiftedLeft(v, k) as real;
    RoundInteger(ShiftedLeft(v, k), mode);
  }

  lemma RoundScaledDown(v: nat, k: nat, mode: Mode)
    ensures Pow(2, k) > 0
    ensures v / Pow(2, k) + (if Increment(v, Pow(2, k), mode) then 1 else 0) == Round(Scaled(v, 0 - k), mode)
  {
    hide Round, Exp, Pow, Increment, Inverse;
    PowPositive(2, k);
    PowerInverse(k);
    var y := Exp(2, 0 - k);
    assert Scaled(v, 0 - k) == v as real * y;
    RoundOfRatio(v, Pow(2, k), y, mode);
  }

  lemma PowerInverse(k: nat)
    ensures Inverse(Pow(2, k), Exp(2, 0 - k))
  {
    hide Exp, Pow;
    ExpIsPow(2, k);
    ExpInverse(2, k);
  }

  lemma LongerIsGreater(s: seq<Limb>, t: seq<Limb>)
    requires 1 <= |s| < |t| && NormalLimbs(t)
    ensures Value(s) < Value(t)
  {
    hide Value, Unit;
    ValueBound(s);
    NormalIff(t);
    UnitMonotone(|s|, |t| - 1);
  }

  lemma {:induction false} UnitMonotone(m: nat, n: nat)
    requires m <= n
    ensures Unit(m) <= Unit(n)
  {
    if m < n { UnitMonotone(m, n - 1); }
  }

  lemma TopDifference(s: seq<Limb>, t: seq<Limb>, i: nat)
    requires |s| == |t| && i < |s| && s[i] != t[i] && s[i + 1..] == t[i + 1..]
    ensures Value(s) < Value(t) <==> s[i] < t[i]
    ensures Value(s) != Value(t)
  {
    hide Value, Unit;
    CutAt(s, i);
    CutAt(t, i);
    HigherDigit(Unit(i), Value(s[i..]), Value(t[i..]), Value(s[..i]), Value(t[..i]));
  }

  lemma HigherDigit(u: int, x: int, y: int, a: int, b: int)
    requires x != y && 0 <= a < u && 0 <= b < u
    ensures u * x + a < u * y + b <==> x < y
    ensures u * x + a != u * y + b
  {
    if x < y { MulMonotoneLeft(u, x + 1, y); } else { MulMonotoneLeft(u, y + 1, x); }
  }

  lemma TwoLimbs(s: seq<Limb>)
    requires |s| == 2
    ensures Value(s) == s[0] + BASE * s[1]
  {
    assert s == [s[0]] + [s[1]];
    ValueCons(s[0], [s[1]]);
    OneLimb([s[1]]);
  }

  lemma LowTwoLimbs(s: seq<Limb>)
    requires |s| >= 2
    ensures Value(s) % (BASE * BASE) == s[0] + BASE * s[1]
  {
    hide Value;
    assert s == [s[0]] + ([s[1]] + s[2..]);
    ValueCons(s[0], [s[1]] + s[2..]);
    ValueCons(s[1], s[2..]);
  }

  /** The position of the highest bit of a positive number. */
  function Log2(x: nat): (l: nat)
    requires x >= 1
    ensures Pow(2, l) <= x < Pow(2, l + 1)
  {
    if x == 1 then 0 else 1 + Log2(x / 2)
  }

  /** The number of leading zero bits of a nonzero limb. */
  function Clz32(x: Limb): (n: nat)
    requires x != 0
    ensures n <= 31 && Pow(2, 31 - n) <= x < Pow(2, 32 - n)
  {
    var l := Log2(x);
    assert l <= 31 by {
      Pow32();
      if l >= 32 { PowMonotone(2, 32, l); }
    }
    31 - l
  }

  lemma TopZero(s: seq<Limb>)
    requires |s| >= 1 && NormalLimbs(s) && s[|s| - 1] == 0
    ensures Value(s) == 0
  {
    OneLimb(s[..1]);
    assert s[..1] == s;
  }

  lemma TopBit(s: seq<Limb>)
    requires |s| >= 1 && s[|s| - 1] != 0
    ensures var r := 32 * |s| - 1 - Clz32(s[|s| - 1]); r >= 0 && Pow(2, r) <= Value(s) < Pow(2, r + 1)
    ensures Value(s) > 0
  {
    hide Value, Pow, Unit, Clz32;
    var n := |s| - 1;
    var c := Clz32(s[n]);
    assert s == s[..n] + [s[n]];
    ValueSnoc(s[..n], s[n]);
    ValueBound(s[..n]);
    UnitIsPow(n);
    PowAdd(2, 32 * n, 31 - c);
    PowAdd(2, 32 * n, 32 - c);
    PowPositive(2, 32 * n + 31 - c);
    TopBounds(Unit(n), Value(s[..n]), s[n], Pow(2, 31 - c), Pow(2, 32 - c));
  }

  lemma TopBounds(u: int, low: nat, x: nat, p: int, q: int)
    requires low < u && p <= x < q
    ensures u * p <= low + u * x < u * q
  {
    MulMonotoneLeft(u, p, x);
    MulMonotoneLeft(u, x + 1, q);
  }

  lemma OneLimb(s: seq<Limb>)
    requires |s| == 1
    ensures Value(s) == s[0] && NormalLimbs(s)
  {
    assert s == [s[0]] + [];
    ValueCons(s[0], []);
  }

  /** Dropping low limbs divides. */
  lemma DropLimbs(s: seq<Limb>, l: nat)
    requires l < |s|
    ensures Value(s[l..]) == Value(s) / Unit(l)
    ensures NormalLimbs(s) ==> NormalLimbs(s[l..])
  {
    hide Value, Unit;
    CutAt(s, l);
    Unique(Value(s), Unit(l), Value(s[l..]), Value(s[..l]));
  }

  lemma DivideByOne(w: nat, r: nat)
    ensures Pow(2, r) > 0
    ensures r == 0 ==> w / Pow(2, r) == w
  {
    PowPositive(2, r);
  }

  /** A number has no leading zero limb exactly when it reaches the weight of its top limb. */
  lemma NormalIff(s: seq<Limb>)
    requires |s| >= 1
    ensures NormalLimbs(s) <==> |s| == 1 || Value(s) >= Unit(|s| - 1)
  {
    hide Value, Unit;
    var n := |s| - 1;
    assert s == s[..n] + [s[n]];
    ValueSnoc(s[..n], s[n]);
    ValueBound(s[..n]);
    if s[n] >= 1 { MulMonotoneLeft(Unit(n), 1, s[n]); }
  }

  lemma CarryOfOne(s: seq<Limb>, t: seq<Limb>, a: Limb)
    requires |s| == |t| >= 1 && Value(t) + Unit(|s|) * a == Value(s) + 1
    ensures Value(t + [a]) == Value(s) + 1
    ensures a == 0 ==> Value(t) == Value(s) + 1 && (NormalLimbs(s) ==> NormalLimbs(t))
    ensures a != 0 ==> NormalLimbs(t + [a])
  {
    hide Value, Unit;
    ValueSnoc(t, a);
    NormalIff(s);
    NormalIff(t);
  }

  /** v << k. */
  function ShiftedLeft(v: nat, k: nat): nat {
    PowPositive(2, k);
    MulMonotone(0, v, 0, Pow(2, k));
    v * Pow(2, k)
  }

  lemma NoShift(v: nat)
    ensures ShiftedLeft(v, 0) == v
  {
  }

  lemma ShiftSplit(v: nat, l: nat, r: nat, low: seq<Limb>, s: seq<Limb>)
    requires Value(low) == ShiftedLeft(v, r) && s == (if l == 0 then low else Zeros(l) + low)
    ensures Value(s) == ShiftedLeft(v, 32 * l + r)
  {
    hide Pow, Unit, Value;
    ValueZeros(l, low);
    Pow0();
    UnitIsPow(l);
    PowAdd(2, 32 * l, r);
    MulAssociates(v, Pow(2, 32 * l), Pow(2, r));
    MulAssociates(Pow(2, 32 * l), v, Pow(2, r));
  }

  function Zeros(l: nat): (z: seq<Limb>)
    ensures |z| == l
  {
    seq(l, _ => 0)
  }

  lemma {:induction false} ValueZeros(l: nat, s: seq<Limb>)
    ensures Value(Zeros(l) + s) == Unit(l) * Value(s)
  {
    if l == 0 {
      assert Zeros(0) + s == s;
    } else {
      ValueZeros(l - 1, s);
      assert Zeros(l) + s == [0] + (Zeros(l - 1) + s);
      ValueCons(0, Zeros(l - 1) + s);
      MulAssociates(BASE, Unit(l - 1), Value(s));
    }
  }

  lemma MovedUp(l: nat, s: seq<Limb>, t: seq<Limb>)
    requires |s| >= 1 && t == Zeros(l) + s
    ensures Value(t) == Unit(l) * Value(s)
    ensures NormalLimbs(s) && Value(t) != 0 ==> NormalLimbs(t)
  {
    hide Value, Unit;
    ValueZeros(l, s);
    if |s| == 1 && s[0] == 0 {
      assert s == [0] + [];
      ValueCons(0, []);
      Empty();
    }
  }

  lemma Pow0()
    ensures Pow(2, 0) == 1 && Unit(0) == 1
  {
  }

  /** The bit below position `shift`, and the bits below that one. */
  lemma HalfSplit(v: nat, shift: nat)
    requires shift >= 1
    ensures var h, p := Pow(2, shift - 1), Pow(2, shift);
            && h > 0 && p == 2 * h
            && (v / h % 2 == 0 ==> 2 * (v % p) < p)
            && (v / h % 2 == 1 ==> 2 * (v % p) >= p)
            && (v / h % 2 == 1 && v % h != 0 ==> 2 * (v % p) > p)
            && (v / h % 2 == 1 && v % h == 0 ==> 2 * (v % p) == p)
    ensures shift == 1 ==> v % Pow(2, shift - 1) == 0
  {
    PowPositive(2, shift - 1);
    var h := Pow(2, shift - 1);
    DivideTwice(v, h, 2, 2 * h);
    DivideExactly(v, h);
  }

  /** A number below 2^k. */
  lemma SmallQuotient(s: seq<Limb>, k: nat)
    requires k / 32 >= |s|
    ensures Pow(2, k) > 0 && Value(s) < Pow(2, k)
    ensures Value(s) / Pow(2, k) == 0 && Value(s) % Pow(2, k) == Value(s)
  {
    hide Value, Pow, Unit;
    ValueBound(s);
    UnitIsPow(|s|);
    PowMonotone(2, 32 * |s|, k);
    PowPositive(2, k);
    SmallDivision(Value(s), Pow(2, k));
  }

  /** A number cut at limb l. */
  lemma CutAt(s: seq<Limb>, l: nat)
    requires l < |s|
    ensures Value(s) == Unit(l) * Value(s[l..]) + Value(s[..l])
    ensures Value(s[l..]) == s[l] + BASE * Value(s[l + 1..])
    ensures Value(s[..l]) < Unit(l)
  {
    hide Value, Unit;
    assert s == s[..l] + s[l..] && s[l..] == [s[l]] + s[l + 1..];
    ValueConcat(s[..l], s[l..]);
    ValueCons(s[l], s[l + 1..]);
    ValueBound(s[..l]);
  }

  /** Division by 2^(32*l + r) and its remainder, in two steps. */
  lemma TwoStepDivision(v: nat, l: nat, r: nat)
    ensures Pow(2, 32 * l + r) > 0 && Pow(2, r) > 0
    ensures v / Pow(2, 32 * l + r) == v / Unit(l) / Pow(2, r)
    ensures v % Pow(2, 32 * l + r) == v % Unit(l) + Unit(l) * (v / Unit(l) % Pow(2, r))
  {
    hide Pow, Unit;
    UnitIsPow(l);
    PowAdd(2, 32 * l, r);
    PowPositive(2, 32 * l + r);
    PowPositive(2, r);
    DivideTwice(v, Unit(l), Pow(2, r), Pow(2, 32 * l + r));
  }

  /** The quotient by 2^(32*l + r) starts in limb l, and the remainder ends there. */
  lemma AtLimb(s: seq<Limb>, l: nat, r: nat)
    requires l < |s| && r < 32
    ensures Pow(2, 32 * l + r) > 0
    ensures Value(s) / Pow(2, 32 * l + r) == ShiftRight(s[l], r) + Pow(2, 32 - r) * Value(s[l + 1..])
    ensures Value(s) % Pow(2, 32 * l + r) == Value(s[..l]) + Unit(l) * LowBits(s[l], r)
  {
    hide Value, Pow, Unit, ShiftRight, LowBits;
    CutAt(s, l);
    Unique(Value(s), Unit(l), Value(s[l..]), Value(s[..l]));
    TwoStepDivision(Value(s), l, r);
    LimbQuotient(s[l], Value(s[l + 1..]), r, Value(s[l..]));
  }

  /** Shifting a limb together with the limbs above it. */
  lemma LimbQuotient(x: Limb, high: nat, r: nat, v: nat)
    requires r < 32 && v == x + BASE * high
    ensures Pow(2, r) > 0
    ensures v / Pow(2, r) == ShiftRight(x, r) + Pow(2, 32 - r) * high
    ensures v % Pow(2, r) == LowBits(x, r)
  {
    hide Pow, ShiftRight, LowBits;
    PowPositive(2, r);
    PowAdd(2, r, 32 - r);
    Pow32();
    ShiftRightDivides(x, r);
    var h := Pow(2, 32 - r) * high;
    MulAssociates(Pow(2, r), Pow(2, 32 - r), high);
    JoinQuotient(Pow(2, r), h, ShiftRight(x, r), LowBits(x, r), v);
  }

  lemma JoinQuotient(p: int, h: int, q: int, r: int, v: int)
    requires p > 0 && v == p * q + r + p * h && 0 <= r < p
    ensures v / p == q + h && v % p == r
  {
    Distribute(q, h, p);
    Unique(v, p, q + h, r);
  }

  lemma ShiftRightDivides(x: Limb, r: nat)
    ensures x == Pow(2, r) * ShiftRight(x, r) + LowBits(x, r)
  {
    PowPositive(2, r);
    DivideExactly(x, Pow(2, r));
  }

  lemma EvenPower(k: nat, x: int)
    requires k >= 1
    ensures Pow(2, k) * x % 2 == 0
  {
    MulAssociates(2, Pow(2, k - 1), x);
  }

  lemma BitOfLimb(s: seq<Limb>, l: nat, r: nat)
    requires l < |s| && r < 32
    ensures Pow(2, 32 * l + r) > 0
    ensures Value(s) / Pow(2, 32 * l + r) % 2 == ShiftRight(s[l], r) % 2
  {
    hide Value, Pow, Unit, ShiftRight, LowBits;
    AtLimb(s, l, r);
    EvenPower(32 - r, Value(s[l + 1..]));
  }

  lemma LowPart(s: seq<Limb>, l: nat, r: nat)
    requires l < |s| && r < 32
    ensures Pow(2, 32 * l + r) > 0
    ensures Value(s) % Pow(2, 32 * l + r) == 0 <==> Value(s[..l]) == 0 && LowBits(s[l], r) == 0
  {
    hide Value, Pow, Unit, LowBits, ShiftRight;
    AtLimb(s, l, r);
    ZeroSum(Value(s[..l]), Unit(l), LowBits(s[l], r));
  }

  lemma ZeroSum(x: nat, u: int, y: nat)
    requires u >= 1
    ensures x + u * y == 0 <==> x == 0 && y == 0
  {
    if y >= 1 { MulMonotone(1, u, 1, y); }
  }
}
