/** Multi-precision routines of dtoa.c: numbers as little-endian arrays of 32-bit limbs, rewritten in place. */
module Limbs {
  import opened Powers
  import opened Bits

  const BASE: int := 0x1_0000_0000

  type Limb = x: int | 0 <= x < 0x1_0000_0000

  /** The number that limbs denote: the sum of s[i] * 2^(32*i). */
  function Value(s: seq<Limb>): nat {
    if s == [] then 0 else s[0] + BASE * Value(s[1..])
  }

  /** 2^(32*n), the weight of limb n. */
  function Unit(n: nat): (u: nat)
    ensures u >= 1
  {
    if n == 0 then 1 else BASE * Unit(n - 1)
  }

  lemma {:induction false} UnitIsPow(n: nat)
    ensures Unit(n) == Pow(2, 32 * n)
  {
    if n > 0 {
      UnitIsPow(n - 1);
      PowAdd(2, 32, 32 * (n - 1));
      Pow32();
    }
  }

  lemma Pow8()
    ensures Pow(2, 8) == 256
  {
    assert Pow(2, 4) == 16;
  }

  lemma Pow32()
    ensures Pow(2, 32) == BASE
  {
    Pow8();
    PowAdd(2, 8, 8);
    PowAdd(2, 16, 16);
  }

  /** The number in the first n limbs of a. */
  ghost function Number(a: array<Limb>, n: nat): nat
    requires n <= a.Length
    reads a
  {
    Value(a[..n])
  }

  lemma Empty()
    ensures Value([]) == 0 && Unit(0) == 1
  {
  }

  lemma {:induction false} ValueConcat(s: seq<Limb>, t: seq<Limb>)
    ensures Value(s + t) == Value(s) + Unit(|s|) * Value(t)
  {
    if s == [] {
      assert s + t == t;
    } else {
      ValueConcat(s[1..], t);
      assert (s + t)[1..] == s[1..] + t;
      MulAssociates(BASE, Unit(|s| - 1), Value(t));
    }
  }

  lemma ValueSnoc(s: seq<Limb>, x: Limb)
    ensures Value(s + [x]) == Value(s) + Unit(|s|) * x
  {
    ValueConcat(s, [x]);
    assert Value([x]) == x;
  }

  lemma {:induction false} ValueBound(s: seq<Limb>)
    ensures Value(s) < Unit(|s|)
  {
    if s != [] { ValueBound(s[1..]); }
  }

  /** Adds a limb in place and returns the carry out of the n limbs. */
  method AddUi(tab: array<Limb>, b: Limb, n: nat) returns (k: Limb)
    requires n <= tab.Length
    modifies tab
    ensures Number(tab, n) + Unit(n) * k == old(Number(tab, n)) + b
    ensures tab[n..] == old(tab[n..])
  {
    hide Value, Unit;
    ghost var was := tab[..];
    Empty();
    k := b;
    var i := 0;
    while i < n
      invariant 0 <= i <= n
      invariant Value(tab[..i]) + Unit(i) * k == Value(was[..i]) + b
      invariant tab[i..] == was[i..]
    {
      if k == 0 {
        break;
      }
      var a := (tab[i] + k) % BASE;
      ghost var x, c := tab[i], k;
      k := if a < k then 1 else 0;
      tab[i] := a;
      AddStep(tab[..i], was[..i], x, c, a, k, b);
      assert tab[..i + 1] == tab[..i] + [a] && was[..i + 1] == was[..i] + [x] && tab[i + 1..] == was[i + 1..];
      i := i + 1;
    }
    if i < n {
      assert tab[i..n] == tab[i..][..n - i] && was[i..n] == was[i..][..n - i];
      assert tab[..n] == tab[..i] + was[i..n] && was[..n] == was[..i] + was[i..n];
      ValueConcat(tab[..i], was[i..n]);
      ValueConcat(was[..i], was[i..n]);
    }
  }

  lemma AddStep(r: seq<Limb>, s: seq<Limb>, x: Limb, c: Limb, a: Limb, k: Limb, b: int)
    requires |r| == |s| && Value(r) + Unit(|r|) * c == Value(s) + b
    requires a == (x + c) % BASE && k == (if a < c then 1 else 0)
    ensures Value(r + [a]) + Unit(|r| + 1) * k == Value(s + [x]) + b
  {
    hide Value, Unit;
    ValueSnoc(r, a);
    ValueSnoc(s, x);
    UnitNext(|r|);
    UnitSplit(Unit(|r|), a, k, x, c);
  }

  lemma UnitNext(n: nat)
    ensures Unit(n + 1) == BASE * Unit(n)
  {
  }

  lemma UnitSplit(u: int, a: int, k: int, x: int, c: int)
    requires a + BASE * k == x + c
    ensures u * a + (BASE * u) * k == u * x + u * c
  {
    assert u * (a + BASE * k) == u * a + u * (BASE * k);
    assert u * (BASE * k) == (BASE * u) * k;
    assert u * (x + c) == u * x + u * c;
  }

  /** tab := tab * b + l in place; returns the limb carried out. */
  method Mul1(tab: array<Limb>, n: nat, b: Limb, l: Limb) returns (h: Limb)
    requires n <= tab.Length
    modifies tab
    ensures Number(tab, n) + Unit(n) * h == old(Number(tab, n)) * b + l
    ensures tab[n..] == old(tab[n..])
  {
    hide Value, Unit;
    ghost var was := tab[..];
    Empty();
    h := l;
    var i := 0;
    while i < n
      invariant 0 <= i <= n
      invariant Value(tab[..i]) + Unit(i) * h == Value(was[..i]) * b + l
      invariant tab[i..] == was[i..]
    {
      MulFits(tab[i], b, h);
      var t := tab[i] * b + h;
      ghost var x, c := tab[i], h;
      tab[i] := t % BASE;
      h := t / BASE;
      DivideExactly(t, BASE);
      MulStep(tab[..i], was[..i], x, b, c, t % BASE, h, l);
      assert tab[..i + 1] == tab[..i] + [t % BASE] && was[..i + 1] == was[..i] + [x];
      i := i + 1;
    }
  }

  lemma MulFits(x: Limb, b: Limb, c: Limb)
    ensures 0 <= x * b + c < BASE * BASE
    ensures 0 <= (x * b + c) / BASE < BASE
  {
    MulMonotone(x, BASE - 1, b, BASE - 1);
  }

  lemma MulStep(r: seq<Limb>, s: seq<Limb>, x: Limb, b: Limb, c: Limb, lo: Limb, hi: Limb, l: int)
    requires |r| == |s| && Value(r) + Unit(|r|) * c == Value(s) * b + l
    requires lo + BASE * hi == x * b + c
    ensures Value(r + [lo]) + Unit(|r| + 1) * hi == Value(s + [x]) * b + l
  {
    hide Value, Unit;
    ValueSnoc(r, lo);
    ValueSnoc(s, x);
    UnitNext(|r|);
    MulAlgebra(Value(r), Value(s), Unit(|r|), x, b, c, lo, hi, l);
  }

  lemma MulAlgebra(vr: int, vs: int, u: int, x: int, b: int, c: int, lo: int, hi: int, l: int)
    requires vr + u * c == vs * b + l && lo + BASE * hi == x * b + c
    ensures vr + u * lo + (BASE * u) * hi == (vs + u * x) * b + l
  {
    UnitSplit(u, lo, hi, x * b, c);
    MulAssociates(u, x, b);
    Distribute(vs, u * x, b);
  }

  /** tab := (r * 2^(32*n) + tab) / b in place; returns the remainder. */
  method Div1(tab: array<Limb>, n: nat, b: Limb, r: Limb) returns (rem: Limb)
    requires n <= tab.Length && r < b
    modifies tab
    ensures Unit(n) * r + old(Number(tab, n)) == Number(tab, n) * b + rem && rem < b
    ensures tab[n..] == old(tab[n..])
  {
    hide Value, Unit, Divided;
    ghost var was := tab[..];
    DividedNothing(r, b);
    rem := r;
    var i := n;
    assert was[n..n] == [] && tab[n..n] == [];
    while i > 0
      invariant 0 <= i <= n && rem < b
      invariant Divided(was[i..n], r, b, tab[i..n], rem)
      invariant tab[..i] == was[..i] && tab[n..] == was[n..]
    {
      i := i - 1;
      var a1 := rem * BASE + tab[i];
      QuotientFits(rem, tab[i], b);
      ghost var x, c := tab[i], rem;
      tab[i] := a1 / b;
      rem := a1 % b;
      DivStep(tab[i + 1..n], was[i + 1..n], x, a1 / b, rem, b, c, r);
      assert tab[i..n] == [a1 / b] + tab[i + 1..n] && was[i..n] == [x] + was[i + 1..n];
    }
    assert was[0..n] == was[..n] && tab[0..n] == tab[..n];
    DividedIs(was[..n], r, b, tab[..n], rem);
  }

  lemma QuotientFits(r: Limb, x: Limb, b: Limb)
    requires r < b
    ensures 0 <= (r * BASE + x) / b < BASE
    ensures 0 <= (r * BASE + x) % b < b
  {
    var a := r * BASE + x;
    assert a < b * BASE;
    QuotientBelow(a, b, BASE);
  }

  /** The limbs s under the high part r, divided by b: quotient q and remainder c. */
  ghost predicate Divided(s: seq<Limb>, r: int, b: int, q: seq<Limb>, c: int) {
    |q| == |s| && Unit(|s|) * r + Value(s) == Value(q) * b + c
  }

  lemma DividedNothing(r: int, b: int)
    ensures Divided([], r, b, [], r)
  {
    hide Value, Unit;
    Empty();
  }

  lemma DividedIs(s: seq<Limb>, r: int, b: int, q: seq<Limb>, c: int)
    requires Divided(s, r, b, q, c)
    ensures Unit(|s|) * r + Value(s) == Value(q) * b + c
  {
    hide Value, Unit;
  }

  /** One more limb of a long division. */
  lemma DivStep(q: seq<Limb>, s: seq<Limb>, x: Limb, y: Limb, rem: int, b: int, c: int, r: int)
    requires Divided(s, r, b, q, c) && y * b + rem == c * BASE + x
    ensures Divided([x] + s, r, b, [y] + q, rem)
  {
    hide Value, Unit;
    ValueCons(x, s);
    ValueCons(y, q);
    UnitNext(|s|);
    DivAlgebra(Value(q), Value(s), Unit(|s|), x, y, rem, b, c, r);
  }

  lemma DivAlgebra(vq: int, vs: int, u: int, x: int, y: int, rem: int, b: int, c: int, r: int)
    requires u * r + vs == vq * b + c && y * b + rem == c * BASE + x
    ensures (BASE * u) * r + (x + BASE * vs) == (y + BASE * vq) * b + rem
  {
    MulAssociates(BASE, u, r);
    MulAssociates(BASE, vq, b);
    Distribute(y, BASE * vq, b);
  }

  lemma ValueCons(x: Limb, s: seq<Limb>)
    ensures Value([x] + s) == x + BASE * Value(s)
  {
    assert ([x] + s)[1..] == s;
  }

  lemma PowersOfShift(s: nat)
    requires 1 <= s <= 31
    ensures Pow(2, s) * Pow(2, 32 - s) == BASE
    ensures 2 <= Pow(2, s) <= BASE / 2 && 2 <= Pow(2, 32 - s) <= BASE / 2
  {
    PowAdd(2, s, 32 - s);
    Pow32();
    PowMonotone(2, 1, s);
    PowMonotone(2, 1, 32 - s);
    Halve(Pow(2, s), Pow(2, 32 - s));
  }

  lemma Halve(x: int, y: int)
    requires x * y == BASE && x >= 2 && y >= 2
    ensures x <= BASE / 2 && y <= BASE / 2
  {
    MulMonotone(2, x, y, y);
    MulMonotone(2, y, x, x);
  }

  /** The limb x << s. */
  function ShiftLeft(x: Limb, s: nat): Limb {
    x * Pow(2, s) % BASE
  }

  /** The limb x >> s. */
  function ShiftRight(x: Limb, s: nat): Limb {
    PowPositive(2, s);
    QuotientAtMost(x, Pow(2, s));
    x / Pow(2, s)
  }

  /** The limb x & ((1 << s) - 1). */
  function LowBits(x: Limb, s: nat): (r: Limb)
    ensures r < Pow(2, s)
  {
    PowPositive(2, s);
    DivideExactly(x, Pow(2, s));
    QuotientAtMost(x, Pow(2, s));
    MulMonotone(0, Pow(2, s), 0, x / Pow(2, s));
    x % Pow(2, s)
  }

  lemma LowBitsOfSmall(x: Limb, s: nat)
    requires x < Pow(2, s)
    ensures LowBits(x, s) == x
  {
    hide Pow;
  }

  lemma QuotientAtMost(x: nat, p: int)
    requires p >= 1
    ensures 0 <= x / p <= x
  {
    DivideExactly(x, p);
    MulGrows(p, x / p);
  }

  /** (x << s) | c for a limb x and c < 2^s: its low limb and the bits shifted out. */
  lemma ShlWord(x: Limb, c: Limb, s: nat)
    requires 1 <= s <= 31 && c < Pow(2, s)
    ensures Or(ShiftLeft(x, s), c) < BASE
    ensures ShiftRight(x, 32 - s) < Pow(2, s)
    ensures Or(ShiftLeft(x, s), c) + BASE * ShiftRight(x, 32 - s) == x * Pow(2, s) + c
  {
    hide Or, Pow;
    PowersOfShift(s);
    var p, q := Pow(2, s), Pow(2, 32 - s);
    SplitShifted(x, p, q);
    OrDisjoint(x % q, c, s);
  }

  /** x * p modulo 2^32 when p * q is 2^32. */
  lemma SplitShifted(x: Limb, p: int, q: int)
    requires p * q == BASE && p >= 2 && q >= 2
    ensures x * p % BASE == (x % q) * p && 0 <= x % q < q
    ensures x * p == (x / q) * BASE + (x % q) * p
    ensures 0 <= x / q < p
    ensures 0 <= (x % q) * p <= BASE - p
  {
    DivideExactly(x, q);
    var h, l := x / q, x % q;
    Distribute(q * h, l, p);
    MulAssociates(h, q, p);
    assert x * p == h * BASE + l * p;
    Distribute(q - 1 - l, l, p);
    MulMonotone(0, q - 1 - l, p, p);
    Distribute(q, -1, p);
    UniqueModulo(h, l * p, x * p);
    QuotientBelow(x, q, p);
  }

  lemma UniqueModulo(h: int, l: int, x: int)
    requires x == h * BASE + l && 0 <= l < BASE
    ensures x % BASE == l
  {
  }

  /** (a >> s) | (l << (32 - s)): the word that a right shift stores. */
  lemma ShrWord(a: Limb, l: Limb, s: nat)
    requires 1 <= s <= 31
    ensures Pow(2, s) > 0
    ensures Or(ShiftRight(a, s), ShiftLeft(l, 32 - s)) < BASE
    ensures Or(ShiftRight(a, s), ShiftLeft(l, 32 - s)) * Pow(2, s) + LowBits(a, s) == LowBits(l, s) * BASE + a
  {
    hide Or, Pow;
    PowersOfShift(s);
    var p, q := Pow(2, s), Pow(2, 32 - s);
    SplitShifted(l, q, p);
    SplitShifted(a, q, p);
    OrDisjoint(l % p, a / p, 32 - s);
    OrCommutes(a / p, (l % p) * q);
    Distribute((l % p) * q, a / p, p);
    MulAssociates(l % p, q, p);
    DivideExactly(a, p);
  }

  /** tab := tab * 2^shift + low in place; returns the bits shifted out. */
  method Shl(tab: array<Limb>, n: nat, shift: nat, low: Limb) returns (l: Limb)
    requires n <= tab.Length && 1 <= shift < 32 && low < Pow(2, shift)
    modifies tab
    ensures Number(tab, n) + Unit(n) * l == old(Number(tab, n)) * Pow(2, shift) + low && l < Pow(2, shift)
    ensures tab[n..] == old(tab[n..])
  {
    hide Or, Pow, ShiftLeft, ShiftRight, Value, Unit;
    ghost var was := tab[..];
    Empty();
    l := low;
    var i := 0;
    while i < n
      invariant 0 <= i <= n && l < Pow(2, shift)
      invariant Value(tab[..i]) + Unit(i) * l == Value(was[..i]) * Pow(2, shift) + low
      invariant tab[i..] == was[i..]
    {
      var a := tab[i];
      ghost var c := l;
      ShlWord(a, l, shift);
      PowersOfShift(shift);
      tab[i] := Or(ShiftLeft(a, shift), l);
      l := ShiftRight(a, 32 - shift);
      MulStep(tab[..i], was[..i], a, Pow(2, shift), c, tab[i], l, low);
      assert tab[..i + 1] == tab[..i] + [tab[i]] && was[..i + 1] == was[..i] + [a];
      assert tab[i + 1..] == was[i + 1..];
      i := i + 1;
    }
  }

  /** tab := (tab + high * 2^(32*n)) / 2^shift in place; returns the remainder. */
  method Shr(tab: array<Limb>, n: nat, shift: nat, high: Limb) returns (r: Limb)
    requires n <= tab.Length && 1 <= shift < 32 && high < Pow(2, shift)
    modifies tab
    ensures Number(tab, n) * Pow(2, shift) + r == old(Number(tab, n)) + Unit(n) * high && r < Pow(2, shift)
    ensures tab[n..] == old(tab[n..])
  {
    hide Or, Pow, ShiftLeft, ShiftRight, LowBits, Value, Unit, Divided;
    ghost var was := tab[..];
    ghost var p := Pow(2, shift);
    var l := high;
    LowBitsOfSmall(high, shift);
    DividedNothing(high, p);
    var i := n;
    assert was[n..n] == [] && tab[n..n] == [];
    while i > 0
      invariant 0 <= i <= n
      invariant Divided(was[i..n], high, p, tab[i..n], LowBits(l, shift))
      invariant tab[..i] == was[..i] && tab[n..] == was[n..]
    {
      i := i - 1;
      var a := tab[i];
      ShrWord(a, l, shift);
      tab[i] := Or(ShiftRight(a, shift), ShiftLeft(l, 32 - shift));
      DivStep(tab[i + 1..n], was[i + 1..n], a, tab[i], LowBits(a, shift), p, LowBits(l, shift), high);
      assert tab[i..n] == [tab[i]] + tab[i + 1..n] && was[i..n] == [a] + was[i + 1..n];
      l := a;
    }
    assert was[0..n] == was[..n] && tab[0..n] == tab[..n];
    r := LowBits(l, shift);
    DividedIs(was[..n], high, p, tab[..n], r);
  }
}
