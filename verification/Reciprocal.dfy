/** Division of limb arrays by a precomputed reciprocal of the divisor. */
module Reciprocal {
  import opened Powers
  import opened Bits
  import opened Limbs

  const BASE2: int := 0x1_0000_0000_0000_0000

  /** The reciprocal floor((2^64 - 1) / d) - 2^32 of a divisor with its top bit set. */
  method Udiv1NormInit(d: Limb) returns (inv: Limb)
    requires d >= BASE / 2
    ensures IsReciprocal(d, inv)
  {
    var a1 := (0 - d - 1) % BASE;
    var a0 := (0 - 1) % BASE;
    assert a1 == BASE - d - 1 && a0 == BASE - 1;
    var a := a1 * BASE + a0;
    ReciprocalFits(a, d);
    inv := a / d;
  }

  ghost predicate IsReciprocal(d: Limb, inv: int) {
    (BASE + inv) * d <= BASE2 - 1 < (BASE + inv) * d + d
  }

  lemma ReciprocalFits(a: int, d: Limb)
    requires d >= BASE / 2 && a == (BASE - d - 1) * BASE + BASE - 1
    ensures 0 <= a / d < BASE && IsReciprocal(d, a / d)
  {
    DivideExactly(a, d);
    Distribute(BASE, a / d, d);
    QuotientBelow(a, d, BASE);
  }

  /** The two-limb number a1 * 2^32 + a0 divided by d with the reciprocal of d: no division is executed. */
  method Udiv1Norm(a1: Limb, a0: Limb, d: Limb, inv: Limb) returns (q: Limb, r: Limb)
    requires d >= BASE / 2 && a1 < d && IsReciprocal(d, inv)
    ensures a1 * BASE + a0 == q * d + r && r < d
  {
    hide IsReciprocal;
    var n1m := if a0 >= BASE / 2 then BASE - 1 else 0;
    var nAdj := (a0 + (if n1m == 0 then 0 else d)) % BASE;
    var a := (inv * ((a1 - n1m) % BASE) + nAdj) % BASE2;
    Estimate(a1, a0, d, inv, n1m, nAdj);
    q := (a / BASE + a1) % BASE;
    ghost var guess := q;
    a := (a1 * BASE + a0 - q * d - d) % BASE2;
    var ah := a / BASE;
    q := (q + 1 + ah) % BASE;
    r := (a % BASE + (if ah == 0 then 0 else d)) % BASE;
    Correct(a1 * BASE + a0, guess, d, a, ah);
  }

  /** The product with the reciprocal underestimates the quotient by at most one, and nothing overflows. */
  lemma Estimate(a1: Limb, a0: Limb, d: Limb, inv: Limb, n1m: Limb, nAdj: Limb)
    requires d >= BASE / 2 && a1 < d && IsReciprocal(d, inv)
    requires n1m == if a0 >= BASE / 2 then BASE - 1 else 0
    requires nAdj == (a0 + (if n1m == 0 then 0 else d)) % BASE
    ensures var a := (inv * ((a1 - n1m) % BASE) + nAdj) % BASE2;
            var q := (a / BASE + a1) % BASE;
            0 <= q && 0 <= a1 * BASE + a0 - q * d < 2 * d
  {
    hide IsReciprocal;
    var t := if a0 >= BASE / 2 then 1 else 0;
    HighBit(a1, a0, d, n1m, nAdj, t);
    EstimateBounds(a1, a0, d, inv, t);
    ProductFits(a1, a0, d, inv, a1 + t, nAdj);
  }

  /** The highest bit of a0 is added to a1 and, where it is set, BASE - d subtracted from a0. */
  lemma HighBit(a1: Limb, a0: Limb, d: Limb, n1m: Limb, nAdj: Limb, t: int)
    requires d >= BASE / 2 && a1 < d && t == (if a0 >= BASE / 2 then 1 else 0)
    requires n1m == if a0 >= BASE / 2 then BASE - 1 else 0
    requires nAdj == (a0 + (if n1m == 0 then 0 else d)) % BASE
    ensures (a1 - n1m) % BASE == a1 + t < BASE && nAdj == a0 - t * (BASE - d)
  {
    if t == 1 {
      assert a0 + d - BASE == nAdj && 1 * (BASE - d) == BASE - d;
    } else {
      assert 0 * (BASE - d) == 0;
    }
  }

  lemma ProductFits(a1: Limb, a0: Limb, d: Limb, inv: Limb, x: Limb, nAdj: Limb)
    requires d >= BASE / 2 && a1 < d
    requires 0 <= BASE * (a1 * BASE + a0) - d * (inv * x + nAdj + a1 * BASE) <= d * BASE
    ensures var q := ((inv * x + nAdj) % BASE2 / BASE + a1) % BASE;
            0 <= q && 0 <= a1 * BASE + a0 - q * d < 2 * d
  {
    MulMonotone(inv, BASE - 1, x, BASE - 1);
    HighHalf(a1, a0, d, inv * x + nAdj);
  }

  lemma HighHalf(a1: Limb, a0: Limb, d: Limb, p: int)
    requires d >= BASE / 2 && a1 < d && 0 <= p < BASE2
    requires 0 <= BASE * (a1 * BASE + a0) - d * (p + a1 * BASE) <= d * BASE
    ensures var q := (p % BASE2 / BASE + a1) % BASE;
            0 <= q && 0 <= a1 * BASE + a0 - q * d < 2 * d
  {
    var high := HighLimb(p);
    Guess(a1, a0, d, p, high);
    Unchanged(high + a1);
  }

  lemma HighLimb(p: int) returns (high: int)
    requires 0 <= p < BASE2
    ensures high == p % BASE2 / BASE && 0 <= high && high * BASE <= p < high * BASE + BASE
  {
    high := p / BASE;
    assert p % BASE2 == p;
  }

  lemma Unchanged(q: int)
    requires 0 <= q < BASE
    ensures q % BASE == q
  {
  }

  lemma Guess(a1: Limb, a0: Limb, d: Limb, p: int, high: int)
    requires d >= BASE / 2 && a1 < d && 0 <= high && high * BASE <= p < high * BASE + BASE
    requires 0 <= BASE * (a1 * BASE + a0) - d * (p + a1 * BASE) <= d * BASE
    ensures high + a1 < BASE && 0 <= a1 * BASE + a0 - (high + a1) * d < 2 * d
  {
    var q := high + a1;
    QuotientRange(a1 * BASE + a0, q, d, p + a1 * BASE);
    GuessFits(a1, a0, d, q);
  }

  lemma GuessFits(a1: Limb, a0: Limb, d: Limb, q: int)
    requires a1 < d && 0 <= a1 * BASE + a0 - q * d
    ensures q < BASE
  {
    if q >= BASE { MulMonotone(BASE, q, d, d); }
  }

  /** BASE * N - d * X for N the dividend and X the product: between 0 and d * BASE. */
  lemma EstimateBounds(a1: Limb, a0: Limb, d: Limb, inv: Limb, t: int)
    requires d >= BASE / 2 && a1 < d && IsReciprocal(d, inv)
    requires t == if a0 >= BASE / 2 then 1 else 0
    ensures var x := inv * (a1 + t) + (a0 - t * (BASE - d)) + a1 * BASE;
            0 <= BASE * (a1 * BASE + a0) - d * x <= d * BASE
  {
    var k := BASE2 - 1 - (BASE + inv) * d;
    var n := a0 - t * (BASE - d);
    Gap(a1, a0, d, inv, t, k);
    MulMonotone(0, 1 + k, 0, a1 + t);
    MulMonotone(1 + k, d, a1 + t, d);
    MulMonotone(0, BASE - d, 0, n);
    if t == 0 { MulMonotone(BASE - d, BASE - d, n, d); } else { MulMonotone(BASE - d, BASE - d, n, d); }
    Distribute(d, BASE - d, d);
    assert (BASE - d) * d + d * d == BASE * d;
  }

  lemma Gap(a1: int, a0: int, d: int, inv: int, t: int, k: int)
    requires t == 0 || t == 1
    requires (BASE + inv) * d == BASE2 - 1 - k
    ensures BASE * (a1 * BASE + a0) - d * (inv * (a1 + t) + (a0 - t * (BASE - d)) + a1 * BASE)
         == (1 + k) * (a1 + t) + (BASE - d) * (a0 - t * (BASE - d))
  {
    var y, n := a1 + t, a0 - t * (BASE - d);
    ReciprocalTimes(y, d, inv, k);
    DistributeProduct(d, inv * y, n, a1);
    assert d * y == d * a1 + (if t == 1 then d else 0);
    Distribute(BASE, -d, n);
  }

  lemma DistributeProduct(d: int, p: int, n: int, a: int)
    ensures d * (p + n + a * BASE) == d * p + d * n + BASE * (d * a)
  {
    Distribute(p + n, a * BASE, d);
    Distribute(p, n, d);
  }

  lemma ReciprocalTimes(y: int, d: int, inv: int, k: int)
    requires (BASE + inv) * d == BASE2 - 1 - k
    ensures d * (inv * y) == BASE2 * y - (1 + k) * y - BASE * (d * y)
  {
    Distribute(BASE, inv, d);
    assert d * inv == BASE2 - (1 + k) - BASE * d;
    MulAssociates(d, inv, y);
    Distribute(BASE2 - (1 + k), -BASE * d, y);
    Distribute(BASE2, -(1 + k), y);
    MulAssociates(BASE, d, y);
  }

  /** From a quotient estimate scaled by BASE to the estimate itself. */
  lemma QuotientRange(n: int, q: int, d: int, x: int)
    requires d > 0 && q * BASE <= x < q * BASE + BASE
    requires 0 <= BASE * n - d * x <= d * BASE
    ensures 0 <= n - q * d < 2 * d
  {
    var e := x - q * BASE;
    assert d * x == d * (q * BASE) + d * e;
    assert d * (q * BASE) == BASE * (q * d);
    MulMonotone(d, d, e, BASE - 1);
    MulMonotone(0, d, 0, e);
  }

  /** The correction step: one comparison by way of the high limb of a wrapped difference. */
  lemma Correct(n: int, q: int, d: int, a: int, ah: int)
    requires BASE / 2 <= d < BASE && 0 <= q < BASE && 0 <= n < d * BASE && 0 <= n - q * d < 2 * d
    requires a == (n - q * d - d) % BASE2 && ah == a / BASE
    ensures var q1 := (q + 1 + ah) % BASE;
            var r := (a % BASE + (if ah == 0 then 0 else d)) % BASE;
            n == q1 * d + r && 0 <= r < d
  {
    CorrectRemainder(n - q * d, d, a, ah);
    if n - q * d >= d {
      Distribute(q, 1, d);
      GuessFitsNext(n, q + 1, d);
    }
  }

  /** The sign of the difference e - d is in the high limb, and adding d takes the subtraction back. */
  lemma CorrectRemainder(e: int, d: int, a: int, ah: int)
    requires BASE / 2 <= d < BASE && 0 <= e < 2 * d && a == (e - d) % BASE2 && ah == a / BASE
    ensures if e < d then ah == BASE - 1 && (a % BASE + d) % BASE == e else ah == 0 && a % BASE == e - d < d
  {
    assert a == if e < d then BASE2 + e - d else e - d;
  }

  lemma GuessFitsNext(n: int, q: int, d: int)
    requires d > 0 && n < d * BASE && q * d <= n
    ensures q < BASE
  {
    if q >= BASE { MulMonotone(BASE, q, d, d); }
  }

  lemma ShiftNormalised(b: Limb, s: nat)
    requires LowBits(b, s) == 0
    ensures b == ShiftRight(b, s) * Pow(2, s) && Pow(2, s) >= 1
    ensures s == 0 ==> Pow(2, s) == 1
  {
    PowPositive(2, s);
    DivideExactly(b, Pow(2, s));
  }

  lemma ShiftRightIs(x: Limb, s: nat)
    ensures Pow(2, s) >= 1 && ShiftRight(x, s) == x / Pow(2, s)
  {
    PowPositive(2, s);
  }

  /** (r << s) | l for a remainder r of the unshifted divisor. */
  lemma ShiftRemainder(r: Limb, l: Limb, b: Limb, s: nat)
    requires 1 <= s < 32 && LowBits(b, s) == 0 && r < ShiftRight(b, s) && l < Pow(2, s)
    ensures Or(ShiftLeft(r, s), l) == r * Pow(2, s) + l < b
  {
    hide Or, Pow, LowBits;
    var p := Pow(2, s);
    ShiftNormalised(b, s);
    Distribute(ShiftRight(b, s) - 1 - r, r, p);
    Distribute(ShiftRight(b, s), -1, p);
    MulMonotone(0, ShiftRight(b, s) - 1 - r, p, p);
    MulMonotone(0, r, 0, p);
    assert r * p % BASE == r * p;
    OrDisjoint(r, l, s);
  }

  lemma ShiftedStart(u: int, r: int, w: int, p: int, m: int, l: int, start: int)
    requires m + u * l == w * p && start == r * p + l
    ensures u * start + m == (u * r + w) * p
  {
    Distribute(r * p, l, u);
    Distribute(u * r, w, p);
    MulAssociates(u, r, p);
  }

  lemma Unshift(total: int, q: int, b: int, c: int, p: int, last: int)
    requires total * p == q * b + last && 0 <= last < b && b == c * p && p >= 1
    ensures total == q * c + last / p && 0 <= last / p < c
  {
    MulAssociates(q, c, p);
    Distribute(total, -q * c, p);
    var x := total - q * c;
    assert last == x * p;
    DivideExactly(last, p);
    ExactQuotient(x, p);
    QuotientBelow(last, p, c);
  }

  lemma ExactQuotient(x: int, p: int)
    requires p >= 1
    ensures x * p / p == x
  {
    DivideExactly(x * p, p);
    var y := x * p / p;
    Distribute(x, -y, p);
    if x > y { MulMonotone(1, x - y, p, p); }
    if x < y { MulMonotone(1, y - x, p, p); }
  }

  /**
   * tab := tab / (b >> shift) in place, for a divisor b that is normalised by shift; returns the remainder.
   * Source and destination are the same array, as in the only call.
   */
  method Div1Norm(tab: array<Limb>, n: nat, b: Limb, r: Limb, inv: Limb, shift: nat) returns (rem: Limb)
    requires n <= tab.Length && b >= BASE / 2 && IsReciprocal(b, inv)
    requires shift < 32 && LowBits(b, shift) == 0 && r < ShiftRight(b, shift)
    modifies tab
    ensures Unit(n) * r + old(Number(tab, n)) == Number(tab, n) * ShiftRight(b, shift) + rem
    ensures rem < ShiftRight(b, shift)
    ensures tab[n..] == old(tab[n..])
  {
    hide IsReciprocal, Value, Unit, Pow, ShiftRight, ShiftLeft, LowBits, Or, Divided;
    rem := r;
    ghost var was := tab[..];
    ghost var c := ShiftRight(b, shift);
    ShiftNormalised(b, shift);
    ghost var p := Pow(2, shift);
    ghost var carry := 0;
    if shift != 0 {
      var l := Shl(tab, n, shift, 0);
      ShiftRemainder(r, l, b, shift);
      rem := Or(ShiftLeft(rem, shift), l);
      carry := l;
    }
    ghost var start := rem;
    ghost var mid := tab[..];
    assert Unit(n) * start + Value(mid[..n]) == (Unit(n) * r + Value(was[..n])) * p by {
      ShiftedStart(Unit(n), r, Value(was[..n]), p, Value(mid[..n]), carry, start);
    }
    var i := n;
    DividedNothing(start, b);
    assert mid[n..n] == [] && tab[n..n] == [];
    while i > 0
      invariant 0 <= i <= n && rem < b
      invariant Divided(mid[i..n], start, b, tab[i..n], rem)
      invariant tab[..i] == mid[..i] && tab[n..] == was[n..]
    {
      i := i - 1;
      ghost var x, a1 := tab[i], rem;
      var q, r1 := Udiv1Norm(rem, tab[i], b, inv);
      tab[i], rem := q, r1;
      DivStep(tab[i + 1..n], mid[i + 1..n], x, q, rem, b, a1, start);
      assert tab[i..n] == [q] + tab[i + 1..n] && mid[i..n] == [x] + mid[i + 1..n];
    }
    assert mid[0..n] == mid[..n] && tab[0..n] == tab[..n];
    DividedIs(mid[..n], start, b, tab[..n], rem);
    ghost var last := rem;
    rem := ShiftRight(rem, shift);
    Unshift(Unit(n) * r + Value(was[..n]), Value(tab[..n]), b, c, p, last);
    ShiftRightIs(last, shift);
  }
}
