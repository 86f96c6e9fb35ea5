/** mul_log2_radix: floor(a / log2(radix)) by one multiplication with a table entry. */
module DtoaLogTable {
  import opened Powers
  import opened Reals
  import opened DtoaTables
  import opened Scaling
  import opened Float64

  const TWO24: int := 0x100_0000

  /** k is floor(a / log2(radix)). */
  ghost predicate FloorLog(radix: int, a: int, k: int)
    requires radix >= 2
  {
    Exp(radix, k) <= Exp(2, a) < Exp(radix, k + 1)
  }

  predicate InRange(a: int) {
    -2048 <= a <= 2047
  }

  /** The number of times 2 divides a power of two, or -1 for another radix. */
  function RadixBits(radix: int): int {
    if radix == 2 then 1
    else if radix == 4 then 2
    else if radix == 8 then 3
    else if radix == 16 then 4
    else if radix == 32 then 5
    else -1
  }

  /** What the table entry of a radix that is no power of two is for. */
  ghost predicate LogTableOk(radix: int)
    requires 2 <= radix <= RADIX_MAX
  {
    RadixBits(radix) < 0
    ==> forall a {:trigger InRange(a)} :: InRange(a) ==> FloorLog(radix, a, a * MUL_LOG2_RADIX[radix - 2] / TWO24)
  }

  /** Division of C: towards zero. */
  function Quotient(a: int, b: int): int
    requires b > 0
  {
    if a >= 0 then a / b else -(-a / b)
  }

  /** For a power of two the rounding of the division is the floor. */
  lemma PowerOfTwoRadix(radix: int, bits: int, a: int, k: int)
    requires bits > 0 && bits == RadixBits(radix)
    requires k == Quotient(if a < 0 then a - (bits - 1) else a, bits)
    ensures radix >= 2 && FloorLog(radix, a, k)
  {
    hide Exp, Pow;
    assert bits * k <= a < bits * k + bits;
    BitsOfRadix(radix, bits);
    ExpOfPower(2, bits, k);
    ExpOfPower(2, bits, k + 1);
    ExpMonotone(2, bits * k, a);
    ExpOrder(a, bits * (k + 1));
  }

  lemma BitsOfRadix(radix: int, bits: int)
    requires bits > 0 && bits == RadixBits(radix)
    ensures Pow(2, bits) == radix
  {
    PowZeroOne(2);
    Four();
    PowAdd(2, 2, 1);
    PowAdd(2, 2, 2);
    PowAdd(2, 2, 3);
  }

  // ----- why the entries are right -----

  /**
   * p1/q1 and p2/q2 are neighbours in the Farey sequence of order 2048; 1/log2(radix) and the table entry lie between
   * them, so no fraction with a denominator up to 2048 separates the two.
   */
  ghost predicate Certificate(radix: int, mult: nat, p1: nat, q1: nat, p2: nat, q2: nat) {
    && radix >= 2 && q1 > 0 && q2 > 0
    && p2 * q1 == p1 * q2 + 1 && q1 + q2 > 2048
    && p1 * TWO24 < mult * q1 && mult * q2 < p2 * TWO24
    && Pow(radix, p1) < Pow(2, q1) && Pow(2, q2) < Pow(radix, p2)
  }

  /** radix^k < 2^a exactly when k < a * mult / 2^24. */
  lemma Separates(radix: int, mult: nat, p1: nat, q1: nat, p2: nat, q2: nat, a: nat, k: nat)
    requires Certificate(radix, mult, p1, q1, p2, q2) && 1 <= a <= 2048
    ensures Pow(radix, k) < Pow(2, a) <==> k * TWO24 < a * mult
    ensures Pow(radix, k) != Pow(2, a) && k * TWO24 != a * mult
  {
    hide Pow;
    if k * q1 <= p1 * a {
      BelowLeft(radix, mult, p1, q1, a, k);
    } else if p2 * a <= k * q2 {
      AboveRight(radix, mult, p2, q2, a, k);
    } else {
      NothingBetween(p1, q1, p2, q2, a, k);
      assert false;
    }
  }

  lemma NothingBetween(p1: int, q1: int, p2: int, q2: int, a: int, k: int)
    requires p2 * q1 == p1 * q2 + 1 && q1 > 0 && q2 > 0 && k * q1 > p1 * a && p2 * a > k * q2
    ensures a >= q1 + q2
  {
    var x, y := k * q1 - p1 * a, p2 * a - k * q2;
    Mediant(p1, q1, p2, q2, a, k, x, y);
    MulMonotoneLeft(q2, 1, x);
    MulMonotoneLeft(q1, 1, y);
  }

  lemma Mediant(p1: int, q1: int, p2: int, q2: int, a: int, k: int, x: int, y: int)
    requires p2 * q1 == p1 * q2 + 1 && x == k * q1 - p1 * a && y == p2 * a - k * q2
    ensures q2 * x + q1 * y == a
  {
    Distribute(k * q1, -(p1 * a), q2);
    Distribute(p2 * a, -(k * q2), q1);
    Rotate(k, q1, q2);
    Rotate(k, q2, q1);
    Rotate(p1, a, q2);
    Rotate(p2, a, q1);
    Distribute(p1 * q2, 1, a);
  }

  lemma Rotate(x: int, y: int, z: int)
    ensures z * (x * y) == y * (x * z)
    ensures (x * y) * z == (x * z) * y
  {
    MulAssociates(z, x, y);
    MulAssociates(x, z, y);
    MulAssociates(x, y, z);
  }

  /** Taking roots keeps a strict order. */
  lemma RootOrder(x: int, y: int, n: nat)
    requires x >= 0 && y >= 0 && Pow(x, n) < Pow(y, n)
    ensures x < y
  {
    if y <= x { PowBase(y, x, n); }
  }

  lemma {:induction false} StrictPow(x: int, y: int, n: nat)
    requires 0 <= x < y && n >= 1
    ensures Pow(x, n) < Pow(y, n)
    decreases n
  {
    if n > 1 {
      StrictPow(x, y, n - 1);
      PowBase(x, y, n - 1);
      MulStrict(x, y, Pow(x, n - 1), Pow(y, n - 1));
    }
  }

  lemma MulStrict(a: int, b: int, x: int, y: int)
    requires 0 <= a < b && 0 <= x < y
    ensures a * x < b * y
  {
    MulMonotone(a, b, x, x);
    MulMonotoneLeft(b, x + 1, y);
    Distribute(x, 1, b);
  }

  lemma {:induction false} PowOfPow(b: int, m: nat, n: nat)
    ensures Pow(Pow(b, m), n) == Pow(b, m * n)
    decreases n
  {
    if n > 0 {
      PowOfPow(b, m, n - 1);
      PowAdd(b, m, m * (n - 1));
      Distribute(n - 1, 1, m);
    } else {
      assert m * n == 0;
    }
  }

  /** b^k < c^a follows from b^p < c^q when k/a is at most p/q. */
  lemma PowersCompare(b: int, p: nat, c: int, q: nat, a: nat, k: nat)
    requires b >= 1 && c >= 1 && q > 0 && a > 0 && Pow(b, p) < Pow(c, q) && k * q <= p * a
    ensures Pow(b, k) < Pow(c, a)
  {
    hide Pow;
    PowOfPow(b, k, q);
    PowOfPow(b, p, a);
    SwapPowers(c, q, a);
    PowPositive(b, k);
    PowPositive(b, p);
    PowPositive(c, a);
    MulMonotone(0, k, 0, q);
    RootsCompare(b, c, q, a, Pow(b, k), Pow(b, p), Pow(c, q), Pow(c, a), k * q, p * a);
  }

  lemma SwapPowers(c: int, q: nat, a: nat)
    ensures Pow(Pow(c, q), a) == Pow(Pow(c, a), q)
  {
    hide Pow;
    PowOfPow(c, q, a);
    PowOfPow(c, a, q);
    MulCommutes(a, q);
  }

  lemma RootsCompare(b: int, c: int, q: nat, a: nat, bk: int, bp: int, cq: int, ca: int, x: nat, y: nat)
    requires b >= 1 && c >= 1 && q > 0 && a > 0 && x <= y && bp < cq
    requires Pow(bk, q) == Pow(b, x) && Pow(bp, a) == Pow(b, y) && Pow(cq, a) == Pow(ca, q)
    requires bk >= 0 && bp >= 0 && ca >= 0
    ensures bk < ca
  {
    hide Pow;
    PowMonotone(b, x, y);
    StrictPow(bp, cq, a);
    RootOrder(bk, ca, q);
  }

  lemma BelowLeft(radix: int, mult: nat, p1: nat, q1: nat, a: nat, k: nat)
    requires radix >= 2 && q1 > 0 && Pow(radix, p1) < Pow(2, q1) && p1 * TWO24 < mult * q1 && a >= 1
    requires k * q1 <= p1 * a
    ensures Pow(radix, k) < Pow(2, a) && k * TWO24 < a * mult
  {
    hide Pow;
    PowersCompare(radix, p1, 2, q1, a, k);
    CrossLess(k, q1, p1, a, mult);
  }

  lemma MulCommutes(x: int, y: int)
    ensures x * y == y * x
  {
  }

  lemma CrossLess(k: nat, q: nat, p: nat, a: nat, mult: nat)
    requires k * q <= p * a && p * TWO24 < mult * q && q > 0 && a >= 1
    ensures k * TWO24 < a * mult
  {
    ScaleProduct(k, q);
    ScaleProduct(p, a);
    Rotate(a, mult, q);
    MulMonotoneLeft(a, p * TWO24 + 1, mult * q);
    CancelLess(q, k * TWO24, a * mult);
  }

  lemma ScaleProduct(x: int, y: int)
    ensures y * (x * TWO24) == TWO24 * (x * y)
  {
  }

  lemma CancelLess(q: int, x: int, y: int)
    requires q > 0 && q * x < q * y
    ensures x < y
  {
    if y <= x { MulMonotoneLeft(q, y, x); }
  }

  lemma AboveRight(radix: int, mult: nat, p2: nat, q2: nat, a: nat, k: nat)
    requires radix >= 2 && q2 > 0 && Pow(2, q2) < Pow(radix, p2) && mult * q2 < p2 * TWO24 && a >= 1
    requires p2 * a <= k * q2
    ensures Pow(2, a) < Pow(radix, k) && a * mult < k * TWO24
  {
    hide Pow;
    PositiveRoot(p2, q2, a, k, mult);
    MulCommutes(a, p2);
    MulCommutes(k, q2);
    PowersCompare(2, q2, radix, p2, k, a);
    CrossGreater(k, q2, p2, a, mult);
  }

  lemma PositiveRoot(p2: nat, q2: nat, a: nat, k: nat, mult: nat)
    requires mult * q2 < p2 * TWO24 && a >= 1 && p2 * a <= k * q2
    ensures p2 >= 1 && k >= 1
  {
    MulMonotone(0, mult, 0, q2);
    MulMonotone(1, a, p2, p2);
  }

  lemma CrossGreater(k: nat, q: nat, p: nat, a: nat, mult: nat)
    requires p * a <= k * q && mult * q < p * TWO24 && q > 0 && a >= 1
    ensures a * mult < k * TWO24
  {
    ScaleProduct(k, q);
    ScaleProduct(p, a);
    Rotate(a, mult, q);
    MulMonotoneLeft(a, mult * q + 1, p * TWO24);
    CancelLess(q, a * mult, k * TWO24);
  }

  /** A certificate proves the entry for every argument in the documented range. */
  lemma CertifiedTable(radix: int, p1: nat, q1: nat, p2: nat, q2: nat)
    requires 2 <= radix <= RADIX_MAX && Certificate(radix, MUL_LOG2_RADIX[radix - 2], p1, q1, p2, q2)
    ensures LogTableOk(radix)
  {
    hide Certificate, FloorLog;
    forall a {:trigger InRange(a)} | InRange(a)
      ensures FloorLog(radix, a, a * MUL_LOG2_RADIX[radix - 2] / TWO24)
    {
      if a > 0 {
        CertifiedPositive(radix, p1, q1, p2, q2, a);
      } else if a < 0 {
        CertifiedNegative(radix, p1, q1, p2, q2, -a);
      } else {
        FloorLogOfZero(radix);
      }
    }
  }

  lemma FloorLogOfZero(radix: int)
    requires radix >= 2
    ensures FloorLog(radix, 0, 0)
  {
    ExpZero(radix);
    ExpZero(2);
  }

  lemma CertifiedPositive(radix: int, p1: nat, q1: nat, p2: nat, q2: nat, a: nat)
    requires 2 <= radix <= RADIX_MAX && Certificate(radix, MUL_LOG2_RADIX[radix - 2], p1, q1, p2, q2)
    requires 1 <= a <= 2048
    ensures FloorLog(radix, a, a * MUL_LOG2_RADIX[radix - 2] / TWO24)
  {
    hide Certificate, Exp, Pow;
    var mult := MUL_LOG2_RADIX[radix - 2];
    MulMonotone(0, a, 0, mult);
    var k := a * mult / TWO24;
    Separates(radix, mult, p1, q1, p2, q2, a, k);
    Separates(radix, mult, p1, q1, p2, q2, a, k + 1);
    ExpIsPow(radix, k);
    ExpIsPow(radix, k + 1);
    ExpIsPow(2, a);
  }

  lemma CertifiedNegative(radix: int, p1: nat, q1: nat, p2: nat, q2: nat, n: int)
    requires 2 <= radix <= RADIX_MAX && Certificate(radix, MUL_LOG2_RADIX[radix - 2], p1, q1, p2, q2)
    requires 1 <= n <= 2048
    ensures FloorLog(radix, -n, -n * MUL_LOG2_RADIX[radix - 2] / TWO24)
  {
    hide Certificate, Exp, Pow;
    var mult := MUL_LOG2_RADIX[radix - 2];
    MulMonotone(0, n, 0, mult);
    var v := n * mult;
    assert -n * mult == -v;
    var j := -(-v / TWO24);
    assert 0 <= j && (j - 1) * TWO24 < v <= j * TWO24;
    Separates(radix, mult, p1, q1, p2, q2, n, j);
    if j == 0 { ExpPositive(2, n); }
    NegativeFloor(radix, n, j);
    if j >= 1 { Separates(radix, mult, p1, q1, p2, q2, n, j - 1); NegativeCeiling(radix, n, j - 1); }
  }

  lemma NegativeFloor(radix: int, n: int, j: int)
    requires radix >= 2 && n >= 0 && j >= 0 && Pow(2, n) < Pow(radix, j)
    ensures Exp(radix, -j) < Exp(2, -n)
  {
    hide Exp, Pow;
    ExpIsPow(radix, j);
    ExpIsPow(2, n);
    ReciprocalOrder(2, n, radix, j);
  }

  lemma NegativeCeiling(radix: int, n: int, j: int)
    requires radix >= 2 && n >= 0 && j >= 0 && Pow(radix, j) < Pow(2, n)
    ensures Exp(2, -n) < Exp(radix, -j)
  {
    hide Exp, Pow;
    ExpIsPow(radix, j);
    ExpIsPow(2, n);
    ReciprocalOrder(radix, j, 2, n);
  }

  lemma ReciprocalOrder(b: int, i: int, c: int, j: int)
    requires b >= 1 && c >= 1 && Exp(b, i) < Exp(c, j)
    ensures Exp(c, -j) < Exp(b, -i)
  {
    hide Exp;
    var x, y, s, t := Exp(b, i), Exp(c, j), Exp(b, -i), Exp(c, -j);
    ExpPositive(b, -i);
    ExpPositive(c, -j);
    ExpInverse(b, i);
    ExpInverse(c, j);
    GrowsStrictly(0.0, s, t);
    GrowsStrictly(x, y, s * t);
    Associates(x, s, t);
    Associates(y, t, s);
  }
}
