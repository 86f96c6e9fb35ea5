/** Interval arithmetic on powers, and what it proves of the exponent limits of a radix. */
module DtoaCertificates {
  import opened Powers
  import opened Limbs
  import opened DtoaTables
  import opened Scaling
  import opened DtoaLogTable

  const TWO64: int := 0x1_0000_0000_0000_0000

  /** b^n is at most m * 2^k. */
  ghost predicate AtMost(b: int, n: nat, m: int, k: nat) {
    Pow(b, n) <= m * Pow(2, k)
  }

  /** b^n is at least m * 2^k. */
  ghost predicate AtLeast(b: int, n: nat, m: int, k: nat) {
    m * Pow(2, k) <= Pow(b, n)
  }

  lemma AtMostStart(b: int, n: nat, m: int, k: nat)
    requires FastPow(b, n) <= m * FastPow(2, k)
    ensures AtMost(b, n, m, k)
  {
    FastPowIsPow(b, n);
    FastPowIsPow(2, k);
  }

  lemma AtLeastStart(b: int, n: nat, m: int, k: nat)
    requires m * FastPow(2, k) <= FastPow(b, n)
    ensures AtLeast(b, n, m, k)
  {
    FastPowIsPow(b, n);
    FastPowIsPow(2, k);
  }

  /** b^(2n + odd) and 2^(2k + 64) in terms of b^n and 2^k. */
  lemma DoublePowers(b: int, n: nat, odd: nat, k: nat)
    requires odd <= 1
    ensures Pow(b, 2 * n + odd) == (Pow(b, n) * Pow(b, n)) * (if odd == 1 then b else 1)
    ensures Pow(2, 2 * k + 64) == (Pow(2, k) * Pow(2, k)) * TWO64
  {
    hide Pow;
    PowAdd(b, n, n);
    PowAdd(b, n + n, odd);
    PowZeroOne(b);
    PowAdd(2, k, k);
    PowAdd(2, k + k, 64);
    PowAdd(2, 32, 32);
    Pow32();
  }

  lemma AtMostDouble(b: int, n: nat, m: int, k: nat, odd: nat, m2: int)
    requires AtMost(b, n, m, k) && b >= 1 && m >= 0 && odd <= 1
    requires (m * m) * (if odd == 1 then b else 1) <= m2 * TWO64
    ensures AtMost(b, 2 * n + odd, m2, 2 * k + 64)
  {
    hide Pow;
    var c := if odd == 1 then b else 1;
    DoublePowers(b, n, odd, k);
    PowPositive(b, n);
    PowPositive(2, k);
    SquareAtMost(Pow(b, n), m, Pow(2, k), c, m2, TWO64);
  }

  lemma SquareAtMost(x: int, m: int, p: int, c: int, m2: int, f: int)
    requires 0 <= x <= m * p && p > 0 && c >= 1 && (m * m) * c <= m2 * f
    ensures (x * x) * c <= m2 * ((p * p) * f)
  {
    MulMonotone(x, m * p, x, m * p);
    MulSwap(m, p, m, p);
    MulMonotone(x * x, (m * m) * (p * p), c, c);
    SwapLast(m * m, p * p, c);
    MulPositive(p, p);
    MulMonotoneRight((m * m) * c, m2 * f, p * p);
    SwapLast(m2, f, p * p);
    MulAssociates(m2, p * p, f);
  }

  lemma MulMonotoneRight(x: int, y: int, z: int)
    requires x <= y && z > 0
    ensures x * z <= y * z
  {
  }

  lemma SwapLast(x: int, y: int, z: int)
    ensures (x * y) * z == (x * z) * y
  {
    MulAssociates(x, y, z);
    MulAssociates(x, z, y);
  }

  lemma AtLeastDouble(b: int, n: nat, m: int, k: nat, odd: nat, m2: int)
    requires AtLeast(b, n, m, k) && b >= 1 && m >= 0 && odd <= 1
    requires m2 * TWO64 <= (m * m) * (if odd == 1 then b else 1)
    ensures AtLeast(b, 2 * n + odd, m2, 2 * k + 64)
  {
    hide Pow;
    var c := if odd == 1 then b else 1;
    DoublePowers(b, n, odd, k);
    PowPositive(2, k);
    SquareAtLeast(Pow(b, n), m, Pow(2, k), c, m2, TWO64);
  }

  lemma SquareAtLeast(x: int, m: int, p: int, c: int, m2: int, f: int)
    requires m * p <= x && m >= 0 && p > 0 && c >= 1 && m2 * f <= (m * m) * c
    ensures m2 * ((p * p) * f) <= (x * x) * c
  {
    MulMonotone(0, m, 0, p);
    MulMonotone(m * p, x, m * p, x);
    MulSwap(m, p, m, p);
    MulMonotone(0, m, 0, m);
    MulMonotone(0, m * m, 0, p * p);
    MulMonotone((m * m) * (p * p), x * x, c, c);
    SwapLast(m * m, p * p, c);
    MulPositive(p, p);
    MulMonotoneRight(m2 * f, (m * m) * c, p * p);
    SwapLast(m2, f, p * p);
    MulAssociates(m2, p * p, f);
  }

  lemma AtMostEnd(b: int, n: nat, m: int, k: nat, s: nat)
    requires AtMost(b, n, m, k) && m < FastPow(2, s)
    ensures Pow(b, n) < Pow(2, k + s)
  {
    hide Pow, FastPow;
    FastPowIsPow(2, s);
    PowAdd(2, s, k);
    PowPositive(2, k);
    MulMonotoneRight(m + 1, Pow(2, s), Pow(2, k));
    Distribute(m, 1, Pow(2, k));
  }

  lemma AtLeastEnd(b: int, n: nat, m: int, k: nat, s: nat)
    requires AtLeast(b, n, m, k) && FastPow(2, s) < m
    ensures Pow(2, k + s) < Pow(b, n)
  {
    hide Pow, FastPow;
    FastPowIsPow(2, s);
    PowAdd(2, s, k);
    PowPositive(2, k);
    MulMonotoneRight(Pow(2, s) + 1, m, Pow(2, k));
    Distribute(Pow(2, s), 1, Pow(2, k));
  }

  /** The exponent limits of a radix bound the range of float64 numbers. */
  ghost predicate ExponentsOk(radix: int)
    requires 2 <= radix <= RADIX_MAX
  {
    && Pow(2, 1024) <= Pow(radix, MAX_EXPONENT[radix - 2])
    && MIN_EXPONENT[radix - 2] < 0 && Pow(2, 1075) <= Pow(radix, -MIN_EXPONENT[radix - 2])
  }

  /** The exponent limits follow from the upper neighbour. */
  lemma LimitsFromCertificate(radix: int, p: nat, q: nat)
    requires 2 <= radix <= RADIX_MAX && q > 0 && p > 0 && Pow(2, q) < Pow(radix, p)
    requires MIN_EXPONENT[radix - 2] < 0
    requires 1024 * p <= q * MAX_EXPONENT[radix - 2] && 1075 * p <= q * -MIN_EXPONENT[radix - 2]
    ensures ExponentsOk(radix)
  {
    hide Pow;
    LimitFrom(radix, p, q, MAX_EXPONENT[radix - 2], 1024);
    LimitFrom(radix, p, q, -MIN_EXPONENT[radix - 2], 1075);
  }

  lemma LimitFrom(radix: int, p: nat, q: nat, x: nat, bits: nat)
    requires radix >= 2 && q > 0 && p > 0 && bits > 0 && Pow(2, q) < Pow(radix, p) && bits * p <= q * x
    ensures Pow(2, bits) < Pow(radix, x)
  {
    hide Pow;
    MulPositive(bits, p);
    PowersCompare(2, q, radix, p, x, bits);
  }

  /** A power of two: the exponents count bits. */
  lemma RadixPowerOfTwo(radix: int, bits: nat)
    requires 2 <= radix <= RADIX_MAX && bits == RadixBits(radix)
    ensures LogTableOk(radix) && ExponentsOk(radix)
  {
    hide Pow;
    BitsOfRadix(radix, bits);
    assert MIN_EXPONENT[radix - 2] < 0;
    assert bits * MAX_EXPONENT[radix - 2] >= 1024 && bits * -MIN_EXPONENT[radix - 2] >= 1075;
    PowOfPow(2, bits, MAX_EXPONENT[radix - 2]);
    PowOfPow(2, bits, -MIN_EXPONENT[radix - 2]);
    PowMonotone(2, 1024, bits * MAX_EXPONENT[radix - 2]);
    PowMonotone(2, 1075, bits * -MIN_EXPONENT[radix - 2]);
  }
}
