/** The constant tables of dtoa.c, and what their entries are. */
module DtoaTables {
  import opened Powers
  import opened Limbs
  import opened Reciprocal
  import opened Bignum

  const RADIX_MAX: int := 36

  const POW5: seq<nat> := [
    0x00000005, 0x00000019, 0x0000007d, 0x00000271,
    0x00000c35, 0x00003d09, 0x0001312d, 0x0005f5e1,
    0x001dcd65, 0x009502f9, 0x02e90edd, 0x0e8d4a51,
    0x48c27395, 0x6bcc41e9, 0x1afd498d, 0x86f26fc1,
    0xa2bc2ec5
  ]

  const POW5_HIGH: seq<nat> := [0x01, 0x07, 0x23, 0xb1]

  const POW5_INV: seq<nat> := [
    0x99999999, 0x47ae147a, 0x0624dd2f, 0xa36e2eb1,
    0x4f8b588e, 0x0c6f7a0b, 0xad7f29ab, 0x5798ee23,
    0x12e0be82, 0xb7cdfd9d, 0x5fd7fe17, 0x19799812,
    0xc25c2684
  ]

  const DIGITS_PER_LIMB: seq<nat> := [
    32, 20, 16, 13, 12, 11, 10, 10, 9, 9, 8, 8, 8, 8, 8, 7, 7, 7, 7, 7, 7, 7,
    6, 6, 6, 6, 6, 6, 6, 6, 6, 6, 6, 6, 6
  ]

  const RADIX_BASE: seq<nat> := [
    0x00000000, 0xcfd41b91, 0x00000000, 0x48c27395,
    0x81bf1000, 0x75db9c97, 0x40000000, 0xcfd41b91,
    0x3b9aca00, 0x8c8b6d2b, 0x19a10000, 0x309f1021,
    0x57f6c100, 0x98c29b81, 0x00000000, 0x18754571,
    0x247dbc80, 0x3547667b, 0x4c4b4000, 0x6b5a6e1d,
    0x94ace180, 0xcaf18367, 0x0b640000, 0x0e8d4a51,
    0x1269ae40, 0x17179149, 0x1cb91000, 0x23744899,
    0x2b73a840, 0x34e63b41, 0x40000000, 0x4cfa3cc1,
    0x5c13d840, 0x6d91b519, 0x81bf1000
  ]

  const DTOA_MAX_DIGITS: seq<nat> := [
    54, 35, 28, 24, 22, 20, 19, 18, 17, 17, 16, 16, 15, 15, 15, 14, 14, 14, 14, 14, 13, 13,
    13, 13, 13, 13, 13, 12, 12, 12, 12, 12, 12, 12, 12
  ]

  const ATOD_MAX_DIGITS: seq<nat> := [
    64, 80, 32, 55, 49, 45, 21, 40, 38, 37, 35, 34, 33, 32, 16, 31, 30, 30, 29, 29, 28, 28,
    27, 27, 27, 26, 26, 26, 26, 25, 12, 25, 25, 24, 24
  ]

  /** The entry for 5^b, with the high bits of the large ones. */
  function Pow5Entry(b: nat): nat
    requires 1 <= b <= 17
  {
    POW5[b - 1] + (if b >= 14 then BASE * POW5_HIGH[b - 14] else 0)
  }

  lemma {:induction false} Pow5Correct(b: nat)
    requires 1 <= b <= 17
    ensures Pow5Entry(b) == Pow(5, b)
  {
    if b > 1 { Pow5Correct(b - 1); }
  }

  /** The table entry is the reciprocal of 5^b with its top bit shifted to bit 31. */
  ghost predicate InverseEntryOk(b: nat)
    requires 1 <= b <= 13
  {
    && POW5[b - 1] < BASE && POW5_INV[b - 1] < BASE
    && BASE / 2 <= NormalisedPow5(b) < BASE && IsReciprocal(NormalisedPow5(b), POW5_INV[b - 1])
  }

  function NormalisedPow5(b: nat): int
    requires 1 <= b <= 13 && POW5[b - 1] < BASE
  {
    POW5[b - 1] * Pow(2, Clz32(POW5[b - 1]))
  }

  /** pow5_inv_table holds the reciprocals that udiv1norm_init would compute. */
  lemma Pow5InverseCorrect(b: nat)
    requires 1 <= b <= 13
    ensures InverseEntryOk(b)
  {
    hide Pow, Clz32;
    if b == 1 { ShiftedEntry(5, 29, 2684354560); }
    else if b == 2 { ShiftedEntry(25, 27, 3355443200); }
    else if b == 3 { ShiftedEntry(125, 25, 4194304000); }
    else if b == 4 { ShiftedEntry(625, 22, 2621440000); }
    else if b == 5 { ShiftedEntry(3125, 20, 3276800000); }
    else if b == 6 { ShiftedEntry(15625, 18, 4096000000); }
    else if b == 7 { ShiftedEntry(78125, 15, 2560000000); }
    else { Pow5InverseCorrectHigh(b); }
  }

  lemma Pow5InverseCorrectHigh(b: nat)
    requires 8 <= b <= 13
    ensures InverseEntryOk(b)
  {
    hide Pow, Clz32;
    if b == 8 { ShiftedEntry(390625, 13, 3200000000); }
    else if b == 9 { ShiftedEntry(1953125, 11, 4000000000); }
    else if b == 10 { ShiftedEntry(9765625, 8, 2500000000); }
    else if b == 11 { ShiftedEntry(48828125, 6, 3125000000); }
    else if b == 12 { ShiftedEntry(244140625, 4, 3906250000); }
    else { ShiftedEntry(1220703125, 1, 2441406250); }
  }

  lemma ShiftedEntry(x: Limb, s: nat, d: int)
    requires x != 0 && s <= 31 && d == x * FastPow(2, s) && BASE / 2 <= d < BASE
    ensures Clz32(x) == s && x * Pow(2, s) == d
  {
    FastPowIsPow(2, s);
    ShiftUnique(x, s);
  }

  /** Only one shift brings the top bit of a limb to bit 31. */
  lemma ShiftUnique(x: Limb, s: nat)
    requires x != 0 && s <= 31 && BASE / 2 <= x * Pow(2, s) < BASE
    ensures Clz32(x) == s
  {
    hide Pow, Clz32;
    var n := Clz32(x);
    ClzNormalises(x);
    if n < s {
      PowMonotone(2, n + 1, s);
      PowStep(n);
      TooFar(x, Pow(2, s), Pow(2, n));
    } else if s < n {
      PowMonotone(2, s + 1, n);
      PowStep(s);
      TooFar(x, Pow(2, n), Pow(2, s));
    }
  }

  lemma TooFar(x: int, p: int, q: int)
    requires x > 0 && 2 * q <= p && x * q >= BASE / 2
    ensures x * p >= BASE
  {
    MulMonotoneLeft(x, 2 * q, p);
  }

  lemma PowStep(n: nat)
    ensures Pow(2, n + 1) == 2 * Pow(2, n)
  {
  }

  /** Shifting out the leading zeros. */
  lemma ClzNormalises(x: Limb)
    requires x != 0
    ensures BASE / 2 <= x * Pow(2, Clz32(x)) < BASE
  {
    hide Pow, Clz32;
    var n := Clz32(x);
    PowPositive(2, n);
    PowAdd(2, 31 - n, n);
    PowAdd(2, 32 - n, n);
    PowAdd(2, 31, 1);
    Pow32();
    PowStep(31);
    Scale(Pow(2, 31 - n), x, Pow(2, 32 - n), Pow(2, n));
  }

  lemma Scale(a: int, x: int, b: int, p: int)
    requires a <= x < b && p > 0
    ensures a * p <= x * p < b * p
  {
  }

  const MAX_EXPONENT: seq<nat> := [
    1024, 647, 512, 442, 397, 365, 342, 324,
    309, 297, 286, 277, 269, 263, 256, 251,
    246, 242, 237, 234, 230, 227, 224, 221,
    218, 216, 214, 211, 209, 207, 205, 203,
    202, 200, 199
  ]

  const MIN_EXPONENT: seq<int> := [
    -1075, -679, -538, -463, -416, -383, -359, -340,
    -324, -311, -300, -291, -283, -276, -269, -263,
    -258, -254, -249, -245, -242, -238, -235, -232,
    -229, -227, -224, -222, -220, -217, -215, -214,
    -212, -210, -208
  ]

  const MUL_LOG2_RADIX: seq<nat> := [
    0x000000, 0xa1849d, 0x000000, 0x6e40d2,
    0x6308c9, 0x5b3065, 0x000000, 0x50c24e,
    0x4d104d, 0x4a0027, 0x4768ce, 0x452e54,
    0x433d00, 0x418677, 0x000000, 0x3ea16b,
    0x3d645a, 0x3c43c2, 0x3b3b9a, 0x3a4899,
    0x39680b, 0x3897b3, 0x37d5af, 0x372069,
    0x367686, 0x35d6df, 0x354072, 0x34b261,
    0x342bea, 0x33ac62, 0x000000, 0x32bfd9,
    0x3251dd, 0x31e8d6, 0x318465
  ]

  const TWO53: int := 0x20_0000_0000_0000
  const TWO63: int := 0x8000_0000_0000_0000

  /** Pow by repeated squaring, which the verifier can evaluate on constants. */
  function FastPow(b: int, n: nat): int {
    if n == 0 then 1
    else
      var h := FastPow(b, n / 2);
      if n % 2 == 0 then h * h else b * (h * h)
  }

  lemma {:induction false} FastPowIsPow(b: int, n: nat)
    ensures FastPow(b, n) == Pow(b, n)
  {
    if n > 0 {
      FastPowIsPow(b, n / 2);
      PowAdd(b, n / 2, n / 2);
      if n % 2 == 1 { PowAdd(b, 1, n - 1); }
    }
  }

  /** What the entries for one radix must satisfy. */
  ghost predicate RadixFacts(r: nat) {
    2 <= r <= RADIX_MAX &&
    var i := r - 2;
    && RADIX_BASE[i] < BASE && DIGITS_PER_LIMB[i] >= 6
    && FastPow(r, DIGITS_PER_LIMB[i]) == (if RADIX_BASE[i] == 0 then BASE else RADIX_BASE[i])
    && FastPow(r, DTOA_MAX_DIGITS[i] - 1) >= TWO53
    && FastPow(r, DTOA_MAX_DIGITS[i]) < TWO63
  }

  lemma Facts2()
    ensures RadixFacts(2)
  {
    assert FastPow(2, 27) == 0x800_0000;
  }

  lemma Facts3()
    ensures RadixFacts(3)
  {
  }

  lemma Facts4()
    ensures RadixFacts(4)
  {
  }

  lemma Facts5And6()
    ensures RadixFacts(5) && RadixFacts(6)
  {
  }

  lemma Facts7And8()
    ensures RadixFacts(7) && RadixFacts(8)
  {
  }

  lemma Facts9And10()
    ensures RadixFacts(9) && RadixFacts(10)
  {
  }

  lemma Facts11And12()
    ensures RadixFacts(11) && RadixFacts(12)
  {
  }

  lemma Facts13And14()
    ensures RadixFacts(13) && RadixFacts(14)
  {
  }

  lemma Facts15And16()
    ensures RadixFacts(15) && RadixFacts(16)
  {
  }

  lemma Facts17And18()
    ensures RadixFacts(17) && RadixFacts(18)
  {
  }

  lemma Facts19And20()
    ensures RadixFacts(19) && RadixFacts(20)
  {
  }

  lemma Facts21And22()
    ensures RadixFacts(21) && RadixFacts(22)
  {
  }

  lemma Facts23And24()
    ensures RadixFacts(23) && RadixFacts(24)
  {
  }

  lemma Facts25And26()
    ensures RadixFacts(25) && RadixFacts(26)
  {
  }

  lemma Facts27And28()
    ensures RadixFacts(27) && RadixFacts(28)
  {
  }

  lemma Facts29And30()
    ensures RadixFacts(29) && RadixFacts(30)
  {
  }

  lemma Facts31And32()
    ensures RadixFacts(31) && RadixFacts(32)
  {
  }

  lemma Facts33And34()
    ensures RadixFacts(33) && RadixFacts(34)
  {
  }

  lemma Facts35And36()
    ensures RadixFacts(35) && RadixFacts(36)
  {
  }

  lemma AllRadixFacts(r: nat)
    requires 2 <= r <= RADIX_MAX
    ensures RadixFacts(r)
  {
    hide RadixFacts;
    if r <= 2 { Facts2(); }
    else if r <= 3 { Facts3(); }
    else if r <= 4 { Facts4(); }
    else if r <= 6 { Facts5And6(); }
    else if r <= 8 { Facts7And8(); }
    else if r <= 10 { Facts9And10(); }
    else if r <= 12 { Facts11And12(); }
    else if r <= 14 { Facts13And14(); }
    else if r <= 16 { Facts15And16(); }
    else if r <= 18 { Facts17And18(); }
    else if r <= 20 { Facts19And20(); }
    else if r <= 22 { Facts21And22(); }
    else if r <= 24 { Facts23And24(); }
    else if r <= 26 { Facts25And26(); }
    else if r <= 28 { Facts27And28(); }
    else if r <= 30 { Facts29And30(); }
    else if r <= 32 { Facts31And32(); }
    else if r <= 34 { Facts33And34(); }
    else { Facts35And36(); }
  }
}
