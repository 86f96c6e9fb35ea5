/** The texts of numbers: integers, and digits with a point or an exponent. */
module DtoaText {
  import opened Bytes
  import opened Powers
  import opened Limbs
  import opened Bignum
  import opened DtoaTables
  import opened DtoaLogTable
  import opened Scaling
  import opened AtodDigits
  import opened DtoaOutput

  // ----- integers -----

  function DigitCount(v: nat, radix: nat): (n: nat)
    requires radix >= 2
    ensures n >= 1
    decreases v
  {
    if v < radix then 1
    else
      CountLarge(v, radix);
      1 + DigitCount(v / radix, radix)
  }

  /** v without leading zeros. */
  function IntegerText(v: nat, radix: nat): (t: seq<byte>)
    requires 2 <= radix <= RADIX_MAX
    ensures |t| == DigitCount(v, radix)
  {
    DigitText(v, radix, DigitCount(v, radix))
  }

  lemma {:induction false} CountBounds(v: nat, radix: nat)
    requires radix >= 2
    ensures v < Pow(radix, DigitCount(v, radix))
    ensures v > 0 ==> Pow(radix, DigitCount(v, radix) - 1) <= v
    decreases v
  {
    hide Pow, DigitCount;
    PowZeroOne(radix);
    CountNext(v, radix);
    if v < radix {
      SmallDivision(v, radix);
    } else {
      CountLarge(v, radix);
      var w, n := v / radix, DigitCount(v / radix, radix);
      CountBounds(w, radix);
      CountStep(v, radix, w, Pow(radix, n - 1), Pow(radix, n));
      PowStepOf(radix, n - 1);
      PowStepOf(radix, n);
    }
  }

  lemma CountLarge(v: nat, radix: nat)
    requires radix >= 2 && v >= radix
    ensures 0 < v / radix < v
  {
    DivideExactly(v, radix);
    if v / radix <= 0 { MulMonotoneLeft(radix, v / radix, 0); }
    MulMonotone(2, radix, v / radix, v / radix);
  }

  lemma CountStep(v: nat, radix: nat, w: nat, low: int, high: int)
    requires radix >= 2 && v >= radix && w == v / radix && low <= w < high
    ensures radix * low <= v < radix * high && w > 0
  {
    DivideExactly(v, radix);
    MulMonotoneLeft(radix, w + 1, high);
    MulMonotoneLeft(radix, low, w);
    if w <= 0 { MulMonotoneLeft(radix, w, 0); }
  }

  lemma CountIs(v: nat, radix: nat, n: nat)
    requires radix >= 2 && n >= 1 && v < Pow(radix, n) && (n > 1 ==> Pow(radix, n - 1) <= v)
    ensures DigitCount(v, radix) == n
  {
    hide Pow;
    CountBounds(v, radix);
    var k := DigitCount(v, radix);
    if k > n { PowMonotone(radix, n, k - 1); PowPositive(radix, n); }
    if k < n { PowMonotone(radix, k, n - 1); }
  }

  /** The do-while loop of u32toa and u64toa_radix: digits from the last one on into a small buffer, then a copy. */
  method PutInteger(buf: array<byte>, q: nat, value: nat, radix: nat) returns (len: nat)
    requires 2 <= radix <= RADIX_MAX && DigitCount(value, radix) <= 64 && q + DigitCount(value, radix) <= buf.Length
    modifies buf
    ensures len == DigitCount(value, radix) && buf[..q + len] == old(buf[..q]) + IntegerText(value, radix)
  {
    hide Printing, DigitText, DigitCount, Wrote;
    var buf1 := new byte[64](i => 0);
    ghost var was := buf1[..];
    var p, n: nat := 64, value;
    PrintingStart(was, value, radix);
    while true
      invariant 1 <= p <= 64 && buf1.Length == 64 && Printing(was, buf1[..], p, n, value, radix)
      invariant buf[..] == old(buf[..])
      decreases n
    {
      PrintingStep(was, buf1[..], p, n, value, radix);
      p := p - 1;
      buf1[p] := DigitChar(n % radix);
      n := n / radix;
      if n == 0 {
        break;
      }
    }
    len := 64 - p;
    WroteText(was, buf1[..], p, DigitText(value, radix, len));
    CopyBytes(buf, q, buf1, p, len);
    assert buf1[p..p + len] == buf1[p..];
  }

  /** The digits from p on are written, and n is still to come. */
  ghost predicate Printing(was: seq<byte>, now: seq<byte>, p: nat, n: nat, value: nat, radix: nat)
    requires 2 <= radix <= RADIX_MAX
  {
    && p <= 64 == |was| && n == Higher(value, radix, 64 - p)
    && DigitCount(value, radix) == 64 - p + DigitCount(n, radix)
    && Wrote(was, now, p, DigitText(value, radix, 64 - p))
  }

  lemma PrintingStart(was: seq<byte>, value: nat, radix: nat)
    requires 2 <= radix <= RADIX_MAX && |was| == 64
    ensures Printing(was, was, 64, value, value, radix)
  {
    hide DigitText, Higher, Wrote, DigitCount;
    HigherNone(value, radix);
    NoDigitText(value, radix);
    WroteNothing(was, 64);
  }

  lemma PrintingStep(was: seq<byte>, now: seq<byte>, p: nat, n: nat, value: nat, radix: nat)
    requires 2 <= radix <= RADIX_MAX && Printing(was, now, p, n, value, radix) && DigitCount(value, radix) <= 64
    ensures 1 <= p <= |now| && n / radix >= 0 && (n / radix > 0 ==> n / radix < n && p > 1)
    ensures var next := now[p - 1 := DigitChar(n % radix)];
            if n / radix == 0 then DigitCount(value, radix) == 65 - p
              && Wrote(was, next, p - 1, DigitText(value, radix, 65 - p))
            else Printing(was, next, p - 1, n / radix, value, radix)
  {
    hide DigitText, Higher, DigitCount;
    PutNext(value, radix, 64 - p, n);
    CountNext(n, radix);
    WroteByte(now, p - 1, DigitChar(n % radix));
    DivideExactly(n, radix);
    if n >= radix { CountLarge(n, radix); } else { SmallDivision(n, radix); }
    hide Wrote;
    WroteBefore(was, now, now[p - 1 := DigitChar(n % radix)], p,
                DigitText(value, radix, 64 - p), [DigitChar(n % radix)]);
  }

  lemma CountNext(n: nat, radix: nat)
    requires radix >= 2
    ensures DigitCount(n, radix) == if n / radix == 0 then 1 else 1 + DigitCount(n / radix, radix)
  {
    DivideExactly(n, radix);
    if n / radix == 0 { assert radix * (n / radix) == 0; }
    if n < radix { SmallDivision(n, radix); }
  }

  /** memcpy. */
  method CopyBytes(buf: array<byte>, q: nat, from: array<byte>, p: nat, len: nat)
    requires buf != from && q + len <= buf.Length && p + len <= from.Length
    modifies buf
    ensures buf[..q + len] == old(buf[..q]) + from[p..p + len]
  {
    var i := 0;
    while i < len
      invariant 0 <= i <= len && buf[..q + i] == old(buf[..q]) + from[p..p + i]
    {
      buf[q + i] := from[p + i];
      assert buf[..q + i + 1] == buf[..q + i] + [buf[q + i]];
      assert from[p..p + i + 1] == from[p..p + i] + [from[p + i]];
      i := i + 1;
    }
  }

  lemma WroteText(was: seq<byte>, now: seq<byte>, pos: nat, text: seq<byte>)
    requires Wrote(was, now, pos, text) && pos + |text| == |was|
    ensures now[pos..] == text
  {
  }

  /** A number of more digits than the last k ones. */
  lemma IntegerSplit(v: nat, radix: nat, k: nat)
    requires 2 <= radix <= RADIX_MAX && v >= Pow(radix, k)
    ensures Higher(v, radix, k) > 0 && IntegerText(v, radix)
            == IntegerText(Higher(v, radix, k), radix) + DigitText(v, radix, k)
    ensures DigitCount(v, radix) == DigitCount(Higher(v, radix, k), radix) + k
  {
    hide Pow, Digits;
    var w := Higher(v, radix, k);
    HigherBounds(v, radix, k);
    CountBounds(w, radix);
    var n := DigitCount(w, radix);
    PowAdd(radix, n, k);
    PowAdd(radix, n - 1, k);
    PowPositive(radix, k);
    MulMonotoneLeft(Pow(radix, k), w + 1, Pow(radix, n));
    MulMonotoneLeft(Pow(radix, k), Pow(radix, n - 1), w);
    CountIs(v, radix, n + k);
    DigitTextSplit(v, radix, n, k);
  }

  lemma HigherBounds(v: nat, radix: nat, k: nat)
    requires radix >= 2
    ensures var w, p := Higher(v, radix, k), Pow(radix, k); p > 0 && p * w <= v < p * (w + 1) && (v >= p ==> w > 0)
  {
    hide Pow;
    var p := Pow(radix, k);
    PowPositive(radix, k);
    DivideExactly(v, p);
    if v >= p && v / p <= 0 { MulMonotoneLeft(p, v / p, 0); }
  }

  const BILLION: int := 1000000000

  lemma Billion()
    ensures Pow(10, 9) == BILLION
  {
    assert Pow(10, 3) == 1000;
    PowAdd(10, 3, 3);
    PowAdd(10, 6, 3);
  }

  lemma BillionParts(v: nat)
    ensures Higher(v, 10, 9) == v / BILLION && v / BILLION >= 0
    ensures DigitText(v % BILLION, 10, 9) == DigitText(v, 10, 9)
  {
    hide Pow, Digits;
    Billion();
    DigitsLow(v, 10, 9, 9);
  }

  /** u64toa. */
  method U64ToA(buf: array<byte>, q0: nat, value: nat) returns (len: nat)
    requires value < 0x1_0000_0000_0000_0000 && q0 + 20 <= buf.Length
    modifies buf
    ensures len == DigitCount(value, 10) <= 20 && buf[..q0 + len] == old(buf[..q0]) + IntegerText(value, 10)
  {
    hide IntegerText, DigitText, Higher, DigitCount;
    DecimalCounts(value);
    if value < 0x1_0000_0000 {
      len := PutInteger(buf, q0, value, 10);
    } else {
      var n1, n := value / BILLION, value % BILLION;
      BillionParts(value);
      Billion();
      IntegerSplit(value, 10, 9);
      var l := PutUpper(buf, q0, n1);
      PutBlock(buf, q0 + l, n);
      len := l + 9;
    }
  }

  /** The digits of u64toa except for the last nine. */
  method PutUpper(buf: array<byte>, q0: nat, value: nat) returns (len: nat)
    requires value < 0x1_0000_0000_0000_0000 / BILLION + 1 && q0 + 11 <= buf.Length
    modifies buf
    ensures len == DigitCount(value, 10) <= 11 && buf[..q0 + len] == old(buf[..q0]) + IntegerText(value, 10)
  {
    hide IntegerText, DigitText, Higher, DigitCount;
    UpperCount(value);
    if value >= 0x1_0000_0000 {
      var q := q0;
      var n2 := value / BILLION;
      BillionParts(value);
      Billion();
      IntegerSplit(value, 10, 9);
      var n1 := value % BILLION;
      TwoDigits(n2);
      if n2 >= 10 {
        buf[q] := DigitChar(n2 / 10);
        q := q + 1;
        n2 := n2 % 10;
      }
      buf[q] := DigitChar(n2);
      q := q + 1;
      assert buf[..q] == old(buf[..q0]) + IntegerText(value / BILLION, 10);
      PutBlock(buf, q, n1);
      len := q + 9 - q0;
    } else {
      len := PutInteger(buf, q0, value, 10);
    }
  }

  lemma UpperCount(v: nat)
    requires v < 0x1_0000_0000_0000_0000 / BILLION + 1
    ensures DigitCount(v, 10) <= 11
  {
    hide Pow, DigitCount;
    Billion();
    PowZeroOne(10);
    PowAdd(10, 9, 1);
    PowAdd(10, 10, 1);
    CountNext(v, 10);
    if DigitCount(v, 10) > 11 { CountAbove(v, 10, 11); }
  }

  /** Nine digits. */
  method PutBlock(buf: array<byte>, q: nat, n: nat)
    requires q + 9 <= buf.Length
    modifies buf
    ensures buf[..q + 9] == old(buf[..q]) + DigitText(n, 10, 9)
  {
    hide DigitText;
    PutDigits(buf, q, n, 10, 9);
    assert buf[..q + 9] == buf[..q] + buf[q..q + 9];
  }

  lemma OneDecimal(n: nat)
    requires n < 10
    ensures IntegerText(n, 10) == [DigitChar(n)]
  {
    hide DigitText;
    OneDigitText(n, 10);
  }

  lemma TwoDigits(n: nat)
    requires n < 100
    ensures IntegerText(n, 10) == if n >= 10 then [DigitChar(n / 10), DigitChar(n % 10)] else [DigitChar(n)]
  {
    hide DigitText, DigitCount, IntegerText, Higher;
    if n >= 10 {
      PowZeroOne(10);
      IntegerSplit(n, 10, 1);
      HigherNone(n, 10);
      OneDecimal(n / 10);
      OneDigitText(n, 10);
    } else {
      OneDecimal(n);
    }
  }

  lemma DecimalCounts(v: nat)
    ensures v < 0x1_0000_0000 ==> DigitCount(v, 10) <= 10
    ensures v < 0x1_0000_0000_0000_0000 ==> DigitCount(v, 10) <= 20
  {
    hide Pow, DigitCount;
    CountBounds(v, 10);
    Billion();
    PowZeroOne(10);
    PowAdd(10, 9, 1);
    PowAdd(10, 9, 9);
    PowAdd(10, 18, 1);
    PowAdd(10, 19, 1);
    CountNext(v, 10);
    if DigitCount(v, 10) > 10 { CountAbove(v, 10, 10); }
    if DigitCount(v, 10) > 20 { CountAbove(v, 10, 20); }
  }

  /** A number below 2^64 has at most 64 digits. */
  lemma CountSmall(v: nat, radix: nat)
    requires radix >= 2 && v < 0x1_0000_0000_0000_0000
    ensures DigitCount(v, radix) <= 64
  {
    hide Pow, DigitCount;
    CountBounds(v, radix);
    CountNext(v, radix);
    Pow32();
    PowAdd(2, 32, 32);
    PowBase(2, radix, 64);
    if DigitCount(v, radix) > 64 { CountAbove(v, radix, 64); }
  }

  lemma CountAbove(v: nat, radix: nat, k: nat)
    requires radix >= 2 && DigitCount(v, radix) > k && v > 0
    ensures Pow(radix, k) <= v
  {
    hide Pow, DigitCount;
    CountBounds(v, radix);
    PowMonotone(radix, k, DigitCount(v, radix) - 1);
  }

  /** In a power of two, digits are groups of bits. */
  lemma BinaryCount(v: nat, radix: nat)
    requires 2 <= radix <= RADIX_MAX && RadixBits(radix) > 0 && v > 0
    ensures DigitCount(v, radix) == (Log2(v) + RadixBits(radix)) / RadixBits(radix)
  {
    hide Pow, DigitCount, Log2;
    var bits := RadixBits(radix);
    var l: nat := (Log2(v) + bits) / bits;
    DivideExactly(Log2(v) + bits, bits);
    assert bits * l <= Log2(v) + bits < bits * l + bits;
    if l <= 0 { MulMonotoneLeft(bits, l, 0); }
    RadixIsPower(radix);
    PowPow(2, bits, l);
    PowPow(2, bits, l - 1);
    GroupBounds(bits, l, Log2(v));
    PowMonotone(2, (l - 1) * bits, Log2(v));
    PowMonotone(2, Log2(v) + 1, l * bits);
    CountIs(v, radix, l);
  }

  lemma GroupBounds(bits: int, l: int, log: int)
    requires bits * l <= log + bits < bits * l + bits && bits > 0
    ensures (l - 1) * bits <= log && log + 1 <= l * bits
  {
  }

  /** u64toa_radix. */
  method U64ToARadix(buf: array<byte>, q: nat, n: nat, radix: nat) returns (len: nat)
    requires 2 <= radix <= RADIX_MAX && n < 0x1_0000_0000_0000_0000 && q + 64 <= buf.Length
    modifies buf
    ensures len == DigitCount(n, radix) <= 64 && buf[..q + len] == old(buf[..q]) + IntegerText(n, radix)
  {
    hide DigitText, DigitCount, Log2;
    CountSmall(n, radix);
    if radix == 10 {
      len := U64ToA(buf, q, n);
    } else if RadixBits(radix) > 0 {
      if n == 0 {
        len := 1;
        CountNext(n, radix);
      } else {
        len := (Log2(n) + 1 + RadixBits(radix) - 1) / RadixBits(radix);
        BinaryCount(n, radix);
      }
      PutDigits(buf, q, n, radix, len);
      assert buf[..q + len] == buf[..q] + buf[q..q + len];
    } else {
      len := PutInteger(buf, q, n, radix);
    }
  }

  // ----- numbers -----

  datatype ExpMode = Auto | Enabled | Disabled

  /** The letter before an exponent of the radix: 'e', 'p' for a binary exponent, or '@'. */
  function ExponentLetter(radix: int): byte {
    if radix == 10 then 101 else if 1 <= RadixBits(radix) <= 4 then 112 else 64
  }

  /** The exponent as it is written: binary after 'p'. */
  function WrittenExponent(radix: int, k: int): int {
    if radix != 10 && 1 <= RadixBits(radix) <= 4 then k * RadixBits(radix) else k
  }

  function Magnitude(k: int): nat { if k < 0 then -k else k }

  function ExponentText(radix: int, k: int): seq<byte> {
    var w := WrittenExponent(radix, k);
    [ExponentLetter(radix), if w < 0 then 45 else 43] + IntegerText(Magnitude(w), 10)
  }

  function ZeroText(n: nat): (t: seq<byte>)
    ensures |t| == n
  {
    seq(n, _ => ZERO)
  }

  predicate UsesExponent(exp: int, expMax: int, mode: ExpMode) {
    mode == Enabled || (mode == Auto && (exp <= -6 || exp > expMax))
  }

  /** The text of the p digits of v with the point after exp of them: v * radix^(exp - p). */
  function NumberText(v: nat, radix: nat, p: nat, exp: int, expMax: int, mode: ExpMode): seq<byte>
    requires 2 <= radix <= RADIX_MAX && p >= 1
  {
    var digits := DigitText(v, radix, p);
    if UsesExponent(exp, expMax, mode) then Dotted(digits, 1) + ExponentText(radix, exp - 1)
    else if exp <= 0 then [ZERO, DOT] + ZeroText(-exp) + digits
    else Dotted(digits, if p <= exp then p else exp) + ZeroText(if exp > p then exp - p else 0)
  }

  method PutByte(buf: array<byte>, q: nat, c: byte)
    requires q < buf.Length
    modifies buf
    ensures buf[..q + 1] == old(buf[..q]) + [c]
  {
    buf[q] := c;
  }

  method PutZeros(buf: array<byte>, q: nat, n: nat)
    requires q + n <= buf.Length
    modifies buf
    ensures buf[..q + n] == old(buf[..q]) + ZeroText(n)
  {
    var i := 0;
    while i < n
      invariant 0 <= i <= n && buf[..q + i] == old(buf[..q]) + ZeroText(i)
    {
      buf[q + i] := ZERO;
      assert buf[..q + i + 1] == buf[..q + i] + [ZERO];
      assert ZeroText(i + 1) == ZeroText(i) + [ZERO];
      i := i + 1;
    }
  }

  /** The exponent part. */
  method PutExponent(buf: array<byte>, q0: nat, radix: nat, k: int) returns (q: nat)
    requires 2 <= radix <= RADIX_MAX && q0 + 22 <= buf.Length && -10000000 < k < 10000000
    modifies buf
    ensures q0 <= q <= q0 + 22 && buf[..q] == old(buf[..q0]) + ExponentText(radix, k)
  {
    hide IntegerText, DigitCount;
    q := q0;
    var e := k;
    PutByte(buf, q, ExponentLetter(radix));
    if radix != 10 && 1 <= RadixBits(radix) <= 4 {
      e := e * RadixBits(radix);
    }
    ExponentSmall(radix, k);
    q := q + 1;
    PutByte(buf, q, if e < 0 then 45 else 43);
    q := q + 1;
    e := Magnitude(e);
    DecimalCounts(e);
    var len := PutInteger(buf, q, e, 10);
    q := q + len;
  }

  lemma ExponentSmall(radix: int, k: int)
    requires -10000000 < k < 10000000
    ensures Magnitude(WrittenExponent(radix, k)) < 0x1_0000_0000
  {
  }

  /** The output of the digits of a number, with or without an exponent. */
  method PutNumber(buf: array<byte>, q0: nat, a: Mpb, radix: nat, p: nat, exp: int, expMax: int, mode: ExpMode)
    returns (q: nat)
    requires 2 <= radix <= RADIX_MAX && p >= 1 && -10000 < exp < 10000
    requires q0 + p + Magnitude(exp) + 30 <= buf.Length && a.Valid() && a.Normal() && a.Room(1)
    modifies buf, a`len, a.tab
    ensures q0 <= q <= buf.Length && buf[..q] == old(buf[..q0]) + NumberText(old(a.Val()), radix, p, exp, expMax, mode)
  {
    hide DigitText, ExponentText, Value, Dotted, ZeroText, NormalLimbs, Magnitude;
    MagnitudeIs(exp);
    if UsesExponent(exp, expMax, mode) {
      ghost var digits := DigitText(a.Val(), radix, p);
      DottedLength(digits, 1);
      var len := OutputDigits(buf, q0, a, radix, p, 1);
      q := PutExponent(buf, q0 + len, radix, exp - 1);
      Append(old(buf[..q0]), Dotted(digits, 1), ExponentText(radix, exp - 1));
    } else if exp <= 0 {
      q := PutFraction(buf, q0, a, radix, p, -exp);
    } else {
      q := PutDotted(buf, q0, a, radix, p, exp);
    }
  }

  /** "0." and zeros before the digits. */
  method PutFraction(buf: array<byte>, q0: nat, a: Mpb, radix: nat, p: nat, zeros: nat) returns (q: nat)
    requires 2 <= radix <= RADIX_MAX && p >= 1
    requires q0 + p + zeros + 3 <= buf.Length && a.Valid() && a.Normal() && a.Room(1)
    modifies buf, a`len, a.tab
    ensures q == q0 + 2 + zeros + p && buf[..q]
            == old(buf[..q0]) + ([ZERO, DOT] + ZeroText(zeros) + DigitText(old(a.Val()), radix, p))
  {
    hide DigitText, Value, Dotted, ZeroText, NormalLimbs;
    ghost var was, digits := buf[..q0], DigitText(a.Val(), radix, p);
    PutByte(buf, q0, ZERO);
    PutByte(buf, q0 + 1, DOT);
    PutZeros(buf, q0 + 2, zeros);
    DottedLength(digits, p);
    var len := OutputDigits(buf, q0 + 2 + zeros, a, radix, p, p);
    q := q0 + 2 + zeros + len;
    assert [ZERO] + [DOT] == [ZERO, DOT];
    Append(was, [ZERO], [DOT]);
    Append(was, [ZERO, DOT], ZeroText(zeros));
    Append(was, [ZERO, DOT] + ZeroText(zeros), digits);
  }

  /** The digits with a point among them, or zeros after them. */
  method PutDotted(buf: array<byte>, q0: nat, a: Mpb, radix: nat, p: nat, exp: nat) returns (q: nat)
    requires 2 <= radix <= RADIX_MAX && p >= 1 && exp >= 1
    requires q0 + p + exp + 3 <= buf.Length && a.Valid() && a.Normal() && a.Room(1)
    modifies buf, a`len, a.tab
    ensures q0 <= q <= q0 + p + exp + 1
    ensures buf[..q] == old(buf[..q0]) + (Dotted(DigitText(old(a.Val()), radix, p), if p <= exp then p else exp)
                                          + ZeroText(if exp > p then exp - p else 0))
  {
    hide DigitText, Value, Dotted, ZeroText, NormalLimbs;
    ghost var was, digits := buf[..q0], DigitText(a.Val(), radix, p);
    var dot := if p <= exp then p else exp;
    DottedLength(digits, dot);
    var len := OutputDigits(buf, q0, a, radix, p, dot);
    var more := if exp > p then exp - p else 0;
    PutZeros(buf, q0 + len, more);
    q := q0 + len + more;
    Append(was, Dotted(digits, dot), ZeroText(more));
  }

  lemma MagnitudeIs(k: int)
    ensures Magnitude(k) >= k && Magnitude(k) >= 0 - k
  {
  }

  lemma DottedLength(t: seq<byte>, dot: nat)
    requires dot <= |t|
    ensures |t| <= |Dotted(t, dot)| <= |t| + 1 && (dot == |t| ==> Dotted(t, dot) == t)
  {
  }

  lemma Append(x: seq<byte>, y: seq<byte>, z: seq<byte>)
    ensures (x + y) + z == x + (y + z)
  {
  }
}
