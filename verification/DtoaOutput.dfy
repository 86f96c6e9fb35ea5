/** Digits of integers as text: the small conversion loops and output_digits. */
module DtoaOutput {
  import opened Bytes
  import opened Powers
  import opened Limbs
  import opened Rounding
  import opened Bignum
  import opened DtoaTables
  import opened DtoaLogTable
  import opened Scaling
  import opened RadixScaling
  import opened AtodDigits

  function DigitChar(d: int): (c: byte)
    requires 0 <= d < 36
    ensures ToDigit(c) == d && c != DOT && c != UNDERSCORE && c != 43 && c != 45
  {
    if d < 10 then d + 48 else d - 10 + 97
  }

  /** The n lowest digits of v, the highest first. */
  function Digits(v: nat, radix: nat, n: nat): (ds: seq<nat>)
    requires 2 <= radix <= RADIX_MAX
    ensures |ds| == n && forall i :: 0 <= i < n ==> ds[i] < radix
    decreases n
  {
    if n == 0 then [] else Digits(v / radix, radix, n - 1) + [v % radix]
  }

  /** v without its k lowest digits. */
  function Higher(v: nat, radix: nat, k: nat): nat
    requires 2 <= radix
  {
    PowPositive(radix, k);
    DivideExactly(v, Pow(radix, k));
    v / Pow(radix, k)
  }

  lemma HigherTwice(v: nat, radix: nat, k: nat, n: nat)
    requires 2 <= radix
    ensures Higher(Higher(v, radix, k), radix, n) == Higher(v, radix, n + k)
  {
    PowPositive(radix, k);
    PowPositive(radix, n);
    PowAdd(radix, k, n);
    DivideTwice(v, Pow(radix, k), Pow(radix, n), Pow(radix, n + k));
  }

  lemma HigherNone(v: nat, radix: nat)
    requires 2 <= radix
    ensures Higher(v, radix, 0) == v && Higher(v, radix, 1) == v / radix
  {
    PowZeroOne(radix);
  }

  function Chars(ds: seq<nat>): (t: seq<byte>)
    requires forall i :: 0 <= i < |ds| ==> ds[i] < 36
    ensures |t| == |ds| && forall i :: 0 <= i < |t| ==> t[i] == DigitChar(ds[i])
  {
    seq(|ds|, i requires 0 <= i < |ds| => DigitChar(ds[i]))
  }

  function DigitText(v: nat, radix: nat, n: nat): (t: seq<byte>)
    requires 2 <= radix <= RADIX_MAX
    ensures |t| == n
  {
    Chars(Digits(v, radix, n))
  }

  lemma {:induction false} DigitsSplit(v: nat, radix: nat, a: nat, b: nat)
    requires 2 <= radix <= RADIX_MAX
    ensures Digits(v, radix, a + b) == Digits(Higher(v, radix, b), radix, a) + Digits(v, radix, b)
    decreases b
  {
    HigherNone(v, radix);
    if b > 0 {
      DigitsSplit(v / radix, radix, a, b - 1);
      HigherTwice(v, radix, 1, b - 1);
    }
  }

  lemma DigitTextSplit(v: nat, radix: nat, a: nat, b: nat)
    requires 2 <= radix <= RADIX_MAX
    ensures DigitText(v, radix, a + b) == DigitText(Higher(v, radix, b), radix, a) + DigitText(v, radix, b)
  {
    hide Digits, Higher;
    DigitsSplit(v, radix, a, b);
  }

  /** Higher digits do not matter. */
  lemma {:induction false} DigitsLow(v: nat, radix: nat, n: nat, k: nat)
    requires 2 <= radix <= RADIX_MAX && n <= k
    ensures Pow(radix, k) > 0 && Digits(v % Pow(radix, k), radix, n) == Digits(v, radix, n)
    decreases n
  {
    hide Pow;
    PowPositive(radix, k);
    if n > 0 {
      var p := Pow(radix, k - 1);
      PowPositive(radix, k - 1);
      PowStepOf(radix, k - 1);
      DivideTwice(v, radix, p, Pow(radix, k));
      var w := v % Pow(radix, k);
      Unique(w, radix, v / radix % p, v % radix);
      DigitsLow(v / radix, radix, n - 1, k - 1);
    }
  }

  /** The digits have the value of the number they come from. */
  lemma {:induction false} DigitsHaveValue(v: nat, radix: nat, n: nat)
    requires 2 <= radix <= RADIX_MAX
    ensures Pow(radix, n) > 0 && DigitsValue(Digits(v, radix, n), radix) == v % Pow(radix, n)
    ensures DigitsBelow(Digits(v, radix, n), radix)
    decreases n
  {
    hide Pow, DigitsValue;
    PowPositive(radix, n);
    if n > 0 {
      var higher := Digits(v / radix, radix, n - 1);
      DigitsHaveValue(v / radix, radix, n - 1);
      DigitsSnoc(higher, v % radix, radix);
      PowStepOf(radix, n - 1);
      DivideTwice(v, radix, Pow(radix, n - 1), Pow(radix, n));
      Commutes(radix, v / radix % Pow(radix, n - 1));
    } else {
      PowZeroOne(radix);
      NoValue(radix);
    }
  }

  lemma Commutes(a: int, b: int)
    ensures a * b == b * a
  {
  }

  lemma NoValue(radix: nat)
    ensures DigitsValue([], radix) == 0
  {
  }

  lemma OneDigitText(v: nat, radix: nat)
    requires 2 <= radix <= RADIX_MAX
    ensures DigitText(v, radix, 1) == [DigitChar(v % radix)]
  {
    assert Digits(v / radix, radix, 0) == [];
  }

  // ----- the conversion loops -----

  /** buf holds text at pos and is otherwise like was. */
  ghost predicate Wrote(was: seq<byte>, now: seq<byte>, pos: nat, text: seq<byte>) {
    && |now| == |was| && pos + |text| <= |was|
    && now[..pos] == was[..pos] && now[pos..pos + |text|] == text && now[pos + |text|..] == was[pos + |text|..]
  }

  lemma WroteNothing(was: seq<byte>, pos: nat)
    requires pos <= |was|
    ensures Wrote(was, was, pos, [])
  {
  }

  lemma WroteBefore(was: seq<byte>, now: seq<byte>, next: seq<byte>, pos: nat, text: seq<byte>, more: seq<byte>)
    requires |more| <= pos && Wrote(was, now, pos, text) && Wrote(now, next, pos - |more|, more)
    ensures Wrote(was, next, pos - |more|, more + text)
  {
    var q := pos - |more|;
    assert next[pos..] == now[pos..];
    assert next[pos..pos + |text|] == now[pos..pos + |text|];
    assert next[q..pos + |text|] == next[q..pos] + next[pos..pos + |text|];
    assert next[pos + |text|..] == next[pos..][|text|..] && now[pos + |text|..] == now[pos..][|text|..];
    assert next[..q] == now[..q] == now[..pos][..q] == was[..pos][..q] == was[..q];
  }

  lemma WroteByte(was: seq<byte>, pos: nat, c: byte)
    requires pos < |was|
    ensures Wrote(was, was[pos := c], pos, [c])
  {
  }

  /**
   * The n lowest digits of a word, from the last one on: limb_to_a, with u32toa_len for radix 10, and u64toa_bin_len,
   * whose mask and shift are remainder and quotient by the power of two.
   */
  method PutDigits(buf: array<byte>, pos: nat, word: nat, radix: nat, n: nat)
    requires 2 <= radix <= RADIX_MAX && pos + n <= buf.Length
    modifies buf
    ensures Wrote(old(buf[..]), buf[..], pos, DigitText(word, radix, n))
  {
    hide Wrote, DigitText, Higher;
    ghost var was := buf[..];
    var w, i := word, n;
    WroteNothing(was, pos + n);
    NoDigitText(word, radix);
    HigherNone(word, radix);
    while i > 0
      invariant 0 <= i <= n && w == Higher(word, radix, n - i)
      invariant Wrote(was, buf[..], pos + i, DigitText(word, radix, n - i))
    {
      ghost var before := buf[..];
      i := i - 1;
      var digit := w % radix;
      PutNext(word, radix, n - i - 1, w);
      w := w / radix;
      WroteByte(buf[..], pos + i, DigitChar(digit));
      buf[pos + i] := DigitChar(digit);
      WroteBefore(was, before, buf[..], pos + i + 1, DigitText(word, radix, n - i - 1), [DigitChar(digit)]);
    }
  }

  lemma NoDigitText(v: nat, radix: nat)
    requires 2 <= radix <= RADIX_MAX
    ensures DigitText(v, radix, 0) == []
  {
  }

  lemma PutNext(v: nat, radix: nat, k: nat, w: nat)
    requires 2 <= radix <= RADIX_MAX && w == Higher(v, radix, k)
    ensures DigitText(v, radix, k + 1) == [DigitChar(w % radix)] + DigitText(v, radix, k)
    ensures w / radix == Higher(v, radix, k + 1)
  {
    hide DigitText, Higher;
    DigitTextSplit(v, radix, 1, k);
    OneDigitText(w, radix);
    HigherTwice(v, radix, k, 1);
    HigherNone(w, radix);
  }

  // ----- output_digits -----

  /** The text of n digits with a point after dot of them, none when dot is n. */
  function Dotted(t: seq<byte>, dot: nat): (r: seq<byte>)
    requires dot <= |t|
    ensures |r| == |t| + if dot == |t| then 0 else 1
  {
    if dot == |t| then t else t[..dot] + [DOT] + t[dot..]
  }

  /** The words that carry digits_per_limb digits. */
  lemma WordFacts(radix: nat)
    requires 2 <= radix <= RADIX_MAX
    ensures var d := DIGITS_PER_LIMB[radix - 2];
            && d >= 6 && 1 < Pow(radix, d) <= BASE
            && (RadixBits(radix) < 0 ==> 0 < RADIX_BASE[radix - 2] < BASE && RADIX_BASE[radix - 2] == Pow(radix, d))
            && (RadixBits(radix) > 0 ==> Pow(radix, d) == Pow(2, d * RadixBits(radix)))
  {
    hide Pow, FastPow;
    LimbPower(radix, DIGITS_PER_LIMB[radix - 2]);
    PowMonotone(radix, 1, DIGITS_PER_LIMB[radix - 2]);
    PowZeroOne(radix);
    if RadixBits(radix) > 0 {
      var bits := RadixBits(radix);
      RadixIsPower(radix);
      PowPow(2, bits, DIGITS_PER_LIMB[radix - 2]);
    } else {
      BaseNotZero(radix);
    }
  }

  lemma RadixIsPower(radix: int)
    requires RadixBits(radix) > 0
    ensures radix == Pow(2, RadixBits(radix))
  {
    assert Pow(2, 1) == 2 && Pow(2, 2) == 4 && Pow(2, 3) == 8 && Pow(2, 4) == 16 && Pow(2, 5) == 32;
  }

  lemma {:induction false} PowPow(b: int, m: nat, n: nat)
    ensures n * m >= 0 && Pow(Pow(b, m), n) == Pow(b, n * m)
    decreases n
  {
    if n > 0 {
      PowPow(b, m, n - 1);
      assert n * m == m + (n - 1) * m;
      PowAdd(b, m, (n - 1) * m);
    }
  }

  lemma BaseNotZero(radix: int)
    requires 2 <= radix <= RADIX_MAX && RadixBits(radix) < 0
    ensures RADIX_BASE[radix - 2] != 0
  {
  }

  /** One word of digits has been written; the number has become the quotient. */
  lemma WordWritten(v: nat, radix: nat, done: nat, n: nat, w: nat, word: nat)
    requires 2 <= radix <= RADIX_MAX && n <= DIGITS_PER_LIMB[radix - 2] && w == Higher(v, radix, done)
    requires word == Word(w, radix)
    ensures DigitText(v, radix, n + done) == DigitText(word, radix, n) + DigitText(v, radix, done)
    ensures Higher(w, radix, n) == Higher(v, radix, n + done)
  {
    hide Digits, Higher;
    DigitTextSplit(v, radix, n, done);
    DigitsLow(w, radix, n, DIGITS_PER_LIMB[radix - 2]);
    HigherTwice(v, radix, done, n);
  }

  /** The digits that one limb of the output carries, as a number. */
  function Word(w: nat, radix: nat): (x: nat)
    requires 2 <= radix <= RADIX_MAX
  {
    PowPositive(radix, DIGITS_PER_LIMB[radix - 2]);
    DivideExactly(w, Pow(radix, DIGITS_PER_LIMB[radix - 2]));
    w % Pow(radix, DIGITS_PER_LIMB[radix - 2])
  }

  /** Without a remainder in the way, the lowest limb holds the lowest 32 bits. */
  lemma LowestLimb(s: seq<Limb>)
    requires |s| >= 1
    ensures s[0] == Value(s) % BASE
  {
    hide Value;
    ValueCons(s[0], s[1..]);
    assert s == [s[0]] + s[1..];
  }

  /** The last word for a power of two comes from the lowest limb alone. */
  lemma LowWord(v: nat, radix: nat, bits: nat, limb: Limb)
    requires 2 <= radix <= RADIX_MAX && RadixBits(radix) == bits && bits > 0 && limb == v % BASE
    ensures Word(limb, radix) == Word(v, radix)
  {
    hide Pow;
    WordFacts(radix);
    var d := DIGITS_PER_LIMB[radix - 2] * bits;
    var p := Pow(2, d);
    AtMost32(radix, d);
    PowAdd(2, d, 32 - d);
    PowPositive(2, 32 - d);
    Pow32();
    DivideTwice(v, p, Pow(2, 32 - d), BASE);
    Unique(limb, p, v / p % Pow(2, 32 - d), v % p);
  }

  lemma AtMost32(radix: int, d: nat)
    requires 2 <= radix <= RADIX_MAX && RadixBits(radix) > 0 && d == DIGITS_PER_LIMB[radix - 2] * RadixBits(radix)
    ensures d <= 32
  {
  }

  lemma TruncatedShift(v: nat, d: nat)
    ensures Pow(2, d) > 0 && Round(Scaled(v, 0 - d), TowardZero) == v / Pow(2, d)
  {
    PowPositive(2, d);
    RoundScaledDown(v, d, TowardZero);
  }

  /** The digits from the last one on, for a power of two. */
  method OutputBinary(buf: array<byte>, q: nat, a: Mpb, radix: nat, nDigits1: nat)
    requires 2 <= radix <= RADIX_MAX && RadixBits(radix) > 0 && nDigits1 >= 1 && q + nDigits1 <= buf.Length
    requires a.Valid() && a.Normal() && a.Room(1)
    modifies buf, a`len, a.tab
    ensures Wrote(old(buf[..]), buf[..], q, DigitText(old(a.Val()), radix, nDigits1))
  {
    hide Wrote, DigitText, Pow, Round, Scaled, Value, Higher, NormalLimbs;
    ghost var was, v := buf[..], a.Val();
    var radixBits, digitsPerLimb := RadixBits(radix), DIGITS_PER_LIMB[radix - 2];
    WordFacts(radix);
    var wordBits := digitsPerLimb * radixBits;
    AtMost32(radix, wordBits);
    var nDigits := nDigits1;
    ghost var done := 0;
    NoDigitText(v, radix);
    HigherNone(v, radix);
    WroteNothing(was, q + nDigits);
    while true
      invariant 1 <= nDigits <= nDigits1 && done == nDigits1 - nDigits
      invariant a.Valid() && a.Normal() && a.Room(1) && a.Val() == Higher(v, radix, done)
      invariant Wrote(was, buf[..], q + nDigits, DigitText(v, radix, done))
      decreases nDigits
    {
      var n := Min(nDigits, digitsPerLimb);
      nDigits := nDigits - n;
      ghost var before, w := buf[..], a.Val();
      LowestLimb(a.tab[..a.len]);
      PutDigits(buf, q + nDigits, a.tab[0], radix, n);
      BinaryWritten(was, before, buf[..], q + nDigits + n, v, radix, done, n, w, a.tab[0]);
      done := done + n;
      if nDigits == 0 {
        break;
      }
      ghost var limbs := a.tab[..a.len];
      a.ShrRound(wordBits, TowardZero);
      TruncatedShift(w, wordBits);
      HigherWord(w, radix);
      NotLonger(limbs, a.tab[..a.len]);
    }
  }

  lemma SameWord(w: nat, radix: nat, n: nat, limb: Limb)
    requires 2 <= radix <= RADIX_MAX && n <= DIGITS_PER_LIMB[radix - 2]
    requires Word(limb, radix) == Word(w, radix)
    ensures DigitText(limb, radix, n) == DigitText(Word(w, radix), radix, n)
  {
    hide Digits, Pow;
    DigitsLow(limb, radix, n, DIGITS_PER_LIMB[radix - 2]);
  }

  lemma NotLonger(s: seq<Limb>, t: seq<Limb>)
    requires NormalLimbs(t) && NormalLimbs(s) && Value(t) <= Value(s)
    ensures |t| <= |s|
  {
    hide Value;
    if |s| < |t| { LongerIsGreater(s, t); }
  }

  lemma HigherWord(w: nat, radix: nat)
    requires 2 <= radix <= RADIX_MAX && RadixBits(radix) > 0
    ensures var d := DIGITS_PER_LIMB[radix - 2] * RadixBits(radix);
            d >= 0 && Pow(2, d) > 0 && Higher(w, radix, DIGITS_PER_LIMB[radix - 2]) == w / Pow(2, d) <= w
  {
    hide Pow;
    WordFacts(radix);
    QuotientAtMost(w, Pow(2, DIGITS_PER_LIMB[radix - 2] * RadixBits(radix)));
  }

  lemma BinaryWritten(was: seq<byte>, before: seq<byte>, now: seq<byte>, pos: nat, v: nat, radix: nat, done: nat,
                      n: nat, w: nat,
                      limb: Limb)
    requires 2 <= radix <= RADIX_MAX && RadixBits(radix) > 0 && n <= DIGITS_PER_LIMB[radix - 2] && n <= pos
    requires w == Higher(v, radix, done) && limb == w % BASE
    requires Wrote(was, before, pos, DigitText(v, radix, done))
             && Wrote(before, now, pos - n, DigitText(limb, radix, n))
    ensures Wrote(was, now, pos - n, DigitText(v, radix, done + n))
    ensures Higher(w, radix, n) == Higher(v, radix, done + n)
  {
    hide Wrote, DigitText, Higher, Word;
    LowWord(w, radix, RadixBits(radix), limb);
    SameWord(w, radix, n, limb);
    WordWritten(v, radix, done, n, w, Word(w, radix));
    WroteBefore(was, before, now, pos, DigitText(v, radix, done), DigitText(limb, radix, n));
  }

  /** The digits from the last one on, by division. */
  method OutputByDivision(buf: array<byte>, q: nat, a: Mpb, radix: nat, nDigits1: nat)
    requires 2 <= radix <= RADIX_MAX && RadixBits(radix) < 0 && q + nDigits1 <= buf.Length
    requires a.Valid() && a.Normal()
    modifies buf, a`len, a.tab
    ensures Wrote(old(buf[..]), buf[..], q, DigitText(old(a.Val()), radix, nDigits1))
  {
    hide Wrote, DigitText, Pow, Value, Unit, NormalLimbs, Higher, Word;
    ghost var was, v := buf[..], a.Val();
    var digitsPerLimb := DIGITS_PER_LIMB[radix - 2];
    WordFacts(radix);
    var nDigits := nDigits1;
    ghost var done := 0;
    NoDigitText(v, radix);
    HigherNone(v, radix);
    WroteNothing(was, q + nDigits);
    while nDigits != 0
      invariant 0 <= nDigits <= nDigits1 && done == nDigits1 - nDigits
      invariant a.Valid() && (nDigits > 0 ==> a.Val() == Higher(v, radix, done))
      invariant Wrote(was, buf[..], q + nDigits, DigitText(v, radix, done))
      decreases nDigits
    {
      var n := Min(nDigits, digitsPerLimb);
      nDigits := nDigits - n;
      ghost var before, w := buf[..], a.Val();
      var r := Div1(a.tab, a.len, RADIX_BASE[radix - 2], 0);
      DivisionWord(w, radix, Value(a.tab[..a.len]), r);
      a.Renorm();
      PutDigits(buf, q + nDigits, r, radix, n);
      WordWritten(v, radix, done, n, w, r);
      WroteBefore(was, before, buf[..], q + nDigits + n, DigitText(v, radix, done), DigitText(r, radix, n));
      done := done + n;
    }
  }

  lemma DivisionWord(w: nat, radix: nat, quotient: nat, r: Limb)
    requires 2 <= radix <= RADIX_MAX && RadixBits(radix) < 0 && r < RADIX_BASE[radix - 2]
    requires w == quotient * RADIX_BASE[radix - 2] + r
    ensures quotient == Higher(w, radix, DIGITS_PER_LIMB[radix - 2]) && r == Word(w, radix)
  {
    hide Pow;
    WordFacts(radix);
    Unique(w, RADIX_BASE[radix - 2], quotient, r);
  }

  /** output_digits: the nDigits1 lowest digits of the number a, with a point after dotPos of them. */
  method OutputDigits(buf: array<byte>, q: nat, a: Mpb, radix: nat, nDigits1: nat, dotPos: nat) returns (len: nat)
    requires 2 <= radix <= RADIX_MAX && nDigits1 >= 1 && dotPos <= nDigits1 && q + nDigits1 + 1 <= buf.Length
    requires a.Valid() && a.Normal() && a.Room(1)
    modifies buf, a`len, a.tab
    ensures len == |Dotted(DigitText(old(a.Val()), radix, nDigits1), dotPos)|
    ensures buf[..q + len] == old(buf[..q]) + Dotted(DigitText(old(a.Val()), radix, nDigits1), dotPos)
  {
    hide DigitText, Value, NormalLimbs;
    ghost var was, text := buf[..], DigitText(a.Val(), radix, nDigits1);
    if RadixBits(radix) > 0 {
      OutputBinary(buf, q, a, radix, nDigits1);
    } else {
      OutputByDivision(buf, q, a, radix, nDigits1);
    }
    assert buf[..q] == was[..q] && buf[q..q + nDigits1] == text;
    len := nDigits1;
    if dotPos != nDigits1 {
      InsertDot(buf, q, nDigits1, dotPos);
      len := len + 1;
      assert was[..q] + text[..dotPos] + [DOT] + text[dotPos..] == was[..q] + Dotted(text, dotPos);
    } else {
      assert buf[..q + len] == buf[..q] + buf[q..q + nDigits1];
    }
  }

  /** Moves the digits after the point up by one place (memmove) and puts the point between. */
  method InsertDot(buf: array<byte>, q: nat, n: nat, dotPos: nat)
    requires dotPos < n && q + n + 1 <= buf.Length
    modifies buf
    ensures buf[..q + n + 1] == old(buf[..q]) + old(buf[q..q + n])[..dotPos] + [DOT] + old(buf[q..q + n])[dotPos..]
  {
    ghost var was := buf[..];
    var i := n;
    while i > dotPos
      invariant dotPos <= i <= n && |buf[..]| == |was|
      invariant buf[..q + i] == was[..q + i] && buf[q + i + 1..q + n + 1] == was[q + i..q + n]
    {
      i := i - 1;
      assert buf[q + i] == buf[..q + i + 1][q + i] == was[q + i];
      buf[q + i + 1] := buf[q + i];
      assert buf[..q + i] == was[..q + i];
      assert buf[q + i + 1..q + n + 1] == [was[q + i]] + was[q + i + 1..q + n];
    }
    buf[q + dotPos] := DOT;
    assert buf[..q + n + 1] == buf[..q + dotPos] + [DOT] + buf[q + dotPos + 1..q + n + 1];
    assert was[q..q + n][dotPos..] == was[q + dotPos..q + n] && was[q..q + n][..dotPos] == was[q..q + dotPos];
    assert was[..q + dotPos] == was[..q] + was[q..q + dotPos];
  }
}
