/** The UTF-8 and UTF-16 converters of cutils.c: single code points, and the sequences that the loops compute. */
module Utf8 {
  import opened Bytes
  import opened Ordering

  type u16 = x: int | 0 <= x < 0x1_0000

  const REPLACEMENT: int := 0xfffd
  const MAX_CODE_POINT: int := 0x10_ffff

  // ----- surrogates -----

  predicate IsHigh(c: int) {
    0xd800 <= c < 0xdc00
  }

  predicate IsLow(c: int) {
    0xdc00 <= c < 0xe000
  }

  function HighSurrogate(c: int): u16
    requires 0x1_0000 <= c <= MAX_CODE_POINT
  {
    c / 0x400 - 0x1_0000 / 0x400 + 0xd800
  }

  function LowSurrogate(c: int): u16
    requires 0 <= c
  {
    c % 0x400 + 0xdc00
  }

  function FromSurrogates(hi: int, lo: int): int {
    0x1_0000 + 1024 * (hi % 1024) + lo % 1024
  }

  /** Splitting and joining surrogates are inverse. */
  lemma SurrogatesRoundTrip(c: int, hi: int, lo: int)
    ensures 0x1_0000 <= c <= MAX_CODE_POINT
            ==> IsHigh(HighSurrogate(c)) && IsLow(LowSurrogate(c)) &&
                FromSurrogates(HighSurrogate(c), LowSurrogate(c)) == c
    ensures IsHigh(hi) && IsLow(lo)
            ==> var c := FromSurrogates(hi, lo);
                0x1_0000 <= c <= MAX_CODE_POINT && HighSurrogate(c) == hi && LowSurrogate(c) == lo
  {
  }

  /** The split keeps the order: pairs compare as the code points they stand for. No other inverse pair does. */
  lemma SurrogatesOrdered(c: int, d: int)
    requires 0x1_0000 <= c < d <= MAX_CODE_POINT
    ensures HighSurrogate(c) < HighSurrogate(d)
            || (HighSurrogate(c) == HighSurrogate(d) && LowSurrogate(c) < LowSurrogate(d))
  {
    assert c / 0x400 <= d / 0x400;
    if c / 0x400 == d / 0x400 { assert c % 0x400 < d % 0x400; }
  }

  /** The code point of a pair: section 11.1.3 of ECMA-262. */
  lemma SurrogatesDenote(hi: int, lo: int)
    requires IsHigh(hi) && IsLow(lo)
    ensures FromSurrogates(hi, lo) == (hi - 0xd800) * 0x400 + (lo - 0xdc00) + 0x1_0000
  {
  }

  // ----- one code point -----

  /** The bytes that utf8_encode stores. */
  function EncodeChar(c: int): (b: seq<byte>)
    requires 0 <= c
    ensures 1 <= |b| <= 4
  {
    if c < 0x80 then [c]
    else if c < 0x800 then [c / 64 + 0xc0, c % 64 + 0x80]
    else if c < 0x1_0000 then [c / 4096 + 0xe0, c / 64 % 64 + 0x80, c % 64 + 0x80]
    else if c < 0x11_0000 then [c / 262144 + 0xf0, c / 4096 % 64 + 0x80, c / 64 % 64 + 0x80, c % 64 + 0x80]
    else [0xef, 0xbf, 0xbd]
  }

  predicate IsTail(b: int) {
    0x80 <= b <= 0xbf
  }

  /** The form of an encoding, after Table 3-7 of the Unicode Standard, which leaves out the surrogates. */
  ghost predicate EncodingForm(b: seq<byte>) {
    || (|b| == 1 && b[0] <= 0x7f)
    || (|b| == 2 && 0xc2 <= b[0] <= 0xdf && IsTail(b[1]))
    || (|b| == 3 && 0xe0 <= b[0] <= 0xef && (b[0] == 0xe0 ==> b[1] >= 0xa0) && IsTail(b[1]) && IsTail(b[2]))
    || (|b| == 4 && 0xf0 <= b[0] <= 0xf4 && (b[0] == 0xf0 ==> b[1] >= 0x90) && (b[0] == 0xf4 ==> b[1] <= 0x8f)
        && IsTail(b[1]) && IsTail(b[2]) && IsTail(b[3]))
  }

  lemma EncodingHasForm(c: int)
    requires 0 <= c <= MAX_CODE_POINT
    ensures EncodingForm(EncodeChar(c))
  {
    if 0x80 <= c < 0x800 {
      TwoBytes(c);
    } else if 0x800 <= c < 0x1_0000 {
      ThreeBytes(c);
    } else if c >= 0x1_0000 {
      FourBytes(c);
    }
  }

  /** Each sequence of that form is the encoding of a code point. */
  lemma FormEncodes(b: seq<byte>) returns (c: int)
    requires EncodingForm(b)
    ensures 0 <= c <= MAX_CODE_POINT && EncodeChar(c) == b
  {
    if |b| == 1 {
      c := b[0];
    } else if |b| == 2 {
      c := (b[0] as int - 0xc0) * 64 + (b[1] as int - 0x80);
      TwoAt(b[0], b[1]);
    } else if |b| == 3 {
      c := (b[0] as int - 0xe0) * 4096 + (b[1] as int - 0x80) * 64 + (b[2] as int - 0x80);
      ThreeAt(b[0], b[1], b[2]);
    } else {
      c := (b[0] as int - 0xf0) * 262144 + (b[1] as int - 0x80) * 4096 + (b[2] as int - 0x80) * 64
           + (b[3] as int - 0x80);
      FourAt(b[0], b[1], b[2], b[3]);
    }
  }

  /**
   * Encodings compare, byte by byte, as code points do. As they take all the sequences of EncodingForm, each code point
   * has the only encoding it can have.
   */
  lemma EncodingsOrdered(c: int, d: int)
    requires 0 <= c < d <= MAX_CODE_POINT
    ensures Precedes(EncodeChar(c), EncodeChar(d))
  {
    var a, b := EncodeChar(c), EncodeChar(d);
    var i := DifferAt(c, d);
    assert FirstDifference(a, b, i) by {
      hide EncodeChar;
      assert a[..i] == b[..i];
    }
  }

  lemma DifferAt(c: int, d: int) returns (i: nat)
    requires 0 <= c < d <= MAX_CODE_POINT
    ensures var a, b := EncodeChar(c), EncodeChar(d);
            i < |a| && i < |b| && a[i] < b[i] && forall j :: 0 <= j < i ==> a[j] == b[j]
  {
    var a, b := EncodeChar(c), EncodeChar(d);
    if c < 0x80 || |a| < |b| {
      EncodingHasForm(d);
      i := 0;
    } else {
      i := SameLength(c, d);
    }
  }

  lemma SameLength(c: int, d: int) returns (i: nat)
    requires 0x80 <= c < d <= MAX_CODE_POINT && |EncodeChar(c)| >= |EncodeChar(d)|
    ensures var a, b := EncodeChar(c), EncodeChar(d);
            i < |a| == |b| && a[i] < b[i] && forall j :: 0 <= j < i ==> a[j] == b[j]
  {
    var c1, c2, c3, r0, r1, r2 := Sextets(c);
    var d1, d2, d3, t0, t1, t2 := Sextets(d);
    HigherFirst(c, c1, c2, c3, r0, r1, r2, d, d1, d2, d3, t0, t1, t2);
    if c < 0x800 {
      i := if c1 < d1 then 0 else 1;
    } else if c < 0x1_0000 {
      i := if c2 < d2 then 0 else if r1 < t1 then 1 else 2;
    } else {
      i := if c3 < d3 then 0 else if r2 < t2 then 1 else if r1 < t1 then 2 else 3;
    }
  }

  /** The groups of six bits, from the lowest on. */
  lemma Sextets(c: int) returns (c1: int, c2: int, c3: int, r0: int, r1: int, r2: int)
    requires 0 <= c
    ensures c1 == c / 64 && c2 == c / 4096 && c3 == c / 262144
    ensures r0 == c % 64 && r1 == c / 64 % 64 && r2 == c / 4096 % 64
    ensures c == 64 * c1 + r0 && c1 == 64 * c2 + r1 && c2 == 64 * c3 + r2
    ensures 0 <= r0 < 64 && 0 <= r1 < 64 && 0 <= r2 < 64
  {
    c1, c2, c3 := c / 64, c / 4096, c / 262144;
    r0, r1, r2 := c % 64, c / 64 % 64, c / 4096 % 64;
    assert c2 == c1 / 64 && c3 == c2 / 64;
  }

  lemma HigherFirst(c: int, c1: int, c2: int, c3: int, r0: int, r1: int, r2: int,
                    d: int, d1: int, d2: int, d3: int, t0: int, t1: int, t2: int)
    requires c < d
    requires c == 64 * c1 + r0 && c1 == 64 * c2 + r1 && c2 == 64 * c3 + r2
    requires d == 64 * d1 + t0 && d1 == 64 * d2 + t1 && d2 == 64 * d3 + t2
    requires 0 <= r0 < 64 && 0 <= r1 < 64 && 0 <= r2 < 64 && 0 <= t0 < 64 && 0 <= t1 < 64 && 0 <= t2 < 64
    ensures c1 < d1 || (c1 == d1 && r0 < t0)
    ensures c2 < d2 || (c2 == d2 && (r1 < t1 || (r1 == t1 && r0 < t0)))
    ensures c3 < d3 || (c3 == d3 && (r2 < t2 || (r2 == t2 && (r1 < t1 || (r1 == t1 && r0 < t0)))))
  {
  }

  datatype Step = Step(c: int, next: nat)

  predicate Continues(s: seq<byte>, p: nat, low: int, high: int) {
    p < |s| && low <= s[p] <= high
  }

  /** The six bits of a continuation byte. */
  function Tail(s: seq<byte>, p: nat): int
    requires p < |s|
  {
    (s[p] as int) - 0x80
  }

  /**
   * utf8_decode_len at p, for the bytes up to the end of s: the code point and the position after it. On an error the
   * code point is U+FFFD and one byte is consumed.
   */
  function DecodeChar(s: seq<byte>, p: nat): (r: Step)
    requires p < |s|
    ensures p < r.next <= |s| && 0 <= r.c <= MAX_CODE_POINT
  {
    var c := s[p] as int;
    var bad := Step(REPLACEMENT, p + 1);
    if c < 0x80 then Step(c, p + 1)
    else if 0xc2 <= c <= 0xdf then
      if Continues(s, p + 1, 0x80, 0xbf) then Step((c - 0xc0) * 64 + Tail(s, p + 1), p + 2) else bad
    else if 0xe0 <= c <= 0xef then
      var lower := if c == 0xe0 then 0xa0 else 0x80;
      if Continues(s, p + 1, lower, 0xbf) && Continues(s, p + 2, 0x80, 0xbf)
      then Step((c - 0xe0) * 4096 + Tail(s, p + 1) * 64 + Tail(s, p + 2), p + 3) else bad
    else if 0xf0 <= c <= 0xf4 then
      var lower := if c == 0xf0 then 0x90 else 0x80;
      var upper := if c == 0xf4 then 0x8f else 0xbf;
      if Continues(s, p + 1, lower, upper) && Continues(s, p + 2, 0x80, 0xbf) && Continues(s, p + 3, 0x80, 0xbf)
      then Step((c - 0xf0) * 262144 + Tail(s, p + 1) * 4096 + Tail(s, p + 2) * 64 + Tail(s, p + 3), p + 4)
      else bad
    else bad
  }

  /** The encoding of a code point stands at p. */
  ghost predicate Encoded(s: seq<byte>, p: nat, c: int) {
    0 <= c <= MAX_CODE_POINT && At(s, p, EncodeChar(c))
  }

  lemma EncodedBytes(s: seq<byte>, p: nat, c: int)
    requires Encoded(s, p, c)
    ensures p + |EncodeChar(c)| <= |s|
    ensures forall i :: 0 <= i < |EncodeChar(c)| ==> s[p + i] == EncodeChar(c)[i]
  {
  }

  /** Where an encoding stands, it is decoded, whatever follows it. */
  lemma DecodeEncoded(s: seq<byte>, p: nat, c: int)
    requires p < |s| && Encoded(s, p, c)
    ensures DecodeChar(s, p) == Step(c, p + |EncodeChar(c)|)
  {
    hide At;
    EncodedBytes(s, p, c);
    var b := EncodeChar(c);
    assert s[p] == b[0];
    assert |b| >= 2 ==> s[p + 1] == b[1];
    assert |b| >= 3 ==> s[p + 2] == b[2];
    assert |b| >= 4 ==> s[p + 3] == b[3];
    if c < 0x80 {
    } else if c < 0x800 {
      TwoBytes(c);
    } else if c < 0x1_0000 {
      ThreeBytes(c);
    } else {
      FourBytes(c);
    }
  }

  lemma TwoBytes(c: int)
    requires 0x80 <= c < 0x800
    ensures 0xc2 <= c / 64 + 0xc0 <= 0xdf && 0 <= c % 64 < 64 && (c / 64) * 64 + c % 64 == c
  {
  }

  lemma ThreeBytes(c: int)
    requires 0x800 <= c < 0x1_0000
    ensures 0 <= c / 4096 < 16 && 0 <= c / 64 % 64 < 64 && 0 <= c % 64 < 64
    ensures (c / 4096) * 4096 + (c / 64 % 64) * 64 + c % 64 == c
    ensures c / 4096 == 0 ==> c / 64 % 64 >= 0x20
  {
    assert c / 4096 == c / 64 / 64;
  }

  lemma FourBytes(c: int)
    requires 0x1_0000 <= c <= MAX_CODE_POINT
    ensures 0 <= c / 262144 <= 4 && 0 <= c / 4096 % 64 < 64 && 0 <= c / 64 % 64 < 64 && 0 <= c % 64 < 64
    ensures (c / 262144) * 262144 + (c / 4096 % 64) * 4096 + (c / 64 % 64) * 64 + c % 64 == c
    ensures c / 262144 == 0 ==> c / 4096 % 64 >= 0x10
    ensures c / 262144 == 4 ==> c / 4096 % 64 <= 0x0f
  {
    assert c / 262144 == c / 4096 / 64 && c / 4096 == c / 64 / 64;
  }

  /** An error is reported exactly where no code point is encoded. */
  lemma DecodedOrError(s: seq<byte>, p: nat)
    requires p < |s|
    ensures var r := DecodeChar(s, p);
            || (Encoded(s, p, r.c) && r.next == p + |EncodeChar(r.c)|)
            || (r == Step(0xfffd, p + 1) && s[p] >= 0x80 && forall c :: !Encoded(s, p, c))
  {
    hide At;
    var r := DecodeChar(s, p);
    if r == Step(0xfffd, p + 1) {
      forall c ensures !Encoded(s, p, c) {
        if Encoded(s, p, c) { DecodeEncoded(s, p, c); }
      }
    } else {
      DecodedAt(s, p);
    }
  }

  lemma TwoAt(b0: int, b1: int)
    requires 0xc2 <= b0 <= 0xdf && 0x80 <= b1 <= 0xbf
    ensures EncodeChar((b0 - 0xc0) * 64 + (b1 - 0x80)) == [b0, b1]
  {
  }

  lemma ThreeAt(b0: int, b1: int, b2: int)
    requires 0xe0 <= b0 <= 0xef && (if b0 == 0xe0 then 0xa0 else 0x80) <= b1 <= 0xbf && 0x80 <= b2 <= 0xbf
    ensures EncodeChar((b0 - 0xe0) * 4096 + (b1 - 0x80) * 64 + (b2 - 0x80)) == [b0, b1, b2]
  {
    var c := (b0 - 0xe0) * 4096 + (b1 - 0x80) * 64 + (b2 - 0x80);
    assert c / 64 == (b0 - 0xe0) * 64 + (b1 - 0x80);
  }

  lemma FourAt(b0: int, b1: int, b2: int, b3: int)
    requires 0xf0 <= b0 <= 0xf4 && 0x80 <= b2 <= 0xbf && 0x80 <= b3 <= 0xbf
    requires (if b0 == 0xf0 then 0x90 else 0x80) <= b1 <= (if b0 == 0xf4 then 0x8f else 0xbf)
    ensures var c := (b0 - 0xf0) * 262144 + (b1 - 0x80) * 4096 + (b2 - 0x80) * 64 + (b3 - 0x80);
            EncodeChar(c) == [b0, b1, b2, b3] && c <= MAX_CODE_POINT
  {
    var c := (b0 - 0xf0) * 262144 + (b1 - 0x80) * 4096 + (b2 - 0x80) * 64 + (b3 - 0x80);
    FourSextets(c, b0 - 0xf0, b1 - 0x80, b2 - 0x80, b3 - 0x80);
    FourBytesOf(c);
  }

  lemma FourSextets(c: int, x: int, y: int, z: int, w: int)
    requires 0 <= x && 0 <= y < 64 && 0 <= z < 64 && 0 <= w < 64
    requires c == x * 262144 + y * 4096 + z * 64 + w
    ensures c / 262144 == x && c / 4096 % 64 == y && c / 64 % 64 == z && c % 64 == w
  {
    Sextet(c, x * 4096 + y * 64 + z, w);
    Sextet(c / 64, x * 64 + y, z);
    Sextet(c / 4096, x, y);
    TwiceDivided(c);
    ThriceDivided(c);
  }

  lemma Sextet(c: int, q: int, r: int)
    ensures c == q * 64 + r && 0 <= r < 64 ==> c / 64 == q && c % 64 == r
  {
  }

  lemma TwiceDivided(c: int)
    ensures c / 4096 == c / 64 / 64
  {
  }

  lemma ThriceDivided(c: int)
    ensures c / 262144 == c / 4096 / 64
  {
  }

  lemma FourBytesOf(c: int)
    requires 0x1_0000 <= c < 0x11_0000
    ensures EncodeChar(c) == [c / 262144 + 0xf0, c / 4096 % 64 + 0x80, c / 64 % 64 + 0x80, c % 64 + 0x80]
  {
  }

  /** The length of the encoding that the lead byte announces. */
  function LeadLength(c: int): nat {
    if c < 0x80 then 1 else if c < 0xe0 then 2 else if c < 0xf0 then 3 else 4
  }

  lemma DecodedAt(s: seq<byte>, p: nat)
    requires p < |s| && DecodeChar(s, p) != Step(REPLACEMENT, p + 1)
    ensures Encoded(s, p, DecodeChar(s, p).c) && DecodeChar(s, p).next == p + |EncodeChar(DecodeChar(s, p).c)|
  {
    hide EncodeChar;
    var n := LeadLength(s[p]);
    if n == 1 {
      OneAt(s[p]);
      assert DecodeChar(s, p) == Step(s[p], p + 1);
    } else if n == 2 {
      TwoAt(s[p], s[p + 1]);
    } else if n == 3 {
      ThreeAt(s[p], s[p + 1], s[p + 2]);
    } else {
      FourAt(s[p], s[p + 1], s[p + 2], s[p + 3]);
    }
    BytesAt(s, p, n);
  }

  lemma OneAt(b0: int)
    requires 0 <= b0 < 0x80
    ensures EncodeChar(b0) == [b0]
  {
  }

  lemma BytesAt(s: seq<byte>, p: nat, n: nat)
    requires p + n <= |s|
    ensures n == 1 ==> At(s, p, [s[p]])
    ensures n == 2 ==> At(s, p, [s[p], s[p + 1]])
    ensures n == 3 ==> At(s, p, [s[p], s[p + 1], s[p + 2]])
    ensures n == 4 ==> At(s, p, [s[p], s[p + 1], s[p + 2], s[p + 3]])
  {
  }
}
