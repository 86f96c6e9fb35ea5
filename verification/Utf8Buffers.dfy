/** The UTF converters of cutils.c that fill buffers, and their round trips. */
module Utf8Buffers {
  import opened Bytes
  import opened Ordering
  import opened Utf8

  // ----- sequences -----

  /** The code point at position i: a surrogate pair counts as one. */
  function NextChar(src: seq<u16>, i: nat): (r: Step)
    requires i < |src|
    ensures i < r.next <= |src| && 0 <= r.c <= MAX_CODE_POINT
  {
    if IsHigh(src[i]) && i + 1 < |src| && IsLow(src[i + 1])
    then Step(FromSurrogates(src[i], src[i + 1]), i + 2)
    else Step(src[i], i + 1)
  }

  /** The UTF-8 form of the 16-bit units from i on. */
  function Encode16(src: seq<u16>, i: nat): (b: seq<byte>)
    requires i <= |src|
    ensures i < |src| ==> |b| > 0
    decreases |src| - i
  {
    if i == |src| then [] else EncodeChar(NextChar(src, i).c) + Encode16(src, NextChar(src, i).next)
  }

  function UnitsOf(c: int): (u: seq<u16>)
    requires 0 <= c <= MAX_CODE_POINT
    ensures 1 <= |u| <= 2
  {
    if c > 0xffff then [HighSurrogate(c), LowSurrogate(c)] else [c]
  }

  /** The 16-bit units decoded from p on. */
  function Decode16(s: seq<byte>, p: nat): seq<u16>
    requires p <= |s|
    decreases |s| - p
  {
    if p == |s| then [] else UnitsOf(DecodeChar(s, p).c) + Decode16(s, DecodeChar(s, p).next)
  }

  lemma UnitsOfNext(src: seq<u16>, i: nat)
    requires i < |src|
    ensures UnitsOf(NextChar(src, i).c) == src[i..NextChar(src, i).next]
  {
    hide FromSurrogates, HighSurrogate, LowSurrogate, IsHigh, IsLow;
    if IsHigh(src[i]) && i + 1 < |src| && IsLow(src[i + 1]) {
      SurrogatesRoundTrip(0, src[i], src[i + 1]);
      assert src[i..i + 2] == [src[i], src[i + 1]];
    } else {
      assert src[i..i + 1] == [src[i]];
    }
  }

  /** A pair of units counts as the code point of section 11.1.3 of ECMA-262, any other unit as itself. */
  lemma NextCharDenotes(src: seq<u16>, i: nat)
    requires i < |src|
    ensures NextChar(src, i) ==
            if 0xd800 <= src[i] < 0xdc00 && i + 1 < |src| && 0xdc00 <= src[i + 1] < 0xe000
            then Step((src[i] as int - 0xd800) * 0x400 + (src[i + 1] as int - 0xdc00) + 0x1_0000, i + 2)
            else Step(src[i], i + 1)
  {
    if IsHigh(src[i]) && i + 1 < |src| && IsLow(src[i + 1]) { SurrogatesDenote(src[i], src[i + 1]); }
  }

  /** The units of code points above U+FFFF compare as the code points do, those of the others are the code points. */
  lemma UnitsOrdered(c: int, d: int)
    requires 0 <= c < d <= MAX_CODE_POINT
    ensures c <= 0xffff ==> UnitsOf(c) == [c]
    ensures c > 0xffff ==> |UnitsOf(c)| == |UnitsOf(d)| == 2 && Precedes(UnitsOf(c), UnitsOf(d))
    ensures c > 0xffff ==> IsHigh(UnitsOf(c)[0]) && IsLow(UnitsOf(c)[1])
  {
    if c > 0xffff {
      SurrogatesOrdered(c, d);
      SurrogatesRoundTrip(c, 0, 0);
      var a, b := UnitsOf(c), UnitsOf(d);
      if a[0] < b[0] {
        assert FirstDifference(a, b, 0);
      } else {
        assert a[..1] == b[..1];
        assert FirstDifference(a, b, 1);
      }
    }
  }

  /** Decoding what encoding wrote gives back every sequence of 16-bit units, lone surrogates included. */
  lemma {:induction false} Utf16RoundTrip(src: seq<u16>, i: nat, s: seq<byte>, p: nat)
    requires i <= |src| && At(s, p, Encode16(src, i)) && p + |Encode16(src, i)| == |s|
    ensures Decode16(s, p) == src[i..]
    decreases |src| - i
  {
    hide EncodeChar, NextChar, UnitsOf, At, DecodeChar;
    if i < |src| {
      var c, n := NextChar(src, i).c, NextChar(src, i).next;
      AtSplit(s, p, EncodeChar(c), Encode16(src, n));
      DecodeEncoded(s, p, c);
      UnitsOfNext(src, i);
      Utf16RoundTrip(src, n, s, p + |EncodeChar(c)|);
      assert src[i..] == src[i..n] + src[n..];
    }
  }

  lemma Utf16RoundTripWhole(src: seq<u16>)
    ensures Decode16(Encode16(src, 0), 0) == src
  {
    Utf16RoundTrip(src, 0, Encode16(src, 0), 0);
  }

  // ----- single code points -----

  /** utf8_encode. */
  method Utf8Encode(buf: array<byte>, pos: nat, c: nat) returns (n: nat)
    requires pos + |EncodeChar(c)| <= buf.Length
    modifies buf
    ensures n == |EncodeChar(c)| && buf[pos..pos + n] == EncodeChar(c)
    ensures buf[..pos] == old(buf[..pos]) && buf[pos + n..] == old(buf[pos + n..])
  {
    if c < 0x80 {
      buf[pos] := c;
      return 1;
    }
    if c < 0x800 {
      buf[pos], buf[pos + 1] := c / 64 + 0xc0, c % 64 + 0x80;
      return 2;
    }
    if c < 0x1_0000 {
      buf[pos], buf[pos + 1], buf[pos + 2] := c / 4096 + 0xe0, c / 64 % 64 + 0x80, c % 64 + 0x80;
      return 3;
    }
    if c < 0x11_0000 {
      buf[pos], buf[pos + 1] := c / 262144 + 0xf0, c / 4096 % 64 + 0x80;
      buf[pos + 2], buf[pos + 3] := c / 64 % 64 + 0x80, c % 64 + 0x80;
      return 4;
    }
    buf[pos], buf[pos + 1], buf[pos + 2] := 0xfffd / 4096 + 0xe0, 0xfffd / 64 % 64 + 0x80, 0xfffd % 64 + 0x80;
    n := 3;
  }

  /** utf8_encode_len. */
  method Utf8EncodeLen(c: nat) returns (n: nat)
    ensures n == |EncodeChar(c)|
  {
    n := if c < 0x80 then 1 else if c < 0x800 then 2 else if c < 0x1_0000 then 3 else if c < 0x11_0000 then 4 else 3;
  }

  /** What utf8_decode asks of its caller: all the bytes that the lead byte announces, or a terminating zero. */
  ghost predicate Readable(s: seq<byte>, p: nat) {
    p < |s| && (p + LeadNeeds(s[p]) <= |s| || exists k :: p <= k < |s| && s[k] == 0)
  }

  /** utf8_decode. */
  method Utf8Decode(s: seq<byte>, p: nat) returns (c: int, next: nat)
    requires Readable(s, p)
    ensures Step(c, next) == DecodeChar(s, p)
  {
    c := s[p];
    if c < 0x80 {
      return c, p + 1;
    }
    if 0xc2 <= c <= 0xdf {
      if 0x80 <= s[p + 1] <= 0xbf {
        return (c - 0xc0) * 64 + (s[p + 1] as int - 0x80), p + 2;
      }
    } else if 0xe0 <= c <= 0xef {
      var lower := if c == 0xe0 then 0xa0 else 0x80;
      if lower <= s[p + 1] <= 0xbf && 0x80 <= s[p + 2] <= 0xbf {
        return (c - 0xe0) * 4096 + (s[p + 1] as int - 0x80) * 64 + (s[p + 2] as int - 0x80), p + 3;
      }
    } else if 0xf0 <= c <= 0xf4 {
      var lower := if c == 0xf0 then 0x90 else 0x80;
      var upper := if c == 0xf4 then 0x8f else 0xbf;
      if lower <= s[p + 1] <= upper && 0x80 <= s[p + 2] <= 0xbf && 0x80 <= s[p + 3] <= 0xbf {
        return (c - 0xf0) * 262144 + (s[p + 1] as int - 0x80) * 4096 + (s[p + 2] as int - 0x80) * 64
               + (s[p + 3] as int - 0x80), p + 4;
      }
    }
    c, next := REPLACEMENT, p + 1;
  }

  /** The number of bytes that utf8_decode may look at for a lead byte. */
  function LeadNeeds(c: int): nat {
    if 0xc2 <= c <= 0xdf then 2 else if 0xe0 <= c <= 0xef then 3 else if 0xf0 <= c <= 0xf4 then 4 else 1
  }

  /** utf8_decode_len: never looks past the end. */
  method Utf8DecodeLen(s: seq<byte>, p: nat) returns (c: int, next: nat)
    requires p <= |s|
    ensures p < |s| ==> Step(c, next) == DecodeChar(s, p)
    ensures p == |s| ==> c == 0xfffd && next == p
  {
    var maxLen := |s| - p;
    if maxLen == 0 {
      return REPLACEMENT, p;
    }
    if (maxLen == 1 && s[p] < 0x80) || (maxLen == 2 && s[p] < 0xe0) || (maxLen == 3 && s[p] < 0xf0) || maxLen >= 4 {
      c, next := Utf8Decode(s, p);
    } else {
      c, next := REPLACEMENT, p + 1;
    }
  }

  // ----- whole buffers -----

  /** The bytes written so far, a prefix of the encoding, and how far the source is read. */
  ghost predicate Written(dest: seq<byte>, j: nat, src: seq<u16>, i: nat) {
    j <= |dest| && i <= |src| && dest[..j] + Encode16(src, i) == Encode16(src, 0)
  }

  lemma NothingWritten(dest: seq<byte>, src: seq<u16>)
    ensures Written(dest, 0, src, 0)
  {
    assert dest[..0] + Encode16(src, 0) == Encode16(src, 0);
  }

  lemma WrittenMore(dest: seq<byte>, j: nat, src: seq<u16>, i: nat, dest1: seq<byte>)
    requires Written(dest, j, src, i) && i < |src|
    requires |dest1| == |dest| && j + |EncodeChar(NextChar(src, i).c)| <= |dest| && dest1[..j] == dest[..j]
    requires dest1[j..j + |EncodeChar(NextChar(src, i).c)|] == EncodeChar(NextChar(src, i).c)
    ensures Written(dest1, j + |EncodeChar(NextChar(src, i).c)|, src, NextChar(src, i).next)
  {
    hide EncodeChar, NextChar, Encode16;
    var b, n := EncodeChar(NextChar(src, i).c), NextChar(src, i).next;
    EncodeStep(src, i);
    var x, y := dest[..j], Encode16(src, n);
    assert dest1[..j + |b|] == x + b;
    assert x + (b + y) == (x + b) + y;
  }

  lemma EncodeStep(src: seq<u16>, i: nat)
    requires i < |src|
    ensures Encode16(src, i) == EncodeChar(NextChar(src, i).c) + Encode16(src, NextChar(src, i).next)
  {
  }

  /** The counting loop after an overflow of the destination. */
  method CountRest(src: seq<u16>, i0: nat, j0: nat) returns (j: nat)
    requires i0 <= |src|
    ensures j == j0 + |Encode16(src, i0)|
  {
    hide EncodeChar;
    j := j0;
    var i := i0;
    while i < |src|
      invariant i <= |src| && j + |Encode16(src, i)| == j0 + |Encode16(src, i0)|
      decreases |src| - i
    {
      var c: nat := src[i];
      i := i + 1;
      if c < 0x80 {
        AsciiLength(c);
        j := j + 1;
      } else {
        if IsHigh(c) && i < |src| && IsLow(src[i]) {
          c := FromSurrogates(c, src[i]);
          i := i + 1;
        }
        var n := Utf8EncodeLen(c);
        j := j + n;
      }
    }
  }

  lemma AsciiLength(c: nat)
    requires c < 0x80
    ensures EncodeChar(c) == [c]
  {
  }

  /**
   * utf8_encode_buf16: fills the destination with as many whole characters as fit together with a terminating zero, and
   * returns the length of the whole encoding, which does not depend on the destination.
   */
  method Utf8EncodeBuf16(dest: array<byte>, src: seq<u16>) returns (j: nat, ghost w: nat, ghost read: nat)
    modifies dest
    ensures j == |Encode16(src, 0)|
    ensures w <= dest.Length && read <= |src| && dest[..w] + Encode16(src, read) == Encode16(src, 0)
    ensures if read == |src| then w == j else w + |EncodeChar(NextChar(src, read).c)| >= dest.Length
    ensures forall k :: w < k < dest.Length ==> dest[k] == old(dest[k])
    ensures w <= j && w <= dest.Length && dest[..w] == Encode16(src, 0)[..w]
    ensures if j < dest.Length then w == j else dest.Length <= w + 4
    ensures dest.Length > 0 ==> w < dest.Length && dest[w] == 0
  {
    hide EncodeChar, Written, Encode16;
    var i: nat := 0;
    j := 0;
    NothingWritten(dest[..], src);
    var full := false;
    while i < |src|
      invariant i <= |src| && Written(dest[..], j, src, i) && (dest.Length > 0 ==> j < dest.Length)
      invariant dest.Length == 0 ==> j == 0
      invariant forall k :: j <= k < dest.Length ==> dest[k] == old(dest[k])
      decreases |src| - i
    {
      var start := i;
      ghost var was := dest[..];
      var c: nat := src[i];
      i := i + 1;
      AsciiOrNot(c, src, start);
      if c < 0x80 {
        if j + 1 >= dest.Length {
          i, full := start, true;
          break;
        }
        dest[j] := c;
        WrittenMore(was, j, src, start, dest[..]);
        j := j + 1;
      } else {
        if IsHigh(c) && i < |src| && IsLow(src[i]) {
          c := FromSurrogates(c, src[i]);
          i := i + 1;
        }
        var n := Utf8EncodeLen(c);
        if j + n >= dest.Length {
          i, full := start, true;
          break;
        }
        var k := Utf8Encode(dest, j, c);
        SameFrom(was, dest[..], j + k);
        WrittenMore(was, j, src, start, dest[..]);
        j := j + k;
      }
    }
    w, read := j, i;
    WrittenPrefix(dest[..], j, src, i);
    ghost var done := dest[..w];
    if j < dest.Length {
      dest[j] := 0;
    }
    assert dest[..w] == done;
    if full {
      j := CountRest(src, i, j);
    }
  }

  lemma AsciiOrNot(c: nat, src: seq<u16>, i: nat)
    requires i < |src| && c == src[i]
    ensures c < 0x80 ==> EncodeChar(NextChar(src, i).c) == [c] && NextChar(src, i).next == i + 1
    ensures |EncodeChar(NextChar(src, i).c)| <= 4 && |EncodeChar(NextChar(src, i).c)| <= |Encode16(src, i)|
  {
  }

  lemma SameFrom(was: seq<byte>, now: seq<byte>, p: nat)
    requires |was| == |now| && p <= |was| && was[p..] == now[p..]
    ensures forall k :: p <= k < |was| ==> now[k] == was[k]
  {
    forall k | p <= k < |was| ensures now[k] == was[k] {
      assert now[p..][k - p] == was[p..][k - p];
    }
  }

  lemma WrittenPrefix(dest: seq<byte>, j: nat, src: seq<u16>, i: nat)
    requires Written(dest, j, src, i)
    ensures j + |Encode16(src, i)| == |Encode16(src, 0)| && j <= |Encode16(src, 0)|
    ensures dest[..j] == Encode16(src, 0)[..j] && dest[..j] + Encode16(src, i) == Encode16(src, 0)
    ensures i == |src| ==> j == |Encode16(src, 0)|
  {
  }

  /** The units stored so far, and those still to come. */
  ghost predicate Stored(dest: seq<u16>, old0: seq<u16>, i: nat, s: seq<byte>, p: nat, done: seq<u16>) {
    && p <= |s| && |done| == i && |dest| == |old0| && done + Decode16(s, p) == Decode16(s, 0)
    && forall k :: 0 <= k < |dest| ==> dest[k] == if k < i then done[k] else old0[k]
  }

  lemma StoredStart(dest: seq<u16>, s: seq<byte>)
    ensures Stored(dest, dest, 0, s, 0, [])
  {
    assert [] + Decode16(s, 0) == Decode16(s, 0);
  }

  lemma StoredMore(dest: seq<u16>, old0: seq<u16>, i: nat, s: seq<byte>, p: nat, done: seq<u16>, dest1: seq<u16>)
    requires Stored(dest, old0, i, s, p, done) && p < |s|
    requires var u := UnitsOf(DecodeChar(s, p).c);
             && |dest1| == |dest|
             && forall k :: 0 <= k < |dest| ==> dest1[k] == if i <= k < i + |u| then u[k - i] else dest[k]
    ensures var u := UnitsOf(DecodeChar(s, p).c);
            Stored(dest1, old0, i + |u|, s, DecodeChar(s, p).next, done + u)
  {
    hide DecodeChar, UnitsOf;
    var u := UnitsOf(DecodeChar(s, p).c);
    assert done + (u + Decode16(s, DecodeChar(s, p).next)) == (done + u) + Decode16(s, DecodeChar(s, p).next);
  }

  /** utf8_decode_buf16: stores the units that fit and returns how many there are. */
  method Utf8DecodeBuf16(dest: array<u16>, s: seq<byte>) returns (i: nat)
    modifies dest
    ensures i == |Decode16(s, 0)|
    ensures forall k :: 0 <= k < dest.Length ==> dest[k] == if k < i then Decode16(s, 0)[k] else old(dest[k])
  {
    hide DecodeChar, Stored, UnitsOf, Decode16;
    i := 0;
    var p: nat := 0;
    ghost var done, was: seq<u16> := [], dest[..];
    StoredStart(was, s);
    while p < |s|
      invariant p <= |s| && Stored(dest[..], was, i, s, p, done)
      decreases |s| - p
    {
      ghost var before, i0 := dest[..], i;
      var q := p;
      var c: int := s[p];
      p := p + 1;
      OneByte(s, q);
      if c >= 0x80 {
        c, p := Utf8DecodeLen(s, q);
        if c > 0xffff {
          WideUnits(c);
          if i < dest.Length {
            dest[i] := HighSurrogate(c);
          }
          i := i + 1;
          c := LowSurrogate(c);
        } else {
          NarrowUnits(c);
        }
      }
      if i < dest.Length {
        dest[i] := c;
      }
      i := i + 1;
      StoredMore(before, was, i0, s, q, done, dest[..]);
      done := done + UnitsOf(DecodeChar(s, q).c);
    }
    StoredEnd(dest[..], was, i, s, p, done);
  }

  lemma OneByte(s: seq<byte>, p: nat)
    requires p < |s|
    ensures s[p] < 0x80 ==> DecodeChar(s, p) == Step(s[p], p + 1) && UnitsOf(s[p]) == [s[p]]
  {
  }

  lemma WideUnits(c: int)
    requires 0xffff < c <= MAX_CODE_POINT
    ensures UnitsOf(c) == [HighSurrogate(c), LowSurrogate(c)]
  {
  }

  lemma NarrowUnits(c: int)
    requires 0 <= c <= 0xffff
    ensures UnitsOf(c) == [c]
  {
  }

  lemma StoredEnd(dest: seq<u16>, old0: seq<u16>, i: nat, s: seq<byte>, p: nat, done: seq<u16>)
    requires Stored(dest, old0, i, s, p, done) && p == |s|
    ensures i == |Decode16(s, 0)| && |dest| == |old0|
    ensures forall k :: 0 <= k < |dest| ==> dest[k] == if k < i then Decode16(s, 0)[k] else old0[k]
  {
    assert done + [] == done;
  }

  // ----- scanning -----

  /** The bits of the result of utf8_scan. */
  datatype Kind = Kind(nonAscii: bool, has16Bit: bool, hasNonBmp: bool, hasErrors: bool)

  /** No code point is encoded at some position where the decoder looks for one. */
  ghost predicate HasError(s: seq<byte>, p: nat)
    requires p <= |s|
    decreases |s| - p
  {
    p < |s| && ((s[p] >= 0x80 && DecodeChar(s, p).next == p + 1) || HasError(s, DecodeChar(s, p).next))
  }

  /** Some decoded code point is above the limit. */
  ghost predicate HasAbove(s: seq<byte>, p: nat, limit: int)
    requires p <= |s|
    decreases |s| - p
  {
    p < |s| && (DecodeChar(s, p).c > limit || HasAbove(s, DecodeChar(s, p).next, limit))
  }

  lemma {:induction false} AsciiOnly(s: seq<byte>, p: nat)
    requires p <= |s| && forall k :: 0 <= k < |s| ==> s[k] < 0x80
    ensures |Decode16(s, p)| == |s| - p && !HasError(s, p) && !HasAbove(s, p, 0xff) && !HasAbove(s, p, 0xffff)
    decreases |s| - p
  {
    if p < |s| { AsciiOnly(s, p + 1); }
  }

  /**
   * utf8_scan: the number of 16-bit units that utf8_decode_buf16 will produce, for any bytes, and what kinds of code
   * points and errors they contain.
   */
  method Utf8Scan(s: seq<byte>) returns (kind: Kind, len: nat)
    ensures len == |Decode16(s, 0)|
    ensures kind.nonAscii <==> exists k :: 0 <= k < |s| && s[k] >= 0x80
    ensures kind.has16Bit == HasAbove(s, 0, 0xff) && kind.hasNonBmp == HasAbove(s, 0, 0xffff)
            && kind.hasErrors == HasError(s, 0)
  {
    hide DecodeChar, HasError, HasAbove, Decode16;
    kind := Kind(false, false, false, false);
    len := |s|;
    var ascii := true;
    for i := 0 to |s|
      invariant ascii <==> forall k :: 0 <= k < i ==> s[k] < 0x80
    {
      ascii := ascii && s[i] < 0x80;
    }
    if ascii {
      AsciiOnly(s, 0);
      return;
    }
    var wide, astral, errors := false, false, false;
    len := 0;
    var p: nat := 0;
    while p < |s|
      invariant p <= |s| && len + |Decode16(s, p)| == |Decode16(s, 0)|
      invariant HasAbove(s, 0, 0xff) == (wide || HasAbove(s, p, 0xff))
      invariant HasAbove(s, 0, 0xffff) == (astral || HasAbove(s, p, 0xffff))
      invariant HasError(s, 0) == (errors || HasError(s, p))
      decreases |s| - p
    {
      ScanStep(s, p);
      len := len + 1;
      var q := p;
      p := p + 1;
      if s[q] >= 0x80 {
        var c, next := Utf8DecodeLen(s, q);
        if next == p {
          errors := true;
        }
        p := next;
        if c > 0xff {
          wide := true;
          if c > 0xffff {
            len := len + 1;
            astral := true;
          }
        }
      }
    }
    ScanEnd(s, p);
    kind := Kind(true, wide, astral, errors);
  }

  lemma ScanStep(s: seq<byte>, p: nat)
    requires p < |s|
    ensures var r := DecodeChar(s, p);
            && |Decode16(s, p)| == (if r.c > 0xffff then 2 else 1) + |Decode16(s, r.next)|
            && HasAbove(s, p, 0xff) == (r.c > 0xff || HasAbove(s, r.next, 0xff))
            && HasAbove(s, p, 0xffff) == (r.c > 0xffff || HasAbove(s, r.next, 0xffff))
            && HasError(s, p) == ((s[p] >= 0x80 && r.next == p + 1) || HasError(s, r.next))
            && (s[p] < 0x80 ==> r == Step(s[p], p + 1))
  {
  }

  lemma ScanEnd(s: seq<byte>, p: nat)
    requires p == |s|
    ensures Decode16(s, p) == [] && !HasAbove(s, p, 0xff) && !HasAbove(s, p, 0xffff) && !HasError(s, p)
  {
  }
}
