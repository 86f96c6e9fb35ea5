/** The normalisation entry point: decomposition, ordering and composition in one buffer. */
module Normalization {
  import opened CanonicalOrder
  import opened Decomposition
  import opened Composition

  datatype Form = NFC | NFD | NFKC | NFKD

  // ----- composing in place -----

  /** The last starter of the output, unless ch is blocked from it. */
  method FindStarter(cc: int -> int, buf: seq<int>, outLen: nat, ch: int) returns (starterPos: int)
    requires ClassesOk(cc) && outLen <= |buf| && Ordered(cc, buf[..outLen])
    ensures var s := buf[..outLen];
            var k := LastStarter(cc, s);
            starterPos == if k >= 0 && !Blocked(cc, s, k, ch) then k else -1
  {
    ghost var s := buf[..outLen];
    var lastCc := cc(ch);
    starterPos := outLen - 1;
    while starterPos >= 0
      invariant -1 <= starterPos < outLen
      invariant forall i :: starterPos < i < outLen ==> 0 < cc(s[i]) < cc(ch)
      invariant lastCc == if starterPos == outLen - 1 then cc(ch) else 256
    {
      var c := cc(buf[starterPos]);
      assert s[starterPos] == buf[starterPos];
      if c == 0 {
        return;
      }
      if c >= lastCc {
        return -1;
      }
      if starterPos < outLen - 1 { assert !OutOfOrder(cc, s, starterPos); }
      lastCc := 256;
      starterPos := starterPos - 1;
    }
  }

  /** The output so far is the composition of the characters read; the others are untouched. */
  ghost predicate ComposedUpTo(u: Ucd, buf: seq<int>, was: seq<int>, i: nat, outLen: nat) {
    && outLen <= i <= |was| == |buf|
    && buf[..outLen] == Composed(u, was[..i]) && buf[i..] == was[i..]
    && Shape(u, was[..i], Composed(u, was[..i]))
  }

  lemma ComposedStart(u: Ucd, was: seq<int>)
    requires PairsOk(u) && was != [] && Ordered(u.cc, was) && AllPlain(u, was)
    ensures ComposedUpTo(u, was, was, 1, 1)
  {
    assert was[..1] == [] + [was[0]];
    EmptyComposition(u);
    ComposedSnoc(u, [], was[0]);
    OrderedPrefix(u.cc, was, 1);
    ShapeStep(u, [], [], was[0]);
    assert LastStarter(u.cc, []) == -1;
  }

  lemma ComposedNext(u: Ucd, buf: seq<int>, was: seq<int>, i: nat, outLen: nat, next: seq<int>, nextLen: nat)
    requires PairsOk(u) && Ordered(u.cc, was) && AllPlain(u, was) && ComposedUpTo(u, buf, was, i, outLen) && i < |was|
    requires |next| == |buf| && nextLen <= i + 1 && next[i + 1..] == buf[i + 1..]
    requires next[..nextLen] == ComposeStep(u, buf[..outLen], buf[i])
    ensures ComposedUpTo(u, next, was, i + 1, nextLen)
  {
    hide Shape, Composed, ComposeStep, PairsOk, Plain;
    assert buf[i] == buf[i..][0] == was[i..][0] == was[i];
    assert was[..i + 1] == was[..i] + [was[i]];
    ComposedSnoc(u, was[..i], was[i]);
    OrderedPrefix(u.cc, was, i + 1);
    ShapeStep(u, was[..i], buf[..outLen], was[i]);
    assert buf[i + 1..] == buf[i..][1..] && was[i + 1..] == was[i..][1..];
  }

  /** The composition loop: the first outLen characters of the buffer become the composition of its contents. */
  method ComposeInPlace(u: Ucd, t: Text) returns (outLen: nat)
    requires PairsOk(u) && t.buf != [] && Ordered(u.cc, t.buf) && AllPlain(u, t.buf)
    modifies t
    ensures outLen <= |t.buf| && t.buf[..outLen] == Composed(u, old(t.buf))
  {
    hide Composed, ComposeStep, PairsSorted, Plain, LastStarter, Blocked, ComposePair, PairOk, FindPair;
    ghost var was := t.buf;
    var bufLen := |t.buf|;
    var i: nat := 1;
    outLen := 1;
    ComposedStart(u, was);
    while i < bufLen
      invariant 1 <= outLen <= i <= bufLen == |t.buf| == |was| && ComposedUpTo(u, t.buf, was, i, outLen)
    {
      ghost var before, ch, s := t.buf, t.buf[i], t.buf[..outLen];
      var starterPos := FindStarter(u.cc, t.buf, outLen, t.buf[i]);
      var p := 0;
      if starterPos >= 0 {
        p := ComputePair(u, t.buf[starterPos], t.buf[i]);
      }
      StepIs(u, s, ch, starterPos, p);
      ghost var len := outLen;
      if p != 0 {
        t.buf := t.buf[starterPos := p];
        assert t.buf[..outLen] == s[starterPos := p];
      } else {
        t.buf := t.buf[outLen := t.buf[i]];
        outLen := outLen + 1;
        assert t.buf[..outLen] == s + [ch];
      }
      ComposedNext(u, before, was, i, len, t.buf, outLen);
      i := i + 1;
    }
    assert was[..i] == was;
  }

  lemma StepIs(u: Ucd, s: seq<int>, ch: int, starterPos: int, p: int)
    requires var k := LastStarter(u.cc, s); starterPos == if k >= 0 && !Blocked(u.cc, s, k, ch) then k else -1
    requires p == if starterPos >= 0 then ComposePair(u, s[starterPos], ch) else 0
    ensures ComposeStep(u, s, ch) == if p != 0 then s[starterPos := p] else s + [ch]
  {
  }

  // ----- the shortcut for Latin-1 -----

  predicate IsLatin1(c: int) { 0 <= c < 0x100 }

  ghost predicate AllLatin1(s: seq<int>) {
    forall i :: 0 <= i < |s| ==> IsLatin1(s[i])
  }

  /** A Latin-1 character is a starter that does not decompose, or the composite of one and a mark. */
  ghost predicate Latin1CharOk(u: Ucd, c: int) {
    var d := u.decomp(c);
    && u.cc(c) == 0
    && (d == [] || (|d| == 2 && Plain(u, d[0]) && Plain(u, d[1]) && IsLatin1(d[0]) && u.cc(d[0]) == 0
                    && FindPair(u.pairs, d[0], d[1]) == c
                    && c != 0))
  }

  function BaseOf(u: Ucd, c: int): int {
    if u.decomp(c) == [] then c else u.decomp(c)[0]
  }

  /** What the shortcut takes for granted of the data: Latin-1 characters do not compose with each other. */
  ghost predicate Latin1Ok(u: Ucd) {
    && (forall c :: IsLatin1(c) ==> Latin1CharOk(u, c))
    && (forall c, d :: IsLatin1(c) && IsLatin1(d) ==> FindPair(u.pairs, c, BaseOf(u, d)) == 0)
  }

  lemma Latin1Full(u: Ucd, c: int)
    requires PairsOk(u) && IsLatin1(c) && Latin1CharOk(u, c)
    ensures Full(u, c) == if u.decomp(c) == [] then [c] else u.decomp(c)
  {
    if u.decomp(c) != [] {
      assert AllPlain(u, u.decomp(c));
      PlainIsFull(u, u.decomp(c));
    }
  }

  lemma ComposeAfter(u: Ucd, s: seq<int>, last: int, ch: int)
    requires u.cc(last) == 0 && IsLatin1(last)
    ensures ComposeStep(u, s + [last], ch)
            == if FindPair(u.pairs, last, ch) != 0 then s + [FindPair(u.pairs, last, ch)] else s + [last, ch]
  {
    var r := s + [last];
    assert LastStarter(u.cc, r) == |s|;
    assert !Blocked(u.cc, r, |s|, ch);
  }

  /** The base of a Latin-1 character does not compose with what precedes it. */
  lemma BaseStep(u: Ucd, s: seq<int>, c: int)
    requires Latin1Ok(u) && AllLatin1(s) && IsLatin1(c)
    ensures ComposeStep(u, s, BaseOf(u, c)) == s + [BaseOf(u, c)]
    ensures u.cc(BaseOf(u, c)) == 0 && IsLatin1(BaseOf(u, c)) && Latin1CharOk(u, c)
  {
    hide ComposeStep, FindPair;
    assert Latin1CharOk(u, c);
    var base := BaseOf(u, c);
    if s == [] {
      ComposeFirst(u, base);
    } else {
      var last := s[|s| - 1];
      assert Latin1CharOk(u, last);
      assert s == s[..|s| - 1] + [last];
      ComposeAfter(u, s[..|s| - 1], last, base);
      assert s[..|s| - 1] + [last, base] == s + [base];
    }
  }

  /** One character of Latin-1 more. */
  lemma Latin1Step(u: Ucd, s: seq<int>, t: seq<int>, c: int)
    requires PairsOk(u) && Latin1Ok(u) && AllLatin1(s) && IsLatin1(c) && Composed(u, t) == s && Ordered(u.cc, t)
    ensures Composed(u, t + Full(u, c)) == s + [c] && Ordered(u.cc, t + Full(u, c))
  {
    hide Composed, ComposeStep, PairsSorted, PairOk, Full, FindPair, Ordered, Latin1Ok, AllLatin1;
    var base := BaseOf(u, c);
    BaseStep(u, s, c);
    Latin1Full(u, c);
    OrderedSnoc(u.cc, t, base);
    ComposedSnoc(u, t, base);
    if u.decomp(c) != [] {
      var mark := u.decomp(c)[1];
      ComposedSnoc(u, t + [base], mark);
      ComposeAfter(u, s, base, mark);
      MarkAfterStarter(u, t + [base], mark);
      assert t + u.decomp(c) == (t + [base]) + [mark];
    }
  }

  lemma MarkAfterStarter(u: Ucd, t: seq<int>, mark: int)
    requires PairsOk(u) && Ordered(u.cc, t) && t != [] && u.cc(t[|t| - 1]) == 0
    ensures Ordered(u.cc, t + [mark])
  {
    OrderedSnoc(u.cc, t, mark);
  }

  lemma ComposeFirst(u: Ucd, ch: int)
    ensures ComposeStep(u, [], ch) == [ch]
  {
    assert LastStarter(u.cc, []) == -1;
  }

  lemma {:induction false} Latin1Composes(u: Ucd, s: seq<int>)
    requires PairsOk(u) && Latin1Ok(u) && AllLatin1(s)
    ensures Composed(u, FullAll(u, s)) == s && Ordered(u.cc, FullAll(u, s))
    decreases |s|
  {
    hide Full, Composed, PairsSorted, PairOk, Latin1Ok;
    if s == [] {
      EmptyComposition(u);
    } else {
      var init, last := s[..|s| - 1], s[|s| - 1];
      Latin1Composes(u, init);
      Latin1Step(u, init, FullAll(u, init), last);
      assert s == init + [last];
    }
  }

  /** The shortcut is right: Latin-1 text is its own composed form. */
  lemma Latin1IsNormal(u: Ucd, s: seq<int>)
    requires PairsOk(u) && Latin1Ok(u) && AllLatin1(s)
    ensures Normal(u, s) == s
  {
    Latin1Composes(u, s);
    ReorderFixed(u.cc, FullAll(u, s));
  }

  // ----- the entry point -----

  ghost function Normalized(u: Ucd, src: seq<int>, form: Form): seq<int>
    requires DataOk(u)
  {
    if form == NFC || form == NFKC then Normal(u, src) else Decomposed(u, src)
  }

  method HasOnlyLatin1(src: seq<int>) returns (r: bool)
    ensures r <==> AllLatin1(src)
  {
    var i := 0;
    while i < |src|
      invariant 0 <= i <= |src| && AllLatin1(src[..i])
    {
      if !IsLatin1(src[i]) {
        return false;
      }
      assert src[..i + 1] == src[..i] + [src[i]];
      i := i + 1;
    }
    assert src[..i] == src;
    return true;
  }

  /** unicode_normalize, with the canonical and the compatibility decompositions as data. */
  method Normalize(canonical: Ucd, compatibility: Ucd, src: seq<int>, form: Form) returns (r: seq<int>)
    requires PairsOk(canonical) && PairsOk(compatibility) && Latin1Ok(canonical)
    ensures r == Normalized(if form == NFKC || form == NFKD then compatibility else canonical, src, form)
  {
    hide PairsSorted, PairOk, FullAll, Reorder, Composed, Latin1Ok, AllLatin1, AllPlain, Ordered;
    var u := if form == NFKC || form == NFKD then compatibility else canonical;
    if form == NFC {
      var latin1 := HasOnlyLatin1(src);
      if latin1 {
        Latin1IsNormal(u, src);
        return src;
      }
    }
    var dbuf := new Text([]);
    ToNfdRec(u, dbuf, src);
    assert [] + FullAll(u, src) == FullAll(u, src);
    dbuf.SortCc(u.cc);
    DecomposedIsNormal(u, src);
    if |dbuf.buf| <= 1 || form == NFD || form == NFKD {
      ShortIsComposed(u, dbuf.buf);
      return dbuf.buf;
    }
    var outLen := ComposeInPlace(u, dbuf);
    return dbuf.buf[..outLen];
  }

  lemma ShortIsComposed(u: Ucd, t: seq<int>)
    ensures |t| <= 1 ==> Composed(u, t) == t
  {
    if |t| == 1 {
      assert t == [] + [t[0]];
      ComposedSnoc(u, [], t[0]);
      ComposeFirst(u, t[0]);
    }
  }
}
