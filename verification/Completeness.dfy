/**
 * Composition misses nothing: in a composed text no character has a primary composite with the last starter before it,
 * unless it is blocked from it (definitions D114 to D117 of the Unicode Standard).
 */
module Completeness {
  import opened Ordering
  import opened CanonicalOrder
  import opened Decomposition
  import opened Composition

  // ----- Hangul syllables -----

  /** Syllables compare as the sequences of their letters do, so that each has the only decomposition it can have. */
  lemma SyllablesOrdered(c: int, d: int)
    requires 0xac00 <= c < d <= 0xd7a3
    ensures Precedes(Jamos(c), Jamos(d))
  {
    var a, b := Jamos(c), Jamos(d);
    var i, j := c - 0xac00, d - 0xac00;
    LettersOrdered(i, j);
    if i / 588 < j / 588 {
      assert FirstDifference(a, b, 0);
    } else if i % 588 / 28 < j % 588 / 28 {
      assert a[..1] == b[..1];
      assert FirstDifference(a, b, 1);
    } else {
      assert a[..2] == b[..2];
      assert FirstDifference(a, b, 2);
    }
  }

  lemma LettersOrdered(i: int, j: int)
    requires 0 <= i < j
    ensures i / 588 < j / 588
            || (i / 588 == j / 588
                && (i % 588 / 28 < j % 588 / 28 || (i % 588 / 28 == j % 588 / 28 && i % 28 < j % 28)))
  {
    var l, v, t := Letters(i);
    var m, w, z := Letters(j);
    HigherFirst(l, v, t, m, w, z);
  }

  lemma Letters(i: int) returns (l: int, v: int, t: int)
    requires 0 <= i
    ensures l == i / 588 && v == i % 588 / 28 && t == i % 28
    ensures i == 588 * l + 28 * v + t && 0 <= v < 21 && 0 <= t < 28
  {
    var r;
    l, r := SplitAt588(i);
    v, t := SplitAt28(r);
    RemainderAt28(i, 21 * l + v, t);
  }

  lemma SplitAt588(i: int) returns (q: int, r: int)
    requires 0 <= i
    ensures q == i / 588 && r == i % 588 && i == 588 * q + r && 0 <= r < 588
  {
    q, r := i / 588, i % 588;
  }

  lemma SplitAt28(i: int) returns (q: int, r: int)
    requires 0 <= i < 588
    ensures q == i / 28 && r == i % 28 && i == 28 * q + r && 0 <= q < 21 && 0 <= r < 28
  {
    q, r := i / 28, i % 28;
  }

  lemma RemainderAt28(i: int, q: int, r: int)
    requires i == 28 * q + r && 0 <= r < 28
    ensures i % 28 == r
  {
  }

  lemma HigherFirst(l: int, v: int, t: int, m: int, w: int, z: int)
    requires 0 <= v < 21 && 0 <= t < 28 && 0 <= w < 21 && 0 <= z < 28
    requires 588 * l + 28 * v + t < 588 * m + 28 * w + z
    ensures l < m || (l == m && (v < w || (v == w && t < z)))
  {
  }

  /** Composition puts every syllable together again, with or without trailing consonant. */
  lemma SyllableIsNormal(u: Ucd, c: int)
    requires PairsOk(u) && 0xac00 <= c <= 0xd7a3
    ensures Normal(u, [c]) == [c]
  {
    hide Composed, Reorder, PairsSorted, PairOk, FullAll;
    var t := Jamos(c);
    FullAllOne(u, c);
    assert Full(u, c) == t;
    assert Ordered(u.cc, t);
    ReorderFixed(u.cc, t);
    var lv := c - (c - 0xac00) % 28;
    JamosCompose(u, c, lv);
    EmptyComposition(u);
    ComposedSnoc(u, [], t[0]);
    StepStarts(u, t[0]);
    ComposedSnoc(u, [t[0]], t[1]);
    StepJoins(u, t[0], t[1], lv);
    assert [] + [t[0]] == [t[0]] && [t[0]] + [t[1]] == [t[0], t[1]];
    if |t| == 3 {
      ComposedSnoc(u, [t[0], t[1]], t[2]);
      StepJoins(u, lv, t[2], c);
      assert [t[0], t[1]] + [t[2]] == t;
    } else {
      assert [t[0], t[1]] == t;
    }
  }

  /** A syllable comes from a leading consonant and a vowel, and from the syllable of these and a trailing consonant. */
  lemma JamosCompose(u: Ucd, c: int, lv: int)
    requires PairsOk(u) && IsSyllable(c) && lv == c - (c - 0xac00) % 28
    ensures var t := Jamos(c);
            && IsSyllable(lv) && lv != 0 && c != 0 && u.cc(lv) == 0
            && ComposePair(u, t[0], t[1]) == lv && (|t| == 2 <==> c == lv)
            && (|t| == 3 ==> ComposePair(u, lv, t[2]) == c)
  {
    var l, v, t := Letters(c - 0xac00);
    assert lv == 0xac00 + l * 588 + v * 28;
  }

  lemma StepStarts(u: Ucd, ch: int)
    ensures ComposeStep(u, [], ch) == [ch]
  {
    assert LastStarter(u.cc, []) == -1;
  }

  lemma StepJoins(u: Ucd, a: int, b: int, p: int)
    requires u.cc(a) == 0 && ComposePair(u, a, b) == p != 0
    ensures ComposeStep(u, [a], b) == [p]
  {
    hide ComposePair;
    assert LastStarter(u.cc, [a]) == 0;
    assert !Blocked(u.cc, [a], 0, b);
    assert [a][0 := p] == [p];
  }

  /** In a decomposed text the marks between two starters come in the order of their classes. */
  lemma MarksAscend(u: Ucd, src: seq<int>, i: nat)
    requires DataOk(u) && i + 1 < |Decomposed(u, src)|
    ensures var t := Decomposed(u, src); u.cc(t[i + 1]) == 0 || u.cc(t[i]) <= u.cc(t[i + 1])
  {
    hide FullAll, Reorder;
    DecomposedIsNormal(u, src);
    assert !OutOfOrder(u.cc, Decomposed(u, src), i);
  }

  // ----- primary composites, told by decomposition -----

  /** p is the composite of a and b: by the table, or a syllable that decomposes into both. */
  ghost predicate PrimaryComposite(u: Ucd, a: int, b: int, p: int)
    requires DataOk(u)
  {
    || (exists k :: 0 <= k < |u.pairs| && u.pairs[k] == Pair(a, b, p))
    || (0xac00 <= p <= 0xd7a3 && Full(u, p) == Full(u, a) + [b])
  }

  /** The second character of a pair does not decompose, and composites decompose in canonical order. */
  ghost predicate PairsClosed(u: Ucd)
    requires DataOk(u)
  {
    forall k :: 0 <= k < |u.pairs| ==>
      Plain(u, u.pairs[k].second) && Ordered(u.cc, Full(u, u.pairs[k].composite))
  }

  /** A character of a composed text. */
  ghost predicate Known(u: Ucd, c: int) {
    Plain(u, c) || IsSyllable(c) || exists k :: 0 <= k < |u.pairs| && u.pairs[k].composite == c
  }

  ghost predicate AllKnown(u: Ucd, s: seq<int>) {
    forall i :: 0 <= i < |s| ==> Known(u, s[i])
  }

  lemma CompositeFull(u: Ucd, k: nat)
    requires PairsOk(u) && PairsClosed(u) && k < |u.pairs|
    ensures var q := u.pairs[k];
            && Full(u, q.composite) == Full(u, q.first) + [q.second] && !IsJamo(q.second)
            && !(IsL(q.first) && IsV(q.second)) && !(IsLv(q.first) && IsT(q.second))
            && ComposePair(u, q.first, q.second) == q.composite != 0
  {
    hide FullAll, PairsSorted;
    var q := u.pairs[k];
    assert PairOk(u, q);
    PairFound(u.pairs, q.first, q.second, k);
    FullOfPair(u, q.first, q.second);
  }

  lemma {:induction false} FullNotEmpty(u: Ucd, c: int)
    requires PairsOk(u) && PairsClosed(u) && Known(u, c)
    ensures Plain(u, c) ==> Full(u, c) == [c]
    ensures |Full(u, c)| >= 1
  {
    hide Ordered, PairsSorted, PairOk, FullAll;
    if !Plain(u, c) && !IsSyllable(c) {
      var k :| 0 <= k < |u.pairs| && u.pairs[k].composite == c;
      CompositeFull(u, k);
    }
  }

  /** What decomposition calls a composite, compose_pair finds. */
  lemma PrimaryIsFound(u: Ucd, a: int, b: int, p: int)
    requires PairsOk(u) && PairsClosed(u) && Known(u, a) && PrimaryComposite(u, a, b, p)
    ensures ComposePair(u, a, b) == p != 0
  {
    hide Full, ComposePair, PairsSorted, PairOk, Ordered;
    if k :| 0 <= k < |u.pairs| && u.pairs[k] == Pair(a, b, p) {
      CompositeFull(u, k);
    } else {
      SyllableFull(u, p);
      var t := Jamos(p);
      var n := |t| - 1;
      assert Full(u, a) == t[..n] && t[n] == b;
      JamosCompose(u, p, p - (p - 0xac00) % 28);
      FullNotEmpty(u, a);
      if Plain(u, a) {
        assert t[..n] == [a];
      } else if IsSyllable(a) {
        SyllableFull(u, a);
        SyllablePrefix(u, a, p);
      } else {
        var k :| 0 <= k < |u.pairs| && u.pairs[k].composite == a;
        CompositeFull(u, k);
        LastIsJamo(u, p, Full(u, u.pairs[k].first), u.pairs[k].second);
      }
    }
  }

  lemma SyllableFull(u: Ucd, c: int)
    requires DataOk(u) && IsSyllable(c)
    ensures Full(u, c) == Jamos(c) && !Plain(u, c)
  {
  }

  /** A syllable whose letters are all but the last of those of p is p without its trailing consonant. */
  lemma SyllablePrefix(u: Ucd, a: int, p: int)
    requires IsSyllable(a) && IsSyllable(p) && Jamos(a) == Jamos(p)[..|Jamos(p)| - 1]
    ensures |Jamos(p)| == 3 && a == p - (p - 0xac00) % 28
  {
    var lv := p - (p - 0xac00) % 28;
    var i := p - 0xac00;
    assert i % 588 % 28 == i % 28;
    assert (lv - 0xac00) / 588 == i / 588 && (lv - 0xac00) % 588 / 28 == i % 588 / 28 && (lv - 0xac00) % 28 == 0;
    if a < lv { SyllablesOrdered(a, lv); } else if lv < a { SyllablesOrdered(lv, a); }
    assert Jamos(lv) == Jamos(p)[..2];
  }

  lemma LastIsJamo(u: Ucd, p: int, s: seq<int>, b: int)
    requires IsSyllable(p) && s + [b] == Jamos(p)[..|Jamos(p)| - 1]
    ensures IsJamo(b)
  {
    assert (s + [b])[|s|] == b;
    assert Jamos(p)[|s|] == b;
  }

  // ----- the invariant -----

  /** k is the last starter before i, and i is not blocked from it. */
  ghost predicate Unblocked(cc: int -> int, s: seq<int>, k: int, i: int)
    requires 0 <= k < i < |s|
  {
    cc(s[k]) == 0 && forall j :: k < j < i ==> 0 < cc(s[j]) < cc(s[i])
  }

  ghost predicate NoComposite(u: Ucd, a: int, b: int)
    requires DataOk(u)
  {
    forall p :: !PrimaryComposite(u, a, b, p)
  }

  ghost predicate Complete(u: Ucd, s: seq<int>)
    requires DataOk(u)
  {
    forall k, i :: 0 <= k < i < |s| && Unblocked(u.cc, s, k, i) ==> NoComposite(u, s[k], s[i])
  }

  lemma AppendComplete(u: Ucd, s: seq<int>, ch: int)
    requires PairsOk(u) && PairsClosed(u) && Complete(u, s) && AllKnown(u, s) && !Composes(u, s, ch)
    ensures Complete(u, s + [ch])
  {
    hide NoComposite, Unblocked, Composes, Known, PairsSorted, PairOk, PairsClosed;
    var r := s + [ch];
    forall k, i | 0 <= k < i < |r| && Unblocked(u.cc, r, k, i) ensures NoComposite(u, r[k], r[i]) {
      if i < |s| {
        UnblockedSame(u.cc, r, s, k, i);
      } else {
        AppendedAlone(u, s, ch, k);
      }
    }
  }

  /** Whether a character is unblocked depends on what lies before it only. */
  lemma UnblockedSame(cc: int -> int, r: seq<int>, s: seq<int>, k: int, i: int)
    requires 0 <= k < i < |r| && i < |s| && r[..i + 1] == s[..i + 1] && Unblocked(cc, r, k, i)
    ensures Unblocked(cc, s, k, i) && r[k] == s[k] && r[i] == s[i]
  {
    forall j | 0 <= j <= i ensures r[j] == s[j] { assert r[..i + 1][j] == s[..i + 1][j]; }
  }

  lemma AppendedAlone(u: Ucd, s: seq<int>, ch: int, k: int)
    requires PairsOk(u) && PairsClosed(u) && AllKnown(u, s) && !Composes(u, s, ch)
    requires 0 <= k < |s| && Unblocked(u.cc, s + [ch], k, |s|)
    ensures NoComposite(u, s[k], ch)
  {
    hide PrimaryComposite, Known, ComposePair, PairsSorted, PairOk, PairsClosed, LastStarter;
    assert u.cc(s[k]) == 0 && forall j :: k < j < |s| ==> 0 < u.cc(s[j]) < u.cc(ch) by {
      var r := s + [ch];
      assert r[k] == s[k] && r[|s|] == ch;
      forall j | k < j < |s| ensures 0 < u.cc(s[j]) < u.cc(ch) { assert r[j] == s[j]; }
    }
    LastStarterIs(u.cc, s, k);
    assert Known(u, s[k]);
    forall p ensures !PrimaryComposite(u, s[k], ch, p) {
      if PrimaryComposite(u, s[k], ch, p) { PrimaryIsFound(u, s[k], ch, p); }
    }
  }

  lemma LastStarterIs(cc: int -> int, s: seq<int>, k: nat)
    requires k < |s| && cc(s[k]) == 0 && forall j :: k < j < |s| ==> cc(s[j]) != 0
    ensures LastStarter(cc, s) == k
  {
  }

  /** A composite does not compose with anything before it. */
  lemma CompositeIsNoSecond(u: Ucd, a: int, p: int)
    requires PairsOk(u) && PairsClosed(u) && !Plain(u, p) && !IsJamo(p)
    ensures NoComposite(u, a, p)
  {
    hide Ordered, PairsSorted, PairOk, Full, Plain;
    forall q ensures !PrimaryComposite(u, a, p, q) {
      if PrimaryComposite(u, a, p, q) {
        if !(exists k :: 0 <= k < |u.pairs| && u.pairs[k] == Pair(a, p, q)) {
          SyllableFull(u, q);
          EndsInJamo(q, Full(u, a), p);
        }
      }
    }
  }

  lemma EndsInJamo(q: int, s: seq<int>, b: int)
    requires IsSyllable(q) && Jamos(q) == s + [b]
    ensures IsJamo(b)
  {
    assert (s + [b])[|s|] == b;
  }

  lemma NotOrdered(cc: int -> int, s: seq<int>, a: int, b: int)
    requires 0 < cc(b) < cc(a)
    ensures !Ordered(cc, s + [a] + [b])
  {
    assert OutOfOrder(cc, s + [a] + [b], |s|);
  }

  /** A composite does not compose with a mark that its last character has skipped. */
  lemma SkippedMark(u: Ucd, a: int, ch: int, p: int, mark: int)
    requires PairsOk(u) && PairsClosed(u) && Full(u, p) == Full(u, a) + [ch]
    requires 0 < u.cc(mark) < u.cc(ch)
    ensures NoComposite(u, p, mark)
  {
    hide Full, PairsSorted, PairOk, Plain;
    forall q ensures !PrimaryComposite(u, p, mark, q) {
      if PrimaryComposite(u, p, mark, q) {
        if k :| 0 <= k < |u.pairs| && u.pairs[k] == Pair(p, mark, q) {
          NotOrdered(u.cc, Full(u, a), ch, mark);
          CompositeFull(u, k);
        } else {
          SyllableFull(u, q);
          EndsInJamo(q, Full(u, p), mark);
        }
      }
    }
  }

  lemma JoinComplete(u: Ucd, s: seq<int>, ch: int)
    requires PairsOk(u) && PairsClosed(u) && Complete(u, s) && AllKnown(u, s) && Plain(u, ch) && Composes(u, s, ch)
    ensures Complete(u, ComposeStep(u, s, ch)) && AllKnown(u, ComposeStep(u, s, ch))
  {
    hide Known, NoComposite, ComposePair, PairsSorted, PairOk, PairsClosed, Plain, LastStarter, Blocked, Unblocked;
    var k0 := LastStarter(u.cc, s);
    var p := ComposePair(u, s[k0], ch);
    var r := s[k0 := p];
    FoundIsKnown(u, s[k0], ch);
    forall k, i | 0 <= k < i < |r| && Unblocked(u.cc, r, k, i) ensures NoComposite(u, r[k], r[i]) {
      if i == k0 {
        CompositeIsNoSecond(u, r[k], p);
      } else if i < k0 {
        assert r[..i + 1] == s[..i + 1];
        UnblockedSame(u.cc, r, s, k, i);
      } else {
        JoinedAlone(u, s, ch, k, i);
      }
    }
    forall i | 0 <= i < |r| ensures Known(u, r[i]) { assert i != k0 ==> r[i] == s[i]; }
  }

  /** What stands after the new composite does not compose with it. */
  lemma JoinedAlone(u: Ucd, s: seq<int>, ch: int, k: int, i: int)
    requires PairsOk(u) && PairsClosed(u) && Plain(u, ch) && Composes(u, s, ch)
    requires var r := ComposeStep(u, s, ch); 0 <= k < i < |r| && LastStarter(u.cc, s) < i && Unblocked(u.cc, r, k, i)
    ensures var r := ComposeStep(u, s, ch); NoComposite(u, r[k], r[i])
  {
    hide NoComposite, ComposePair, PairsSorted, PairOk, Plain, LastStarter, Blocked, PairsClosed, FullAll, Full;
    var k0 := LastStarter(u.cc, s);
    var p := ComposePair(u, s[k0], ch);
    var r := s[k0 := p];
    FoundIsKnown(u, s[k0], ch);
    BetweenLower(u.cc, s, ch);
    assert r[i] == s[i] && 0 < u.cc(s[i]) < u.cc(ch);
    assert r[k0] == p && forall j :: k0 < j < i ==> r[j] == s[j];
    OnlyStarter(u.cc, r, k0, k, i);
    FullOfPair(u, s[k0], ch);
    SkippedMark(u, s[k0], ch, p, s[i]);
  }

  lemma OnlyStarter(cc: int -> int, r: seq<int>, k0: int, k: int, i: int)
    requires 0 <= k0 < i && 0 <= k < i < |r| && cc(r[k0]) == 0 && Unblocked(cc, r, k, i)
    requires forall j :: k0 < j < i ==> cc(r[j]) > 0
    ensures k == k0
  {
  }

  lemma FoundIsKnown(u: Ucd, a: int, b: int)
    requires PairsOk(u) && ComposePair(u, a, b) != 0
    ensures var p := ComposePair(u, a, b); Known(u, p) && !Plain(u, p) && !IsJamo(p) && u.cc(p) == 0
  {
    PairIsStarter(u, a, b);
    var p := ComposePair(u, a, b);
    if !IsSyllable(p) {
      var k := PairComes(u.pairs, a, b);
      assert PairOk(u, u.pairs[k]);
    }
  }

  lemma {:induction false} CompositionComplete(u: Ucd, t: seq<int>)
    requires PairsOk(u) && PairsClosed(u) && Ordered(u.cc, t) && AllPlain(u, t)
    ensures var s := Composed(u, t); Shape(u, t, s) && Complete(u, s) && AllKnown(u, s)
    decreases |t|
  {
    hide Shape, Complete, AllKnown, Composes, PairsSorted, PairOk, PairsClosed, Plain, Known;
    if t == [] {
      EmptyComposition(u);
      NothingComplete(u);
    } else {
      var init, ch := t[..|t| - 1], t[|t| - 1];
      assert t == init + [ch];
      OrderedPrefix(u.cc, t, |t| - 1);
      assert AllPlain(u, init) && Plain(u, t[|t| - 1]);
      CompositionComplete(u, init);
      var s := Composed(u, init);
      ComposedSnoc(u, init, ch);
      ShapeStep(u, init, s, ch);
      if Composes(u, s, ch) {
        JoinComplete(u, s, ch);
      } else {
        AppendComplete(u, s, ch);
        AppendKnown(u, s, ch);
      }
    }
  }

  lemma NothingComplete(u: Ucd)
    requires DataOk(u)
    ensures Complete(u, []) && AllKnown(u, [])
  {
  }

  lemma AppendKnown(u: Ucd, s: seq<int>, ch: int)
    requires AllKnown(u, s) && Plain(u, ch)
    ensures AllKnown(u, s + [ch])
  {
  }

  /**
   * Completeness of the composed form: a character that is separated from the last starter before it by marks of lower
   * classes only, or by nothing, has no primary composite with that starter.
   */
  lemma NormalIsComplete(u: Ucd, src: seq<int>, k: nat, i: nat, p: int)
    requires PairsOk(u) && PairsClosed(u) && k < i < |Normal(u, src)|
    requires var r := Normal(u, src); u.cc(r[k]) == 0 && forall j :: k < j < i ==> 0 < u.cc(r[j]) < u.cc(r[i])
    ensures !PrimaryComposite(u, Normal(u, src)[k], Normal(u, src)[i], p)
  {
    hide Composed, Decomposed, PrimaryComposite, PairsSorted, PairOk, PairsClosed, Ordered;
    DecomposedIsNormal(u, src);
    CompositionComplete(u, Decomposed(u, src));
    assert Unblocked(u.cc, Normal(u, src), k, i);
  }
}
