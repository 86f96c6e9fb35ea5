/** Canonical composition, and what decomposing its result gives back. */
module Composition {
  import opened CanonicalOrder
  import opened Decomposition

  // ----- pairs -----

  predicate Before(a: Pair, b: Pair) {
    a.first < b.first || (a.first == b.first && a.second < b.second)
  }

  ghost predicate PairsSorted(ps: seq<Pair>) {
    forall i, j :: 0 <= i < j < |ps| ==> Before(ps[i], ps[j])
  }

  predicate Matches(p: Pair, c0: int, c1: int) { p.first == c0 && p.second == c1 }

  /** The composite of the pair in the table, or 0. */
  function FindPair(ps: seq<Pair>, c0: int, c1: int): int {
    if ps == [] then 0
    else if Matches(ps[|ps| - 1], c0, c1) then ps[|ps| - 1].composite
    else FindPair(ps[..|ps| - 1], c0, c1)
  }

  lemma {:induction false} PairFound(ps: seq<Pair>, c0: int, c1: int, k: nat)
    requires PairsSorted(ps) && k < |ps| && Matches(ps[k], c0, c1)
    ensures FindPair(ps, c0, c1) == ps[k].composite
    decreases |ps|
  {
    if k < |ps| - 1 {
      assert Before(ps[k], ps[|ps| - 1]);
      assert PairsSorted(ps[..|ps| - 1]);
      PairFound(ps[..|ps| - 1], c0, c1, k);
    }
  }

  lemma {:induction false} PairMissing(ps: seq<Pair>, c0: int, c1: int)
    requires forall k :: 0 <= k < |ps| ==> !Matches(ps[k], c0, c1)
    ensures FindPair(ps, c0, c1) == 0
    decreases |ps|
  {
    if ps != [] { PairMissing(ps[..|ps| - 1], c0, c1); }
  }

  lemma {:induction false} PairComes(ps: seq<Pair>, c0: int, c1: int) returns (k: nat)
    requires FindPair(ps, c0, c1) != 0
    ensures k < |ps| && Matches(ps[k], c0, c1) && FindPair(ps, c0, c1) == ps[k].composite
    decreases |ps|
  {
    k := |ps| - 1;
    if !Matches(ps[k], c0, c1) { k := PairComes(ps[..|ps| - 1], c0, c1); }
  }

  /** unicode_compose_pair: a binary search in the table of pairs. */
  method UnicodeComposePair(ps: seq<Pair>, c0: int, c1: int) returns (ch: int)
    requires PairsSorted(ps)
    ensures ch == FindPair(ps, c0, c1)
  {
    var idxMin, idxMax := 0, |ps| - 1;
    while idxMin <= idxMax
      invariant 0 <= idxMin <= |ps| && -1 <= idxMax < |ps|
      invariant forall k :: 0 <= k < |ps| && Matches(ps[k], c0, c1) ==> idxMin <= k <= idxMax
      decreases idxMax - idxMin + 1
    {
      var idx := (idxMax + idxMin) / 2;
      var pair := ps[idx];
      var d := c0 - pair.first;
      if d == 0 {
        d := c1 - pair.second;
      }
      if d < 0 {
        forall k | idx <= k < |ps| ensures !Matches(ps[k], c0, c1) { assert k > idx ==> Before(ps[idx], ps[k]); }
        idxMax := idx - 1;
      } else if d > 0 {
        forall k | 0 <= k <= idx ensures !Matches(ps[k], c0, c1) { assert k < idx ==> Before(ps[k], ps[idx]); }
        idxMin := idx + 1;
      } else {
        PairFound(ps, c0, c1, idx);
        return pair.composite;
      }
    }
    PairMissing(ps, c0, c1);
    return 0;
  }

  predicate IsLv(c: int) { IsSyllable(c) && (c - 0xac00) % 28 == 0 }

  /**
   * compose_pair: the composite of two characters, or 0. U+11A7 counts as a trailing consonant that changes nothing.
   */
  function ComposePair(u: Ucd, c0: int, c1: int): int {
    if IsL(c0) && IsV(c1) then 0xac00 + (c0 - 0x1100) * 588 + (c1 - 0x1161) * 28
    else if IsLv(c0) && IsT(c1) then c0 + c1 - 0x11a7
    else FindPair(u.pairs, c0, c1)
  }

  method ComputePair(u: Ucd, c0: int, c1: int) returns (p: int)
    requires PairsSorted(u.pairs)
    ensures p == ComposePair(u, c0, c1)
  {
    if c0 >= 0x1100 && c0 < 0x1100 + 19 && c1 >= 0x1161 && c1 < 0x1161 + 21 {
      p := 0xac00 + (c0 - 0x1100) * 588 + (c1 - 0x1161) * 28;
    } else if c0 >= 0xac00 && c0 < 0xac00 + 11172 && (c0 - 0xac00) % 28 == 0 && c1 >= 0x11a7 && c1 < 0x11a7 + 28 {
      p := c0 + c1 - 0x11a7;
    } else {
      p := UnicodeComposePair(u.pairs, c0, c1);
    }
  }

  /** The table decomposes its composites back into their pairs; composites and syllables are starters. */
  ghost predicate PairsOk(u: Ucd) {
    && DataOk(u) && PairsSorted(u.pairs)
    && (forall c :: IsSyllable(c) ==> u.cc(c) == 0)
    && forall k :: 0 <= k < |u.pairs| ==> PairOk(u, u.pairs[k])
  }

  ghost predicate PairOk(u: Ucd, p: Pair) {
    && u.decomp(p.composite) == [p.first, p.second] && u.cc(p.composite) == 0
    && p.composite != 0 && !IsSyllable(p.composite) && !IsJamo(p.second)
  }

  // ----- composition as section 3.11 of the Unicode Standard defines it -----

  function LastStarter(cc: int -> int, s: seq<int>): (k: int)
    ensures -1 <= k < |s| && (k >= 0 ==> cc(s[k]) == 0)
    ensures forall i :: k < i < |s| ==> cc(s[i]) != 0
  {
    if s == [] then -1 else if cc(s[|s| - 1]) == 0 then |s| - 1 else LastStarter(cc, s[..|s| - 1])
  }

  /** Between the starter at k and ch, which comes after s, there is a character of the same or a higher class. */
  ghost predicate Blocked(cc: int -> int, s: seq<int>, k: int, ch: int)
    requires -1 <= k
  {
    exists i :: k < i < |s| && cc(s[i]) >= cc(ch)
  }

  /** ch composes with the last starter of s. */
  ghost predicate Composes(u: Ucd, s: seq<int>, ch: int) {
    var k := LastStarter(u.cc, s);
    k >= 0 && !Blocked(u.cc, s, k, ch) && ComposePair(u, s[k], ch) != 0
  }

  ghost function ComposeStep(u: Ucd, s: seq<int>, ch: int): (r: seq<int>)
    ensures |s| <= |r| <= |s| + 1 && |r| > 0
  {
    var k := LastStarter(u.cc, s);
    if Composes(u, s, ch) then s[k := ComposePair(u, s[k], ch)] else s + [ch]
  }

  /** The composition of t, character by character. */
  ghost function Composed(u: Ucd, t: seq<int>): (r: seq<int>)
    ensures |r| <= |t| && (t != [] ==> r != [])
  {
    if t == [] then [] else ComposeStep(u, Composed(u, t[..|t| - 1]), t[|t| - 1])
  }

  // ----- what decomposition makes of one step -----

  lemma SyllableOf(i: int, j: int, t: int)
    requires 0 <= i < 19 && 0 <= j < 21 && 0 <= t < 28
    ensures var c := 0xac00 + i * 588 + j * 28 + t;
            IsSyllable(c) && Jamos(c) == [0x1100 + i, 0x1161 + j] + if t != 0 then [0x11a7 + t] else []
  {
    var n := i * 588 + j * 28 + t;
    assert n / 588 == i && n % 588 == j * 28 + t && (j * 28 + t) / 28 == j && n % 28 == t;
  }

  /** A composite decomposes like its parts, except that U+11A7 is lost after a syllable without trailing consonant. */
  lemma FullOfPair(u: Ucd, a: int, b: int)
    requires PairsOk(u) && Plain(u, b) && ComposePair(u, a, b) != 0 && !(IsLv(a) && b == 0x11a7)
    ensures Full(u, ComposePair(u, a, b)) == Full(u, a) + [b]
  {
    if IsL(a) && IsV(b) {
      SyllableOf(a - 0x1100, b - 0x1161, 0);
      assert Full(u, a) == [a];
    } else if IsLv(a) && IsT(b) {
      var n := a - 0xac00;
      var i, j := n / 588, n % 588 / 28;
      assert n == i * 588 + j * 28;
      SyllableOf(i, j, 0);
      SyllableOf(i, j, b - 0x11a7);
    } else {
      var k := PairComes(u.pairs, a, b);
      assert PairOk(u, u.pairs[k]);
      assert [a, b] == [a] + [b];
      FullAllConcat(u, [a], [b]);
      FullAllOne(u, a);
      FullAllOne(u, b);
    }
  }

  lemma PairIsStarter(u: Ucd, a: int, b: int)
    requires PairsOk(u) && ComposePair(u, a, b) != 0
    ensures u.cc(ComposePair(u, a, b)) == 0 && !IsJamo(ComposePair(u, a, b))
    ensures IsSyllable(ComposePair(u, a, b)) <==> (IsL(a) && IsV(b)) || (IsLv(a) && IsT(b))
    ensures IsLv(ComposePair(u, a, b)) <==> (IsL(a) && IsV(b)) || (IsLv(a) && b == 0x11a7)
    ensures IsJamo(b) ==> (IsL(a) && IsV(b)) || (IsLv(a) && IsT(b))
  {
    if IsL(a) && IsV(b) {
      SyllableOf(a - 0x1100, b - 0x1161, 0);
    } else if !(IsLv(a) && IsT(b)) {
      var k := PairComes(u.pairs, a, b);
      assert PairOk(u, u.pairs[k]);
    }
  }

  /** ch is lost: it is U+11A7 right after a syllable without trailing consonant. */
  predicate Swallows(s: seq<int>, ch: int) {
    s != [] && IsLv(s[|s| - 1]) && ch == 0x11a7
  }

  /** s is a composition of the text t: it is in canonical order, and what is no starter is a character of t. */
  ghost predicate Shape(u: Ucd, t: seq<int>, s: seq<int>) {
    && Ordered(u.cc, s) && (t == [] <==> s == [])
    && (forall i :: 0 <= i < |s| && u.cc(s[i]) != 0 ==> Plain(u, s[i]))
    && (t != [] && u.cc(s[|s| - 1]) != 0 ==> 0 < u.cc(s[|s| - 1]) <= u.cc(t[|t| - 1]))
  }

  lemma AppendShape(u: Ucd, t: seq<int>, s: seq<int>, ch: int)
    requires PairsOk(u) && Ordered(u.cc, t + [ch]) && Plain(u, ch) && Shape(u, t, s)
    ensures Shape(u, t + [ch], s + [ch])
  {
    if t != [] { assert !OutOfOrder(u.cc, t + [ch], |t| - 1); }
    OrderedSnoc(u.cc, s, ch);
  }

  lemma ShapeStep(u: Ucd, t: seq<int>, s: seq<int>, ch: int)
    requires PairsOk(u) && Ordered(u.cc, t + [ch]) && Plain(u, ch) && Shape(u, t, s)
    ensures Shape(u, t + [ch], ComposeStep(u, s, ch))
  {
    hide Blocked, LastStarter, ComposePair, PairOk;
    if Composes(u, s, ch) {
      var k := LastStarter(u.cc, s);
      var p := ComposePair(u, s[k], ch);
      PairIsStarter(u, s[k], ch);
      BetweenLower(u.cc, s, ch);
      var r := s[k := p];
      forall i | 0 <= i < |r| - 1 ensures !OutOfOrder(u.cc, r, i) { assert !OutOfOrder(u.cc, s, i); }
    } else {
      AppendShape(u, t, s, ch);
    }
  }

  lemma BetweenLower(cc: int -> int, s: seq<int>, ch: int)
    requires ClassesOk(cc) && !Blocked(cc, s, LastStarter(cc, s), ch)
    ensures forall i :: LastStarter(cc, s) < i < |s| ==> 0 < cc(s[i]) < cc(ch)
  {
    hide LastStarter;
    var k := LastStarter(cc, s);
    forall i | k < i < |s| ensures 0 < cc(s[i]) < cc(ch) {
      var c := s[i];
      assert 0 <= cc(c) <= 255 && cc(c) != 0;
      assert cc(s[i]) < cc(ch);
    }
  }

  /** Unless it loses ch, a step adds ch to what decomposition and reordering give. */
  lemma StepDecomposes(u: Ucd, t: seq<int>, s: seq<int>, ch: int)
    requires PairsOk(u) && Plain(u, ch) && Shape(u, t, s) && !Swallows(s, ch)
    ensures Reorder(u.cc, FullAll(u, ComposeStep(u, s, ch))) == Insert(u.cc, Reorder(u.cc, FullAll(u, s)), ch)
  {
    hide Reorder, Insert, FullAll, Full, Blocked, LastStarter, ComposePair, PairsSorted, PairOk;
    ReorderSnoc(u.cc, FullAll(u, s), ch);
    FullAllOne(u, ch);
    PlainIsFull(u, [ch]);
    if Composes(u, s, ch) {
      var k := LastStarter(u.cc, s);
      var p := ComposePair(u, s[k], ch);
      var a, b := s[..k], s[k + 1..];
      NotSwallowed(u, s, ch);
      FullOfPair(u, s[k], ch);
      BetweenLower(u.cc, s, ch);
      assert AllPlain(u, b);
      PlainIsFull(u, b);
      FullAround(u, a, s[k], b);
      FullAround(u, a, p, b);
      assert s == a + [s[k]] + b && s[k := p] == a + [p] + b;
      var full := FullAll(u, a) + Full(u, s[k]);
      assert FullAll(u, a) + Full(u, p) + b == full + [ch] + b;
      ReorderMove(u.cc, full, b, ch);
    } else {
      FullAllConcat(u, s, [ch]);
    }
  }

  lemma NotSwallowed(u: Ucd, s: seq<int>, ch: int)
    requires PairsOk(u) && Composes(u, s, ch) && !Swallows(s, ch)
    ensures !(IsLv(s[LastStarter(u.cc, s)]) && ch == 0x11a7)
  {
    var k := LastStarter(u.cc, s);
    if ch == 0x11a7 && k < |s| - 1 { BetweenLower(u.cc, s, ch); }
  }

  lemma FullAround(u: Ucd, a: seq<int>, c: int, b: seq<int>)
    requires DataOk(u)
    ensures FullAll(u, a + [c] + b) == FullAll(u, a) + Full(u, c) + FullAll(u, b)
  {
    hide FullAll, Full;
    FullAllConcat(u, a + [c], b);
    FullAllConcat(u, a, [c]);
    FullAllOne(u, c);
  }

  // ----- the lost character -----

  /** A leading consonant, a vowel and U+11A7 from k on. */
  predicate LostAt(t: seq<int>, k: nat)
    requires k + 2 < |t|
  {
    IsL(t[k]) && IsV(t[k + 1]) && t[k + 2] == 0x11a7
  }

  ghost predicate HasLost(t: seq<int>) {
    exists k :: 0 <= k < |t| - 2 && LostAt(t, k)
  }

  predicate EndsLv(t: seq<int>) {
    |t| >= 2 && IsL(t[|t| - 2]) && IsV(t[|t| - 1])
  }

  /** The Hangul letters at the end of the text t show at the end of its composition s. */
  ghost predicate Ends(t: seq<int>, s: seq<int>) {
    t != [] ==>
      && s != []
      && (IsL(t[|t| - 1]) || IsL(s[|s| - 1]) ==> t[|t| - 1] == s[|s| - 1])
      && (EndsLv(t) ==> IsLv(s[|s| - 1]))
      && (IsLv(s[|s| - 1]) ==> EndsLv(t) || HasLost(t))
  }

  lemma HasLostSnoc(t: seq<int>, ch: int)
    ensures HasLost(t + [ch]) <==> HasLost(t) || (EndsLv(t) && ch == 0x11a7)
  {
    var r := t + [ch];
    if HasLost(t) {
      var k :| 0 <= k < |t| - 2 && LostAt(t, k);
      assert LostAt(r, k);
    }
    if EndsLv(t) && ch == 0x11a7 { assert LostAt(r, |t| - 2); }
    if HasLost(r) {
      var k :| 0 <= k < |r| - 2 && LostAt(r, k);
      if k < |t| - 2 { assert LostAt(t, k); }
    }
  }

  lemma EndsStep(u: Ucd, t: seq<int>, s: seq<int>, ch: int)
    requires PairsOk(u) && Plain(u, ch) && Shape(u, t, s) && Ends(t, s)
    ensures Ends(t + [ch], ComposeStep(u, s, ch))
  {
    hide HasLost, LastStarter, Blocked, ComposePair, PairsSorted, PairOk;
    HasLostSnoc(t, ch);
    var r := ComposeStep(u, s, ch);
    if Composes(u, s, ch) {
      var k := LastStarter(u.cc, s);
      PairIsStarter(u, s[k], ch);
      BetweenLower(u.cc, s, ch);
      if IsJamo(ch) { assert k == |s| - 1; }
    } else if s != [] && IsL(s[|s| - 1]) && IsV(ch) {
      AdjacentComposes(u, s, ch);
    }
  }

  /** A vowel right after a leading consonant composes. */
  lemma AdjacentComposes(u: Ucd, s: seq<int>, ch: int)
    requires PairsOk(u) && s != [] && IsL(s[|s| - 1]) && IsV(ch)
    ensures Composes(u, s, ch)
  {
    assert LastStarter(u.cc, s) == |s| - 1;
  }

  lemma SwallowStep(u: Ucd, s: seq<int>, ch: int)
    requires PairsOk(u) && Swallows(s, ch)
    ensures ComposeStep(u, s, ch) == s
  {
    assert LastStarter(u.cc, s) == |s| - 1;
  }

  // ----- the theorem -----

  lemma ComposedSnoc(u: Ucd, t: seq<int>, ch: int)
    ensures Composed(u, t + [ch]) == ComposeStep(u, Composed(u, t), ch)
  {
    assert (t + [ch])[..|t|] == t;
  }

  lemma {:induction false} CompositionDecomposes(u: Ucd, t: seq<int>)
    requires PairsOk(u) && Ordered(u.cc, t) && AllPlain(u, t)
    ensures var s := Composed(u, t);
            && Shape(u, t, s) && Ends(t, s)
            && |FullAll(u, s)| <= |t|
            && (HasLost(t) ==> |FullAll(u, s)| < |t|)
            && (!HasLost(t) ==> Reorder(u.cc, FullAll(u, s)) == t)
    decreases |t|
  {
    hide Shape, Ends, Composed, ComposeStep, HasLost, Insert, Reorder, FullAll, PairsOk, Plain;
    if t == [] {
      EmptyComposition(u);
    } else {
      var init, ch := t[..|t| - 1], t[|t| - 1];
      assert t == init + [ch];
      OrderedPrefix(u.cc, t, |t| - 1);
      assert AllPlain(u, init);
      assert Plain(u, t[|t| - 1]);
      CompositionDecomposes(u, init);
      ComposedSnoc(u, init, ch);
      CompositionStep(u, init, Composed(u, init), ch);
    }
  }

  lemma EmptyComposition(u: Ucd)
    requires PairsOk(u)
    ensures Composed(u, []) == [] && FullAll(u, []) == [] && Reorder(u.cc, []) == []
    ensures Shape(u, [], []) && Ends([], []) && !HasLost([])
  {
  }

  lemma CompositionStep(u: Ucd, t: seq<int>, s: seq<int>, ch: int)
    requires PairsOk(u) && Ordered(u.cc, t + [ch]) && Plain(u, ch)
    requires Shape(u, t, s) && Ends(t, s) && |FullAll(u, s)| <= |t|
    requires HasLost(t) ==> |FullAll(u, s)| < |t|
    requires !HasLost(t) ==> Reorder(u.cc, FullAll(u, s)) == t
    ensures var r := ComposeStep(u, s, ch);
            && Shape(u, t + [ch], r) && Ends(t + [ch], r)
            && |FullAll(u, r)| <= |t| + 1
            && (HasLost(t + [ch]) ==> |FullAll(u, r)| < |t| + 1)
            && (!HasLost(t + [ch]) ==> Reorder(u.cc, FullAll(u, r)) == t + [ch])
  {
    hide Shape, ComposeStep, HasLost, Insert, Reorder, FullAll, PairsOk, Plain;
    ShapeStep(u, t, s, ch);
    EndsStep(u, t, s, ch);
    HasLostSnoc(t, ch);
    if Swallows(s, ch) {
      SwallowStep(u, s, ch);
      NoEmptyShape(u, t, s);
    } else {
      StepDecomposes(u, t, s, ch);
      if !HasLost(t) { InsertInOrder(u, t, ch); }
    }
  }

  lemma NoEmptyShape(u: Ucd, t: seq<int>, s: seq<int>)
    requires Shape(u, t, s) && s != []
    ensures t != []
  {
  }

  lemma InsertInOrder(u: Ucd, t: seq<int>, ch: int)
    requires PairsOk(u) && Ordered(u.cc, t + [ch])
    ensures Insert(u.cc, t, ch) == t + [ch]
  {
    if t != [] { assert !OutOfOrder(u.cc, t + [ch], |t| - 1); }
  }

  /** The decomposition of a text, in canonical order. */
  function Decomposed(u: Ucd, src: seq<int>): seq<int>
    requires DataOk(u)
  {
    Reorder(u.cc, FullAll(u, src))
  }

  /**
   * Decomposing and reordering the composed text gives back the decomposed text, exactly when the decomposed text does
   * not contain U+11A7 right after a leading consonant and a vowel.
   */
  lemma RoundTrip(u: Ucd, src: seq<int>)
    requires PairsOk(u)
    ensures var t := Decomposed(u, src);
            Decomposed(u, Composed(u, t)) == t <==> !HasLost(t)
  {
    hide Composed, HasLost, FullAll, Reorder, Ordered;
    var t := Decomposed(u, src);
    DecomposedIsNormal(u, src);
    CompositionDecomposes(u, t);
  }

  lemma DecomposedIsNormal(u: Ucd, src: seq<int>)
    requires DataOk(u)
    ensures Ordered(u.cc, Decomposed(u, src)) && AllPlain(u, Decomposed(u, src))
  {
    hide Plain, FullAll;
    var s := FullAll(u, src);
    ReorderIsCanonical(u.cc, s);
    FullAllIsPlain(u, src);
    var t := Decomposed(u, src);
    forall i | 0 <= i < |t| ensures Plain(u, t[i]) {
      assert t[i] in multiset(t);
      assert t[i] in multiset(s);
    }
  }

  /** U+1100 U+1161 U+11A7 composes to U+AC00, which decomposes to U+1100 U+1161 only. */
  lemma RoundTripFails(u: Ucd)
    requires PairsOk(u)
    ensures var t := [0x1100, 0x1161, 0x11a7];
            Decomposed(u, t) == t && Decomposed(u, Composed(u, t)) != t
  {
    var t := [0x1100, 0x1161, 0x11a7];
    assert AllPlain(u, t);
    PlainIsFull(u, t);
    assert Ordered(u.cc, t);
    ReorderFixed(u.cc, t);
    assert LostAt(t, 0);
    RoundTrip(u, t);
  }

  /** The composed form of a text. */
  ghost function Normal(u: Ucd, src: seq<int>): seq<int>
    requires DataOk(u)
  {
    Composed(u, Decomposed(u, src))
  }

  /** Composing twice changes nothing more, and texts compose to the same exactly when they decompose to the same. */
  lemma NormalIsStable(u: Ucd, src: seq<int>, other: seq<int>)
    requires PairsOk(u) && !HasLost(Decomposed(u, src)) && !HasLost(Decomposed(u, other))
    ensures Normal(u, Normal(u, src)) == Normal(u, src)
    ensures Normal(u, src) == Normal(u, other) <==> Decomposed(u, src) == Decomposed(u, other)
  {
    hide Composed, HasLost, Decomposed, PairsOk;
    RoundTrip(u, src);
    RoundTrip(u, other);
  }
}
