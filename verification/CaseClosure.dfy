/** Case folding of a character set: cr_sort_and_remove_overlap and cr_regexp_canonicalize of libunicode.c. */
module CaseClosure {
  import opened Ordering
  import opened CharSets
  import opened CharRanges
  import RqSort

  datatype Pair = Pair(start: int, end: int)

  function PointCmp(x: Pair, y: Pair): int {
    if x.start > y.start then 1 else if x.start < y.start then -1 else 0
  }

  lemma PointCmpOk()
    ensures Comparator(PointCmp)
  {
  }

  function Flatten(pairs: seq<Pair>): (p: Points)
    ensures |p| == 2 * |pairs|
    ensures forall k :: 0 <= k < |pairs| ==> p[2 * k] == pairs[k].start && p[2 * k + 1] == pairs[k].end
  {
    if pairs == [] then []
    else
      var n := |pairs| - 1;
      var p := Flatten(pairs[..n]);
      assert forall k :: 0 <= k < n ==> pairs[..n][k] == pairs[k];
      p + [pairs[n].start, pairs[n].end]
  }

  ghost predicate InPairs(pairs: seq<Pair>, c: int) {
    exists k :: 0 <= k < |pairs| && pairs[k].start <= c < pairs[k].end
  }

  lemma FlattenMembers(pairs: seq<Pair>, c: int)
    ensures Member(Flatten(pairs), c) <==> InPairs(pairs, c)
  {
    var p := Flatten(pairs);
    if InPairs(pairs, c) {
      var k :| 0 <= k < |pairs| && pairs[k].start <= c < pairs[k].end;
      assert InInterval(p, k, c);
    }
    if Member(p, c) {
      var k :| InInterval(p, k, c);
      assert pairs[k].start <= c < pairs[k].end;
    }
  }

  lemma SortedPairsMembers(s: seq<Pair>, t: seq<Pair>, c: int)
    requires multiset(s) == multiset(t)
    ensures InPairs(s, c) <==> InPairs(t, c)
  {
    if InPairs(s, c) { SameElements(s, t, c); }
    if InPairs(t, c) { SameElements(t, s, c); }
  }

  lemma SameElements(s: seq<Pair>, t: seq<Pair>, c: int)
    requires multiset(s) == multiset(t) && InPairs(s, c)
    ensures InPairs(t, c)
  {
    var k :| 0 <= k < |s| && s[k].start <= c < s[k].end;
    assert s[k] in multiset(t);
    var j :| 0 <= j < |t| && t[j] == s[k];
  }

  /** A list of intervals that are not empty. */
  ghost predicate Intervals(p: Points) {
    |p| % 2 == 0 && forall k :: 0 <= k && 2 * k + 1 < |p| ==> p[2 * k] < p[2 * k + 1]
  }

  /** The intervals begin in increasing order. */
  ghost predicate StartsSorted(p: Points) {
    forall k, l :: 0 <= k < l && 2 * l < |p| ==> p[2 * k] <= p[2 * l]
  }

  /** The call of rqsort on the points as pairs. */
  method SortIntervals(p: Points) returns (q: Points)
    requires Intervals(p)
    ensures Intervals(q) && |q| == |p| && StartsSorted(q)
    ensures forall c :: Member(q, c) <==> Member(p, c)
  {
    hide Comparator, Member, SortedBy;
    var a := new Pair[|p| / 2](k requires 0 <= k < |p| / 2 => Pair(p[2 * k], p[2 * k + 1]));
    ghost var s := a[..];
    PointCmpOk();
    RqSort.RqSort(a, PointCmp);
    q := Flatten(a[..]);
    SortedIntervals(p, s, a[..]);
  }

  lemma SortedIntervals(p: Points, s: seq<Pair>, t: seq<Pair>)
    requires Intervals(p) && |s| == |p| / 2 && forall k :: 0 <= k < |s| ==> s[k] == Pair(p[2 * k], p[2 * k + 1])
    requires multiset(s) == multiset(t) && SortedBy(PointCmp, t)
    ensures Intervals(Flatten(t)) && StartsSorted(Flatten(t)) && |Flatten(t)| == |p|
    ensures forall c :: Member(Flatten(t), c) <==> Member(p, c)
  {
    var q := Flatten(t);
    assert |s| == |t| by { assert |multiset(s)| == |s| && |multiset(t)| == |t|; }
    assert Flatten(s) == p by { FlattenIs(p, s); }
    forall c ensures Member(q, c) <==> Member(p, c) {
      FlattenMembers(t, c);
      FlattenMembers(s, c);
      SortedPairsMembers(s, t, c);
    }
    forall k | 0 <= k && 2 * k + 1 < |q| ensures q[2 * k] < q[2 * k + 1] {
      assert t[k] in multiset(s);
    }
    forall k, l | 0 <= k < l && 2 * l < |q| ensures q[2 * k] <= q[2 * l] {
      assert Le(PointCmp, t[k], t[l]);
    }
  }

  lemma FlattenIs(p: Points, s: seq<Pair>)
    requires |p| % 2 == 0 && |s| == |p| / 2 && forall k :: 0 <= k < |s| ==> s[k] == Pair(p[2 * k], p[2 * k + 1])
    ensures Flatten(s) == p
  {
    var q := Flatten(s);
    forall i | 0 <= i < |p| ensures q[i] == p[i] {
      var k := i / 2;
      assert i == 2 * k || i == 2 * k + 1;
      assert q[2 * k] == s[k].start && q[2 * k + 1] == s[k].end;
    }
  }

  // ----- merging sorted intervals -----

  lemma {:induction false} MemberConcat(p: Points, q: Points, c: int)
    requires |p| % 2 == 0
    ensures Member(p + q, c) <==> Member(p, c) || Member(q, c)
  {
    var r, h := p + q, |p| / 2;
    if Member(p, c) {
      var k :| InInterval(p, k, c);
      assert InInterval(r, k, c);
    }
    if Member(q, c) {
      var k :| InInterval(q, k, c);
      assert r[2 * (h + k)] == q[2 * k] && r[2 * (h + k) + 1] == q[2 * k + 1];
      assert InInterval(r, h + k, c);
    }
    if Member(r, c) {
      var k :| InInterval(r, k, c);
      if k < h {
        assert InInterval(p, k, c);
      } else {
        assert r[2 * k] == q[2 * (k - h)] && r[2 * k + 1] == q[2 * (k - h) + 1];
        assert InInterval(q, k - h, c);
      }
    }
  }

  /** The interval from start to end is the union of the intervals from i0 to i of was. */
  ghost predicate Covers(was: Points, i0: nat, i: nat, start: int, end: int) {
    && i0 < i <= |was| && i0 % 2 == 0 && i % 2 == 0 && start == was[i0] && start < end
    && forall c :: Member(was[i0..i], c) <==> start <= c < end
  }

  lemma CoversFirst(was: Points, i: nat)
    requires Intervals(was) && i % 2 == 0 && i + 1 < |was|
    ensures Covers(was, i, i + 2, was[i], was[i + 1])
  {
    hide Member;
    assert was[2 * (i / 2)] < was[2 * (i / 2) + 1];
    var p := was[i..i + 2];
    assert p == [was[i], was[i + 1]];
    forall c ensures Member(p, c) <==> was[i] <= c < was[i + 1] {
      OneInterval(was[i], was[i + 1], c);
    }
  }

  lemma CoversNext(was: Points, i0: nat, i: nat, start: int, end: int)
    requires Intervals(was) && StartsSorted(was) && Covers(was, i0, i, start, end) && i + 1 < |was| && was[i] <= end
    ensures Covers(was, i0, i + 2, start, if was[i + 1] <= end then end else was[i + 1])
  {
    hide Member;
    assert was[2 * (i / 2)] < was[2 * (i / 2) + 1];
    assert was[2 * (i0 / 2)] <= was[2 * (i / 2)];
    var p, q := was[i0..i], [was[i], was[i + 1]];
    assert was[i0..i + 2] == p + q;
    var r := was[i0..i + 2];
    forall c ensures Member(r, c) <==> start <= c < (if was[i + 1] <= end then end else was[i + 1]) {
      MemberConcat(p, q, c);
      OneInterval(was[i], was[i + 1], c);
      assert Member(p, c) <==> start <= c < end;
    }
  }

  /** The inner loop of cr_sort_and_remove_overlap: how far the interval at i0 extends. */
  method Extend(pt: Points, i0: nat, ghost was: Points) returns (i: nat, end: int)
    requires Intervals(was) && StartsSorted(was) && |pt| == |was| && i0 % 2 == 0 && i0 + 1 < |was|
    requires forall x :: i0 <= x < |was| ==> pt[x] == was[x]
    ensures Covers(was, i0, i, was[i0], end) && (i < |was| ==> end < was[i])
  {
    hide Covers, Intervals, StartsSorted;
    assert |was| % 2 == 0 by { IntervalsEven(was); }
    end := pt[i0 + 1];
    i := i0 + 2;
    CoversFirst(was, i0);
    while i < |pt|
      invariant i0 + 2 <= i <= |pt| && i % 2 == 0 && Covers(was, i0, i, was[i0], end)
      decreases |pt| - i
    {
      var start1, end1 := pt[i], pt[i + 1];
      if start1 > end {
        break;
      }
      CoversNext(was, i0, i, was[i0], end);
      if end1 > end {
        end := end1;
      }
      i := i + 2;
    }
  }

  lemma IntervalsEven(p: Points)
    requires Intervals(p)
    ensures |p| % 2 == 0
  {
  }

  /** The first j points of pt are the merged form of the first i points of was. */
  ghost predicate MergedTo(pt: Points, was: Points, i: nat, j: nat) {
    && |pt| == |was| && j <= i <= |was| && i % 2 == 0 && j % 2 == 0
    && (forall x :: i <= x < |was| ==> pt[x] == was[x])
    && StrictlyIncreasing(pt[..j]) && (j > 0 && i < |was| ==> pt[j - 1] < was[i])
    && (forall c :: Member(pt[..j], c) <==> Member(was[..i], c))
  }

  lemma MergedStart(was: Points)
    ensures MergedTo(was, was, 0, 0)
  {
  }

  lemma MergedRange(pt: Points, was: Points, i: nat, j: nat)
    requires MergedTo(pt, was, i, j)
    ensures |pt| == |was| && j <= i <= |was| && i % 2 == 0 && j % 2 == 0
    ensures forall x :: i <= x < |was| ==> pt[x] == was[x]
  {
  }

  lemma MergedNext(pt: Points, was: Points, i0: nat, j: nat, i: nat, end: int)
    requires i0 < |was| && MergedTo(pt, was, i0, j) && Covers(was, i0, i, was[i0], end) && (i < |was| ==> end < was[i])
    ensures MergedTo(pt[j := was[i0]][j + 1 := end], was, i, j + 2)
  {
    hide Member;
    var p2 := pt[j := was[i0]][j + 1 := end];
    var p, q := pt[..j], [was[i0], end];
    assert p2[..j + 2] == p + q && was[..i] == was[..i0] + was[i0..i];
    KeepIncreasing(p, was[i0], end);
    var m, w := p2[..j + 2], was[..i];
    forall c ensures Member(m, c) <==> Member(w, c) {
      MemberConcat(p, q, c);
      MemberConcat(was[..i0], was[i0..i], c);
      OneInterval(was[i0], end, c);
      assert Member(p, c) <==> Member(was[..i0], c);
    }
  }

  /** cr_sort_and_remove_overlap: the canonical form of intervals in any order. */
  method SortAndRemoveOverlap(cr: CharRange)
    requires Intervals(cr.points)
    modifies cr
    ensures |cr.points| % 2 == 0 && StrictlyIncreasing(cr.points)
    ensures forall c :: Member(cr.points, c) <==> Member(old(cr.points), c)
  {
    hide Member, Covers, MergedTo, StartsSorted;
    var q := SortIntervals(cr.points);
    cr.points := q;
    ghost var was := q;
    var i: nat, j: nat := 0, 0;
    MergedStart(was);
    while i < |cr.points|
      invariant MergedTo(cr.points, was, i, j)
      decreases |was| - i
    {
      MergedRange(cr.points, was, i, j);
      ghost var pt := cr.points;
      var start := cr.points[i];
      var i1, end := Extend(cr.points, i, was);
      CoversRange(was, i, i1, start, end);
      MergedNext(pt, was, i, j, i1, end);
      cr.points := cr.points[j := start];
      cr.points := cr.points[j + 1 := end];
      j := j + 2;
      i := i1;
    }
    MergedRange(cr.points, was, i, j);
    MergedEnd(cr.points, was, i, j);
    cr.points := cr.points[..j];
  }

  lemma CoversRange(was: Points, i0: nat, i: nat, start: int, end: int)
    requires Covers(was, i0, i, start, end)
    ensures i0 < i <= |was|
  {
  }

  lemma MergedEnd(pt: Points, was: Points, i: nat, j: nat)
    requires MergedTo(pt, was, i, j) && i == |was|
    ensures j % 2 == 0 && StrictlyIncreasing(pt[..j])
    ensures forall c :: Member(pt[..j], c) <==> Member(was, c)
  {
    hide Member;
    assert was[..i] == was;
  }

  // ----- folding a set -----

  /** An entry of the case conversion table: the code points from code on, len of them. */
  datatype Entry = Entry(code: nat, len: nat)

  predicate InEntry(x: Entry, c: int) {
    x.code <= c < x.code + x.len
  }

  ghost predicate InTable(table: seq<Entry>, c: int) {
    exists k :: 0 <= k < |table| && InEntry(table[k], c)
  }

  ghost predicate TableSorted(table: seq<Entry>) {
    forall k, l :: 0 <= k < l < |table| ==> table[k].code + table[k].len <= table[l].code
  }

  /**
   * The data that the folding rests on: a sorted table without overlap, a mask of the code points that folding may
   * change, all of them in the table, and the folding of a code point by its table entry.
   */
  ghost predicate FoldingOk(mask: Points, table: seq<Entry>, fold: int -> int, entryFold: (int, nat) -> int) {
    && Canonical(mask) && TableSorted(table)
    && (forall c :: Member(mask, c) ==> InTable(table, c))
    && (forall c, k: nat :: Member(mask, c) && k < |table| && InEntry(table[k], c) ==> entryFold(c, k) == fold(c))
    && (forall c :: 0 <= c < UINT32_MAX && !Member(mask, c) ==> fold(c) == c)
    && (forall c :: 0 <= c < UINT32_MAX ==> 0 <= fold(c) < UINT32_MAX)
  }

  /** d is the folding of a code point of the set, the ones from limit on left out. */
  ghost predicate Folded(p: Points, limit: int, fold: int -> int, d: int) {
    exists c :: c < limit && Member(p, c) && fold(c) == d
  }

  /** The intervals and the pending interval cover exactly the foldings of the members below limit. */
  ghost predicate FoldState(p: Points, limit: int, fold: int -> int, result: Points, start: int, end: int) {
    && Intervals(result) && (start == -1 || 0 <= start < end <= UINT32_MAX) && InU32(result)
    && forall d :: (Member(result, d) || (start != -1 && start <= d < end)) <==> Folded(p, limit, fold, d)
  }

  lemma FoldedNext(p: Points, c: int, fold: int -> int, d: int)
    requires Member(p, c)
    ensures Folded(p, c + 1, fold, d) <==> Folded(p, c, fold, d) || fold(c) == d
  {
    if Folded(p, c + 1, fold, d) {
      var x :| x < c + 1 && Member(p, x) && fold(x) == d;
    }
    if Folded(p, c, fold, d) {
      var x :| x < c && Member(p, x) && fold(x) == d;
      assert x < c + 1 && Member(p, x) && fold(x) == d;
    }
    if fold(c) == d { assert c < c + 1 && Member(p, c) && fold(c) == d; }
  }

  /** Limits between which there are no members make no difference. */
  lemma FoldedGap(p: Points, low: int, high: int, fold: int -> int, d: int)
    requires low <= high && forall c :: low <= c < high ==> !Member(p, c)
    ensures Folded(p, low, fold, d) <==> Folded(p, high, fold, d)
  {
    if Folded(p, low, fold, d) {
      var x :| x < low && Member(p, x) && fold(x) == d;
      assert x < high && Member(p, x) && fold(x) == d;
    }
    if Folded(p, high, fold, d) {
      var x :| x < high && Member(p, x) && fold(x) == d;
      assert x < low;
    }
  }

  /** One more code point: it extends the pending interval or begins a new one. */
  lemma FoldStep(p: Points, c: int, fold: int -> int, result: Points, start: int, end: int, d: int)
    requires Member(p, c) && d == fold(c) && 0 <= d < UINT32_MAX && FoldState(p, c, fold, result, start, end)
    ensures start == -1 ==> FoldState(p, c + 1, fold, result, d, d + 1)
    ensures start != -1 && end == d ==> FoldState(p, c + 1, fold, result, start, end + 1)
    ensures start != -1 && end != d ==> FoldState(p, c + 1, fold, result + [start, end], d, d + 1)
  {
    hide Member, Folded, FoldState;
    if start == -1 {
      FoldExtend(p, c, fold, result, start, end, d, d, d + 1);
    } else {
      FoldFlush(p, c, fold, result, start, end);
      FoldExtend(p, c, fold, result + [start, end], -1, -1, d, d, d + 1);
      if end == d { FoldExtend(p, c, fold, result, start, end, d, start, end + 1); }
    }
  }

  /** The pending interval takes in d. */
  lemma FoldExtend(p: Points, c: int, fold: int -> int, result: Points, start: int, end: int, d: int, start1: int,
                   end1: int)
    requires Member(p, c) && d == fold(c) && 0 <= d < UINT32_MAX && FoldState(p, c, fold, result, start, end)
    requires (start == -1 && start1 == d && end1 == d + 1)
             || (start != -1 && end == d && start1 == start && end1 == end + 1)
    ensures FoldState(p, c + 1, fold, result, start1, end1)
  {
    hide Member, Folded;
    FoldRange(p, c, fold, result, start, end);
    var limit := c + 1;
    forall x ensures (Member(result, x) || (start1 != -1 && start1 <= x < end1)) <==> Folded(p, limit, fold, x) {
      FoldedNext(p, c, fold, x);
      assert (Member(result, x) || (start != -1 && start <= x < end)) <==> Folded(p, c, fold, x);
    }
    assert FoldState(p, limit, fold, result, start1, end1);
  }

  lemma FoldRange(p: Points, limit: int, fold: int -> int, result: Points, start: int, end: int)
    requires FoldState(p, limit, fold, result, start, end)
    ensures start == -1 || 0 <= start < end <= UINT32_MAX
    ensures Intervals(result) && InU32(result)
  {
  }

  /** The pending interval goes to the list. */
  lemma FoldFlush(p: Points, limit: int, fold: int -> int, result: Points, start: int, end: int)
    requires start != -1 && FoldState(p, limit, fold, result, start, end)
    ensures FoldState(p, limit, fold, result + [start, end], -1, -1)
  {
    hide Member, Folded;
    var r := result + [start, end];
    forall d ensures Member(r, d) <==> Folded(p, limit, fold, d) {
      MemberConcat(result, [start, end], d);
      OneInterval(start, end, d);
    }
    forall k | 0 <= k && 2 * k + 1 < |r| ensures r[2 * k] < r[2 * k + 1] {
      if 2 * k + 1 < |result| { assert r[2 * k] == result[2 * k] && r[2 * k + 1] == result[2 * k + 1]; }
    }
  }

  lemma FoldGap(p: Points, low: int, high: int, fold: int -> int, result: Points, start: int, end: int)
    requires low <= high && (forall c :: low <= c < high ==> !Member(p, c))
             && FoldState(p, low, fold, result, start, end)
    ensures FoldState(p, high, fold, result, start, end)
  {
    hide Member, Folded;
    forall d ensures Folded(p, low, fold, d) <==> Folded(p, high, fold, d) {
      FoldedGap(p, low, high, fold, d);
    }
  }

  /** The inner loop that finds the table entry of c; it never runs off the end of the table. */
  method FindEntry(table: seq<Entry>, idx0: nat, c: int) returns (idx: nat)
    requires TableSorted(table) && InTable(table, c) && idx0 < |table|
    requires forall k :: 0 <= k < idx0 ==> table[k].code + table[k].len <= c
    ensures idx0 <= idx < |table| && InEntry(table[idx], c)
    ensures forall k :: 0 <= k < idx ==> table[k].code + table[k].len <= c
  {
    idx := idx0;
    while !InEntry(table[idx], c)
      invariant idx0 <= idx < |table|
      invariant forall k :: 0 <= k < idx ==> table[k].code + table[k].len <= c
      decreases |table| - idx
    {
      ghost var j :| 0 <= j < |table| && InEntry(table[j], c);
      assert j > idx;
      idx := idx + 1;
    }
  }

  /** d is the folding of a code point of the set. */
  ghost predicate Image(p: Points, fold: int -> int, d: int) {
    exists c :: Member(p, c) && fold(c) == d
  }

  /** Between two intervals there are no members. */
  lemma GapBetween(p: Points, i: nat, c: int)
    requires Canonical(p) && i % 2 == 0 && i <= |p| && (i > 0 ==> p[i - 1] <= c) && (i < |p| ==> c < p[i])
    ensures !Member(p, c)
  {
    forall k ensures !InInterval(p, k, c) {
      if 0 <= k && 2 * k + 1 < |p| {
        assert 2 * k + 1 < i ==> p[2 * k + 1] <= p[i - 1];
        assert 2 * k >= i ==> p[i] <= p[2 * k];
      }
    }
  }

  lemma GapAt(p: Points, i: nat, low: int, high: int)
    requires Canonical(p) && i % 2 == 0 && i <= |p| && (i > 0 ==> low == p[i - 1]) && (i < |p| ==> high <= p[i])
    ensures forall c :: low <= c < high ==> !Member(p, c)
  {
    forall c | low <= c < high ensures !Member(p, c) {
      GapBetween(p, i, c);
    }
  }

  lemma InsideInterval(p: Points, i: nat, c: int)
    requires i % 2 == 0 && i + 1 < |p| && p[i] <= c < p[i + 1]
    ensures Member(p, c)
  {
    assert InInterval(p, i / 2, c);
  }

  lemma NoneFolded(p: Points, fold: int -> int)
    requires Canonical(p)
    ensures FoldState(p, 0, fold, [], -1, -1)
  {
    forall d ensures !Folded(p, 0, fold, d) {
      forall c | Member(p, c) ensures 0 <= c { MembersInRange(p, c); }
    }
  }

  /** The hypotheses about the data, one code point at a time. */
  lemma FoldingAt(mask: Points, table: seq<Entry>, fold: int -> int, entryFold: (int, nat) -> int, c: int)
    requires FoldingOk(mask, table, fold, entryFold)
    ensures Canonical(mask) && TableSorted(table)
    ensures Member(mask, c) ==> InTable(table, c) && 0 <= fold(c) < UINT32_MAX
    ensures forall k: nat :: Member(mask, c) && k < |table| && InEntry(table[k], c) ==> entryFold(c, k) == fold(c)
    ensures 0 <= c < UINT32_MAX && !Member(mask, c) ==> fold(c) == c
  {
    if Member(mask, c) { MembersInRange(mask, c); }
  }

  /**
   * The loops of cr_regexp_canonicalize: the foldings of a set of code points inside the mask, as intervals in any
   * order.
   */
  method FoldIntervals(inter: Points, mask: Points, table: seq<Entry>, ghost fold: int -> int,
                       entryFold: (int, nat) -> int,
                       result: CharRange)
    requires FoldingOk(mask, table, fold, entryFold) && |table| >= 1
    requires Canonical(inter) && (forall c :: Member(inter, c) ==> Member(mask, c)) && result.points == []
    modifies result
    ensures Intervals(result.points) && InU32(result.points)
    ensures forall d :: Member(result.points, d) <==> Image(inter, fold, d)
  {
    hide Member, FoldState, FoldingOk, Folded, Image, InTable, Intervals, InU32, TableSorted;
    var dStart, dEnd := -1, -1;
    var idx: nat := 0;
    var i: nat := 0;
    ghost var limit := 0;
    FoldingAt(mask, table, fold, entryFold, 0);
    NoneFolded(inter, fold);
    CanonicalShape(inter);
    while i < |inter|
      invariant i % 2 == 0 && i <= |inter| && idx < |table| && limit == (if i == 0 then 0 else inter[i - 1])
      invariant FoldState(inter, limit, fold, result.points, dStart, dEnd)
      invariant forall k :: 0 <= k < idx ==> table[k].code + table[k].len <= limit
    {
      var start, end := inter[i], inter[i + 1];
      var c := start;
      GapAt(inter, i, limit, start);
      FoldGap(inter, limit, start, fold, result.points, dStart, dEnd);
      while c < end
        invariant start <= c <= end && idx < |table|
        invariant FoldState(inter, c, fold, result.points, dStart, dEnd)
        invariant forall k :: 0 <= k < idx ==> table[k].code + table[k].len <= c
      {
        InsideInterval(inter, i, c);
        FoldingAt(mask, table, fold, entryFold, c);
        idx := FindEntry(table, idx, c);
        var d := entryFold(c, idx);
        ghost var next := c + 1;
        FoldStep(inter, c, fold, result.points, dStart, dEnd, d);
        if dStart == -1 {
          dStart, dEnd := d, d + 1;
        } else if dEnd == d {
          dEnd := dEnd + 1;
        } else {
          result.AddInterval(dStart, dEnd);
          dStart, dEnd := d, d + 1;
        }
        c := c + 1;
      }
      limit := end;
      i := i + 2;
    }
    AllFolded(inter, i, limit, fold, result.points, dStart, dEnd);
    if dStart != -1 {
      result.AddInterval(dStart, dEnd);
    }
  }

  lemma CanonicalShape(p: Points)
    requires Canonical(p)
    ensures |p| % 2 == 0 && forall i :: 0 <= i && i + 1 < |p| ==> 0 <= p[i] < p[i + 1]
  {
  }

  /** When all intervals are done, the list with the pending interval has exactly the foldings. */
  lemma AllFolded(p: Points, i: nat, limit: int, fold: int -> int, result: Points, start: int, end: int)
    requires Canonical(p) && i == |p| && limit == (if i == 0 then 0 else p[i - 1])
    requires FoldState(p, limit, fold, result, start, end)
    ensures var r := if start != -1 then result + [start, end] else result;
            Intervals(r) && InU32(r) && forall d :: Member(r, d) <==> Image(p, fold, d)
  {
    hide Member, FoldState;
    var r := if start != -1 then result + [start, end] else result;
    if start != -1 { FoldFlush(p, limit, fold, result, start, end); }
    FlushedState(p, limit, fold, r, if start != -1 then -1 else start, if start != -1 then -1 else end);
    forall d ensures Folded(p, limit, fold, d) <==> Image(p, fold, d) {
      if Image(p, fold, d) {
        var c :| Member(p, c) && fold(c) == d;
        if c >= limit { GapBetween(p, i, c); MembersInRange(p, c); }
        assert c < limit && Member(p, c) && fold(c) == d;
      }
    }
  }

  lemma FlushedState(p: Points, limit: int, fold: int -> int, r: Points, start: int, end: int)
    requires FoldState(p, limit, fold, r, start, end) && start == -1
    ensures Intervals(r) && InU32(r) && forall d :: Member(r, d) <==> Folded(p, limit, fold, d)
  {
    hide Member, Folded;
  }

  /**
   * cr_regexp_canonicalize: the set becomes exactly its image under the folding, as a canonical list.
   */
  method RegexpCanonicalize(cr: CharRange, mask: Points, table: seq<Entry>, ghost fold: int -> int,
                            entryFold: (int, nat) -> int)
    requires FoldingOk(mask, table, fold, entryFold) && |table| >= 1 && Canonical(cr.points)
    modifies cr
    ensures Canonical(cr.points)
    ensures forall d :: Member(cr.points, d) <==> Image(old(cr.points), fold, d)
  {
    hide Member, FoldingOk, Image, Intervals, Canonical;
    ghost var was := cr.points;
    FoldingAt(mask, table, fold, entryFold, 0);
    CanonicalIs(mask);
    CanonicalIs(was);
    var inter := new CharRange();
    inter.Op(mask, cr.points, Inter);
    var outside := new CharRange();
    outside.points := mask;
    outside.Invert();
    CanonicalIs(outside.points);
    var sub := new CharRange();
    sub.Op(outside.points, cr.points, Inter);
    var result := new CharRange();
    FoldIntervals(inter.points, mask, table, fold, entryFold, result);
    SortAndRemoveOverlap(result);
    FoldedIsCanonical(inter.points, mask, table, fold, entryFold, result.points);
    CanonicalIs(sub.points);
    CanonicalIs(result.points);
    cr.points := [];
    cr.Op(result.points, sub.points, Union);
    ImageMembers(was, mask, table, fold, entryFold, inter.points, sub.points, result.points, cr.points);
  }

  lemma CanonicalIs(p: Points)
    requires Canonical(p)
    ensures |p| % 2 == 0 && Sorted(p) && StrictlyIncreasing(p) && InU32(p)
  {
  }

  /** The ends of the intervals of a set within the 32-bit numbers are 32-bit numbers. */
  lemma PointsInU32(p: Points)
    requires |p| % 2 == 0 && StrictlyIncreasing(p) && forall c :: Member(p, c) ==> 0 <= c < UINT32_MAX
    ensures Canonical(p)
  {
    hide Member;
    forall i | 0 <= i < |p| ensures 0 <= p[i] <= UINT32_MAX {
      var k := i / 2;
      assert p[2 * k] < p[2 * k + 1];
      InsideInterval(p, 2 * k, p[2 * k]);
      InsideInterval(p, 2 * k, p[2 * k + 1] - 1);
    }
  }

  lemma FoldedIsCanonical(inter: Points, mask: Points, table: seq<Entry>, fold: int -> int,
                          entryFold: (int, nat) -> int,
                          p: Points)
    requires FoldingOk(mask, table, fold, entryFold) && forall c :: Member(inter, c) ==> Member(mask, c)
    requires |p| % 2 == 0 && StrictlyIncreasing(p) && forall d :: Member(p, d) <==> Image(inter, fold, d)
    ensures Canonical(p)
  {
    hide Member, FoldingOk;
    forall d | Member(p, d) ensures 0 <= d < UINT32_MAX {
      assert Image(inter, fold, d);
      var c :| Member(inter, c) && fold(c) == d;
      FoldingAt(mask, table, fold, entryFold, c);
    }
    PointsInU32(p);
  }

  /** The image of the part inside the mask, together with the part outside, is the image of the whole. */
  lemma ImageMembers(was: Points, mask: Points, table: seq<Entry>, fold: int -> int, entryFold: (int, nat) -> int,
                     inter: Points, sub: Points, folded: Points, p: Points)
    requires FoldingOk(mask, table, fold, entryFold) && Canonical(was)
    requires forall c :: Member(inter, c) <==> Member(mask, c) && Member(was, c)
    requires forall c :: Member(sub, c) <==> (0 <= c < UINT32_MAX && !Member(mask, c)) && Member(was, c)
    requires forall d :: Member(folded, d) <==> Image(inter, fold, d)
    requires forall d :: Member(p, d) <==> Member(folded, d) || Member(sub, d)
    ensures forall d :: Member(p, d) <==> Image(was, fold, d)
  {
    hide Member, FoldingOk;
    forall d ensures Member(p, d) <==> Image(was, fold, d) {
      if Image(was, fold, d) {
        var c :| Member(was, c) && fold(c) == d;
        FoldingAt(mask, table, fold, entryFold, c);
        MembersInRange(was, c);
        if Member(mask, c) { assert Member(inter, c) && fold(c) == d; } else { assert Member(sub, c); }
      }
      if Member(folded, d) {
        assert Image(inter, fold, d);
        var c :| Member(inter, c) && fold(c) == d;
        assert Member(was, c) && fold(c) == d;
      }
      if Member(sub, d) {
        FoldingAt(mask, table, fold, entryFold, d);
        assert Member(was, d) && fold(d) == d;
      }
    }
  }
}
