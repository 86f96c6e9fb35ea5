/** rqsort of cutils.c: quicksort with an explicit stack of fifty segments. */
module RqSort {
  import opened Ordering
  import opened HeapSort
  import opened QuickSort

  const STACK_SIZE: int := 50

  datatype Segment = Segment(base: nat, count: nat, depth: nat)

  /** Position c lies inside the segment x, not at its ends. */
  predicate Interior(x: Segment, c: int) {
    x.base < c < x.base + x.count
  }

  ghost predicate InsideSome(segs: seq<Segment>, c: int) {
    exists k :: 0 <= k < |segs| && Interior(segs[k], c)
  }

  predicate Apart(x: Segment, y: Segment) {
    x.base + x.count <= y.base || y.base + y.count <= x.base
  }

  /** The segment lies in the sequence, and its ends are cuts. */
  ghost predicate Framed<T>(cmp: (T, T) -> int, s: seq<T>, x: Segment) {
    x.base + x.count <= |s| && Cut(cmp, s, x.base) && Cut(cmp, s, x.base + x.count)
  }

  /** What is left to sort: the segments do not overlap, and every position outside them is already a cut. */
  ghost predicate Remaining<T>(cmp: (T, T) -> int, s: seq<T>, segs: seq<Segment>) {
    && (forall c :: 0 <= c <= |s| ==> Cut(cmp, s, c) || InsideSome(segs, c))
    && (forall k :: 0 <= k < |segs| ==> Framed(cmp, s, segs[k]))
    && (forall k, l :: 0 <= k < l < |segs| ==> Apart(segs[k], segs[l]))
  }

  lemma WholeRemains<T>(cmp: (T, T) -> int, s: seq<T>)
    ensures Remaining(cmp, s, [Segment(0, |s|, 0)])
  {
    var segs := [Segment(0, |s|, 0)];
    forall c | 0 <= c <= |s| ensures Cut(cmp, s, c) || InsideSome(segs, c) {
      if 0 < c < |s| { assert Interior(segs[0], c); }
    }
  }

  lemma NothingRemains<T>(cmp: (T, T) -> int, s: seq<T>)
    requires Remaining(cmp, s, [])
    ensures SortedBy(cmp, s)
  {
    hide Cut;
    AllCuts(cmp, s);
  }

  /** Reordering one segment keeps the others framed. */
  lemma OthersFramed<T>(cmp: (T, T) -> int, s: seq<T>, t: seq<T>, rest: seq<Segment>, x: Segment)
    requires Remaining(cmp, s, rest + [x]) && Permuted(s, t, x.base, x.base + x.count)
    ensures forall k :: 0 <= k < |rest| ==> Framed(cmp, t, rest[k]) && Apart(rest[k], x)
    ensures forall k, l :: 0 <= k < l < |rest| ==> Apart(rest[k], rest[l])
    ensures Framed(cmp, t, x)
  {
    hide Cut, InsideSome;
    var segs := rest + [x];
    assert Framed(cmp, s, segs[|rest|]);
    CutKept(cmp, s, t, x.base, x.base + x.count, x.base);
    CutKept(cmp, s, t, x.base, x.base + x.count, x.base + x.count);
    forall k | 0 <= k < |rest| ensures Framed(cmp, t, rest[k]) && Apart(rest[k], x) {
      assert Framed(cmp, s, segs[k]) && Apart(segs[k], segs[|rest|]);
      var y := rest[k];
      CutKept(cmp, s, t, x.base, x.base + x.count, y.base);
      CutKept(cmp, s, t, x.base, x.base + x.count, y.base + y.count);
    }
    forall k, l | 0 <= k < l < |rest| ensures Apart(rest[k], rest[l]) {
      assert Apart(segs[k], segs[l]);
    }
  }

  /** A position outside the other segments: a cut still, or inside the reordered segment. */
  lemma OutsideCuts<T>(cmp: (T, T) -> int, s: seq<T>, t: seq<T>, rest: seq<Segment>, x: Segment, c: int)
    requires Remaining(cmp, s, rest + [x]) && Permuted(s, t, x.base, x.base + x.count) && 0 <= c <= |s|
    ensures Cut(cmp, t, c) || InsideSome(rest, c) || Interior(x, c)
  {
    hide Cut, Framed, Apart;
    var segs := rest + [x];
    if InsideSome(segs, c) {
      var k :| 0 <= k < |segs| && Interior(segs[k], c);
      if k < |rest| { assert Interior(rest[k], c); }
    } else if !Interior(x, c) {
      CutKept(cmp, s, t, x.base, x.base + x.count, c);
    }
  }

  /** Sorting the last segment settles it. */
  lemma SortedSegment<T(!new)>(cmp: (T, T) -> int, s: seq<T>, t: seq<T>, rest: seq<Segment>, x: Segment)
    requires Comparator(cmp) && Remaining(cmp, s, rest + [x]) && Permuted(s, t, x.base, x.base + x.count)
    requires SortedBy(cmp, t[x.base..x.base + x.count])
    ensures Remaining(cmp, t, rest)
  {
    OthersFramed(cmp, s, t, rest, x);
    hide Cut, Comparator, SortedBy, InsideSome;
    forall c | 0 <= c <= |t| ensures Cut(cmp, t, c) || InsideSome(rest, c) {
      OutsideCuts(cmp, s, t, rest, x, c);
      if Interior(x, c) { SortedStretch(cmp, t, x.base, x.base + x.count, c); }
    }
  }

  /** A partition splits the last segment into the part before l and the part from g on. */
  lemma SplitSegment<T(!new)>(cmp: (T, T) -> int, s: seq<T>, t: seq<T>, rest: seq<Segment>, x: Segment, l: nat, g: nat,
                              y: Segment, z: Segment)
    requires Comparator(cmp) && Remaining(cmp, s, rest + [x]) && Permuted(s, t, x.base, x.base + x.count)
    requires l <= g <= x.count && CutsBetween(cmp, t[x.base..x.base + x.count], l, g)
    requires (IsLow(x, l, y) && IsHigh(x, g, z)) || (IsHigh(x, g, y) && IsLow(x, l, z))
    ensures Remaining(cmp, t, rest + [y] + [z])
  {
    OthersFramed(cmp, s, t, rest, x);
    hide Cut, Comparator, InsideSome;
    var segs := rest + [y] + [z];
    PartCut(cmp, t, x, l, g, l);
    PartCut(cmp, t, x, l, g, g);
    forall c | 0 <= c <= |t| ensures Cut(cmp, t, c) || InsideSome(segs, c) {
      OutsideCuts(cmp, s, t, rest, x, c);
      if InsideSome(rest, c) { StillInside(rest, y, z, c); }
      if Interior(x, c) {
        if c - x.base < l || g < c - x.base { InPart(rest, x, l, g, y, z, c); }
          else { PartCut(cmp, t, x, l, g, c - x.base); }
      }
    }
    forall k | 0 <= k < |segs| ensures Framed(cmp, t, segs[k]) {
      if k < |rest| { assert segs[k] == rest[k]; }
    }
    forall k, j | 0 <= k < j < |segs| ensures Apart(segs[k], segs[j]) {
      if k < |rest| { assert segs[k] == rest[k] && Apart(rest[k], x); }
      if j < |rest| { assert segs[j] == rest[j]; }
    }
  }

  predicate IsLow(x: Segment, l: nat, y: Segment) {
    y.base == x.base && y.count == l
  }

  predicate IsHigh(x: Segment, g: nat, y: Segment) {
    g <= x.count && y.base == x.base + g && y.count == x.count - g
  }

  lemma PartCut<T(!new)>(cmp: (T, T) -> int, t: seq<T>, x: Segment, l: nat, g: nat, c: int)
    requires Comparator(cmp) && Framed(cmp, t, x) && l <= c <= g <= x.count
    requires CutsBetween(cmp, t[x.base..x.base + x.count], l, g)
    ensures Cut(cmp, t, x.base + c)
  {
    hide Cut, Comparator;
    InnerCut(cmp, t, x.base, x.base + x.count, x.base + c);
  }

  lemma StillInside(rest: seq<Segment>, y: Segment, z: Segment, c: int)
    requires InsideSome(rest, c)
    ensures InsideSome(rest + [y] + [z], c)
  {
    var k :| 0 <= k < |rest| && Interior(rest[k], c);
    assert (rest + [y] + [z])[k] == rest[k];
  }

  lemma InPart(rest: seq<Segment>, x: Segment, l: nat, g: nat, y: Segment, z: Segment, c: int)
    requires Interior(x, c) && (c - x.base < l || g < c - x.base)
    requires (IsLow(x, l, y) && IsHigh(x, g, z)) || (IsHigh(x, g, y) && IsLow(x, l, z))
    ensures InsideSome(rest + [y] + [z], c)
  {
    var segs := rest + [y] + [z];
    assert segs[|rest|] == y && segs[|rest| + 1] == z;
    assert Interior(y, c) || Interior(z, c);
  }

  // ----- the depths bound the stack -----

  /** The depths of the pending segments increase strictly, and only the first one of all has depth zero. */
  ghost predicate DepthsOk(segs: seq<Segment>, depth: int) {
    && (forall k, l :: 0 <= k < l < |segs| ==> segs[k].depth < segs[l].depth)
    && (forall k :: 0 <= k < |segs| ==> 1 <= segs[k].depth <= depth)
  }

  lemma {:induction false} StackBound(segs: seq<Segment>, depth: int)
    requires DepthsOk(segs, depth) && depth >= 0
    ensures |segs| <= depth
  {
    if segs != [] {
      var n := |segs| - 1;
      assert forall k :: 0 <= k < n ==> segs[..n][k] == segs[k];
      StackBound(segs[..n], segs[n].depth - 1);
    }
  }

  lemma PushDepth(segs: seq<Segment>, depth: int, x: Segment)
    requires DepthsOk(segs, depth) && x.depth == depth + 1 && depth >= 0
    ensures DepthsOk(segs + [x], depth + 1)
  {
  }

  lemma PopDepth(segs: seq<Segment>, x: Segment, depth: int)
    requires DepthsOk(segs + [x], depth)
    ensures DepthsOk(segs, x.depth) && 1 <= x.depth <= depth
  {
    var t := segs + [x];
    assert t[|segs|] == x;
    forall k, l | 0 <= k < l < |segs| ensures segs[k].depth < segs[l].depth { assert t[k].depth < t[l].depth; }
    forall k | 0 <= k < |segs| ensures 1 <= segs[k].depth <= x.depth { assert t[k].depth < t[|segs|].depth; }
  }

  // ----- termination -----

  /** The work left: every split and every sorted segment makes it less. */
  ghost function Work(segs: seq<Segment>): nat {
    if segs == [] then 0 else Work(segs[..|segs| - 1]) + 2 * segs[|segs| - 1].count + 1
  }

  lemma WorkSnoc(segs: seq<Segment>, x: Segment)
    ensures Work(segs + [x]) == Work(segs) + 2 * x.count + 1
  {
    assert (segs + [x])[..|segs|] == segs;
  }

  /** A reordered stretch of the array. */
  lemma Stretch<T>(s: seq<T>, t: seq<T>, lo: nat, n: nat)
    requires |s| == |t| && lo + n <= |s| && s[..lo] == t[..lo] && s[lo + n..] == t[lo + n..]
    requires multiset(s[lo..lo + n]) == multiset(t[lo..lo + n])
    ensures Permuted(s, t, lo, lo + n)
  {
  }

  lemma StretchMultiset<T>(s: seq<T>, t: seq<T>)
    requires Permuted(s, t, 0, |s|)
    ensures multiset(s) == multiset(t)
  {
    PermutedWhole(s, t, 0, |s|);
  }

  /** One round of the inner loop: the partition, and its two parts. */
  method SplitStep<T(!new)>(a: array<T>, cmp: (T, T) -> int, x: Segment, depth: nat, ghost rest: seq<Segment>)
    returns (y: Segment, z: Segment)
    requires Comparator(cmp) && x.base + x.count <= a.Length && x.count > 6 && Remaining(cmp, a[..], rest + [x])
    modifies a
    ensures multiset(a[..]) == multiset(old(a[..])) && Remaining(cmp, a[..], rest + [y] + [z])
    ensures y.depth == depth && z.depth == depth && y.count + z.count < x.count && z.count <= y.count
    ensures y.base + y.count <= a.Length && z.base + z.count <= a.Length
  {
    hide Comparator, Remaining, Permuted, CutsBetween;
    ghost var s := a[..];
    assert s[x.base..x.base + x.count] == a[x.base..x.base + x.count];
    var l, g := Partition(a, x.base, x.count, cmp);
    ghost var t := a[..];
    assert t[x.base..x.base + x.count] == a[x.base..x.base + x.count];
    assert s[..x.base] == t[..x.base] && s[x.base + x.count..] == t[x.base + x.count..];
    StretchMultiset(s[x.base..x.base + x.count], t[x.base..x.base + x.count]);
    Stretch(s, t, x.base, x.count);
    PermutedWhole(s, t, x.base, x.base + x.count);
    if l > x.count - g {
      y := Segment(x.base, l, depth);
      z := Segment(x.base + g, x.count - g, depth);
    } else {
      y := Segment(x.base + g, x.count - g, depth);
      z := Segment(x.base, l, depth);
    }
    SplitSegment(cmp, s, t, rest, x, l, g, y, z);
  }

  /** The end of a segment: heap sort when the depth is used up, otherwise insertion sort. */
  method SortSegment<T(!new)>(a: array<T>, cmp: (T, T) -> int, x: Segment, heap: bool, ghost rest: seq<Segment>)
    requires Comparator(cmp) && x.base + x.count <= a.Length && Remaining(cmp, a[..], rest + [x])
    modifies a
    ensures multiset(a[..]) == multiset(old(a[..])) && Remaining(cmp, a[..], rest)
  {
    hide Comparator, Remaining, Permuted, SortedBy;
    ghost var s := a[..];
    assert s[x.base..x.base + x.count] == a[x.base..x.base + x.count];
    if heap {
      HeapSortX(a, x.base, x.count, cmp);
    } else {
      InsertionSort(a, x.base, x.count, cmp);
    }
    ghost var t := a[..];
    assert t[x.base..x.base + x.count] == a[x.base..x.base + x.count];
    assert s[..x.base] == t[..x.base] && s[x.base + x.count..] == t[x.base + x.count..];
    SegmentDone(cmp, s, t, rest, x);
  }

  lemma SegmentDone<T(!new)>(cmp: (T, T) -> int, s: seq<T>, t: seq<T>, rest: seq<Segment>, x: Segment)
    requires Comparator(cmp) && Remaining(cmp, s, rest + [x]) && |s| == |t| && x.base + x.count <= |s|
    requires s[..x.base] == t[..x.base] && s[x.base + x.count..] == t[x.base + x.count..]
    requires multiset(s[x.base..x.base + x.count]) == multiset(t[x.base..x.base + x.count])
    requires SortedBy(cmp, t[x.base..x.base + x.count])
    ensures multiset(s) == multiset(t) && Remaining(cmp, t, rest)
  {
    hide Comparator, Remaining, Permuted, SortedBy;
    Stretch(s, t, x.base, x.count);
    PermutedWhole(s, t, x.base, x.base + x.count);
    SortedSegment(cmp, s, t, rest, x);
  }

  /**
   * rqsort: sorts the array in place. The stack of fifty segments never overflows, because the depths of the segments
   * on it increase strictly and stay within 1 and 50.
   */
  method RqSort<T(!new)>(a: array<T>, cmp: (T, T) -> int)
    requires Comparator(cmp)
    modifies a
    ensures multiset(a[..]) == multiset(old(a[..])) && SortedBy(cmp, a[..])
  {
    hide Comparator, Remaining, SortedBy, DepthsOk, Work, Framed;
    var nmemb := a.Length;
    WholeRemains(cmp, a[..]);
    if nmemb < 2 {
      TooShort(cmp, a[..]);
      return;
    }
    var stack := new Segment[STACK_SIZE](_ => Segment(0, 0, 0));
    stack[0] := Segment(0, nmemb, 0);
    var sp: nat := 1;
    assert stack[..sp] == [Segment(0, nmemb, 0)];
    while sp > 0
      invariant sp <= STACK_SIZE && stack.Length == STACK_SIZE && fresh(stack)
      invariant Remaining(cmp, a[..], stack[..sp]) && multiset(a[..]) == multiset(old(a[..]))
      invariant DepthsOk(stack[..sp], STACK_SIZE) || (sp == 1 && stack[0].depth == 0)
      decreases Work(stack[..sp])
    {
      ghost var work := Work(stack[..sp]);
      sp := sp - 1;
      var x := stack[sp];
      assert stack[..sp + 1] == stack[..sp] + [x];
      WorkSnoc(stack[..sp], x);
      LastSegment(cmp, a[..], stack[..sp], x);
      if DepthsOk(stack[..sp] + [x], STACK_SIZE) { PopDepth(stack[..sp], x, STACK_SIZE); } else { NoDepths(x.depth); }
      var depth := x.depth;
      var heap := false;
      while x.count > 6
        invariant sp <= STACK_SIZE && stack.Length == STACK_SIZE && fresh(stack)
        invariant Remaining(cmp, a[..], stack[..sp] + [x]) && multiset(a[..]) == multiset(old(a[..]))
        invariant x.base + x.count <= a.Length
        invariant DepthsOk(stack[..sp], depth) && 0 <= depth
        invariant depth <= STACK_SIZE
        invariant Work(stack[..sp]) + 2 * x.count + 1 <= work
        decreases x.count
      {
        depth := depth + 1;
        if depth > STACK_SIZE {
          heap := true;
          break;
        }
        ghost var rest := stack[..sp];
        StackBound(rest, depth - 1);
        var y, z := SplitStep(a, cmp, x, depth, rest);
        stack[sp] := y;
        sp := sp + 1;
        assert stack[..sp] == rest + [y];
        PushDepth(rest, depth - 1, y);
        WorkSnoc(rest, y);
        x := z;
      }
      SortSegment(a, cmp, x, heap, stack[..sp]);
      WeakenDepth(stack[..sp], depth);
    }
    assert stack[..0] == [];
    NothingRemains(cmp, a[..]);
  }

  lemma TooShort<T>(cmp: (T, T) -> int, s: seq<T>)
    requires |s| < 2
    ensures SortedBy(cmp, s)
  {
  }

  lemma LastSegment<T>(cmp: (T, T) -> int, s: seq<T>, rest: seq<Segment>, x: Segment)
    requires Remaining(cmp, s, rest + [x])
    ensures x.base + x.count <= |s|
  {
    assert Framed(cmp, s, (rest + [x])[|rest|]);
  }

  lemma NoDepths(depth: int)
    ensures DepthsOk([], depth)
  {
  }

  lemma WeakenDepth(segs: seq<Segment>, depth: int)
    requires exists d :: d <= STACK_SIZE && DepthsOk(segs, d)
    ensures DepthsOk(segs, STACK_SIZE)
  {
  }
}
