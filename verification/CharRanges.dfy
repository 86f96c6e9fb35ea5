/** The set operations of libunicode.c on sorted point lists. */
module CharRanges {
  import opened CharSets

  // ----- membership as parity -----

  /** The number of points at most c. */
  function CountLe(p: Points, c: int): (n: nat)
    ensures n <= |p|
  {
    if p == [] then 0 else CountLe(p[..|p| - 1], c) + (if p[|p| - 1] <= c then 1 else 0)
  }

  /** An odd number of points at most c: inside. A list of odd length leaves its last interval open. */
  ghost predicate Odd(p: Points, c: int) {
    CountLe(p, c) % 2 == 1
  }

  lemma CountSnoc(p: Points, v: int, c: int)
    ensures CountLe(p + [v], c) == CountLe(p, c) + (if v <= c then 1 else 0)
  {
    assert (p + [v])[..|p|] == p;
  }

  lemma {:induction false} CountConcat(p: Points, q: Points, c: int)
    ensures CountLe(p + q, c) == CountLe(p, c) + CountLe(q, c)
    decreases |q|
  {
    if q == [] {
      assert p + q == p;
    } else {
      var n := |q| - 1;
      assert (p + q)[..|p| + n] == p + q[..n];
      CountConcat(p, q[..n], c);
    }
  }

  /** All points at most c. */
  lemma {:induction false} CountAll(p: Points, c: int)
    requires forall i :: 0 <= i < |p| ==> p[i] <= c
    ensures CountLe(p, c) == |p|
  {
    if p != [] { CountAll(p[..|p| - 1], c); }
  }

  lemma {:induction false} CountNone(p: Points, c: int)
    requires forall i :: 0 <= i < |p| ==> c < p[i]
    ensures CountLe(p, c) == 0
  {
    if p != [] { CountNone(p[..|p| - 1], c); }
  }

  /** In a sorted list the count separates the points at most c from those above. */
  lemma {:induction false} CountSplits(p: Points, c: int)
    requires Sorted(p)
    ensures forall i :: 0 <= i < |p| ==> (p[i] <= c <==> i < CountLe(p, c))
  {
    if p != [] {
      var q := p[..|p| - 1];
      assert Sorted(q);
      CountSplits(q, c);
      assert forall i :: 0 <= i < |q| ==> q[i] == p[i];
      if p[|p| - 1] <= c { CountAll(q, c); }
    }
  }

  /** For complete lists the parity is membership. */
  lemma MemberIsOdd(p: Points, c: int)
    requires Sorted(p) && |p| % 2 == 0
    ensures Member(p, c) <==> Odd(p, c)
  {
    CountSplits(p, c);
    var n := CountLe(p, c);
    if n % 2 == 1 {
      assert InInterval(p, n / 2, c);
    }
    if Member(p, c) {
      var k :| InInterval(p, k, c);
      assert n == 2 * k + 1;
    }
  }

  /** Equal sets have equal lists. */
  lemma CanonicalUnique(p: Points, q: Points)
    requires Canonical(p) && Canonical(q) && forall c :: Member(p, c) <==> Member(q, c)
    ensures p == q
  {
    hide Member;
    forall c ensures Odd(p, c) <==> Odd(q, c) {
      MemberIsOdd(p, c);
      MemberIsOdd(q, c);
    }
    SamePrefix(p, q, if |p| < |q| then |p| else |q|);
    if |p| < |q| { ExtraPoint(p, q); }
    if |q| < |p| { ExtraPoint(q, p); }
  }

  lemma {:induction false} SamePrefix(p: Points, q: Points, n: nat)
    requires StrictlyIncreasing(p) && StrictlyIncreasing(q) && n <= |p| && n <= |q|
    requires forall c :: Odd(p, c) <==> Odd(q, c)
    ensures p[..n] == q[..n]
  {
    hide Odd;
    if n > 0 {
      SamePrefix(p, q, n - 1);
      if p[n - 1] < q[n - 1] { FirstDifference(p, q, n - 1); }
      if q[n - 1] < p[n - 1] { FirstDifference(q, p, n - 1); }
      assert p[..n] == p[..n - 1] + [p[n - 1]];
    }
  }

  lemma CountAt(p: Points, n: nat, c: int)
    requires StrictlyIncreasing(p) && n <= |p|
    requires (n > 0 ==> p[n - 1] <= c) && (n < |p| ==> c < p[n])
    ensures CountLe(p, c) == n
  {
    CountSplits(p, c);
    var m := CountLe(p, c);
    assert n > 0 ==> p[n - 1] <= c;
    assert n < |p| ==> c < p[n];
  }

  lemma FirstDifference(p: Points, q: Points, n: nat)
    requires StrictlyIncreasing(p) && StrictlyIncreasing(q) && n < |p| && n < |q| && p[..n] == q[..n] && p[n] < q[n]
    ensures Odd(p, p[n]) != Odd(q, p[n])
  {
    CountAt(p, n + 1, p[n]);
    if n > 0 { assert p[..n][n - 1] == q[..n][n - 1]; }
    CountAt(q, n, p[n]);
  }

  lemma ExtraPoint(p: Points, q: Points)
    requires StrictlyIncreasing(p) && StrictlyIncreasing(q) && |p| < |q| && p == q[..|p|]
    ensures Odd(p, q[|p|]) != Odd(q, q[|p|])
  {
    var n := |p|;
    assert forall i :: 0 <= i < n ==> p[i] == q[i];
    CountAt(q, n + 1, q[n]);
    CountAll(p, q[n]);
  }

  // ----- the operations -----

  datatype SetOp = Union | Inter | Xor

  predicate Combine(op: SetOp, x: bool, y: bool) {
    match op
    case Union => x || y
    case Inter => x && y
    case Xor => x != y
  }

  /** Two lists denote the same set, as far as parity goes. */
  ghost predicate SameParity(p: Points, q: Points) {
    forall c :: Odd(p, c) <==> Odd(q, c)
  }

  class CharRange {
    var points: Points

    constructor ()
      ensures points == []
    {
      points := [];
    }

    method AddPoint(v: int)
      modifies this
      ensures points == old(points) + [v]
    {
      points := points + [v];
    }

    method AddInterval(c1: int, c2: int)
      modifies this
      ensures points == old(points) + [c1, c2]
    {
      points := points + [c1, c2];
    }

    /** cr_compress: drops empty intervals and merges adjacent ones, in place. */
    method Compress()
      requires Sorted(points) && |points| % 2 == 0
      modifies this
      ensures |points| % 2 == 0 && StrictlyIncreasing(points) && SameParity(points, old(points))
      ensures forall i :: 0 <= i < |points| ==> points[i] in old(points)
    {
      hide SameParity, Compressing;
      ghost var was := points;
      var len := |points|;
      var i: nat, k: nat := 0, 0;
      CompressStart(was);
      while i + 1 < len
        invariant len == |was| && Compressing(points, was, i, k)
        decreases len - i
      {
        CompressRange(points, was, i, k);
        if points[i] == points[i + 1] {
          CompressSkip(points, was, i, k);
          i := i + 2;
        } else {
          var j := MergeEnd(points, i, points[..k], was);
          CompressKeep(points, was, i, k, j);
          points := points[k := points[i]];
          points := points[k + 1 := points[j + 1]];
          k := k + 2;
          i := j + 2;
        }
      }
      CompressRange(points, was, i, k);
      points := points[..k];
      CompressEnd(points, was, i, k);
    }

    /**
     * cr_op: the union, intersection or symmetric difference of two sorted point lists, as the canonical list of that
     * set. The destination is empty before.
     */
    method Op(a: Points, b: Points, op: SetOp)
      requires points == [] && Sorted(a) && Sorted(b) && |a| % 2 == 0 && |b| % 2 == 0
      modifies this
      ensures |points| % 2 == 0 && StrictlyIncreasing(points)
      ensures op == Union ==> forall c :: Member(points, c) <==> Member(a, c) || Member(b, c)
      ensures op == Inter ==> forall c :: Member(points, c) <==> Member(a, c) && Member(b, c)
      ensures op == Xor ==> forall c :: Member(points, c) <==> Member(a, c) != Member(b, c)
      ensures InU32(a) && InU32(b) ==> Canonical(points)
    {
      hide Member, Merging, SameParity, Combine;
      var ai: nat, bi: nat := 0, 0;
      MergingStart(a, b, op);
      while ai < |a| || bi < |b|
        invariant Merging(points, a, ai, b, bi, op)
        invariant ai <= |a| && bi <= |b|
        decreases |a| - ai + |b| - bi
      {
        var v: int;
        ghost var ai0, bi0 := ai, bi;
        if ai < |a| && bi < |b| {
          if a[ai] < b[bi] {
            v := a[ai];
            ai := ai + 1;
          } else if a[ai] == b[bi] {
            v := a[ai];
            ai := ai + 1;
            bi := bi + 1;
          } else {
            v := b[bi];
            bi := bi + 1;
          }
        } else if ai < |a| {
          v := a[ai];
          ai := ai + 1;
        } else {
          v := b[bi];
          bi := bi + 1;
        }
        var isIn := Combine(op, ai % 2 == 1, bi % 2 == 1);
        Advance(points, a, ai0, b, bi0, op, v, ai, bi);
        if isIn != (|points| % 2 == 1) {
          AddPoint(v);
        }
      }
      MergingEnd(points, a, b, op);
      ghost var merged := points;
      Compress();
      OpMembers(merged, points, a, b, op);
    }

    /** cr_union1: adds the set of a point list. */
    method Union1(b: Points)
      requires Sorted(points) && |points| % 2 == 0 && Sorted(b) && |b| % 2 == 0
      modifies this
      ensures |points| % 2 == 0 && StrictlyIncreasing(points)
      ensures forall c :: Member(points, c) <==> Member(old(points), c) || Member(b, c)
      ensures InU32(old(points)) && InU32(b) ==> Canonical(points)
    {
      hide Member;
      var a := points;
      points := [];
      Op(a, b, Union);
    }

    /** cr_union_interval: adds the code points from c1 to c2. */
    method UnionInterval(c1: int, c2: int)
      requires Canonical(points) && 0 <= c1 <= c2 + 1 <= UINT32_MAX
      modifies this
      ensures Canonical(points)
      ensures forall c :: Member(points, c) <==> Member(old(points), c) || c1 <= c <= c2
    {
      var b := [c1, c2 + 1];
      forall c: int ensures Member(b, c) <==> c1 <= c <= c2 {
        OneInterval(c1, c2 + 1, c);
      }
      Union1(b);
    }

    /** cr_invert: the complement of the set in the 32-bit numbers below the largest. */
    method Invert()
      requires Sorted(points) && |points| % 2 == 0 && InU32(points)
      modifies this
      ensures Canonical(points)
      ensures forall c :: Member(points, c) <==> 0 <= c < UINT32_MAX && !Member(old(points), c)
    {
      hide Member, SameParity;
      ghost var was := points;
      points := [0] + points + [UINT32_MAX];
      assert |points| == |was| + 2;
      ghost var framed := points;
      FramedSorted(was);
      Compress();
      InvertMembers(was, points);
    }
  }

  /**
   * The first k points of pt are the compressed form of the first i points of was; those from i on are still in place.
   */
  ghost predicate Compressing(pt: Points, was: Points, i: nat, k: nat) {
    && |pt| == |was| && k <= i <= |was| && i % 2 == 0 && k % 2 == 0
    && (forall x :: i <= x < |was| ==> pt[x] == was[x])
    && StrictlyIncreasing(pt[..k]) && SameParity(pt[..k] + was[i..], was)
    && (forall x :: 0 <= x < k ==> pt[x] in was)
    && (k > 0 && i < |was| ==> pt[k - 1] < was[i])
  }

  lemma CompressStart(was: Points)
    ensures Compressing(was, was, 0, 0)
  {
    hide SameParity;
    SameStart(was);
  }

  lemma CompressRange(pt: Points, was: Points, i: nat, k: nat)
    requires Compressing(pt, was, i, k)
    ensures |pt| == |was| && k <= i <= |was| && i % 2 == 0 && k % 2 == 0
    ensures forall x :: i <= x < |was| ==> pt[x] == was[x]
    ensures SameParity(pt[..k] + was[i..], was)
  {
  }

  lemma CompressSkip(pt: Points, was: Points, i: nat, k: nat)
    requires Compressing(pt, was, i, k) && Sorted(was) && i + 1 < |was| && was[i] == was[i + 1]
    ensures Compressing(pt, was, i + 2, k)
  {
    hide SameParity;
    SkipPair(pt[..k], was, i);
  }

  lemma CompressKeep(pt: Points, was: Points, i: nat, k: nat, j: nat)
    requires Compressing(pt, was, i, k) && Sorted(was) && |was| % 2 == 0
    requires i <= j && j + 1 < |was| && j % 2 == 0 && was[i] != was[i + 1]
    requires SameParity(pt[..k] + [was[i], was[j + 1]] + was[j + 2..], was)
             && (j + 2 < |was| ==> was[j + 1] < was[j + 2])
    ensures Compressing(pt[k := pt[i]][k + 1 := pt[j + 1]], was, j + 2, k + 2)
  {
    hide SameParity;
    var p2 := pt[k := pt[i]][k + 1 := pt[j + 1]];
    assert pt[j + 1] == was[j + 1] && pt[i] == was[i] && was[i] < was[i + 1] <= was[j + 1];
    assert p2[..k + 2] == pt[..k] + [was[i], was[j + 1]];
    KeepIncreasing(pt[..k], was[i], was[j + 1]);
  }

  lemma KeepIncreasing(p: Points, x: int, y: int)
    requires StrictlyIncreasing(p) && (|p| > 0 ==> p[|p| - 1] < x) && x < y
    ensures StrictlyIncreasing(p + [x, y])
  {
  }

  lemma CompressEnd(p: Points, was: Points, i: nat, k: nat)
    requires exists pt: Points :: Compressing(pt, was, i, k) && p == pt[..k]
    requires i + 1 >= |was| && |was| % 2 == 0
    ensures |p| % 2 == 0 && StrictlyIncreasing(p) && SameParity(p, was)
    ensures forall x :: 0 <= x < |p| ==> p[x] in was
  {
    hide SameParity;
    var pt: Points :| Compressing(pt, was, i, k) && p == pt[..k];
    assert pt[..k] + was[i..] == pt[..k];
  }

  /** The inner loop of cr_compress: the last of the intervals that touch one another from i on. */
  method MergeEnd(pt: Points, i: nat, ghost kept: Points, ghost was: Points) returns (j: nat)
    requires |pt| == |was| && |was| % 2 == 0 && i % 2 == 0 && i + 1 < |was| && Sorted(was)
    requires forall x :: i <= x < |pt| ==> pt[x] == was[x]
    requires SameParity(kept + was[i..], was)
    ensures i <= j && j % 2 == 0 && j + 1 < |was| && SameParity(kept + [was[i], was[j + 1]] + was[j + 2..], was)
    ensures j + 2 < |was| ==> was[j + 1] < was[j + 2]
  {
    hide SameParity;
    j := i;
    assert kept + was[i..] == kept + [was[i], was[i + 1]] + was[i + 2..];
    while j + 3 < |pt| && pt[j + 1] == pt[j + 2]
      invariant i <= j && j % 2 == 0 && j + 1 < |was|
      invariant SameParity(kept + [was[i], was[j + 1]] + was[j + 2..], was)
      decreases |pt| - j
    {
      MergePair(kept, was, i, j);
      j := j + 2;
    }
  }

  lemma SameStart(p: Points)
    ensures SameParity(p[..0] + p[0..], p)
  {
    assert p[..0] + p[0..] == p;
  }

  /** A pair of equal points does not matter. */
  lemma DropEqual(p: Points, x: int, q: Points)
    ensures SameParity(p + [x, x] + q, p + q)
  {
    hide CountLe;
    var r, t := p + [x, x] + q, p + q;
    forall c ensures Odd(r, c) <==> Odd(t, c) {
      CountConcat(p + [x, x], q, c);
      CountConcat(p, q, c);
      assert p + [x, x] == (p + [x]) + [x];
      CountSnoc(p, x, c);
      CountSnoc(p + [x], x, c);
    }
  }

  lemma SameParityTrans(p: Points, q: Points, r: Points)
    requires SameParity(p, q) && SameParity(q, r)
    ensures SameParity(p, r)
  {
    hide Odd;
    forall c ensures Odd(p, c) <==> Odd(r, c) {
      assert Odd(p, c) <==> Odd(q, c);
    }
  }

  lemma SameParitySym(p: Points, q: Points)
    requires SameParity(p, q)
    ensures SameParity(q, p)
  {
  }

  /** An empty interval adds nothing. */
  lemma SkipPair(kept: Points, was: Points, i: nat)
    requires i + 1 < |was| && SameParity(kept + was[i..], was) && was[i] == was[i + 1]
    ensures SameParity(kept + was[i + 2..], was)
  {
    hide SameParity;
    assert kept + was[i..] == kept + [was[i], was[i]] + was[i + 2..];
    DropEqual(kept, was[i], was[i + 2..]);
    SameParitySym(kept + was[i..], kept + was[i + 2..]);
    SameParityTrans(kept + was[i + 2..], kept + was[i..], was);
  }

  /** Two intervals that touch are one. */
  lemma MergePair(kept: Points, was: Points, i: nat, j: nat)
    requires i <= j && j + 3 < |was| && was[j + 1] == was[j + 2]
    requires SameParity(kept + [was[i], was[j + 1]] + was[j + 2..], was)
    ensures SameParity(kept + [was[i], was[j + 3]] + was[j + 4..], was)
  {
    hide SameParity;
    var p, x, q := kept + [was[i]], was[j + 1], was[j + 3..];
    assert kept + [was[i], was[j + 1]] + was[j + 2..] == p + [x, x] + q;
    assert kept + [was[i], was[j + 3]] + was[j + 4..] == p + q;
    DropEqual(p, x, q);
    SameParitySym(p + [x, x] + q, p + q);
    SameParityTrans(p + q, p + [x, x] + q, was);
  }

  // ----- cr_op -----

  /**
   * The points out describe what the first ai points of a and the first bi points of b do, and none lies ahead of the
   * rest.
   */
  ghost predicate Merging(out: Points, a: Points, ai: nat, b: Points, bi: nat, op: SetOp) {
    && ai <= |a| && bi <= |b| && Sorted(out)
    && (|out| % 2 == 1 <==> Combine(op, ai % 2 == 1, bi % 2 == 1))
    && (forall c :: Odd(out, c) <==> Combine(op, Odd(a[..ai], c), Odd(b[..bi], c)))
    && AllIn(out, a + b)
    && (ai < |a| ==> Below(out, a[ai]) && Below(b[..bi], a[ai]))
    && (bi < |b| ==> Below(out, b[bi]) && Below(a[..ai], b[bi]))
  }

  ghost predicate AllIn(p: Points, q: Points) {
    forall i :: 0 <= i < |p| ==> p[i] in q
  }

  lemma AllInAppend(p: Points, q: Points, v: int)
    requires AllIn(p, q) && v in q
    ensures AllIn(p + [v], q)
  {
  }

  ghost predicate Below(p: Points, v: int) {
    forall i :: 0 <= i < |p| ==> p[i] <= v
  }

  lemma MergingStart(a: Points, b: Points, op: SetOp)
    ensures Merging([], a, 0, b, 0, op)
  {
    assert a[..0] == [] && b[..0] == [];
  }

  lemma NextPoint(a: Points, i: nat, v: int)
    requires Sorted(a) && i < |a| && v <= a[i]
    ensures a[i] == v ==> Below(a[..i + 1], v)
    ensures i + 1 < |a| ==> v <= a[i + 1]
  {
  }

  /** The parity of a list whose points are all at most v. */
  lemma ParityFrom(p: Points, v: int, c: int)
    requires Below(p, v) && v <= c
    ensures Odd(p, c) <==> |p| % 2 == 1
  {
    CountAll(p, c);
  }

  lemma TakeOne(a: Points, i: nat, c: int)
    requires i < |a| && c < a[i]
    ensures Odd(a[..i + 1], c) <==> Odd(a[..i], c)
  {
    assert a[..i + 1] == a[..i] + [a[i]];
    CountSnoc(a[..i], a[i], c);
  }

  lemma AppendLarger(p: Points, v: int, c: int)
    requires c < v
    ensures Odd(p + [v], c) <==> Odd(p, c)
  {
    CountSnoc(p, v, c);
  }

  /**
   * One round of cr_op: the next point v in increasing order, and the point list with v added when the status changes.
   */
  lemma Advance(out: Points, a: Points, ai: nat, b: Points, bi: nat, op: SetOp, v: int, ai1: nat, bi1: nat)
    requires Merging(out, a, ai, b, bi, op) && Sorted(a) && Sorted(b)
    requires (ai1 == ai || (ai1 == ai + 1 <= |a| && v == a[ai])) && (bi1 == bi || (bi1 == bi + 1 <= |b| && v == b[bi]))
    requires ai1 > ai || bi1 > bi
    requires ai < |a| ==> v <= a[ai] && (ai1 == ai ==> v < a[ai])
    requires bi < |b| ==> v <= b[bi] && (bi1 == bi ==> v < b[bi])
    ensures var isIn := Combine(op, ai1 % 2 == 1, bi1 % 2 == 1);
            Merging(if isIn != (|out| % 2 == 1) then out + [v] else out, a, ai1, b, bi1, op)
  {
    hide Odd, CountLe, Combine, Sorted, Below, AllIn;
    var isIn := Combine(op, ai1 % 2 == 1, bi1 % 2 == 1);
    var out1 := if isIn != (|out| % 2 == 1) then out + [v] else out;
    if ai < |a| { NextPoint(a, ai, v); }
    if bi < |b| { NextPoint(b, bi, v); }
    PrefixBelow(a, ai, v, ai1);
    PrefixBelow(b, bi, v, bi1);
    SortedAppend(out, v);
    AdvanceParity(out, a, ai, b, bi, op, v, ai1, bi1, out1);
    PointOf(a, ai, b, bi, v, ai1);
    AllInAppend(out, a + b, v);
    if ai1 < |a| { StillBelow(out, a, ai, b, bi, v, ai1, bi1); }
    if bi1 < |b| { StillBelow(out, b, bi, a, ai, v, bi1, ai1); }
  }

  /** What was below the next point stays so, and so does v. */
  lemma StillBelow(out: Points, a: Points, ai: nat, b: Points, bi: nat, v: int, ai1: nat, bi1: nat)
    requires Sorted(a) && ai <= ai1 < |a| && bi <= bi1 <= |b| && Below(out, v) && Below(b[..bi1], v)
    requires ai1 == ai || (ai1 == ai + 1 && v == a[ai])
    requires v <= a[ai]
    ensures Below(out, a[ai1]) && Below(out + [v], a[ai1]) && Below(b[..bi1], a[ai1])
  {
  }

  lemma PrefixBelow(a: Points, ai: nat, v: int, ai1: nat)
    requires Sorted(a) && ai <= |a| && (ai1 == ai || (ai1 == ai + 1 <= |a| && v == a[ai]))
    requires ai1 == ai ==> Below(a[..ai], v)
    ensures Below(a[..ai1], v)
  {
  }

  lemma SortedAppend(p: Points, v: int)
    requires Sorted(p) && Below(p, v)
    ensures Sorted(p + [v]) && Below(p + [v], v) && Below(p, v)
  {
  }

  lemma AdvanceParity(out: Points, a: Points, ai: nat, b: Points, bi: nat, op: SetOp, v: int, ai1: nat, bi1: nat,
                      out1: Points)
    requires ai <= ai1 <= |a| && bi <= bi1 <= |b| && Below(out, v) && Below(a[..ai1], v) && Below(b[..bi1], v)
    requires forall c :: Odd(out, c) <==> Combine(op, Odd(a[..ai], c), Odd(b[..bi], c))
    requires ai1 == ai || (ai1 == ai + 1 && v == a[ai])
    requires bi1 == bi || (bi1 == bi + 1 && v == b[bi])
    requires out1 == out || out1 == out + [v]
    requires |out1| % 2 == 1 <==> Combine(op, ai1 % 2 == 1, bi1 % 2 == 1)
    ensures forall c :: Odd(out1, c) <==> Combine(op, Odd(a[..ai1], c), Odd(b[..bi1], c))
  {
    hide Odd, CountLe, Combine;
    var p, q := a[..ai1], b[..bi1];
    forall c ensures Odd(out1, c) <==> Combine(op, Odd(p, c), Odd(q, c)) {
      if c >= v {
        ParityFrom(out1, v, c);
        ParityFrom(p, v, c);
        ParityFrom(q, v, c);
      } else {
        assert Odd(out, c) <==> Combine(op, Odd(a[..ai], c), Odd(b[..bi], c));
        AppendLarger(out, v, c);
        if ai1 > ai { TakeOne(a, ai, c); }
        if bi1 > bi { TakeOne(b, bi, c); }
      }
    }
  }

  lemma PointOf(a: Points, ai: nat, b: Points, bi: nat, v: int, ai1: nat)
    requires (ai1 > ai ==> ai < |a| && v == a[ai]) && (ai1 <= ai ==> bi < |b| && v == b[bi])
    ensures v in a + b
  {
    if ai1 > ai { assert (a + b)[ai] == v; } else { assert (a + b)[|a| + bi] == v; }
  }

  lemma MergingEnd(out: Points, a: Points, b: Points, op: SetOp)
    requires Merging(out, a, |a|, b, |b|, op) && |a| % 2 == 0 && |b| % 2 == 0
    ensures Sorted(out) && |out| % 2 == 0
    ensures forall c :: Odd(out, c) <==> Combine(op, Odd(a, c), Odd(b, c))
    ensures forall i :: 0 <= i < |out| ==> out[i] in a + b
  {
    hide Odd;
    assert a[..|a|] == a && b[..|b|] == b;
  }

  lemma OpMembers(merged: Points, p: Points, a: Points, b: Points, op: SetOp)
    requires Sorted(a) && |a| % 2 == 0 && Sorted(b) && |b| % 2 == 0
    requires forall c :: Odd(merged, c) <==> Combine(op, Odd(a, c), Odd(b, c))
    requires forall i :: 0 <= i < |merged| ==> merged[i] in a + b
    requires |p| % 2 == 0 && StrictlyIncreasing(p) && SameParity(p, merged)
    requires forall i :: 0 <= i < |p| ==> p[i] in merged
    ensures op == Union ==> forall c :: Member(p, c) <==> Member(a, c) || Member(b, c)
    ensures op == Inter ==> forall c :: Member(p, c) <==> Member(a, c) && Member(b, c)
    ensures op == Xor ==> forall c :: Member(p, c) <==> Member(a, c) != Member(b, c)
    ensures InU32(a) && InU32(b) ==> Canonical(p)
  {
    hide Odd, Member;
    forall c ensures Member(p, c) <==> Combine(op, Member(a, c), Member(b, c)) {
      MemberIsOdd(p, c);
      MemberIsOdd(a, c);
      MemberIsOdd(b, c);
      assert Odd(p, c) <==> Odd(merged, c);
    }
  }

  lemma OneInterval(x: int, y: int, c: int)
    ensures Member([x, y], c) <==> x <= c < y
  {
    if x <= c < y { assert InInterval([x, y], 0, c); }
  }

  // ----- cr_invert -----

  lemma FramedSorted(p: Points)
    requires Sorted(p) && InU32(p)
    ensures Sorted([0] + p + [UINT32_MAX])
  {
  }

  lemma InvertMembers(p: Points, q: Points)
    requires Sorted(p) && |p| % 2 == 0 && InU32(p)
    requires |q| % 2 == 0 && StrictlyIncreasing(q) && SameParity(q, [0] + p + [UINT32_MAX])
    requires forall i :: 0 <= i < |q| ==> q[i] in [0] + p + [UINT32_MAX]
    ensures Canonical(q)
    ensures forall c :: Member(q, c) <==> 0 <= c < UINT32_MAX && !Member(p, c)
  {
    hide Member, CountLe;
    var framed := [0] + p + [UINT32_MAX];
    forall c ensures Member(q, c) <==> 0 <= c < UINT32_MAX && !Member(p, c) {
      MemberIsOdd(p, c);
      MemberIsOdd(q, c);
      assert Odd(q, c) <==> Odd(framed, c);
      CountConcat([0], p, c);
      CountSnoc([0] + p, UINT32_MAX, c);
      CountSnoc([], 0, c);
      assert [] + [0] == [0];
      NoneBelow(p, c);
    }
  }

  lemma NoneBelow(p: Points, c: int)
    requires InU32(p)
    ensures CountLe([], c) == 0
    ensures c < 0 ==> CountLe(p, c) == 0
    ensures c >= UINT32_MAX ==> CountLe(p, c) == |p|
  {
    if c < 0 { CountNone(p, c); }
    if c >= UINT32_MAX { CountAll(p, c); }
  }

  /** Inverting twice gives the list back. */
  lemma DoubleInverse(p: Points, q: Points, r: Points)
    requires Canonical(p) && Canonical(q) && Canonical(r)
    requires forall c :: Member(q, c) <==> 0 <= c < UINT32_MAX && !Member(p, c)
    requires forall c :: Member(r, c) <==> 0 <= c < UINT32_MAX && !Member(q, c)
    ensures r == p
  {
    hide Member;
    forall c ensures Member(r, c) <==> Member(p, c) {
      MembersInRange(p, c);
    }
    CanonicalUnique(r, p);
  }

  lemma MembersInRange(p: Points, c: int)
    requires Canonical(p)
    ensures Member(p, c) ==> 0 <= c < UINT32_MAX
  {
  }
}
