/** The parts of rqsort of cutils.c: median of three, three-way partition and insertion sort. */
module QuickSort {
  import opened Ordering
  import opened HeapSort

  // ----- insertion sort -----

  /** The first i + 1 elements are in order, except that the one at j may be too small for those before it. */
  ghost predicate SortedExcept<T>(cmp: (T, T) -> int, s: seq<T>, i: int, j: int)
    requires 0 <= i < |s|
  {
    forall x, y :: 0 <= x < y <= i && y != j ==> Le(cmp, s[x], s[y])
  }

  lemma InsertStep<T(!new)>(cmp: (T, T) -> int, s: seq<T>, i: int, j: int)
    requires Comparator(cmp) && 1 <= j <= i < |s| && SortedExcept(cmp, s, i, j) && Le(cmp, s[j], s[j - 1])
    ensures SortedExcept(cmp, Swapped(s, j, j - 1), i, j - 1)
  {
    hide Comparator, Le;
  }

  lemma InsertEnd<T(!new)>(cmp: (T, T) -> int, s: seq<T>, i: int, j: int)
    requires Comparator(cmp) && 0 <= j <= i < |s| && SortedExcept(cmp, s, i, j)
    requires j == 0 || Le(cmp, s[j - 1], s[j])
    ensures SortedBy(cmp, s[..i + 1])
  {
    hide Comparator, Le;
    forall x, y | 0 <= x < y <= i ensures Le(cmp, s[x], s[y]) {
      if y == j && x < j - 1 { LeTransitive(cmp, s[x], s[j - 1], s[j]); }
    }
  }

  lemma InsertStart<T>(cmp: (T, T) -> int, s: seq<T>, i: int)
    requires 0 <= i < |s| && SortedBy(cmp, s[..i])
    ensures SortedExcept(cmp, s, i, i)
  {
    hide Le;
    forall x, y | 0 <= x < y <= i && y != i ensures Le(cmp, s[x], s[y]) {
      assert s[..i][x] == s[x] && s[..i][y] == s[y];
    }
  }

  /** The insertion sort that ends each stretch. */
  method InsertionSort<T(!new)>(a: array<T>, lo: nat, n: nat, cmp: (T, T) -> int)
    requires Comparator(cmp) && lo + n <= a.Length
    modifies a
    ensures a[..lo] == old(a[..lo]) && a[lo + n..] == old(a[lo + n..])
    ensures multiset(a[lo..lo + n]) == multiset(old(a[lo..lo + n])) && SortedBy(cmp, a[lo..lo + n])
  {
    hide Comparator, Le, SortedExcept, SortedBy, Permuted, Swapped;
    ghost var was := a[lo..lo + n];
    PermutedSelf(was, 0, n);
    ShortSorted(cmp, was);
    var i: nat := 1;
    while i < n
      invariant i <= n || n == 0
      invariant 1 <= i
      invariant i <= n ==> SortedBy(cmp, a[lo..lo + n][..i])
      invariant n == 0 ==> a[lo..lo + n] == was
      invariant Permuted(was, a[lo..lo + n], 0, n)
      invariant a[..lo] == old(a[..lo]) && a[lo + n..] == old(a[lo + n..])
    {
      var j := i;
      InsertStart(cmp, a[lo..lo + n], i);
      while j > 0 && cmp(a[lo + j - 1], a[lo + j]) > 0
        invariant 0 <= j <= i
        invariant SortedExcept(cmp, a[lo..lo + n], i, j)
        invariant Permuted(was, a[lo..lo + n], 0, n)
        invariant a[..lo] == old(a[..lo]) && a[lo + n..] == old(a[lo + n..])
      {
        ghost var s := a[lo..lo + n];
        LeTotal(cmp, s[j - 1], s[j]);
        LeIs(cmp, s[j - 1], s[j]);
        InsertStep(cmp, s, i, j);
        SwapWithin(a, lo, n, j, j - 1, was);
        j := j - 1;
      }
      ghost var s := a[lo..lo + n];
      if j > 0 { LeIs(cmp, s[j - 1], s[j]); }
      InsertEnd(cmp, s, i, j);
      i := i + 1;
    }
    PermutedWhole(was, a[lo..lo + n], 0, n);
    assert n > 0 ==> a[lo..lo + n][..n] == a[lo..lo + n];
  }

  lemma ShortSorted<T>(cmp: (T, T) -> int, s: seq<T>)
    ensures |s| >= 1 ==> SortedBy(cmp, s[..1])
    ensures |s| == 0 ==> SortedBy(cmp, s)
  {
  }

  // ----- partition -----

  /** The elements from x to y compare equal to, less than or greater than the pivot. */
  ghost predicate EqualBand<T>(cmp: (T, T) -> int, s: seq<T>, p: T, x: int, y: int) {
    0 <= x && y <= |s| && forall k :: x <= k < y ==> cmp(p, s[k]) == 0
  }

  ghost predicate LessBand<T>(cmp: (T, T) -> int, s: seq<T>, p: T, x: int, y: int) {
    0 <= x && y <= |s| && forall k :: x <= k < y ==> cmp(p, s[k]) > 0
  }

  ghost predicate GreaterBand<T>(cmp: (T, T) -> int, s: seq<T>, p: T, x: int, y: int) {
    0 <= x && y <= |s| && forall k :: x <= k < y ==> cmp(p, s[k]) < 0
  }

  /** The parts while the partition runs: equal, less, not yet seen, greater, equal. */
  ghost predicate Bands<T>(cmp: (T, T) -> int, s: seq<T>, p: T, lt: int, i: int, j: int, gt: int) {
    && 1 <= lt <= i <= j <= gt <= |s| && s[0] == p
    && EqualBand(cmp, s, p, 0, lt) && LessBand(cmp, s, p, lt, i)
    && GreaterBand(cmp, s, p, j, gt) && EqualBand(cmp, s, p, gt, |s|)
  }

  lemma BandsStart<T(!new)>(cmp: (T, T) -> int, s: seq<T>)
    requires Comparator(cmp) && |s| >= 1
    ensures Bands(cmp, s, s[0], 1, 1, |s|, |s|)
  {
    LeTotal(cmp, s[0], s[0]);
    assert cmp(s[0], s[0]) == 0;
  }

  lemma BandsRange<T>(cmp: (T, T) -> int, s: seq<T>, p: T, lt: int, i: int, j: int, gt: int)
    requires Bands(cmp, s, p, lt, i, j, gt)
    ensures 1 <= lt <= i <= j <= gt <= |s| && s[0] == p
  {
  }

  lemma TakeLess<T>(cmp: (T, T) -> int, s: seq<T>, p: T, lt: int, i: int, j: int, gt: int)
    requires Bands(cmp, s, p, lt, i, j, gt) && i < j && cmp(p, s[i]) > 0
    ensures Bands(cmp, s, p, lt, i + 1, j, gt)
  {
  }

  lemma TakeEqual<T>(cmp: (T, T) -> int, s: seq<T>, p: T, lt: int, i: int, j: int, gt: int)
    requires Bands(cmp, s, p, lt, i, j, gt) && i < j && cmp(p, s[i]) == 0
    ensures Bands(cmp, Swapped(s, lt, i), p, lt + 1, i + 1, j, gt)
  {
  }

  lemma TakeGreater<T>(cmp: (T, T) -> int, s: seq<T>, p: T, lt: int, i: int, j: int, gt: int)
    requires Bands(cmp, s, p, lt, i, j, gt) && i < j && cmp(p, s[j - 1]) < 0
    ensures Bands(cmp, s, p, lt, i, j - 1, gt)
  {
  }

  lemma TakeEqualRight<T>(cmp: (T, T) -> int, s: seq<T>, p: T, lt: int, i: int, j: int, gt: int)
    requires Bands(cmp, s, p, lt, i, j, gt) && i < j && cmp(p, s[j - 1]) == 0
    ensures Bands(cmp, Swapped(s, gt - 1, j - 1), p, lt, i, j - 1, gt - 1)
  {
  }

  lemma TakeBoth<T>(cmp: (T, T) -> int, s: seq<T>, p: T, lt: int, i: int, j: int, gt: int)
    requires Bands(cmp, s, p, lt, i, j + 1, gt) && i < j && cmp(p, s[i]) < 0 && cmp(p, s[j]) > 0
    ensures Bands(cmp, Swapped(s, i, j), p, lt, i + 1, j, gt)
  {
  }

  /** The loop that scans from both ends; the pivot is the first element. */
  method Scan<T(!new)>(a: array<T>, lo: nat, n: nat, cmp: (T, T) -> int) returns (lt: nat, i: nat, gt: nat)
    requires Comparator(cmp) && lo + n <= a.Length && n >= 1
    modifies a
    ensures a[..lo] == old(a[..lo]) && a[lo + n..] == old(a[lo + n..])
    ensures Permuted(old(a[lo..lo + n]), a[lo..lo + n], 0, n)
    ensures Bands(cmp, a[lo..lo + n], old(a[lo]), lt, i, i, gt)
  {
    hide Comparator, Permuted, Swapped, Bands;
    ghost var was, p := a[lo..lo + n], a[lo];
    PermutedSelf(was, 0, n);
    BandsStart(cmp, was);
    i, lt := 1, 1;
    gt := n;
    var j: int := n;
    while true
      invariant Bands(cmp, a[lo..lo + n], p, lt, i, j, gt)
      invariant Permuted(was, a[lo..lo + n], 0, n)
      invariant a[..lo] == old(a[..lo]) && a[lo + n..] == old(a[lo + n..])
      decreases j - i
    {
      BandsRange(cmp, a[lo..lo + n], p, lt, i, j, gt);
      ghost var i0 := i;
      lt, i := ScanRight(a, lo, n, cmp, lt, i, j, gt, p, was);
      BandsRange(cmp, a[lo..lo + n], p, lt, i, j, gt);
      ghost var j0 := j;
      gt, j := ScanLeft(a, lo, n, cmp, lt, i, j, gt, p, was);
      ghost var s := a[lo..lo + n];
      if i >= j {
        ScanEnd(cmp, s, p, lt, i, j, gt);
        break;
      }
      BandsRange(cmp, s, p, lt, i, j + 1, gt);
      TakeBoth(cmp, s, p, lt, i, j, gt);
      SwapWithin(a, lo, n, i, j, was);
      i := i + 1;
    }
  }

  lemma ScanEnd<T>(cmp: (T, T) -> int, s: seq<T>, p: T, lt: int, i: int, j: int, gt: int)
    requires Bands(cmp, s, p, lt, i, j + 1, gt) && i >= j
    requires j == i && j < |s| ==> cmp(p, s[i]) < 0
    ensures Bands(cmp, s, p, lt, i, i, gt)
  {
  }

  /** The inner loop that moves right over elements that are not greater. */
  method ScanRight<T(!new)>(a: array<T>, lo: nat, n: nat, cmp: (T, T) -> int, lt0: nat, i0: nat, j: nat, gt: nat,
                            ghost p: T, ghost was: seq<T>)
    returns (lt: nat, i: nat)
    requires lo + n <= a.Length && n >= 1 && Bands(cmp, a[lo..lo + n], p, lt0, i0, j, gt)
    requires Permuted(was, a[lo..lo + n], 0, n)
    modifies a
    ensures a[..lo] == old(a[..lo]) && a[lo + n..] == old(a[lo + n..])
    ensures Permuted(was, a[lo..lo + n], 0, n)
    ensures Bands(cmp, a[lo..lo + n], p, lt, i, j, gt) && i >= i0
    ensures i < j && j <= n ==> cmp(p, a[lo + i]) < 0
  {
    hide Permuted, Swapped, Bands;
    lt, i := lt0, i0;
    BandsRange(cmp, a[lo..lo + n], p, lt, i, j, gt);
    while i < j && cmp(a[lo], a[lo + i]) >= 0
      invariant i0 <= i <= j <= n
      invariant Bands(cmp, a[lo..lo + n], p, lt, i, j, gt)
      invariant Permuted(was, a[lo..lo + n], 0, n)
      invariant a[..lo] == old(a[..lo]) && a[lo + n..] == old(a[lo + n..])
    {
      ghost var s := a[lo..lo + n];
      BandsRange(cmp, s, p, lt, i, j, gt);
      if cmp(a[lo], a[lo + i]) == 0 {
        TakeEqual(cmp, s, p, lt, i, j, gt);
        SwapWithin(a, lo, n, lt, i, was);
        lt := lt + 1;
      } else {
        TakeLess(cmp, s, p, lt, i, j, gt);
      }
      i := i + 1;
    }
    BandsRange(cmp, a[lo..lo + n], p, lt, i, j, gt);
  }

  /** The inner loop that moves left over elements that are not less. */
  method ScanLeft<T(!new)>(a: array<T>, lo: nat, n: nat, cmp: (T, T) -> int, lt: nat, i: nat, j0: nat, gt0: nat,
                           ghost p: T, ghost was: seq<T>)
    returns (gt: nat, j: int)
    requires lo + n <= a.Length && n >= 1 && Bands(cmp, a[lo..lo + n], p, lt, i, j0, gt0)
    requires i < j0 && j0 <= n ==> cmp(p, a[lo + i]) < 0
    requires Permuted(was, a[lo..lo + n], 0, n)
    modifies a
    ensures a[..lo] == old(a[..lo]) && a[lo + n..] == old(a[lo + n..])
    ensures Permuted(was, a[lo..lo + n], 0, n)
    ensures Bands(cmp, a[lo..lo + n], p, lt, i, j + 1, gt) && j < j0
    ensures i < n && i <= j < n ==> cmp(p, a[lo + i]) < 0
    ensures i < j < n ==> cmp(p, a[lo + j]) > 0
  {
    hide Permuted, Swapped, Bands;
    BandsRange(cmp, a[lo..lo + n], p, lt, i, j0, gt0);
    gt, j := gt0, j0 - 1;
    while i < j && cmp(a[lo], a[lo + j]) <= 0
      invariant i - 1 <= j < j0 <= n
      invariant i < j0 ==> cmp(p, a[lo + i]) < 0
      invariant Bands(cmp, a[lo..lo + n], p, lt, i, j + 1, gt)
      invariant Permuted(was, a[lo..lo + n], 0, n)
      invariant a[..lo] == old(a[..lo]) && a[lo + n..] == old(a[lo + n..])
    {
      ghost var s := a[lo..lo + n];
      BandsRange(cmp, s, p, lt, i, j + 1, gt);
      if cmp(a[lo], a[lo + j]) == 0 {
        gt := gt - 1;
        TakeEqualRight(cmp, s, p, lt, i, j + 1, gt + 1);
        SwapWithin(a, lo, n, gt, j, was);
        Untouched(s, gt, j, i);
      } else {
        TakeGreater(cmp, s, p, lt, i, j + 1, gt);
      }
      j := j - 1;
    }
    BandsRange(cmp, a[lo..lo + n], p, lt, i, j + 1, gt);
  }

  lemma Untouched<T>(s: seq<T>, x: nat, y: nat, k: nat)
    requires x < |s| && y < |s| && k < |s| && k != x && k != y
    ensures Swapped(s, x, y)[k] == s[k]
  {
  }

  /** Of three elements one that lies between the others: it is at least one of them and at most one of them. */
  ghost predicate Middle<T>(cmp: (T, T) -> int, s: seq<T>, which: int) {
    && |s| == 3 && 0 <= which < 3
    && (exists k :: 0 <= k < 3 && k != which && Le(cmp, s[k], s[which]))
    && (exists k :: 0 <= k < 3 && k != which && Le(cmp, s[which], s[k]))
  }

  /** med3. */
  method Med3<T(!new)>(x: T, y: T, z: T, cmp: (T, T) -> int) returns (which: nat)
    requires Comparator(cmp)
    ensures Middle(cmp, [x, y, z], which)
  {
    if cmp(x, y) < 0 {
      if cmp(y, z) < 0 { which := 1; } else if cmp(x, z) < 0 { which := 2; } else { which := 0; }
    } else {
      if cmp(y, z) > 0 { which := 1; } else if cmp(x, z) < 0 { which := 0; } else { which := 2; }
    }
    ghost var s := [x, y, z];
    assert s[0] == x && s[1] == y && s[2] == z;
    LeTotal(cmp, x, y);
    LeTotal(cmp, y, z);
    LeTotal(cmp, x, z);
  }

  // ----- moving the equal elements to the middle -----

  /** The place that element k comes from when two blocks of span elements change places. */
  function Partner(k: int, x: int, y: int, span: int): int {
    if x <= k < x + span then k + (y - x) else if y <= k < y + span then k - (y - x) else k
  }

  ghost predicate BlocksSwapped<T>(s: seq<T>, t: seq<T>, x: int, y: int, span: int) {
    && |s| == |t| && 0 <= x && x + span <= y && y + span <= |s| && 0 <= span
    && forall k :: 0 <= k < |t| ==> t[k] == s[Partner(k, x, y, span)]
  }

  lemma SwapOneMore<T>(s: seq<T>, t: seq<T>, x: nat, y: nat, j: nat)
    requires BlocksSwapped(s, t, x, y, j) && x + j + 1 <= y && y + j + 1 <= |s|
    ensures BlocksSwapped(s, Swapped(t, x + j, y + j), x, y, j + 1)
  {
  }

  /** The exchange of two blocks, element by element. */
  method SwapBlock<T>(a: array<T>, lo: nat, n: nat, x: nat, y: nat, span: nat, ghost was: seq<T>)
    requires lo + n <= a.Length && x + span <= y && y + span <= n && Permuted(was, a[lo..lo + n], 0, n)
    modifies a
    ensures BlocksSwapped(old(a[lo..lo + n]), a[lo..lo + n], x, y, span) && Permuted(was, a[lo..lo + n], 0, n)
    ensures a[..lo] == old(a[..lo]) && a[lo + n..] == old(a[lo + n..])
  {
    hide Permuted, Swapped;
    ghost var s := a[lo..lo + n];
    var j: nat := 0;
    while j < span
      invariant j <= span
      invariant BlocksSwapped(s, a[lo..lo + n], x, y, j) && Permuted(was, a[lo..lo + n], 0, n)
      invariant a[..lo] == old(a[..lo]) && a[lo + n..] == old(a[lo + n..])
    {
      SwapOneMore(s, a[lo..lo + n], x, y, j);
      SwapWithin(a, lo, n, x + j, y + j, was);
      j := j + 1;
    }
  }

  /** The elements up to i: less than the pivot, then equal to it. */
  lemma LeftMiddle<T>(cmp: (T, T) -> int, s: seq<T>, t: seq<T>, p: T, lt: int, i: int, gt: int, span: int)
    requires Bands(cmp, s, p, lt, i, i, gt) && span == (if lt < i - lt then lt else i - lt)
    requires BlocksSwapped(s, t, 0, i - span, span)
    ensures LessBand(cmp, t, p, 0, i - lt) && EqualBand(cmp, t, p, i - lt, i)
    ensures GreaterBand(cmp, t, p, i, gt) && EqualBand(cmp, t, p, gt, |t|)
  {
  }

  /** The elements from i on: equal to the pivot, then greater. */
  lemma RightMiddle<T>(cmp: (T, T) -> int, s: seq<T>, t: seq<T>, p: T, l: int, i: int, gt: int, span: int)
    requires 0 <= l <= i <= gt <= |s| && span == (if |s| - gt < gt - i then |s| - gt else gt - i)
    requires LessBand(cmp, s, p, 0, l) && EqualBand(cmp, s, p, l, i)
    requires GreaterBand(cmp, s, p, i, gt) && EqualBand(cmp, s, p, gt, |s|)
    requires BlocksSwapped(s, t, i, |s| - span, span)
    ensures LessBand(cmp, t, p, 0, l) && EqualBand(cmp, t, p, l, |s| - (gt - i))
    ensures GreaterBand(cmp, t, p, |s| - (gt - i), |t|)
  {
  }

  ghost predicate CutsBetween<T>(cmp: (T, T) -> int, s: seq<T>, l: int, g: int) {
    forall c :: l <= c <= g ==> Cut(cmp, s, c)
  }

  /** Every position in the middle part is a cut. */
  lemma MiddleCuts<T(!new)>(cmp: (T, T) -> int, s: seq<T>, p: T, l: int, g: int)
    requires Comparator(cmp) && 0 <= l <= g <= |s|
    requires LessBand(cmp, s, p, 0, l) && EqualBand(cmp, s, p, l, g) && GreaterBand(cmp, s, p, g, |s|)
    ensures CutsBetween(cmp, s, l, g)
  {
    hide Le, Comparator;
    forall c | l <= c <= g ensures Cut(cmp, s, c) {
      forall x, y | 0 <= x < c <= y < |s| ensures Le(cmp, s[x], s[y]) {
        LeTotal(cmp, p, s[x]);
        LeTotal(cmp, s[x], p);
        LeIs(cmp, p, s[y]);
        LeTransitive(cmp, s[x], p, s[y]);
      }
    }
  }

  /** The elements at one, two and three quarters of the stretch. */
  function Quarters<T>(s: seq<T>): (r: seq<T>)
    requires |s| > 6
    ensures |r| == 3
  {
    [s[|s| / 4], s[2 * (|s| / 4)], s[3 * (|s| / 4)]]
  }

  /** The one in the middle of these becomes the first element. */
  method ChoosePivot<T(!new)>(a: array<T>, lo: nat, n: nat, cmp: (T, T) -> int, ghost was: seq<T>)
    requires Comparator(cmp) && lo + n <= a.Length && n > 6 && was == a[lo..lo + n]
    modifies a
    ensures a[..lo] == old(a[..lo]) && a[lo + n..] == old(a[lo + n..])
    ensures Permuted(was, a[lo..lo + n], 0, n)
    ensures exists which :: Middle(cmp, Quarters(was), which) && a[lo] == Quarters(was)[which]
  {
    hide Comparator, Permuted, Middle;
    PermutedSelf(was, 0, n);
    var m4 := n / 4;
    var which := Med3(a[lo + m4], a[lo + 2 * m4], a[lo + 3 * m4], cmp);
    var m := if which == 0 then m4 else if which == 1 then 2 * m4 else 3 * m4;
    assert [a[lo + m4], a[lo + 2 * m4], a[lo + 3 * m4]] == Quarters(was);
    assert which < 3 by { MiddleIndex(cmp, Quarters(was), which); }
    assert Quarters(was)[which] == was[m];
    SwapWithin(a, lo, n, 0, m, was);
    assert a[lo] == a[lo..lo + n][0];
  }

  lemma MiddleIndex<T>(cmp: (T, T) -> int, s: seq<T>, which: int)
    requires Middle(cmp, s, which)
    ensures |s| == 3 && 0 <= which < 3
  {
  }

  /**
   * One partition of rqsort: afterwards the elements before l are less than the pivot, those from g on are greater, and
   * those between, at least one, are equal to it.
   */
  method Partition<T(!new)>(a: array<T>, lo: nat, n: nat, cmp: (T, T) -> int) returns (l: nat, g: nat)
    requires Comparator(cmp) && lo + n <= a.Length && n > 6
    modifies a
    ensures a[..lo] == old(a[..lo]) && a[lo + n..] == old(a[lo + n..])
    ensures Permuted(old(a[lo..lo + n]), a[lo..lo + n], 0, n)
    ensures l < g <= n && CutsBetween(cmp, a[lo..lo + n], l, g)
  {
    hide Comparator, Permuted, Swapped, Bands, Cut, CutsBetween, Middle, Quarters;
    ghost var was := a[lo..lo + n];
    ChoosePivot(a, lo, n, cmp, was);
    ghost var s0, p := a[lo..lo + n], a[lo];
    var lt, i, gt := Scan(a, lo, n, cmp);
    PermutedTrans(was, s0, a[lo..lo + n], 0, n);
    l, g := JoinEqual(a, lo, n, cmp, lt, i, gt, p, was);
  }

  /** Exchanges the elements equal to the pivot from both ends into the middle. */
  method JoinEqual<T(!new)>(a: array<T>, lo: nat, n: nat, ghost cmp: (T, T) -> int, lt: nat, i: nat, gt: nat,
                            ghost p: T, ghost was: seq<T>)
    returns (l: nat, g: nat)
    requires Comparator(cmp) && lo + n <= a.Length && Bands(cmp, a[lo..lo + n], p, lt, i, i, gt)
    requires Permuted(was, a[lo..lo + n], 0, n)
    modifies a
    ensures a[..lo] == old(a[..lo]) && a[lo + n..] == old(a[lo + n..])
    ensures Permuted(was, a[lo..lo + n], 0, n)
    ensures l < g <= n && CutsBetween(cmp, a[lo..lo + n], l, g)
  {
    hide Comparator, Permuted, Swapped, Bands, BlocksSwapped, EqualBand, LessBand, GreaterBand, Cut, CutsBetween;
    ghost var s1 := a[lo..lo + n];
    BandsRange(cmp, s1, p, lt, i, i, gt);
    var span := if lt < i - lt then lt else i - lt;
    SwapBlock(a, lo, n, 0, i - span, span, was);
    ghost var s2 := a[lo..lo + n];
    LeftMiddle(cmp, s1, s2, p, lt, i, gt, span);
    l := i - lt;
    span := if n - gt < gt - i then n - gt else gt - i;
    SwapBlock(a, lo, n, i, n - span, span, was);
    RightMiddle(cmp, s2, a[lo..lo + n], p, l, i, gt, span);
    g := n - (gt - i);
    MiddleCuts(cmp, a[lo..lo + n], p, l, g);
  }
}
