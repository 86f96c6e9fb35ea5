/** heapsortx of cutils.c: the fallback of rqsort, in place on a stretch of an array. */
module HeapSort {
  import opened Ordering

  function Parent(k: nat): nat
    requires k >= 1
  {
    (k - 1) / 2
  }

  /** Element k is at most its parent. */
  ghost predicate BelowParent<T>(cmp: (T, T) -> int, s: seq<T>, k: nat)
    requires 1 <= k < |s|
  {
    Le(cmp, s[k], s[Parent(k)])
  }

  /** The heap order among the first n elements, for parents from i on. */
  ghost predicate HeapFrom<T>(cmp: (T, T) -> int, s: seq<T>, i: nat, n: nat)
    requires n <= |s|
  {
    forall k :: 1 <= k < n && Parent(k) >= i ==> BelowParent(cmp, s, k)
  }

  /** The heap order except below r, whose children are at most its parent. */
  ghost predicate HeapExcept<T>(cmp: (T, T) -> int, s: seq<T>, i: nat, n: nat, r: nat)
    requires n <= |s|
  {
    && (forall k :: 1 <= k < n && Parent(k) >= i && Parent(k) != r ==> BelowParent(cmp, s, k))
    && (forall k :: 1 <= k < n && Parent(k) == r && 1 <= r && Parent(r) >= i ==> Le(cmp, s[k], s[Parent(r)]))
  }

  /** One step down: the larger child changes places with r. */
  lemma SiftStep<T(!new)>(cmp: (T, T) -> int, s: seq<T>, i: nat, n: nat, r: nat, c: nat)
    requires Comparator(cmp) && n <= |s| && i <= r && 1 <= c < n && Parent(c) == r && HeapExcept(cmp, s, i, n, r)
    requires Le(cmp, s[r], s[c]) && forall k :: 1 <= k < n && Parent(k) == r ==> Le(cmp, s[k], s[c])
    ensures HeapExcept(cmp, Swapped(s, r, c), i, n, c)
  {
    hide Comparator, Le;
    var t := Swapped(s, r, c);
    forall k | 1 <= k < n && Parent(k) >= i && Parent(k) != c ensures BelowParent(cmp, t, k) {
      if Parent(k) != r && k != r { assert BelowParent(cmp, s, k); }
    }
    forall k | 1 <= k < n && Parent(k) == c ensures Le(cmp, t[k], t[Parent(c)]) {
      assert BelowParent(cmp, s, k);
    }
  }

  /** The descent ends where r is above its children. */
  lemma SiftEnd<T(!new)>(cmp: (T, T) -> int, s: seq<T>, i: nat, n: nat, r: nat)
    requires n <= |s| && HeapExcept(cmp, s, i, n, r)
    requires forall k :: 1 <= k < n && Parent(k) == r ==> Le(cmp, s[k], s[r])
    ensures HeapFrom(cmp, s, i, n)
  {
    hide Le;
    forall k | 1 <= k < n && Parent(k) >= i ensures BelowParent(cmp, s, k) {
    }
  }

  lemma SiftStart<T(!new)>(cmp: (T, T) -> int, s: seq<T>, i: nat, n: nat)
    requires n <= |s| && HeapFrom(cmp, s, i + 1, n)
    ensures HeapExcept(cmp, s, i, n, i)
  {
  }

  /** The root of a heap is its greatest element. */
  lemma {:induction false} RootIsGreatest<T(!new)>(cmp: (T, T) -> int, s: seq<T>, n: nat, k: nat)
    requires Comparator(cmp) && k < n <= |s| && HeapFrom(cmp, s, 0, n)
    ensures Le(cmp, s[k], s[0])
  {
    hide Comparator, Le;
    if k == 0 {
      LeTotal(cmp, s[0], s[0]);
    } else {
      RootIsGreatest(cmp, s, n, Parent(k));
      assert BelowParent(cmp, s, k);
      LeTransitive(cmp, s[k], s[Parent(k)], s[0]);
    }
  }

  /** Swaps two elements of the stretch of n elements from lo on. */
  method Swap<T>(a: array<T>, lo: nat, n: nat, i: nat, j: nat)
    requires lo + n <= a.Length && i < n && j < n
    modifies a
    ensures a[lo..lo + n] == Swapped(old(a[lo..lo + n]), i, j)
    ensures a[..lo] == old(a[..lo]) && a[lo + n..] == old(a[lo + n..])
  {
    a[lo + i], a[lo + j] := a[lo + j], a[lo + i];
  }

  /** A swap that keeps the stretch a permutation of what it was. */
  method SwapWithin<T>(a: array<T>, lo: nat, n: nat, i: nat, j: nat, ghost was: seq<T>)
    requires lo + n <= a.Length && i < n && j < n && Permuted(was, a[lo..lo + n], 0, n)
    modifies a
    ensures a[lo..lo + n] == Swapped(old(a[lo..lo + n]), i, j) && Permuted(was, a[lo..lo + n], 0, n)
    ensures a[..lo] == old(a[..lo]) && a[lo + n..] == old(a[lo + n..])
  {
    hide Permuted, Swapped;
    ghost var s := a[lo..lo + n];
    Swap(a, lo, n, i, j);
    SwappedPermuted(s, i, j, 0, n);
    PermutedTrans(was, s, a[lo..lo + n], 0, n);
  }

  /** Lets element r sink to its place among the first n of the stretch. */
  method SiftDown<T(!new)>(a: array<T>, lo: nat, size: nat, i: nat, n: nat, cmp: (T, T) -> int)
    requires Comparator(cmp) && lo + size <= a.Length && i < n <= size
    requires HeapExcept(cmp, a[lo..lo + size], i, n, i)
    modifies a
    ensures a[..lo] == old(a[..lo]) && a[lo + size..] == old(a[lo + size..])
    ensures Permuted(old(a[lo..lo + size]), a[lo..lo + size], 0, n)
    ensures HeapFrom(cmp, a[lo..lo + size], i, n)
  {
    hide Comparator, Le, HeapExcept, HeapFrom, Permuted, Swapped;
    var r := i;
    PermutedSelf(a[lo..lo + size], 0, n);
    while 2 * r + 1 < n
      invariant i <= r < n
      invariant HeapExcept(cmp, a[lo..lo + size], i, n, r)
      invariant Permuted(old(a[lo..lo + size]), a[lo..lo + size], 0, n)
      invariant a[..lo] == old(a[..lo]) && a[lo + size..] == old(a[lo + size..])
      decreases n - r
    {
      ghost var s := a[lo..lo + size];
      var c := 2 * r + 1;
      if c < n - 1 && cmp(a[lo + c], a[lo + c + 1]) <= 0 {
        c := c + 1;
      }
      LargerChild(cmp, s, n, r, c);
      if cmp(a[lo + r], a[lo + c]) > 0 {
        LargerThanChildren(cmp, s, n, r, c);
        break;
      }
      assert Le(cmp, s[r], s[c]) by { LeIs(cmp, s[r], s[c]); }
      SiftStep(cmp, s, i, n, r, c);
      Swap(a, lo, size, r, c);
      SwappedPermuted(s, r, c, 0, n);
      PermutedTrans(old(a[lo..lo + size]), s, a[lo..lo + size], 0, n);
      r := c;
    }
    SiftEnd(cmp, a[lo..lo + size], i, n, r);
  }

  lemma LeIs<T>(cmp: (T, T) -> int, x: T, y: T)
    ensures Le(cmp, x, y) <==> cmp(x, y) <= 0
  {
  }

  lemma PermutedSelf<T>(s: seq<T>, lo: int, hi: int)
    requires 0 <= lo <= hi <= |s|
    ensures Permuted(s, s, lo, hi)
  {
  }

  /** The child that the comparison selects is the larger one. */
  lemma LargerChild<T(!new)>(cmp: (T, T) -> int, s: seq<T>, n: nat, r: nat, c: nat)
    requires Comparator(cmp) && n <= |s| && 2 * r + 1 < n
    requires c == if 2 * r + 1 < n - 1 && cmp(s[2 * r + 1], s[2 * r + 2]) <= 0 then 2 * r + 2 else 2 * r + 1
    ensures c < n && Parent(c) == r && forall k :: 1 <= k < n && Parent(k) == r ==> Le(cmp, s[k], s[c])
  {
    hide Comparator;
    forall k | 1 <= k < n && Parent(k) == r ensures Le(cmp, s[k], s[c]) {
      assert k == 2 * r + 1 || k == 2 * r + 2;
      LeTotal(cmp, s[k], s[c]);
    }
  }

  lemma LargerThanChildren<T(!new)>(cmp: (T, T) -> int, s: seq<T>, n: nat, r: nat, c: nat)
    requires Comparator(cmp) && n <= |s| && r < n && c < n && cmp(s[r], s[c]) > 0
    requires forall k :: 1 <= k < n && Parent(k) == r ==> Le(cmp, s[k], s[c])
    ensures forall k :: 1 <= k < n && Parent(k) == r ==> Le(cmp, s[k], s[r])
  {
    LeTotal(cmp, s[r], s[c]);
    hide Comparator, Le;
    forall k | 1 <= k < n && Parent(k) == r ensures Le(cmp, s[k], s[r]) {
      LeTransitive(cmp, s[k], s[c], s[r]);
    }
  }

  /** From position m on everything is in its place. */
  ghost predicate CutsFrom<T>(cmp: (T, T) -> int, s: seq<T>, m: int) {
    forall c :: m <= c <= |s| ==> Cut(cmp, s, c)
  }

  lemma CutsAtEnd<T>(cmp: (T, T) -> int, s: seq<T>)
    ensures CutsFrom(cmp, s, |s|)
  {
  }

  lemma PermutedWider<T>(s: seq<T>, t: seq<T>, n: int, m: int)
    requires Permuted(s, t, 0, n) && n <= m <= |s|
    ensures Permuted(s, t, 0, m)
  {
    assert s[0..m] == s[0..n] + s[n..m] && t[0..m] == t[0..n] + t[n..m];
    assert s[n..m] == s[n..][..m - n] && t[n..m] == t[n..][..m - n];
    assert s[m..] == s[n..][m - n..] && t[m..] == t[n..][m - n..];
  }

  /** Reordering the first n elements keeps the cuts from n on. */
  lemma CutsKept<T>(cmp: (T, T) -> int, s: seq<T>, t: seq<T>, n: int)
    requires Permuted(s, t, 0, n) && CutsFrom(cmp, s, n)
    ensures CutsFrom(cmp, t, n)
  {
    hide Cut;
    forall c | n <= c <= |t| ensures Cut(cmp, t, c) {
      CutKept(cmp, s, t, 0, n, c);
    }
  }

  /** Taking the root of a heap of i + 1 elements to its end makes position i a cut. */
  lemma RootToEnd<T(!new)>(cmp: (T, T) -> int, s: seq<T>, i: nat)
    requires Comparator(cmp) && 1 <= i < |s| && HeapFrom(cmp, s, 0, i + 1) && CutsFrom(cmp, s, i + 1)
    ensures CutsFrom(cmp, Swapped(s, 0, i), i)
    ensures HeapExcept(cmp, Swapped(s, 0, i), 0, i, 0)
  {
    hide Comparator, Le;
    var t := Swapped(s, 0, i);
    SwappedPermuted(s, 0, i, 0, i + 1);
    CutsKept(cmp, s, t, i + 1);
    forall x, y | 0 <= x < i <= y < |t| ensures Le(cmp, t[x], t[y]) {
      if y == i {
        RootIsGreatest(cmp, s, i + 1, if x == 0 then i else x);
      } else {
        assert Cut(cmp, t, i + 1);
      }
    }
    assert Cut(cmp, t, i);
    forall k | 1 <= k < i && Parent(k) >= 0 && Parent(k) != 0 ensures BelowParent(cmp, t, k) {
      assert BelowParent(cmp, s, k);
    }
  }

  /** The elements past the middle have no children. */
  lemma LeavesAreHeap<T>(cmp: (T, T) -> int, s: seq<T>)
    ensures HeapFrom(cmp, s, |s| / 2, |s|)
  {
  }

  /** heapsortx: sorts the stretch of size elements from lo on. */
  method HeapSortX<T(!new)>(a: array<T>, lo: nat, size: nat, cmp: (T, T) -> int)
    requires Comparator(cmp) && lo + size <= a.Length
    modifies a
    ensures a[..lo] == old(a[..lo]) && a[lo + size..] == old(a[lo + size..])
    ensures multiset(a[lo..lo + size]) == multiset(old(a[lo..lo + size])) && SortedBy(cmp, a[lo..lo + size])
  {
    hide Comparator, Le, Cut, HeapFrom, HeapExcept, Permuted, Swapped, CutsFrom;
    ghost var was := a[lo..lo + size];
    PermutedSelf(was, 0, size);
    if size > 1 {
      var i: nat := size / 2;
      assert |was| == size;
      LeavesAreHeap(cmp, was);
      while i > 0
        invariant i <= size / 2
        invariant HeapFrom(cmp, a[lo..lo + size], i, size) && Permuted(was, a[lo..lo + size], 0, size)
        invariant a[..lo] == old(a[..lo]) && a[lo + size..] == old(a[lo + size..])
      {
        i := i - 1;
        ghost var s := a[lo..lo + size];
        SiftStart(cmp, s, i, size);
        SiftDown(a, lo, size, i, size, cmp);
        PermutedTrans(was, s, a[lo..lo + size], 0, size);
      }
      i := size - 1;
      CutsAtEnd(cmp, a[lo..lo + size]);
      assert |a[lo..lo + size]| == i + 1;
      while i > 0
        invariant i < size
        invariant HeapFrom(cmp, a[lo..lo + size], 0, i + 1) && CutsFrom(cmp, a[lo..lo + size], i + 1)
        invariant Permuted(was, a[lo..lo + size], 0, size)
        invariant a[..lo] == old(a[..lo]) && a[lo + size..] == old(a[lo + size..])
      {
        ghost var s := a[lo..lo + size];
        RootToEnd(cmp, s, i);
        Swap(a, lo, size, 0, i);
        ghost var t := a[lo..lo + size];
        SwappedPermuted(s, 0, i, 0, size);
        SiftDown(a, lo, size, 0, i, cmp);
        CutsKept(cmp, t, a[lo..lo + size], i);
        PermutedWider(t, a[lo..lo + size], i, size);
        PermutedTrans(was, s, t, 0, size);
        PermutedTrans(was, t, a[lo..lo + size], 0, size);
        i := i - 1;
      }
    } else {
      Short(cmp, was);
    }
    Finished(cmp, was, a[lo..lo + size], size);
  }

  lemma Short<T>(cmp: (T, T) -> int, s: seq<T>)
    requires |s| <= 1
    ensures CutsFrom(cmp, s, 1)
  {
  }

  lemma Finished<T>(cmp: (T, T) -> int, s: seq<T>, t: seq<T>, size: nat)
    requires |t| == size && Permuted(s, t, 0, size) && CutsFrom(cmp, t, 1)
    ensures SortedBy(cmp, t) && multiset(t) == multiset(s)
  {
    hide Le;
    PermutedWhole(s, t, 0, size);
    assert Cut(cmp, t, 0);
    AllCuts(cmp, t);
  }
}
