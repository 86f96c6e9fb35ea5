/**
 * Comparators, permutations of a stretch of a sequence, and cut positions: the notions that the sorting proofs share.
 */
module Ordering {

  /** A comparator of C: negative, zero or positive, and consistent with a total preorder. */
  ghost predicate Comparator<T(!new)>(cmp: (T, T) -> int) {
    && (forall x, y :: cmp(x, y) <= 0 <==> cmp(y, x) >= 0)
    && (forall x, y, z :: cmp(x, y) <= 0 && cmp(y, z) <= 0 ==> cmp(x, z) <= 0)
  }

  predicate Le<T>(cmp: (T, T) -> int, x: T, y: T) {
    cmp(x, y) <= 0
  }

  lemma LeTransitive<T(!new)>(cmp: (T, T) -> int, x: T, y: T, z: T)
    requires Comparator(cmp) && Le(cmp, x, y) && Le(cmp, y, z)
    ensures Le(cmp, x, z)
  {
  }

  lemma LeTotal<T(!new)>(cmp: (T, T) -> int, x: T, y: T)
    requires Comparator(cmp)
    ensures Le(cmp, x, y) || Le(cmp, y, x)
    ensures cmp(x, y) >= 0 <==> Le(cmp, y, x)
    ensures Le(cmp, x, x)
  {
    assert cmp(x, x) <= 0 <==> cmp(x, x) >= 0;
  }

  ghost predicate SortedBy<T>(cmp: (T, T) -> int, s: seq<T>) {
    forall i, j :: 0 <= i < j < |s| ==> Le(cmp, s[i], s[j])
  }

  /** Everything before position c is at most everything from c on. */
  ghost predicate Cut<T>(cmp: (T, T) -> int, s: seq<T>, c: int) {
    forall i, j :: 0 <= i < c <= j < |s| ==> Le(cmp, s[i], s[j])
  }

  /** A sequence is sorted when every position is a cut. */
  lemma AllCuts<T>(cmp: (T, T) -> int, s: seq<T>)
    requires forall c :: 0 <= c <= |s| ==> Cut(cmp, s, c)
    ensures SortedBy(cmp, s)
  {
    forall i, j | 0 <= i < j < |s| ensures Le(cmp, s[i], s[j]) {
      assert Cut(cmp, s, j);
    }
  }

  // ----- permutations of a stretch -----

  /** t is s with the elements from lo to hi in another order. */
  ghost predicate Permuted<T>(s: seq<T>, t: seq<T>, lo: int, hi: int) {
    && |s| == |t| && 0 <= lo <= hi <= |s|
    && s[..lo] == t[..lo] && s[hi..] == t[hi..] && multiset(s[lo..hi]) == multiset(t[lo..hi])
  }

  lemma PermutedWhole<T>(s: seq<T>, t: seq<T>, lo: int, hi: int)
    requires Permuted(s, t, lo, hi)
    ensures multiset(s) == multiset(t)
  {
    assert s == s[..lo] + s[lo..hi] + s[hi..];
    assert t == t[..lo] + t[lo..hi] + t[hi..];
  }

  /** An element of the stretch comes from the stretch. */
  lemma PermutedSource<T>(s: seq<T>, t: seq<T>, lo: int, hi: int, j: int) returns (i: int)
    requires Permuted(s, t, lo, hi) && lo <= j < hi
    ensures lo <= i < hi && s[i] == t[j]
  {
    assert t[lo..hi][j - lo] in multiset(t[lo..hi]);
    assert t[j] in multiset(s[lo..hi]);
    var k :| 0 <= k < hi - lo && s[lo..hi][k] == t[j];
    i := lo + k;
  }

  /** Reordering a stretch keeps the cuts outside it. */
  lemma CutKept<T>(cmp: (T, T) -> int, s: seq<T>, t: seq<T>, lo: int, hi: int, c: int)
    requires Permuted(s, t, lo, hi) && (c <= lo || hi <= c) && Cut(cmp, s, c)
    ensures Cut(cmp, t, c)
  {
    hide Permuted, Le;
    forall i, j | 0 <= i < c <= j < |t| ensures Le(cmp, t[i], t[j]) {
      var i0 := SourceOf(s, t, lo, hi, i);
      var j0 := SourceOf(s, t, lo, hi, j);
    }
  }

  lemma SourceOf<T>(s: seq<T>, t: seq<T>, lo: int, hi: int, j: int) returns (i: int)
    requires Permuted(s, t, lo, hi) && 0 <= j < |t|
    ensures |s| == |t| && 0 <= i < |s| && s[i] == t[j]
    ensures if lo <= j < hi then lo <= i < hi else i == j
  {
    if lo <= j < hi {
      i := PermutedSource(s, t, lo, hi, j);
    } else {
      i := j;
      if j < lo { assert s[..lo][j] == t[..lo][j]; } else { assert s[hi..][j - hi] == t[hi..][j - hi]; }
    }
  }

  /** Cuts at both ends and a cut of the stretch itself make a cut of the whole. */
  lemma InnerCut<T(!new)>(cmp: (T, T) -> int, s: seq<T>, lo: int, hi: int, c: int)
    requires Comparator(cmp) && 0 <= lo <= c <= hi <= |s| && Cut(cmp, s, lo) && Cut(cmp, s, hi)
    requires Cut(cmp, s[lo..hi], c - lo)
    ensures Cut(cmp, s, c)
  {
    hide Comparator, Le;
    forall i, j | 0 <= i < c <= j < |s| ensures Le(cmp, s[i], s[j]) {
      if lo <= i && j < hi {
        assert s[lo..hi][i - lo] == s[i] && s[lo..hi][j - lo] == s[j];
      }
    }
  }

  /** A sorted stretch between cuts consists of cuts. */
  lemma SortedStretch<T(!new)>(cmp: (T, T) -> int, s: seq<T>, lo: int, hi: int, c: int)
    requires Comparator(cmp) && 0 <= lo <= c <= hi <= |s| && Cut(cmp, s, lo) && Cut(cmp, s, hi)
    requires SortedBy(cmp, s[lo..hi])
    ensures Cut(cmp, s, c)
  {
    hide Comparator, Le;
    InnerCut(cmp, s, lo, hi, c);
  }

  // ----- swaps -----

  function Swapped<T>(s: seq<T>, i: nat, j: nat): (t: seq<T>)
    requires i < |s| && j < |s|
    ensures |t| == |s| && t[i] == s[j] && t[j] == s[i] && forall k :: 0 <= k < |s| && k != i && k != j ==> t[k] == s[k]
  {
    s[i := s[j]][j := s[i]]
  }

  lemma SwappedMultiset<T>(s: seq<T>, i: nat, j: nat)
    requires i < |s| && j < |s|
    ensures multiset(Swapped(s, i, j)) == multiset(s)
  {
    if i == j { assert Swapped(s, i, j) == s; }
  }

  lemma PermutedTrans<T>(s: seq<T>, t: seq<T>, u: seq<T>, lo: int, hi: int)
    requires Permuted(s, t, lo, hi) && Permuted(t, u, lo, hi)
    ensures Permuted(s, u, lo, hi)
  {
  }

  lemma SwappedPermuted<T>(s: seq<T>, i: nat, j: nat, lo: int, hi: int)
    requires 0 <= lo <= i < hi <= |s| && lo <= j < hi
    ensures Permuted(s, Swapped(s, i, j), lo, hi)
  {
    assert Swapped(s, i, j)[lo..hi] == Swapped(s[lo..hi], i - lo, j - lo);
    SwappedMultiset(s[lo..hi], i - lo, j - lo);
  }

  // ----- the lexicographic order of texts -----

  /** a comes before b in the order of their first difference. */
  ghost predicate Precedes(a: seq<int>, b: seq<int>) {
    exists i :: 0 <= i < |b| && i <= |a| && FirstDifference(a, b, i)
  }

  ghost predicate FirstDifference(a: seq<int>, b: seq<int>, i: int)
    requires 0 <= i < |b| && i <= |a|
  {
    a[..i] == b[..i] && (i == |a| || a[i] < b[i])
  }
}
