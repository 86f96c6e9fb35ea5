/** Character sets as sorted lists of points: an even-length list p0 < p1 < ... denotes [p0,p1) + [p2,p3) + ... */
module CharSets {

  const UINT32_MAX: int := 0xffff_ffff

  type Points = seq<int>

  ghost predicate InU32(p: Points) {
    forall i :: 0 <= i < |p| ==> 0 <= p[i] <= UINT32_MAX
  }

  ghost predicate Sorted(p: Points) {
    forall i, j :: 0 <= i < j < |p| ==> p[i] <= p[j]
  }

  ghost predicate StrictlyIncreasing(p: Points) {
    forall i, j :: 0 <= i < j < |p| ==> p[i] < p[j]
  }

  /** The normal form that cr_compress produces: at most one list per set. */
  ghost predicate Canonical(p: Points) {
    |p| % 2 == 0 && StrictlyIncreasing(p) && InU32(p)
  }

  /** c lies in the k-th interval of p. */
  ghost predicate InInterval(p: Points, k: int, c: int) {
    0 <= k && 2 * k + 1 < |p| && p[2 * k] <= c < p[2 * k + 1]
  }

  ghost predicate Member(p: Points, c: int) {
    exists k :: InInterval(p, k, c)
  }
}
