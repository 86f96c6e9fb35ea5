/**
 * Canonical ordering: sorting of combining characters by class, between characters of class 0, which stay where they
 * are.
 */
module CanonicalOrder {

  /** ch added at the end and moved in front of the characters of a higher class, but past no starter. */
  function Insert(cc: int -> int, s: seq<int>, ch: int): (r: seq<int>)
    ensures |r| == |s| + 1
  {
    if cc(ch) == 0 || s == [] || cc(s[|s| - 1]) <= cc(ch) then s + [ch]
    else Insert(cc, s[..|s| - 1], ch) + [s[|s| - 1]]
  }

  function InsertAll(cc: int -> int, s: seq<int>, t: seq<int>): (r: seq<int>)
    ensures |r| == |s| + |t|
  {
    if t == [] then s else Insert(cc, InsertAll(cc, s, t[..|t| - 1]), t[|t| - 1])
  }

  /** The canonical order of t. */
  function Reorder(cc: int -> int, t: seq<int>): (r: seq<int>)
    ensures |r| == |t|
  {
    InsertAll(cc, [], t)
  }

  /** The characters at i and i + 1 may be, and in canonical order have to be, exchanged. */
  predicate OutOfOrder(cc: int -> int, s: seq<int>, i: nat)
    requires i + 1 < |s|
  {
    cc(s[i]) > cc(s[i + 1]) > 0
  }

  ghost predicate Ordered(cc: int -> int, s: seq<int>) {
    forall i :: 0 <= i < |s| - 1 ==> !OutOfOrder(cc, s, i)
  }

  ghost predicate ClassesOk(cc: int -> int) {
    forall c :: 0 <= cc(c) <= 255
  }

  // ----- what the canonical order is -----

  lemma InsertAllSnoc(cc: int -> int, s: seq<int>, t: seq<int>, ch: int)
    ensures InsertAll(cc, s, t + [ch]) == Insert(cc, InsertAll(cc, s, t), ch)
  {
    assert (t + [ch])[..|t|] == t;
  }

  lemma {:induction false} InsertAllConcat(cc: int -> int, s: seq<int>, t: seq<int>, u: seq<int>)
    ensures InsertAll(cc, s, t + u) == InsertAll(cc, InsertAll(cc, s, t), u)
    decreases |u|
  {
    if u == [] {
      assert t + u == t;
    } else {
      var init := u[..|u| - 1];
      InsertAllConcat(cc, s, t, init);
      assert t + u == (t + init) + [u[|u| - 1]];
      InsertAllSnoc(cc, s, t + init, u[|u| - 1]);
    }
  }

  lemma {:induction false} InsertOrdered(cc: int -> int, s: seq<int>, ch: int)
    requires Ordered(cc, s)
    ensures Ordered(cc, Insert(cc, s, ch))
    ensures Insert(cc, s, ch)[|s|] == ch || (|s| > 0 && Insert(cc, s, ch)[|s|] == s[|s| - 1] && cc(s[|s| - 1]) > cc(ch))
    decreases |s|
  {
    var r := Insert(cc, s, ch);
    if cc(ch) == 0 || s == [] || cc(s[|s| - 1]) <= cc(ch) {
      OrderedSnoc(cc, s, ch);
    } else {
      var init, last := s[..|s| - 1], s[|s| - 1];
      assert s == init + [last];
      OrderedPrefix(cc, s, |s| - 1);
      InsertOrdered(cc, init, ch);
      if |init| > 0 { assert !OutOfOrder(cc, s, |init| - 1); }
      OrderedSnoc(cc, Insert(cc, init, ch), last);
    }
  }

  lemma OrderedPrefix(cc: int -> int, s: seq<int>, n: nat)
    requires Ordered(cc, s) && n <= |s|
    ensures Ordered(cc, s[..n])
  {
    forall i | 0 <= i < n - 1 ensures !OutOfOrder(cc, s[..n], i) { assert !OutOfOrder(cc, s, i); }
  }

  lemma OrderedSnoc(cc: int -> int, s: seq<int>, ch: int)
    requires Ordered(cc, s) && (s == [] || cc(s[|s| - 1]) <= cc(ch) || cc(ch) <= 0)
    ensures Ordered(cc, s + [ch])
  {
    forall i | 0 <= i < |s + [ch]| - 1 ensures !OutOfOrder(cc, s + [ch], i) {
      if i + 1 < |s| { assert !OutOfOrder(cc, s, i); }
    }
  }

  /** The result is in canonical order, a permutation of t, and starters keep their places. */
  lemma {:induction false} ReorderIsCanonical(cc: int -> int, t: seq<int>)
    ensures Ordered(cc, Reorder(cc, t))
    ensures multiset(Reorder(cc, t)) == multiset(t)
    decreases |t|
  {
    if t != [] {
      var init, last := t[..|t| - 1], t[|t| - 1];
      assert t == init + [last];
      ReorderIsCanonical(cc, init);
      InsertOrdered(cc, Reorder(cc, init), last);
      InsertPermutes(cc, Reorder(cc, init), last);
    }
  }

  lemma {:induction false} InsertPermutes(cc: int -> int, s: seq<int>, ch: int)
    ensures multiset(Insert(cc, s, ch)) == multiset(s) + multiset{ch}
    decreases |s|
  {
    if !(cc(ch) == 0 || s == [] || cc(s[|s| - 1]) <= cc(ch)) {
      InsertPermutes(cc, s[..|s| - 1], ch);
      assert s == s[..|s| - 1] + [s[|s| - 1]];
    }
  }

  lemma {:induction false} InsertKeepsStarters(cc: int -> int, s: seq<int>, ch: int, i: nat)
    requires ClassesOk(cc) && i < |s| && cc(s[i]) == 0
    ensures Insert(cc, s, ch)[i] == s[i]
    decreases |s|
  {
    if !(cc(ch) == 0 || cc(s[|s| - 1]) <= cc(ch)) { InsertKeepsStarters(cc, s[..|s| - 1], ch, i); }
  }

  lemma {:induction false} ReorderKeepsStarters(cc: int -> int, t: seq<int>, i: nat)
    requires ClassesOk(cc) && i < |t| && cc(t[i]) == 0
    ensures Reorder(cc, t)[i] == t[i]
    decreases |t|
  {
    var init := t[..|t| - 1];
    if i < |init| {
      ReorderKeepsStarters(cc, init, i);
      InsertKeepsStarters(cc, Reorder(cc, init), t[|t| - 1], i);
    }
  }

  /** What is in canonical order already stays as it is. */
  lemma {:induction false} ReorderFixed(cc: int -> int, t: seq<int>)
    requires Ordered(cc, t) && ClassesOk(cc)
    ensures Reorder(cc, t) == t
    decreases |t|
  {
    if t != [] {
      var init, last := t[..|t| - 1], t[|t| - 1];
      OrderedPrefix(cc, t, |t| - 1);
      ReorderFixed(cc, init);
      if |init| > 0 { assert !OutOfOrder(cc, t, |init| - 1); }
      assert init + [last] == t;
    }
  }

  /** Of two characters of different nonzero classes, the order does not matter. */
  lemma {:induction false} InsertSwap(cc: int -> int, s: seq<int>, x: int, y: int)
    requires 0 < cc(x) < cc(y)
    ensures Insert(cc, Insert(cc, s, x), y) == Insert(cc, Insert(cc, s, y), x)
    decreases |s|
  {
    if s == [] || cc(s[|s| - 1]) <= cc(x) {
      assert (s + [y])[..|s|] == s;
    } else {
      var init, last := s[..|s| - 1], s[|s| - 1];
      var sx := Insert(cc, init, x) + [last];
      assert sx[..|s|] == Insert(cc, init, x) && sx[|s|] == last;
      if cc(last) <= cc(y) {
        assert (s + [y])[..|s|] == s;
      } else {
        var sy := Insert(cc, init, y) + [last];
        assert sy[..|s|] == Insert(cc, init, y) && sy[|s|] == last;
        InsertSwap(cc, init, x, y);
      }
    }
  }

  /** Exchanging two adjacent characters of different nonzero classes does not change the canonical order. */
  lemma ReorderSwap(cc: int -> int, a: seq<int>, x: int, y: int, b: seq<int>)
    requires cc(x) > 0 && cc(y) > 0 && cc(x) != cc(y)
    ensures Reorder(cc, a + [x, y] + b) == Reorder(cc, a + [y, x] + b)
  {
    InsertAllConcat(cc, [], a + [x, y], b);
    InsertAllConcat(cc, [], a + [y, x], b);
    TwoMore(cc, a, x, y);
    TwoMore(cc, a, y, x);
    if cc(x) < cc(y) { InsertSwap(cc, Reorder(cc, a), x, y); } else { InsertSwap(cc, Reorder(cc, a), y, x); }
  }

  lemma TwoMore(cc: int -> int, a: seq<int>, x: int, y: int)
    ensures Reorder(cc, a + [x, y]) == Insert(cc, Insert(cc, Reorder(cc, a), x), y)
  {
    assert a + [x, y] == (a + [x]) + [y];
    InsertAllSnoc(cc, [], a + [x], y);
    InsertAllSnoc(cc, [], a, x);
  }

  /** A character may be moved in front of characters of lower nonzero classes. */
  lemma {:induction false} ReorderMove(cc: int -> int, a: seq<int>, b: seq<int>, ch: int)
    requires forall i :: 0 <= i < |b| ==> 0 < cc(b[i]) < cc(ch)
    ensures Reorder(cc, a + [ch] + b) == Reorder(cc, a + b + [ch])
    decreases |b|
  {
    hide Reorder, Insert;
    if b == [] {
      assert a + [ch] + b == a + b + [ch];
    } else {
      var init, last := b[..|b| - 1], b[|b| - 1];
      ReorderMove(cc, a, init, ch);
      ReorderSnoc(cc, a + [ch] + init, last);
      ReorderSnoc(cc, a + init + [ch], last);
      ReorderSwap(cc, a + init, ch, last, []);
      assert a + [ch] + b == (a + [ch] + init) + [last];
      assert (a + init + [ch]) + [last] == a + init + [ch, last] + [];
      assert a + b + [ch] == a + init + [last, ch] + [];
    }
  }

  lemma ReorderSnoc(cc: int -> int, a: seq<int>, ch: int)
    ensures Reorder(cc, a + [ch]) == Insert(cc, Reorder(cc, a), ch)
  {
    InsertAllSnoc(cc, [], a, ch);
  }

  // ----- the sorting loop -----

  class Text {
    var buf: seq<int>

    constructor (buf: seq<int>)
      ensures this.buf == buf
    {
      this.buf := buf;
    }

    /** sort_cc: insertion sort of each run of characters of nonzero class, in place. */
    method SortCc(cc: int -> int)
      requires ClassesOk(cc)
      modifies this
      ensures buf == Reorder(cc, old(buf))
    {
      hide Reorder;
      ghost var was := buf;
      var len := |buf|;
      var i := 0;
      SortedStart(cc, was);
      while i < len
        invariant 0 <= i <= len + 1 && |buf| == len == |was|
        invariant i <= len ==> SortedUpTo(cc, buf, was, i) && (i > 0 ==> cc(buf[i - 1]) == 0)
        invariant i == len + 1 ==> SortedUpTo(cc, buf, was, len)
      {
        if cc(buf[i]) != 0 {
          var start := i;
          var j := i + 1;
          SortedNext(cc, buf, was, i);
          while j < len
            invariant start < j <= len && |buf| == len && SortedUpTo(cc, buf, was, j)
            invariant start > 0 ==> cc(buf[start - 1]) == 0
            decreases len - j
          {
            if cc(buf[j]) == 0 {
              break;
            }
            ghost var before := buf;
            InsertInRun(cc, start, j);
            SortedInsert(cc, before, buf, was, j);
            j := j + 1;
          }
          if j < len { SortedNext(cc, buf, was, j); }
          i := j;
        } else {
          SortedNext(cc, buf, was, i);
        }
        i := i + 1;
      }
      SortedEnd(cc, buf, was);
    }

    /** Moves the character at j back to its place in the run from start on. */
    method InsertInRun(cc: int -> int, start: nat, j: nat)
      requires start < j < |buf| && ClassesOk(cc) && cc(buf[j]) != 0
      requires start > 0 ==> cc(buf[start - 1]) == 0
      modifies this
      ensures buf == Insert(cc, old(buf)[..j], old(buf)[j]) + old(buf)[j + 1..] && |buf| == |old(buf)|
      ensures start > 0 ==> cc(buf[start - 1]) == 0
    {
      hide Shifting, Insert;
      ghost var was := buf;
      var ch1 := buf[j];
      var k := j - 1;
      ShiftingStart(cc, was, j);
      while k >= start
        invariant start - 1 <= k < j && |buf| == |was| && Shifting(cc, buf, was, j, k)
      {
        ShiftingAt(cc, buf, was, j, k);
        if cc(buf[k]) <= cc(ch1) {
          break;
        }
        ShiftingStep(cc, buf, was, j, k);
        buf := buf[k + 1 := buf[k]];
        k := k - 1;
      }
      ShiftingAt(cc, buf, was, j, k);
      ShiftingEnd(cc, buf, was, j, k);
      buf := buf[k + 1 := ch1];
    }
  }

  /** The characters of was from k + 1 up to j have moved up by one place, to make room for was[j]. */
  ghost predicate Shifting(cc: int -> int, buf: seq<int>, was: seq<int>, j: nat, k: int) {
    && -1 <= k < j < |was| == |buf|
    && buf[..k + 1] == was[..k + 1] && buf[k + 2..j + 1] == was[k + 1..j] && buf[j + 1..] == was[j + 1..]
    && Insert(cc, was[..j], was[j]) == Insert(cc, was[..k + 1], was[j]) + was[k + 1..j]
  }

  lemma ShiftingStart(cc: int -> int, was: seq<int>, j: nat)
    requires j < |was|
    ensures Shifting(cc, was, was, j, j - 1)
  {
  }

  lemma ShiftingAt(cc: int -> int, buf: seq<int>, was: seq<int>, j: nat, k: int)
    requires Shifting(cc, buf, was, j, k)
    ensures forall i :: 0 <= i <= k ==> buf[i] == was[i]
    ensures buf[j + 1..] == was[j + 1..]
  {
    hide Insert;
    forall i | 0 <= i <= k ensures buf[i] == was[i] { assert buf[..k + 1][i] == was[..k + 1][i]; }
  }

  lemma ShiftingStep(cc: int -> int, buf: seq<int>, was: seq<int>, j: nat, k: nat)
    requires Shifting(cc, buf, was, j, k) && cc(was[k]) > cc(was[j]) && cc(was[j]) != 0
    ensures Shifting(cc, buf[k + 1 := buf[k]], was, j, k - 1)
  {
    var next := buf[k + 1 := buf[k]];
    ShiftingAt(cc, buf, was, j, k);
    assert next[k + 1..j + 1] == [buf[k]] + buf[k + 2..j + 1];
    assert was[k..j] == [was[k]] + was[k + 1..j];
    assert next[..k] == was[..k];
    assert was[..k + 1][..k] == was[..k] && was[..k + 1][k] == was[k];
    assert next[j + 1..] == was[j + 1..];
  }

  lemma ShiftingEnd(cc: int -> int, buf: seq<int>, was: seq<int>, j: nat, k: int)
    requires Shifting(cc, buf, was, j, k) && (k < 0 || cc(was[k]) <= cc(was[j]))
    ensures buf[k + 1 := was[j]] == Insert(cc, was[..j], was[j]) + was[j + 1..]
  {
    var next := buf[k + 1 := was[j]];
    var above := buf[k + 2..];
    assert above == buf[k + 2..j + 1] + buf[j + 1..];
    assert next == buf[..k + 1] + [was[j]] + above;
    assert k >= 0 ==> was[..k + 1][k] == was[k];
  }

  /** The first i characters are sorted, the others untouched. */
  ghost predicate SortedUpTo(cc: int -> int, buf: seq<int>, was: seq<int>, i: nat) {
    i <= |was| && |buf| == |was| && buf[..i] == Reorder(cc, was[..i]) && buf[i..] == was[i..]
  }

  lemma SortedStart(cc: int -> int, was: seq<int>)
    ensures SortedUpTo(cc, was, was, 0)
  {
  }

  lemma SortedEnd(cc: int -> int, buf: seq<int>, was: seq<int>)
    requires SortedUpTo(cc, buf, was, |was|)
    ensures buf == Reorder(cc, was)
  {
    assert was[..|was|] == was && buf[..|was|] == buf;
  }

  lemma SortedNext(cc: int -> int, buf: seq<int>, was: seq<int>, i: nat)
    requires ClassesOk(cc) && SortedUpTo(cc, buf, was, i) && i < |was|
    requires cc(buf[i]) == 0 || i == 0 || cc(buf[i - 1]) == 0
    ensures SortedUpTo(cc, buf, was, i + 1)
  {
    assert buf[i] == buf[i..][0] == was[i..][0] == was[i];
    assert was[..i + 1] == was[..i] + [was[i]];
    InsertAllSnoc(cc, [], was[..i], was[i]);
    if i > 0 { assert buf[..i][i - 1] == buf[i - 1]; }
    assert buf[..i + 1] == buf[..i] + [buf[i]];
    assert buf[i + 1..] == buf[i..][1..] && was[i + 1..] == was[i..][1..];
  }

  lemma SortedInsert(cc: int -> int, before: seq<int>, buf: seq<int>, was: seq<int>, j: nat)
    requires SortedUpTo(cc, before, was, j) && j < |was| && buf == Insert(cc, before[..j], before[j]) + before[j + 1..]
    ensures SortedUpTo(cc, buf, was, j + 1)
  {
    assert before[j] == before[j..][0] == was[j..][0] == was[j];
    assert was[..j + 1] == was[..j] + [was[j]];
    InsertAllSnoc(cc, [], was[..j], was[j]);
    assert before[j + 1..] == before[j..][1..] && was[j + 1..] == was[j..][1..];
  }
}
