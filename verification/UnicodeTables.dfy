/** The generator of the run-length tables: what it encodes, the lookup and the linear decoder decode. */
module UnicodeTables {
  import opened Bytes
  import opened UnicodeIndex

  // ----- the runs of a property -----

  lemma {:induction false} RunAppended(runs: seq<nat>, n: nat, code: int, inside: bool, c: int)
    ensures Total(runs + [n]) == Total(runs) + n
    ensures var last := inside != (|runs| % 2 == 1);
            InRuns(runs + [n], code, inside, c)
            <==> InRuns(runs, code, inside, c) || (last && code + Total(runs) <= c < code + Total(runs) + n)
  {
    if runs == [] {
      assert runs + [n] == [n] && [n][1..] == [];
    } else {
      assert (runs + [n])[1..] == runs[1..] + [n];
      RunAppended(runs[1..], n, code + runs[0], !inside, c);
    }
  }

  /** The runs found before place i say which of these places have the property. */
  ghost predicate RunsSay(runs: seq<nat>, props: seq<bool>, i: nat) {
    && (forall k :: 0 <= k < |runs| ==> runs[k] >= 1) && Total(runs) == i <= |props|
    && (forall c :: InRuns(runs, 0, false, c) <==> 0 <= c < i && props[c])
  }

  lemma RunsSayMore(runs: seq<nat>, props: seq<bool>, i: nat, j: nat)
    requires RunsSay(runs, props, i) && i < j <= |props| && forall k :: i <= k < j ==> props[k] == (|runs| % 2 == 1)
    ensures RunsSay(runs + [j - i], props, j)
  {
    hide InRuns, Total;
    var next := runs + [j - i];
    forall c ensures InRuns(next, 0, false, c) <==> 0 <= c < j && props[c] {
      RunAppended(runs, j - i, 0, false, c);
      assert InRuns(runs, 0, false, c) <==> 0 <= c < i && props[c];
    }
    RunAppended(runs, j - i, 0, false, 0);
  }

  /** The first loop of build_prop_table: the lengths of the runs, without a last run outside. */
  method FindRuns(props: seq<bool>) returns (runs: seq<nat>)
    requires props != [] ==> !props[0]
    ensures (forall k :: 0 <= k < |runs| ==> runs[k] >= 1) && Total(runs) <= |props|
    ensures forall c :: InRuns(runs, 0, false, c) <==> 0 <= c < |props| && props[c]
  {
    hide InRuns, Total;
    runs := [];
    NoRuns(props);
    var i := 0;
    while i < |props|
      invariant i <= |props| && RunsSay(runs, props, i)
      invariant i < |props| ==> props[i] == (|runs| % 2 == 1)
    {
      var v, j := props[i], i + 1;
      while j < |props| && props[j] == v
        invariant i < j <= |props| && forall k :: i <= k < j ==> props[k] == v
      {
        j := j + 1;
      }
      var n := j - i;
      if j == |props| && !v {
        break;
      }
      RunsSayMore(runs, props, i, j);
      runs := runs + [n];
      i := i + n;
    }
  }

  lemma NoRuns(props: seq<bool>)
    ensures RunsSay([], props, 0)
  {
  }

  // ----- tables that grow -----

  /** The bytes x are one item. */
  ghost predicate OneItem(x: seq<byte>) {
    x != [] && |x| == ItemSize(x[0])
  }

  lemma ItemAppended(t: seq<byte>, x: seq<byte>)
    requires OneItem(x)
    ensures |t + x| == |t| + |x| && (t + x)[|t|] == x[0]
    ensures ItemAt(t + x, |t|) == ItemAt(x, 0)
    ensures Whole(t + x, |t|) && Runs(t + x, |t|) == ItemAt(x, 0).runs
  {
    var y := t + x;
    assert forall k :: 0 <= k < |x| ==> y[|t| + k] == x[k];
    assert |t| + ItemSize(y[|t|]) == |y| && Whole(y, |y|);
    RunsEnd(y, |y|);
    assert ItemAt(x, 0).runs + [] == ItemAt(x, 0).runs;
  }

  lemma SameItem(t: seq<byte>, x: seq<byte>, p: nat)
    requires p < |t| && p + ItemSize(t[p]) <= |t|
    ensures ItemAt(t + x, p) == ItemAt(t, p) && ItemSize((t + x)[p]) == ItemSize(t[p])
  {
    var y := t + x;
    assert forall k :: 0 <= k < |t| ==> y[k] == t[k];
  }

  /** An item behind a table: its runs come last. */
  lemma {:induction false} Grown(t: seq<byte>, x: seq<byte>, p: nat)
    requires Whole(t, p) && OneItem(x) && p <= |t|
    ensures Whole(t + x, p) && Runs(t + x, p) == Runs(t, p) + ItemAt(x, 0).runs
    decreases |t| - p
  {
    hide ItemAt;
    ItemAppended(t, x);
    if p == |t| {
      assert Runs(t, p) + ItemAt(x, 0).runs == ItemAt(x, 0).runs;
    } else {
      SameItem(t, x, p);
      Grown(t, x, p + ItemSize(t[p]));
      var a, b, c := ItemAt(t, p).runs, Runs(t, p + ItemSize(t[p])), ItemAt(x, 0).runs;
      assert a + (b + c) == (a + b) + c;
    }
  }

  /** The decoder passes the same places as before. */
  lemma {:induction false} PassesGrown(t: seq<byte>, x: seq<byte>, p: Place, q: Place)
    requires p.pos <= |t| && Whole(t, p.pos) && OneItem(x) && Passes(t, p, q)
    ensures Whole(t + x, p.pos) && Passes(t + x, p, q)
    decreases |t| - p.pos
  {
    hide ItemAt;
    Grown(t, x, p.pos);
    if p != q {
      SameItem(t, x, p.pos);
      PassesGrown(t, x, Next(t, p), q);
    }
  }

  /** And it passes the place behind the new item, if it passed the end. */
  lemma {:induction false} PassesItem(t: seq<byte>, x: seq<byte>, p: Place, q: Place)
    requires p.pos <= |t| && Whole(t, p.pos) && OneItem(x) && Passes(t, p, q) && q.pos == |t|
    ensures Whole(t + x, p.pos) && Passes(t + x, p, Next(t + x, q))
    decreases |t| - p.pos
  {
    hide ItemAt;
    Grown(t, x, p.pos);
    ItemAppended(t, x);
    if p == q {
      assert Passes(t + x, Next(t + x, q), Next(t + x, q));
    } else {
      SameItem(t, x, p.pos);
      PassesItem(t, x, Next(t, p), q);
    }
  }

  // ----- writing the table and its index -----

  const PROP_BLOCK_LEN: int := 32

  /** The items written hold the runs written, and the decoder comes to their end. */
  ghost predicate Written(table: seq<byte>, runs: seq<nat>, i: nat, code: nat, bit: bool) {
    && i <= |runs| && Whole(table, 0) && Runs(table, 0) == runs[..i] && code == Total(runs[..i])
    && bit == (i % 2 == 1) && Passes(table, Place(0, 0, false), Place(|table|, code, bit))
  }

  /** The entry k of the index names a place of the decoder. */
  ghost predicate Named(table: seq<byte>, index: seq<byte>, k: nat)
    requires Whole(table, 0) && 3 * k + 3 <= |index|
  {
    Passes(table, Place(0, 0, false), Place(PositionOf(k, GetLe24(index, k)), CodeOf(GetLe24(index, k)), false))
  }

  ghost predicate Indexed(table: seq<byte>, index: seq<byte>, n: nat) {
    Whole(table, 0) && |index| == 3 * n && forall k :: 0 <= k < n ==> Named(table, index, k)
  }

  lemma NothingWritten(runs: seq<nat>)
    ensures Written([], runs, 0, 0, false) && Indexed([], [], 0)
  {
    assert Runs([], 0) == [] == runs[..0];
  }

  /** One more item with one or two runs. */
  lemma ItemWritten(table: seq<byte>, runs: seq<nat>, i: nat, code: nat, bit: bool, x: seq<byte>, n: nat)
    requires i < n <= |runs|
    requires Written(table, runs, i, code, bit) && OneItem(x) && ItemAt(x, 0).runs == runs[i..n]
    ensures Written(table + x, runs, n, code + Total(runs[i..n]), bit != (n - i == 1))
  {
    hide ItemAt, Passes, Total;
    var start, place := Place(0, 0, false), Place(|table|, code, bit);
    Grown(table, x, 0);
    ItemAppended(table, x);
    PassesItem(table, x, start, place);
    assert runs[..i] + runs[i..n] == runs[..n];
    TotalSplit(runs[..i], runs[i..n]);
    assert 1 <= n - i <= 2;
  }

  lemma {:induction false} TotalSplit(a: seq<nat>, b: seq<nat>)
    ensures Total(a + b) == Total(a) + Total(b)
  {
    if a == [] {
      assert a + b == b;
    } else {
      assert (a + b)[1..] == a[1..] + b;
      TotalSplit(a[1..], b);
    }
  }

  lemma StillIndexed(table: seq<byte>, index: seq<byte>, n: nat, x: seq<byte>)
    requires Indexed(table, index, n) && OneItem(x)
    ensures Indexed(table + x, index, n)
  {
    hide Passes;
    Grown(table, x, 0);
    forall k | 0 <= k < n ensures Named(table + x, index, k) {
      assert Named(table, index, k);
      PassesGrown(table, x, Place(0, 0, false),
                  Place(PositionOf(k, GetLe24(index, k)), CodeOf(GetLe24(index, k)), false));
    }
  }

  /** The three bytes of an entry. */
  function Le24(v: nat): seq<byte> {
    [(v % 256) as byte, (v / 256 % 256) as byte, (v / 0x1_0000 % 256) as byte]
  }

  lemma EntryRead(index: seq<byte>, n: nat, v: nat)
    requires |index| == 3 * n && v < 0x100_0000
    ensures |index + Le24(v)| == 3 * (n + 1) && GetLe24(index + Le24(v), n) == v
    ensures forall k :: 0 <= k < n ==> GetLe24(index + Le24(v), k) == GetLe24(index, k)
  {
    var next := index + Le24(v);
    assert next[3 * n] == Le24(v)[0] && next[3 * n + 1] == Le24(v)[1] && next[3 * n + 2] == Le24(v)[2];
    Bytes24(v);
  }

  lemma Bytes24(v: nat)
    requires v < 0x100_0000
    ensures v % 256 + 256 * (v / 256 % 256) + 0x1_0000 * (v / 0x1_0000 % 256) == v
  {
    assert v / 0x1_0000 == v / 256 / 256;
  }

  /** One more entry, for the end of the table. */
  lemma EntryWritten(table: seq<byte>, runs: seq<nat>, i: nat, code: nat, index: seq<byte>, n: nat, offset: nat)
    requires Written(table, runs, i, code, false) && Indexed(table, index, n) && code < 0x20_0000 && offset <= 7
    requires |table| == PROP_BLOCK_LEN * (n + 1) + offset
    ensures Indexed(table, index + Le24(code + offset * 0x20_0000), n + 1)
  {
    hide Passes;
    var v := code + offset * 0x20_0000;
    EntryRead(index, n, v);
    var next := index + Le24(v);
    forall k | 0 <= k < n + 1 ensures Named(table, next, k) {
      if k < n { assert Named(table, index, k); }
    }
  }

  /** One run in one, two or three bytes. */
  function OneRun(v: nat): (x: seq<byte>)
    requires v < 0x20_0000
  {
    if v < 128 then [(0x80 + v) as byte]
    else if v < 0x2000 then [(0x40 + v / 256) as byte, (v % 256) as byte]
    else [(0x60 + v / 0x1_0000) as byte, (v / 256 % 256) as byte, (v % 256) as byte]
  }

  lemma OneRunDecoded(v: nat)
    requires v < 0x20_0000
    ensures OneItem(OneRun(v)) && ItemAt(OneRun(v), 0).runs == [v + 1]
  {
    Bytes24(v);
  }

  lemma TwoRunsDecoded(v: nat, w: nat)
    requires v < 8 && w < 8
    ensures OneItem([(v * 8 + w) as byte]) && ItemAt([(v * 8 + w) as byte], 0).runs == [v + 1, w + 1]
  {
  }

  /** The bytes for the next run, or for the next two if both are short, and the sum of their lengths. */
  method PutItem(runs: seq<nat>, i: nat) returns (x: seq<byte>, next: nat, length: nat)
    requires i < |runs| && (forall k :: 0 <= k < |runs| ==> 1 <= runs[k]) && runs[i] <= 0x20_0000
    ensures i < next <= |runs| && next <= i + 2
    ensures OneItem(x) && ItemAt(x, 0).runs == runs[i..next] && length == Total(runs[i..next])
  {
    hide ItemAt, Total;
    var v := runs[i] - 1;
    if v < 8 && i + 1 < |runs| && runs[i + 1] - 1 < 8 {
      var w := runs[i + 1] - 1;
      TwoRunsDecoded(v, w);
      TwoRuns(runs, i);
      return [(v * 8 + w) as byte], i + 2, v + 1 + w + 1;
    }
    OneRunDecoded(v);
    OneRunIs(runs, i);
    x, next, length := OneRun(v), i + 1, v + 1;
  }

  /**
   * The second loop of build_prop_table, with the index: fails where a place between two items with bit 0 lies more
   * than 7 bytes behind the end of its block, as the assertion of the source says.
   */
  method BuildTable(runs: seq<nat>) returns (ok: bool, table: seq<byte>, index: seq<byte>)
    requires forall k :: 0 <= k < |runs| ==> 1 <= runs[k]
    requires Total(runs) < CODE_LIMIT
    ensures ok ==> TableOk(table) && Runs(table, 0) == runs && |index| % 3 == 0 && IndexOk(table, index, |index| / 3)
    ensures !ok ==> && Whole(table, 0) && Runs(table, 0) <= runs && |Runs(table, 0)| % 2 == 0 && |index| % 3 == 0
                    && |table| > PROP_BLOCK_LEN * (|index| / 3 + 1) + 7
  {
    hide Written, Indexed, Passes, Total, ItemAt, IndexOk, OneItem, Le24, GetLe24, Runs, Whole, TableOk;
    table, index := [], [];
    NothingWritten(runs);
    var blockEnd: int, bit := PROP_BLOCK_LEN, false;
    var i: nat, code: nat := 0, 0;
    ghost var n: nat := 0;
    while i < |runs|
      invariant i <= |runs| && Written(table, runs, i, code, bit) && Indexed(table, index, n)
      invariant blockEnd == PROP_BLOCK_LEN * (n + 1) && |index| == 3 * n && bit == (i % 2 == 1)
    {
      CodeBound(table, runs, i, code, bit);
      if |table| >= blockEnd && !bit {
        var offset := |table| - blockEnd;
        if offset > 7 {
          Partial(table, runs, i, code, bit);
          return false, table, index;
        }
        EntryWritten(table, runs, i, code, index, n, offset);
        EntryRead(index, n, code + offset * 0x20_0000);
        index := index + Le24(code + offset * 0x20_0000);
        blockEnd := blockEnd + PROP_BLOCK_LEN;
        n := n + 1;
      }
      var x, next, length := PutItem(runs, i);
      ItemWritten(table, runs, i, code, bit, x, next);
      StillIndexed(table, index, n, x);
      table := table + x;
      code := code + length;
      bit := bit != (next == i + 1);
      i := next;
    }
    CodeBound(table, runs, i, code, bit);
    Complete(table, runs, code, bit, index, n);
    EntryRead(index, n, code);
    ok, index := true, index + Le24(code);
  }

  lemma OneRunIs(runs: seq<nat>, i: nat)
    requires i < |runs|
    ensures runs[i..i + 1] == [runs[i]] && Total(runs[i..i + 1]) == runs[i]
  {
    assert Total([]) == 0 && [runs[i]][1..] == [];
  }

  lemma TwoRuns(runs: seq<nat>, i: nat)
    requires i + 1 < |runs|
    ensures runs[i..i + 2] == [runs[i], runs[i + 1]] && Total(runs[i..i + 2]) == runs[i] + runs[i + 1]
  {
    TotalSplit([runs[i]], [runs[i + 1]]);
    OneRunIs(runs, i);
    OneRunIs(runs, i + 1);
    assert [runs[i]] + [runs[i + 1]] == [runs[i], runs[i + 1]];
  }

  /** The code reached and the next run stay below 2^21. */
  lemma CodeBound(table: seq<byte>, runs: seq<nat>, i: nat, code: nat, bit: bool)
    requires Written(table, runs, i, code, bit) && Total(runs) < CODE_LIMIT
    ensures code < 0x20_0000 && (i < |runs| ==> runs[i] <= 0x20_0000)
  {
    hide Passes, Runs, Whole;
    TotalSplit(runs[..i], runs[i..]);
    assert runs[..i] + runs[i..] == runs;
  }

  lemma Partial(table: seq<byte>, runs: seq<nat>, i: nat, code: nat, bit: bool)
    requires Written(table, runs, i, code, bit)
    ensures Whole(table, 0) && Runs(table, 0) <= runs && |Runs(table, 0)| == i
  {
    hide Passes;
  }

  lemma Complete(table: seq<byte>, runs: seq<nat>, code: nat, bit: bool, index: seq<byte>, n: nat)
    requires Written(table, runs, |runs|, code, bit) && Indexed(table, index, n) && Total(runs) < CODE_LIMIT
    ensures TableOk(table) && Runs(table, 0) == runs && IndexOk(table, index + Le24(code), n + 1)
  {
    hide Passes, Runs, Whole, Total, InRuns;
    assert runs[..|runs|] == runs;
    EntryRead(index, n, code);
    var next := index + Le24(code);
    forall k | 0 <= k < n
      ensures Passes(table, Place(0, 0, false), Place(PositionOf(k, GetLe24(next, k)), CodeOf(GetLe24(next, k)), false))
    {
      assert Named(table, index, k);
    }
    forall c | code <= c ensures !InTable(table, c) {
      if InTable(table, c) { InRunsBounds(runs, 0, false, c); }
    }
  }

  /**
   * build_prop_table: the lookup and the linear decoder find in the table exactly the code points that have the
   * property.
   */
  method BuildPropTable(props: seq<bool>) returns (ok: bool, table: seq<byte>, index: seq<byte>)
    requires (props != [] ==> !props[0]) && |props| <= 0x11_0000
    ensures ok ==> TableOk(table) && |index| % 3 == 0 && IndexOk(table, index, |index| / 3)
    ensures ok ==> forall c :: InTable(table, c) <==> 0 <= c < |props| && props[c]
  {
    hide InRuns, Total, Runs, Whole, IndexOk;
    var runs := FindRuns(props);
    ok, table, index := BuildTable(runs);
  }
}
