/**
 * Run-length tables of code points: the linear decoder, and the lookup that starts in the middle by way of an index.
 */
module UnicodeIndex {
  import opened Bytes
  import opened CharSets
  import opened CharRanges

  // ----- what a table means -----

  /** One item of the table: the lengths of one or two runs, and its size in bytes. */
  datatype Item = Item(runs: seq<nat>, size: nat)

  function ItemSize(b: byte): nat {
    if b < 64 || b >= 0x80 then 1 else if b < 0x60 then 2 else 3
  }

  function ItemAt(table: seq<byte>, pos: nat): (r: Item)
    requires pos < |table| && pos + ItemSize(table[pos]) <= |table|
    ensures r.size == ItemSize(table[pos])
    ensures 1 <= |r.runs| <= 2 && forall i :: 0 <= i < |r.runs| ==> r.runs[i] >= 1
  {
    var b := table[pos] as int;
    if b < 64 then Item([b / 8 + 1, b % 8 + 1], 1)
    else if b >= 0x80 then Item([b - 0x80 + 1], 1)
    else
      var x := table[pos + 1] as int;
      if b < 0x60 then Item([(b - 0x40) * 256 + x + 1], 2)
      else
        var y := table[pos + 2] as int;
        Item([(b - 0x60) * 0x1_0000 + x * 256 + y + 1], 3)
  }

  /** No item is cut off by the end of the table. */
  predicate Whole(table: seq<byte>, pos: nat)
    decreases |table| - pos
  {
    pos == |table| || (pos < |table| && pos + ItemSize(table[pos]) <= |table|
                       && Whole(table, pos + ItemSize(table[pos])))
  }

  /** All the runs from pos on. They alternate between outside and inside. */
  function Runs(table: seq<byte>, pos: nat): (r: seq<nat>)
    requires Whole(table, pos)
    ensures forall i :: 0 <= i < |r| ==> r[i] >= 1
    decreases |table| - pos
  {
    if pos == |table| then [] else ItemAt(table, pos).runs + Runs(table, pos + ItemSize(table[pos]))
  }

  function Total(runs: seq<nat>): nat {
    if runs == [] then 0 else runs[0] + Total(runs[1..])
  }

  /** The code point c lies in an inside run, when the first run starts at code and is inside or not. */
  predicate InRuns(runs: seq<nat>, code: int, inside: bool, c: int) {
    runs != [] && (if c < code + runs[0] then inside && code <= c else InRuns(runs[1..], code + runs[0], !inside, c))
  }

  predicate InTable(table: seq<byte>, c: int)
    requires Whole(table, 0)
  {
    InRuns(Runs(table, 0), 0, false, c)
  }

  /** A table whose code points fit 32 bits. */
  predicate TableOk(table: seq<byte>) {
    Whole(table, 0) && Total(Runs(table, 0)) < TWO32
  }

  // ----- what an index records -----

  /** The position (pos, code, inside) of the linear decoder. */
  datatype Place = Place(pos: nat, code: nat, inside: bool)

  function Next(table: seq<byte>, p: Place): Place
    requires p.pos < |table| && p.pos + ItemSize(table[p.pos]) <= |table|
  {
    var item := ItemAt(table, p.pos);
    Place(p.pos + item.size, p.code + Total(item.runs), p.inside != (|item.runs| == 1))
  }

  /** Decoding from p comes to the place q between two items. */
  predicate Passes(table: seq<byte>, p: Place, q: Place)
    requires Whole(table, p.pos)
    decreases |table| - p.pos
  {
    p == q || (p.pos < |table| && Passes(table, Next(table, p), q))
  }

  const BLOCK: int := 32 // UNICODE_INDEX_BLOCK_LEN
  const CODE_LIMIT: int := 0x20_0000 // 2^21

  function GetLe24(index: seq<byte>, k: nat): (v: nat)
    requires 3 * k + 3 <= |index|
    ensures v < 0x100_0000
  {
    index[3 * k] as int + 256 * (index[3 * k + 1] as int) + 0x1_0000 * (index[3 * k + 2] as int)
  }

  function CodeOf(v: nat): nat { v % CODE_LIMIT }

  function PositionOf(k: nat, v: nat): nat { (k + 1) * BLOCK + v / CODE_LIMIT }

  /**
   * The entries record the code point reached, with bit 0, at their byte offsets; the last one records where the table
   * ends, so that nothing from there on is inside.
   */
  ghost predicate IndexOk(table: seq<byte>, index: seq<byte>, n: nat)
    requires Whole(table, 0)
  {
    && n >= 1 && 3 * n <= |index|
    && (forall k :: 0 <= k < n - 1 ==>
         Passes(table, Place(0, 0, false), Place(PositionOf(k, GetLe24(index, k)), CodeOf(GetLe24(index, k)), false)))
    && EndOk(table, GetLe24(index, n - 1))
  }

  ghost predicate EndOk(table: seq<byte>, end: nat)
    requires Whole(table, 0)
  {
    end < CODE_LIMIT && end <= Total(Runs(table, 0)) && forall c :: end <= c ==> !InTable(table, c)
  }

  // ----- decoding from the middle -----

  lemma RunsEnd(table: seq<byte>, p: nat)
    requires p >= |table| && Whole(table, p)
    ensures Runs(table, p) == []
  {
  }

  lemma RunsUnfold(table: seq<byte>, p: nat)
    requires p < |table| && Whole(table, p)
    ensures p + ItemSize(table[p]) <= |table| && Whole(table, p + ItemSize(table[p]))
    ensures var runs, rest := Runs(table, p), Runs(table, p + ItemSize(table[p]));
            var first := ItemAt(table, p).runs;
            && |runs| >= |first| && runs[0] == first[0] >= 1
            && (if |first| == 1 then runs[1..] == rest
                else |runs[1..]| >= 1 && runs[1..][0] == first[1] >= 1 && runs[1..][1..] == rest)
  {
  }

  lemma {:induction false} InRunsBounds(runs: seq<nat>, code: int, inside: bool, c: int)
    requires InRuns(runs, code, inside, c)
    ensures code <= c < code + Total(runs)
  {
    if !(c < code + runs[0]) { InRunsBounds(runs[1..], code + runs[0], !inside, c); }
  }

  /** The runs rest from code on end where all of them end, and say the same about c, which they reach. */
  ghost predicate Seeks(all: seq<nat>, rest: seq<nat>, code: int, inside: bool, c: int) {
    code <= c && code + Total(rest) == Total(all) && InRuns(rest, code, inside, c) == InRuns(all, 0, false, c)
  }

  lemma SeekRun(all: seq<nat>, rest: seq<nat>, code: int, inside: bool, c: int)
    requires |rest| >= 1 && Seeks(all, rest, code, inside, c)
    ensures if c < code + rest[0] then InRuns(all, 0, false, c) == inside
            else Seeks(all, rest[1..], code + rest[0], !inside, c)
  {
  }

  ghost predicate SeeksAt(table: seq<byte>, p: Place, c: int)
    requires Whole(table, 0) && Whole(table, p.pos)
  {
    Seeks(Runs(table, 0), Runs(table, p.pos), p.code, p.inside, c)
  }

  lemma NextIs(table: seq<byte>, p: Place)
    requires p.pos < |table| && p.pos + ItemSize(table[p.pos]) <= |table|
    ensures var runs := ItemAt(table, p.pos).runs;
            Next(table, p) == if |runs| == 1 then Place(p.pos + ItemSize(table[p.pos]), p.code + runs[0], !p.inside)
                              else Place(p.pos + ItemSize(table[p.pos]), p.code + runs[0] + runs[1], p.inside)
  {
    var runs := ItemAt(table, p.pos).runs;
    assert Total(runs[1..]) == if |runs| == 1 then 0 else runs[1] + Total(runs[1..][1..]);
  }

  lemma SeekNext(table: seq<byte>, p: Place, c: int)
    requires Whole(table, 0) && p.pos < |table| && Whole(table, p.pos) && SeeksAt(table, p, c)
             && Next(table, p).code <= c
    ensures Whole(table, Next(table, p).pos) && SeeksAt(table, Next(table, p), c)
  {
    hide Seeks, Runs, Next;
    NextIs(table, p);
    RunsUnfold(table, p.pos);
    var all, rest := Runs(table, 0), Runs(table, p.pos);
    SeekRun(all, rest, p.code, p.inside, c);
    if |ItemAt(table, p.pos).runs| == 2 { SeekRun(all, rest[1..], p.code + rest[0], !p.inside, c); }
  }

  /** The code points only grow, so whatever the decoder passes through later lies behind. */
  lemma {:induction false} PassesGrows(table: seq<byte>, p: Place, q: Place)
    requires Whole(table, p.pos) && Passes(table, p, q)
    ensures p.code <= q.code
    decreases |table| - p.pos
  {
    if p != q { PassesGrows(table, Next(table, p), q); }
  }

  /** A decoder that passes through q can as well start there, for code points from q on. */
  lemma {:induction false} PassesSeeks(table: seq<byte>, p: Place, q: Place, c: int)
    requires Whole(table, 0) && Whole(table, p.pos) && Passes(table, p, q) && q.code <= c && SeeksAt(table, p, c)
    ensures Whole(table, q.pos) && SeeksAt(table, q, c)
    decreases |table| - p.pos
  {
    hide SeeksAt, Runs, Next;
    if p != q {
      NextIs(table, p);
      PassesGrows(table, Next(table, p), q);
      SeekNext(table, p, c);
      PassesSeeks(table, Next(table, p), q, c);
    }
  }

  lemma SeeksStart(table: seq<byte>, c: nat)
    requires Whole(table, 0)
    ensures SeeksAt(table, Place(0, 0, false), c)
  {
  }

  /** The code points that the decoder reaches lie before the end of the table. */
  lemma {:induction false} PassesBefore(table: seq<byte>, p: Place, q: Place)
    requires Whole(table, p.pos) && Passes(table, p, q)
    ensures Whole(table, q.pos) && p.code + Total(Runs(table, p.pos)) == q.code + Total(Runs(table, q.pos))
    decreases |table| - p.pos
  {
    if p != q {
      RunsUnfold(table, p.pos);
      NextIs(table, p);
      hide Runs, Next;
      PassesBefore(table, Next(table, p), q);
    }
  }

  // ----- the lookup -----

  datatype Found = Found(pos: nat, code: nat) | Outside

  /** get_index_pos: the place from which to decode for c, or Outside when c is past the end of the table. */
  method GetIndexPos(c: nat, table: seq<byte>, index: seq<byte>, n: nat) returns (r: Found)
    requires TableOk(table) && IndexOk(table, index, n)
    ensures r == Outside <==> c >= GetLe24(index, n - 1) && c >= CodeOf(GetLe24(index, 0))
    ensures r.Found? ==> r.code <= c && Passes(table, Place(0, 0, false), Place(r.pos, r.code, false))
  {
    hide Passes, EndOk;
    var v := GetLe24(index, 0);
    if c < CodeOf(v) {
      PassesSelf(table, Place(0, 0, false));
      return Found(0, 0);
    }
    var idxMin, idxMax := 0, n - 1;
    EndIsCode(table, GetLe24(index, n - 1));
    if c >= GetLe24(index, idxMax) {
      return Outside;
    }
    while idxMax - idxMin > 1
      invariant 0 <= idxMin < idxMax <= n - 1
      invariant CodeOf(GetLe24(index, idxMin)) <= c < CodeOf(GetLe24(index, idxMax))
    {
      var idx := (idxMax + idxMin) / 2;
      v := GetLe24(index, idx);
      if c < CodeOf(v) {
        idxMax := idx;
      } else {
        idxMin := idx;
      }
    }
    v := GetLe24(index, idxMin);
    r := Found(PositionOf(idxMin, v), CodeOf(v));
  }

  lemma PassesSelf(table: seq<byte>, p: Place)
    requires Whole(table, p.pos)
    ensures Passes(table, p, p)
  {
  }

  lemma EndIsCode(table: seq<byte>, end: nat)
    requires Whole(table, 0) && EndOk(table, end)
    ensures CodeOf(end) == end
  {
  }

  /** lre_is_in_table: the indexed lookup is membership in the set that the linear decoder produces. */
  method IsInTable(c: nat, table: seq<byte>, index: seq<byte>, n: nat) returns (r: bool)
    requires TableOk(table) && IndexOk(table, index, n)
    ensures r == InTable(table, c)
  {
    var found := GetIndexPos(c, table, index, n);
    if found == Outside {
      return false;
    }
    LookupStarts(table, index, n, c, found);
    r := Decode(table, found.pos, found.code, c);
  }

  /** The decoding loop of the lookup, from a place before c with bit 0. */
  method Decode(table: seq<byte>, pos: nat, start: nat, c: nat) returns (r: bool)
    requires TableOk(table) && Whole(table, pos) && SeeksAt(table, Place(pos, start, false), c)
             && c < Total(Runs(table, 0))
    ensures r == InTable(table, c)
  {
    hide InRuns, Runs, Total, Whole, Seeks;
    ghost var all := Runs(table, 0);
    var p, code, bit := pos, start, false;
    while true
      invariant Whole(table, p) && Seeks(all, Runs(table, p), code, bit, c)
      decreases |table| - p
    {
      SeeksMore(table, all, p, code, bit, c);
      RunsUnfold(table, p);
      ghost var rest := Runs(table, p);
      SeekRun(all, rest, code, bit, c);
      var b := table[p] as int;
      p := p + 1;
      if b < 64 {
        code := code + (b / 8 + 1);
        if c < code {
          return bit;
        }
        bit := !bit;
        SeekRun(all, rest[1..], code, bit, c);
        code := code + (b % 8 + 1);
      } else if b >= 0x80 {
        code := code + (b - 0x80 + 1);
      } else if b < 0x60 {
        code := code + ((b - 0x40) * 256 + table[p] as int + 1);
        p := p + 1;
      } else {
        code := code + ((b - 0x60) * 0x1_0000 + (table[p] as int) * 256 + table[p + 1] as int + 1);
        p := p + 2;
      }
      if c < code {
        return bit;
      }
      bit := !bit;
    }
  }

  lemma SeeksMore(table: seq<byte>, all: seq<nat>, p: nat, code: int, inside: bool, c: int)
    requires Whole(table, p) && Seeks(all, Runs(table, p), code, inside, c) && c < Total(all)
    ensures p < |table|
  {
    if p >= |table| { RunsEnd(table, p); }
  }

  lemma LookupStarts(table: seq<byte>, index: seq<byte>, n: nat, c: nat, found: Found)
    requires TableOk(table) && IndexOk(table, index, n) && found.Found? && found.code <= c
    requires Passes(table, Place(0, 0, false), Place(found.pos, found.code, false))
    requires c < GetLe24(index, n - 1) || c < CodeOf(GetLe24(index, 0))
    ensures Whole(table, found.pos) && SeeksAt(table, Place(found.pos, found.code, false), c)
            && c < Total(Runs(table, 0))
  {
    hide Runs, Seeks, Passes, Next, Total, InTable;
    var start := Place(0, 0, false);
    SeeksStart(table, c);
    PassesSeeks(table, start, Place(found.pos, found.code, false), c);
    EndIsCode(table, GetLe24(index, n - 1));
    if n > 1 {
      PassesBefore(table, start, Place(PositionOf(0, GetLe24(index, 0)), CodeOf(GetLe24(index, 0)), false));
    }
  }

  // ----- the linear decoder as a character set -----

  /** The points collected so far are the boundaries of the inside runs before code; rest are the runs still to come. */
  ghost predicate Collected(all: seq<nat>, rest: seq<nat>, points: Points, code: nat, inside: bool) {
    && Canonical(points) && (forall i :: 0 <= i < |points| ==> points[i] <= code)
    && (inside && points != [] ==> points[|points| - 1] < code)
    && code + Total(rest) == Total(all) < TWO32
    && (forall c :: Member(points, c) || InRuns(rest, code, inside, c) <==> InRuns(all, 0, false, c))
  }

  lemma CollectedNothing(all: seq<nat>)
    requires Total(all) < TWO32
    ensures Collected(all, all, [], 0, false)
  {
  }

  lemma CollectedAll(all: seq<nat>, points: Points, code: nat, inside: bool)
    requires Collected(all, [], points, code, inside)
    ensures Canonical(points) && forall c :: Member(points, c) <==> InRuns(all, 0, false, c)
  {
  }

  lemma MemberAppend(p: Points, x: int, y: int, c: int)
    requires |p| % 2 == 0
    ensures Member(p + [x, y], c) <==> Member(p, c) || x <= c < y
  {
    var q := p + [x, y];
    if Member(p, c) {
      var k :| InInterval(p, k, c);
      assert InInterval(q, k, c);
    }
    if x <= c < y { assert InInterval(q, |p| / 2, c); }
    if Member(q, c) {
      var k :| InInterval(q, k, c);
      if 2 * k + 1 < |p| { assert InInterval(p, k, c); }
    }
  }

  lemma CollectRun(all: seq<nat>, rest: seq<nat>, points: Points, code: nat, inside: bool)
    requires |rest| >= 1 && rest[0] >= 1 && Collected(all, rest, points, code, inside)
    ensures Collected(all, rest[1..], if inside then points + [code, code + rest[0]]
                      else points, code + rest[0], !inside)
  {
    hide Member;
    var next := if inside then points + [code, code + rest[0]] else points;
    forall c ensures Member(next, c) || InRuns(rest[1..], code + rest[0], !inside, c) <==> InRuns(all, 0, false, c) {
      assert Member(points, c) || InRuns(rest, code, inside, c) <==> InRuns(all, 0, false, c);
      if inside { MemberAppend(points, code, code + rest[0], c); }
      if InRuns(rest[1..], code + rest[0], !inside, c) { InRunsBounds(rest[1..], code + rest[0], !inside, c); }
      if Member(points, c) { MemberBelow(points, code, c); }
    }
  }

  lemma MemberBelow(p: Points, code: int, c: int)
    requires Member(p, c) && forall i :: 0 <= i < |p| ==> p[i] <= code
    ensures c < code
  {
    var k :| InInterval(p, k, c);
  }

  /** unicode_prop1: adds the inside runs of the table to the empty range cr, which becomes their canonical form. */
  method Prop1(cr: CharRange, table: seq<byte>)
    requires TableOk(table) && cr.points == []
    modifies cr
    ensures Canonical(cr.points) && forall c :: Member(cr.points, c) <==> InTable(table, c)
  {
    hide Collected, InRuns, Total, Canonical, Member, Runs;
    ghost var all := Runs(table, 0);
    CollectedNothing(all);
    var p: nat, c: nat, bit := 0, 0, false;
    while p < |table|
      invariant Whole(table, p) && Collected(all, Runs(table, p), cr.points, c, bit)
      decreases |table| - p
    {
      var c0 := c;
      RunsUnfold(table, p);
      ghost var rest := Runs(table, p);
      CollectRun(all, rest, cr.points, c, bit);
      var b := table[p] as int;
      p := p + 1;
      if b < 64 {
        c := c + (b / 8 + 1);
        if bit {
          cr.AddInterval(c0, c);
        }
        bit := !bit;
        c0 := c;
        CollectRun(all, rest[1..], cr.points, c, bit);
        c := c + (b % 8 + 1);
      } else if b >= 0x80 {
        c := c + (b - 0x80 + 1);
      } else if b < 0x60 {
        c := c + ((b - 0x40) * 256 + table[p] as int + 1);
        p := p + 1;
      } else {
        c := c + ((b - 0x60) * 0x1_0000 + (table[p] as int) * 256 + table[p + 1] as int + 1);
        p := p + 2;
      }
      if bit {
        cr.AddInterval(c0, c);
      }
      bit := !bit;
    }
    RunsEnd(table, p);
    CollectedAll(all, cr.points, c, bit);
  }
}
