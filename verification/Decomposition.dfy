/** Full decomposition of characters, Hangul syllables included. */
module Decomposition {
  import opened CanonicalOrder

  datatype Pair = Pair(first: int, second: int, composite: int)

  /**
   * Character data: combining classes, one step of decomposition (empty for none), the pairs that compose, and a bound
   * on how often a character can be decomposed.
   */
  datatype Ucd = Ucd(cc: int -> int, decomp: int -> seq<int>, pairs: seq<Pair>, rank: int -> nat)

  predicate IsSyllable(c: int) { 0xac00 <= c < 0xd7a4 }

  predicate IsL(c: int) { 0x1100 <= c < 0x1100 + 19 }

  predicate IsV(c: int) { 0x1161 <= c < 0x1161 + 21 }

  /** Trailing consonants, with U+11A7 in the place of none. */
  predicate IsT(c: int) { 0x11a7 <= c < 0x11a7 + 28 }

  predicate IsJamo(c: int) { IsL(c) || IsV(c) || IsT(c) }

  function Jamos(c: int): (r: seq<int>)
    requires IsSyllable(c)
    ensures 2 <= |r| <= 3 && forall i :: 0 <= i < |r| ==> IsJamo(r[i])
  {
    var i := c - 0xac00;
    [0x1100 + i / 588, 0x1161 + i % 588 / 28] + if i % 28 != 0 then [0x11a7 + i % 28] else []
  }

  /** A bound on the ranks in s. */
  function Height(u: Ucd, s: seq<int>): (n: nat)
    ensures forall i :: 0 <= i < |s| ==> u.rank(s[i]) < n
  {
    if s == [] then 0
    else
      var n, last := Height(u, s[..|s| - 1]), u.rank(s[|s| - 1]) + 1;
      if n >= last then n else last
  }

  /** Decomposition ends, and Hangul letters are starters that do not decompose. */
  ghost predicate DataOk(u: Ucd) {
    && ClassesOk(u.cc)
    && (forall c :: Height(u, u.decomp(c)) <= u.rank(c))
    && (forall c :: IsJamo(c) ==> u.decomp(c) == [] && u.cc(c) == 0)
  }

  /** The full decomposition of a character. */
  function Full(u: Ucd, c: int): seq<int>
    requires DataOk(u)
    decreases u.rank(c), 1, 0
  {
    if IsSyllable(c) then Jamos(c)
    else if u.decomp(c) == [] then [c]
    else FullAll(u, u.decomp(c))
  }

  function FullAll(u: Ucd, s: seq<int>): seq<int>
    requires DataOk(u)
    decreases Height(u, s), 0, |s|
  {
    if s == [] then [] else FullAll(u, s[..|s| - 1]) + Full(u, s[|s| - 1])
  }

  ghost predicate Plain(u: Ucd, c: int) {
    !IsSyllable(c) && u.decomp(c) == []
  }

  ghost predicate AllPlain(u: Ucd, s: seq<int>) {
    forall i :: 0 <= i < |s| ==> Plain(u, s[i])
  }

  lemma {:induction false} FullAllConcat(u: Ucd, s: seq<int>, t: seq<int>)
    requires DataOk(u)
    ensures FullAll(u, s + t) == FullAll(u, s) + FullAll(u, t)
    decreases |t|
  {
    hide DataOk, Full, Height;
    if t == [] {
      assert s + t == s;
    } else {
      var t0, c := t[..|t| - 1], t[|t| - 1];
      FullAllConcat(u, s, t0);
      assert (s + t)[..|s + t| - 1] == s + t0;
      assert FullAll(u, t) == FullAll(u, t0) + Full(u, c);
      assert FullAll(u, s + t) == FullAll(u, s + t0) + Full(u, c);
    }
  }

  lemma FullAllOne(u: Ucd, c: int)
    requires DataOk(u)
    ensures FullAll(u, [c]) == Full(u, c)
  {
    assert [c][..0] == [];
    assert FullAll(u, []) == [];
  }

  /** Nothing is left to decompose. */
  lemma {:induction false} FullIsPlain(u: Ucd, c: int)
    requires DataOk(u)
    ensures AllPlain(u, Full(u, c))
    decreases u.rank(c), 1, 0
  {
    if !IsSyllable(c) && u.decomp(c) != [] { FullAllIsPlain(u, u.decomp(c)); }
  }

  lemma {:induction false} FullAllIsPlain(u: Ucd, s: seq<int>)
    requires DataOk(u)
    ensures AllPlain(u, FullAll(u, s))
    decreases Height(u, s), 0, |s|
  {
    if s != [] {
      FullAllIsPlain(u, s[..|s| - 1]);
      FullIsPlain(u, s[|s| - 1]);
    }
  }

  lemma {:induction false} PlainIsFull(u: Ucd, s: seq<int>)
    requires DataOk(u) && AllPlain(u, s)
    ensures FullAll(u, s) == s
    decreases |s|
  {
    if s != [] {
      var init := s[..|s| - 1];
      assert AllPlain(u, init);
      PlainIsFull(u, init);
      assert s == init + [s[|s| - 1]];
    }
  }

  /** to_nfd_rec: appends the full decomposition of src to the buffer. */
  method ToNfdRec(u: Ucd, dbuf: Text, src: seq<int>)
    requires DataOk(u)
    modifies dbuf
    ensures dbuf.buf == old(dbuf.buf) + FullAll(u, src)
    decreases Height(u, src)
  {
    hide Full, FullAll, Height, Jamos, DataOk;
    ghost var pre := dbuf.buf;
    var i := 0;
    FullAllNothing(u, src);
    while i < |src|
      invariant 0 <= i <= |src| && dbuf.buf == pre + FullAll(u, src[..i])
    {
      var c := src[i];
      FullAllNext(u, src, i);
      if 0xac00 <= c < 0xd7a4 {
        PutSyllable(dbuf, c);
      } else {
        var res := u.decomp(c);
        if |res| != 0 {
          ToNfdRec(u, dbuf, res);
        } else {
          dbuf.buf := dbuf.buf + [c];
        }
      }
      i := i + 1;
    }
    assert src[..i] == src;
  }

  /** Hangul decomposition. */
  method PutSyllable(dbuf: Text, syllable: int)
    requires IsSyllable(syllable)
    modifies dbuf
    ensures dbuf.buf == old(dbuf.buf) + Jamos(syllable)
  {
    var c := syllable - 0xac00;
    dbuf.buf := dbuf.buf + [0x1100 + c / 588];
    dbuf.buf := dbuf.buf + [0x1161 + c % 588 / 28];
    var v := c % 28;
    if v != 0 {
      dbuf.buf := dbuf.buf + [0x11a7 + v];
    }
  }

  lemma FullAllNothing(u: Ucd, s: seq<int>)
    requires DataOk(u)
    ensures FullAll(u, s[..0]) == []
  {
  }

  lemma FullAllNext(u: Ucd, s: seq<int>, i: nat)
    requires DataOk(u) && i < |s|
    ensures FullAll(u, s[..i + 1]) == FullAll(u, s[..i]) + Full(u, s[i])
    ensures Full(u, s[i]) == if IsSyllable(s[i]) then Jamos(s[i]) else if u.decomp(s[i]) == [] then [s[i]]
            else FullAll(u, u.decomp(s[i]))
    ensures Height(u, u.decomp(s[i])) < Height(u, s)
  {
    assert s[..i + 1][..i] == s[..i];
  }
}
