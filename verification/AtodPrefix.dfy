/** Relations between calls of js_atod: what the sign, a radix prefix, a leading zero and the case of letters change. */
module AtodPrefix {
  import opened Bytes
  import opened DtoaTables
  import opened AtodDigits
  import opened AtodParse
  import opened AtodCopies

  // ----- the parts of a text -----

  /** The two parts of a text: its sign, if it has one, and the rest. */
  predicate Split(sg: seq<byte>, u: seq<byte>) {
    sg == [43] || sg == [45] || (sg == [] && (u == [] || (u[0] != 43 && u[0] != 45)))
  }

  /** A digit of the radix: the decimal digits, then the letters in either case. */
  predicate IsDigit(c: int, radix: int) {
    || (48 <= c <= 57 && c - 48 < radix)
    || (97 <= c <= 122 && c - 97 + 10 < radix)
    || (65 <= c <= 90 && c - 65 + 10 < radix)
  }

  /** The text begins with a digit of the radix. */
  predicate Begin(t: seq<byte>, radix: int) {
    t != [] && IsDigit(t[0], radix)
  }

  /** What js_atod sees of the two parts. */
  lemma SplitText(sg: seq<byte>, u: seq<byte>)
    requires Split(sg, u)
    ensures SignLength(sg + u) == |sg| && (CharAt(sg + u, 0) == 45 <==> sg == [45])
    ensures forall i: nat :: CharAt(sg + u, |sg| + i) == CharAt(u, i)
  {
    if sg == [] { assert sg + u == u; }
  }

  lemma DigitIs(c: int, radix: int)
    requires 2 <= radix <= RADIX_MAX
    ensures IsDigit(c, radix) <==> ToDigit(c) < radix
  {
  }

  lemma NotInfinity(sg: seq<byte>, u: seq<byte>)
    ensures StartsInfinity(sg + u, |sg|) ==> u != [] && u[0] == 73
  {
    if StartsInfinity(sg + u, |sg|) {
      assert (sg + u)[|sg| + 0] == INFINITY_TEXT[0];
    }
  }

  /** Two calls that read copies: the same outcome up to the sign, and the same sign where the texts have it. */
  lemma CallsAgree(text1: seq<byte>, radix1: nat, flags1: Flags, s: Source, text2: seq<byte>, radix2: nat,
                   flags2: Flags, t: Source, k: nat, begin: nat, res1: AtodResult, next1: nat, res2: AtodResult,
                   next2: nat)
    requires ParsePrefix(text1, radix1, flags1) == Numeric(s, begin + k)
    requires ParsePrefix(text2, radix2, flags2) == Numeric(t, begin)
    requires Shifted(s, t, k, begin) && (s.start == t.start + k || ToDigit(CharAt(t.text, begin)) < t.radix)
    requires Returns(text1, radix1, flags1, res1, next1) && Returns(text2, radix2, flags2, res2, next2)
    ensures Alike(res1, next1, res2, next2, k)
    ensures (CharAt(text1, 0) == 45 <==> CharAt(text2, 0) == 45) ==> Same(res1, next1, res2, next2, k)
  {
    hide ParsePrefix, NumberRead, Shifted;
    var mid1: nat, ds1: seq<nat> :| Parsed(text1, radix1, flags1, res1, next1, mid1, ds1);
    var mid2: nat, ds2: seq<nat> :| Parsed(text2, radix2, flags2, res2, next2, mid2, ds2);
    Copies(s, t, k, begin, mid1, next1, ds1, res1, mid2, next2, ds2, res2);
  }

  /** The source of a text without a prefix. */
  function Whole(text: seq<byte>, start: nat, radix: nat, flags: Flags): Source {
    Source(text, start, radix, if flags.underscores then 95 else 256, flags.intOnly)
  }

  /** With a radix given, and no "0x" where it is 16, the digits begin after the sign. */
  lemma Unprefixed(sg: seq<byte>, u: seq<byte>, radix: nat, flags: Flags)
    requires Split(sg, u) && 2 <= radix <= RADIX_MAX && (u != [] && u[0] == 73 ==> flags.intOnly)
    requires radix == 16 && |u| >= 2 && u[0] == 48 ==> u[1] != 120 && u[1] != 88
    ensures ParsePrefix(sg + u, radix, flags) == Numeric(Whole(sg + u, |sg|, radix, flags), |sg|)
  {
    SplitText(sg, u);
    NotInfinity(sg, u);
    assert CharAt(sg + u, |sg| + 0) == CharAt(u, 0) && CharAt(sg + u, |sg| + 1) == CharAt(u, 1);
  }

  /** What a prefix makes of the text behind it. */
  lemma Prefixed(sg: seq<byte>, x: byte, t: seq<byte>, radix0: nat, radix: nat, flags: Flags)
    requires Split(sg, [48])
    requires || (x in [120, 88] && radix == 16 && (radix0 == 0 || radix0 == 16))
             || (x in [111, 79] && radix == 8 && radix0 == 0 && flags.binOct)
             || (x in [98, 66] && radix == 2 && radix0 == 0 && flags.binOct)
    ensures var text := sg + ([48, x] + t);
            ParsePrefix(text, radix0, flags)
            == if Begin(t, radix) then Numeric(Whole(text, |sg|, radix, flags), |sg| + 2) else Rejected
  {
    var u := [48, x] + t;
    SplitText(sg, u);
    assert CharAt(sg + u, |sg| + 0) == 48 && CharAt(sg + u, |sg| + 1) == x as int;
    assert CharAt(sg + u, |sg| + 2) == CharAt(u, 2) == CharAt(t, 0);
    DigitIs(CharAt(t, 0), radix);
  }

  /** The text behind a prefix follows the same text without the prefix. */
  lemma Moved(sg: seq<byte>, w: seq<byte>, t: seq<byte>, radix: nat, flags: Flags)
    requires 2 <= radix <= RADIX_MAX && Begin(t, radix)
    ensures Shifted(Whole(sg + (w + t), |sg|, radix, flags), Whole(sg + t, |sg|, radix, flags), |w|, |sg|)
    ensures ToDigit(CharAt(sg + t, |sg|)) < radix
  {
    var s, u := sg + (w + t), sg + t;
    forall p | |sg| <= p < |u| ensures s[p + |w|] == u[p] {
      assert u[p] == t[p - |sg|];
    }
    DigitIs(t[0], radix);
    assert CharAt(u, |sg|) == t[0];
  }

  /** A text behind a prefix w and the text itself: the same outcome. */
  lemma BehindPrefix(sg: seq<byte>, w: seq<byte>, t: seq<byte>, radix0: nat, flags0: Flags, radix: nat, flags: Flags,
                     res1: AtodResult, next1: nat, res2: AtodResult, next2: nat)
    requires Split(sg, w) && Split(sg, t) && w != [] && 2 <= radix <= RADIX_MAX && Begin(t, radix)
    requires ParsePrefix(sg + (w + t), radix0, flags0)
          == Numeric(Whole(sg + (w + t), |sg|, radix, flags), |sg| + |w|)
    requires ParsePrefix(sg + t, radix, flags) == Numeric(Whole(sg + t, |sg|, radix, flags), |sg|)
    requires Returns(sg + (w + t), radix0, flags0, res1, next1) && Returns(sg + t, radix, flags, res2, next2)
    ensures Same(res1, next1, res2, next2, |w|)
  {
    hide ParsePrefix, Shifted, Returns, IsDigit, ToDigit;
    Moved(sg, w, t, radix, flags);
    SplitText(sg, w + t);
    SplitText(sg, t);
    CallsAgree(sg + (w + t), radix0, flags0, Whole(sg + (w + t), |sg|, radix, flags), sg + t, radix, flags,
               Whole(sg + t, |sg|, radix, flags), |w|, |sg|, res1, next1, res2, next2);
  }

  lemma DigitFirst(sg: seq<byte>, t: seq<byte>, radix: nat)
    requires Split(sg, [48]) && Begin(t, radix) && radix <= 16
    ensures Split(sg, t) && t[0] != 73
  {
  }

  /**
   * "0o" and "0b" with no radix given, where the flags accept them: the text behind the prefix is read as the call
   * with radix 8 or 2 reads it, and ends two places later.
   */
  lemma OctalAndBinaryPrefix(sg: seq<byte>, x: byte, t: seq<byte>, radix: nat, flags: Flags,
                             res1: AtodResult, next1: nat, res2: AtodResult, next2: nat)
    requires sg in [[], [43], [45]] && flags.binOct && Begin(t, radix)
    requires (x in [111, 79] && radix == 8) || (x in [98, 66] && radix == 2)
    requires Returns(sg + ([48, x] + t), 0, flags, res1, next1) && Returns(sg + t, radix, flags, res2, next2)
    ensures Same(res1, next1, res2, next2, 2)
  {
    hide ParsePrefix, Returns, Begin;
    Prefixed(sg, x, t, 0, radix, flags);
    DigitFirst(sg, t, radix);
    Unprefixed(sg, t, radix, flags);
    BehindPrefix(sg, [48, x], t, 0, flags, radix, flags, res1, next1, res2, next2);
  }

  /**
   * "0x", with no radix given or with 16: the text behind the prefix is read as the call with radix 16 reads it, and
   * ends two places later, unless that text begins with "0x" itself; then only its first zero is read.
   */
  lemma HexadecimalPrefix(sg: seq<byte>, x: byte, t: seq<byte>, radix: nat, flags: Flags,
                          res1: AtodResult, next1: nat, res2: AtodResult, next2: nat)
    requires sg in [[], [43], [45]] && x in [120, 88] && radix in [0, 16] && Begin(t, 16)
    requires Returns(sg + ([48, x] + t), radix, flags, res1, next1) && Returns(sg + t, 16, flags, res2, next2)
    ensures Same(res1, next1, res2, next2, 2) <==> !(t[0] == 48 && |t| > 1 && t[1] in [120, 88])
  {
    hide ParsePrefix, Returns;
    Prefixed(sg, x, t, radix, 16, flags);
    DigitFirst(sg, t, 16);
    if t[0] == 48 && |t| > 1 && t[1] in [120, 88] {
      TwoPrefixes(sg, x, t, radix, flags, res1, next1, res2, next2);
    } else {
      Unprefixed(sg, t, 16, flags);
      BehindPrefix(sg, [48, x], t, radix, flags, 16, flags, res1, next1, res2, next2);
    }
  }

  lemma TwoPrefixes(sg: seq<byte>, x: byte, t: seq<byte>, radix: nat, flags: Flags,
                    res1: AtodResult, next1: nat, res2: AtodResult, next2: nat)
    requires Split(sg, [48]) && Split(sg, t) && |t| > 1 && t[0] == 48 && t[1] in [120, 88]
    requires var text := sg + ([48, x] + t);
             ParsePrefix(text, radix, flags) == Numeric(Whole(text, |sg|, 16, flags), |sg| + 2)
    requires Returns(sg + ([48, x] + t), radix, flags, res1, next1) && Returns(sg + t, 16, flags, res2, next2)
    ensures !res1.NotANumber? && next1 == |sg| + 3
    ensures res2.NotANumber? || next2 >= |sg| + 3
  {
    hide ParsePrefix, ReadsAs, Significant, IntOverflow;
    var text := sg + ([48, x] + t);
    var s := Whole(text, |sg|, 16, flags);
    var p := |sg| + 2;
    assert CharAt(text, p) == 48 && CharAt(text, p + 1) == t[1] as int;
    DigitNext(s, p, false);
    NumeralStops(s, p + 1, false);
    var mid1: nat, ds1: seq<nat> :| Parsed(text, radix, flags, res1, next1, mid1, ds1);
    assert sg + t == sg + ([48, t[1]] + t[2..]) by { assert t == [48, t[1]] + t[2..]; }
    Prefixed(sg, t[1], t[2..], 16, 16, flags);
    var mid2: nat, ds2: seq<nat> :| Parsed(sg + t, 16, flags, res2, next2, mid2, ds2);
    if Begin(t[2..], 16) {
      var u := Whole(sg + t, |sg|, 16, flags);
      assert CharAt(sg + t, p) == t[2] as int;
      DigitIs(t[2], 16);
      DigitNext(u, p, false);
    }
  }

  /** A prefix that no digit follows is refused. */
  lemma PrefixAlone(sg: seq<byte>, x: byte, t: seq<byte>, radix0: nat, radix: nat, flags: Flags,
                    res: AtodResult, next: nat)
    requires sg in [[], [43], [45]] && !Begin(t, radix)
    requires || (x in [120, 88] && radix == 16 && (radix0 == 0 || radix0 == 16))
             || (x in [111, 79] && radix == 8 && radix0 == 0 && flags.binOct)
             || (x in [98, 66] && radix == 2 && radix0 == 0 && flags.binOct)
    requires Returns(sg + ([48, x] + t), radix0, flags, res, next)
    ensures res == NotANumber
  {
    hide ParsePrefix, NumberRead;
    Prefixed(sg, x, t, radix0, radix, flags);
  }

  // ----- legacy octal numbers -----

  /** The first character that is no octal digit, if there is one, is an 8 or a 9. */
  predicate EightOrNine(t: seq<byte>) {
    exists q: nat :: q < |t| && t[q] in [56, 57] && AllOctal(t, q)
  }

  predicate AllOctal(t: seq<byte>, q: nat)
    requires q <= |t|
  {
    forall i :: 0 <= i < q ==> 48 <= t[i] <= 55
  }

  lemma {:induction false} OctalRunIs(text: seq<byte>, p: nat)
    requires p <= |text|
    ensures AllOctal(text[p..], OctalRun(text, p) - p)
    ensures !(48 <= CharAt(text, OctalRun(text, p)) <= 55)
    decreases |text| - p
  {
    if p < |text| && 48 <= text[p] <= 55 {
      OctalRunIs(text, p + 1);
      var t, r := text[p..], text[p + 1..];
      forall i | 0 <= i < OctalRun(text, p) - p ensures 48 <= t[i] <= 55 {
        if i > 0 { assert t[i] == r[i - 1]; }
      }
    }
  }

  lemma RunEnds(text: seq<byte>, p: nat, t: seq<byte>)
    requires p <= |text| && t == text[p..]
    ensures EightOrNine(t) <==> CharAt(text, OctalRun(text, p)) in [56, 57]
  {
    hide OctalRun;
    OctalRunIs(text, p);
    var r := OctalRun(text, p) - p;
    if r < |t| { assert t[r] == text[p + r]; }
    if EightOrNine(t) {
      var q: nat :| q < |t| && t[q] in [56, 57] && AllOctal(t, q);
      assert !(q < r) && !(r < q);
    }
  }

  lemma OctalBegins(t: seq<byte>)
    requires Begin(t, 10) && !EightOrNine(t)
    ensures Begin(t, 8)
  {
    if t[0] in [56, 57] { assert AllOctal(t, 0); }
  }

  lemma LegacyPrefix(sg: seq<byte>, t: seq<byte>, flags: Flags)
    requires Split(sg, [48]) && flags.legacyOctal && Begin(t, 10)
    ensures var text, plain := sg + ([48] + t), flags.(underscores := false);
            ParsePrefix(text, 0, flags)
            == if EightOrNine(t) then Numeric(Whole(text, |sg|, 10, plain), |sg|)
               else Numeric(Whole(text, |sg|, 8, plain), |sg| + 1)
  {
    hide OctalRun, EightOrNine, ToDigit, StartsInfinity;
    var u := [48] + t;
    var text := sg + u;
    SplitText(sg, u);
    assert CharAt(text, |sg| + 0) == 48 && CharAt(text, |sg| + 1) == CharAt(u, 1) == t[0] as int;
    assert text[|sg| + 1..] == t;
    RunEnds(text, |sg| + 1, t);
    if !EightOrNine(t) { OctalBegins(t); }
    DigitIs(t[0], 8);
  }

  /**
   * A leading zero with no radix given, where the flags accept it: the digits behind it are read as the call with
   * radix 8 reads them, without separators, and end one place later.
   */
  lemma LegacyOctal(sg: seq<byte>, t: seq<byte>, flags: Flags,
                    res1: AtodResult, next1: nat, res2: AtodResult, next2: nat)
    requires sg in [[], [43], [45]] && flags.legacyOctal && Begin(t, 10) && !EightOrNine(t)
    requires Returns(sg + ([48] + t), 0, flags, res1, next1)
    requires Returns(sg + t, 8, flags.(underscores := false), res2, next2)
    ensures Same(res1, next1, res2, next2, 1)
  {
    hide ParsePrefix, Returns, EightOrNine;
    var plain := flags.(underscores := false);
    LegacyPrefix(sg, t, flags);
    OctalBegins(t);
    DigitFirst(sg, t, 8);
    Unprefixed(sg, t, 8, plain);
    BehindPrefix(sg, [48], t, 0, flags, 8, plain, res1, next1, res2, next2);
  }

  /** With an 8 or a 9 behind the octal digits the whole is decimal, and still without separators. */
  lemma LegacyDecimal(sg: seq<byte>, t: seq<byte>, flags: Flags,
                      res1: AtodResult, next1: nat, res2: AtodResult, next2: nat)
    requires sg in [[], [43], [45]] && flags.legacyOctal && Begin(t, 10) && EightOrNine(t)
    requires Returns(sg + ([48] + t), 0, flags, res1, next1)
    requires Returns(sg + ([48] + t), 10, flags.(underscores := false), res2, next2)
    ensures Same(res1, next1, res2, next2, 0)
  {
    hide ParsePrefix, Returns, EightOrNine, Follows;
    var plain, text := flags.(underscores := false), sg + ([48] + t);
    LegacyPrefix(sg, t, flags);
    Unprefixed(sg, [48] + t, 10, plain);
    var s := Whole(text, |sg|, 10, plain);
    Itself(s, |sg|);
    CallsAgree(text, 0, flags, s, text, 10, plain, s, 0, |sg|, res1, next1, res2, next2);
  }

  lemma Itself(s: Source, a: nat)
    requires SourceOk(s) && a <= |s.text|
    ensures Shifted(s, s, 0, a)
  {
  }

  /** The text begins with a prefix that the flags accept. */
  predicate HasPrefix(u: seq<byte>, flags: Flags) {
    && |u| >= 2 && u[0] == 48
    && (u[1] in [120, 88] || (flags.binOct && u[1] in [111, 79, 98, 66]) || (flags.legacyOctal && 48 <= u[1] <= 57))
  }

  /** With no radix given, a text without an accepted prefix is read as the call with radix 10 reads it. */
  lemma NoPrefix(sg: seq<byte>, u: seq<byte>, flags: Flags,
                 res1: AtodResult, next1: nat, res2: AtodResult, next2: nat)
    requires Split(sg, u) && !HasPrefix(u, flags)
    requires Returns(sg + u, 0, flags, res1, next1) && Returns(sg + u, 10, flags, res2, next2)
    ensures Same(res1, next1, res2, next2, 0)
  {
    hide NumberRead, StartsInfinity, OctalRun, AfterPrefix, Shifted;
    var text := sg + u;
    SplitText(sg, u);
    assert CharAt(text, |sg| + 0) == CharAt(u, 0) && CharAt(text, |sg| + 1) == CharAt(u, 1);
    assert ParsePrefix(text, 0, flags) == ParsePrefix(text, 10, flags);
    var mid1: nat, ds1: seq<nat> :| Parsed(text, 0, flags, res1, next1, mid1, ds1);
    var mid2: nat, ds2: seq<nat> :| Parsed(text, 10, flags, res2, next2, mid2, ds2);
    match ParsePrefix(text, 10, flags)
    case Rejected =>
    case Infinite(q) =>
    case Numeric(s, begin) => Determined(s, begin, mid1, next1, ds1, res1, mid2, next2, ds2, res2);
  }

  /** With a radix given, and no "0x" where it is 16, nothing but the sign comes before the digits. */
  lemma GivenRadix(sg: seq<byte>, u: seq<byte>, radix: nat, flags: Flags, res: AtodResult, next: nat)
    requires Split(sg, u) && 2 <= radix <= RADIX_MAX && (u != [] && u[0] == 73 ==> flags.intOnly)
    requires radix == 16 && |u| >= 2 && u[0] == 48 ==> u[1] != 120 && u[1] != 88
    requires Returns(sg + u, radix, flags, res, next)
    ensures exists mid: nat, ds: seq<nat> :: NumberRead(Whole(sg + u, |sg|, radix, flags), |sg|, mid, next, ds, res)
  {
    hide ParsePrefix, NumberRead;
    Unprefixed(sg, u, radix, flags);
    var mid: nat, ds: seq<nat> :| Parsed(sg + u, radix, flags, res, next, mid, ds);
    assert NumberRead(Whole(sg + u, |sg|, radix, flags), |sg|, mid, next, ds, res);
  }

  // ----- sign and case -----

  /** The second prefix is a copy of the first, k places earlier. */
  ghost predicate PrefixMoved(x: Prefix, y: Prefix, k: nat) {
    match y
    case Rejected => x.Rejected?
    case Infinite(q) => x == Prefix.Infinite(q + k)
    case Numeric(t, b) => x.Numeric? && x.begin == b + k && x.source.start == t.start + k && Shifted(x.source, t, k, b)
  }

  lemma {:induction false} RunMoves(s: seq<byte>, t: seq<byte>, k: nat, a: nat, p: nat)
    requires Follows(s, t, k, a) && a <= p
    ensures OctalRun(s, p + k) == OctalRun(t, p) + k
    decreases |t| - p
  {
    if p < |t| {
      assert SameLetter(s[p + k], t[p]);
      RunMoves(s, t, k, a, p + 1);
    }
  }

  /** What the choice of the prefix can see of a character. */
  lemma CharMoves(s: seq<byte>, t: seq<byte>, k: nat, a: nat, p: nat)
    requires Follows(s, t, k, a) && a <= p
    ensures var c, d := CharAt(s, p + k), CharAt(t, p);
            && ToDigit(c) == ToDigit(d) && (48 <= c <= 57 || 48 <= d <= 57 ==> c == d)
            && IsChar(c, 120, 88) == IsChar(d, 120, 88) && IsChar(c, 111, 79) == IsChar(d, 111, 79)
            && IsChar(c, 98, 66) == IsChar(d, 98, 66)
  {
    if p < |t| { assert SameLetter(s[p + k], t[p]); }
  }

  lemma AfterMoves(s: seq<byte>, t: seq<byte>, k: nat, start: nat, p: nat, radix: nat, sep: int, intOnly: bool)
    requires Follows(s, t, k, 0) && 2 <= radix <= RADIX_MAX && (sep == 95 || sep == 256) && start <= p
    ensures PrefixMoved(AfterPrefix(s, start + k, p + k, radix, sep, intOnly),
                        AfterPrefix(t, start, p, radix, sep, intOnly), k)
  {
    CharMoves(s, t, k, 0, p);
    if p < |t| { LaterOn(s, t, k, p); }
  }

  lemma LaterOn(s: seq<byte>, t: seq<byte>, k: nat, p: nat)
    requires Follows(s, t, k, 0) && p <= |t|
    ensures Follows(s, t, k, p)
  {
  }

  lemma PrefixMoves(s: seq<byte>, t: seq<byte>, k: nat, radix: nat, flags: Flags)
    requires Follows(s, t, k, 0) && (radix == 0 || 2 <= radix <= RADIX_MAX)
    requires SignLength(s) == SignLength(t) + k
    requires flags.intOnly || (StartsInfinity(s, SignLength(s)) <==> StartsInfinity(t, SignLength(t)))
    ensures PrefixMoved(ParsePrefix(s, radix, flags), ParsePrefix(t, radix, flags), k)
  {
    hide Follows, OctalRun, StartsInfinity, AfterPrefix, ToDigit, PrefixMoved;
    var p := SignLength(t);
    var sep := if flags.underscores then UNDERSCORE else NO_SEPARATOR;
    CharMoves(s, t, k, 0, p);
    CharMoves(s, t, k, 0, p + 1);
    RunMoves(s, t, k, 0, p + 1);
    CharMoves(s, t, k, 0, OctalRun(t, p + 1));
    AfterMoves(s, t, k, p, p + 2, 16, sep, flags.intOnly);
    AfterMoves(s, t, k, p, p + 2, 8, sep, flags.intOnly);
    AfterMoves(s, t, k, p, p + 2, 2, sep, flags.intOnly);
    AfterMoves(s, t, k, p, p + 1, 8, NO_SEPARATOR, flags.intOnly);
    PlainMoves(s, t, k, p, 10, NO_SEPARATOR, flags.intOnly);
    PlainMoves(s, t, k, p, if radix == 0 then 10 else radix, sep, flags.intOnly);
    EndsMove(p + 8, k);
  }

  lemma EndsMove(q: nat, k: nat)
    ensures PrefixMoved(Prefix.Infinite(q + k), Prefix.Infinite(q), k)
  {
  }

  lemma PlainMoves(s: seq<byte>, t: seq<byte>, k: nat, p: nat, radix: nat, sep: int, intOnly: bool)
    requires Follows(s, t, k, 0) && 2 <= radix <= RADIX_MAX && (sep == 95 || sep == 256) && p <= |t|
    ensures PrefixMoved(Numeric(Source(s, p + k, radix, sep, intOnly), p + k),
                        Numeric(Source(t, p, radix, sep, intOnly), p), k)
  {
    LaterOn(s, t, k, p);
  }

  lemma MovedCalls(s: seq<byte>, t: seq<byte>, k: nat, radix: nat, flags: Flags,
                   res1: AtodResult, next1: nat, res2: AtodResult, next2: nat)
    requires Returns(s, radix, flags, res1, next1) && Returns(t, radix, flags, res2, next2)
    requires PrefixMoved(ParsePrefix(s, radix, flags), ParsePrefix(t, radix, flags), k)
    ensures Alike(res1, next1, res2, next2, k)
    ensures res1.Double? ==> res1.negative == (CharAt(s, 0) == 45)
    ensures res2.Double? ==> res2.negative == (CharAt(t, 0) == 45)
  {
    hide ParsePrefix, NumberRead, Shifted;
    var mid1: nat, ds1: seq<nat> :| Parsed(s, radix, flags, res1, next1, mid1, ds1);
    var mid2: nat, ds2: seq<nat> :| Parsed(t, radix, flags, res2, next2, mid2, ds2);
    match ParsePrefix(t, radix, flags)
    case Rejected =>
    case Infinite(q) =>
    case Numeric(u, b) =>
      Copies(ParsePrefix(s, radix, flags).source, u, k, b, mid1, next1, ds1, res1, mid2, next2, ds2, res2);
  }

  /** A sign in front of a text without a sign: the same number with that sign, one place later. */
  lemma SignedReading(sg: seq<byte>, u: seq<byte>, radix: nat, flags: Flags,
                      res1: AtodResult, next1: nat, res2: AtodResult, next2: nat)
    requires sg in [[43], [45]] && Split([], u) && (radix == 0 || 2 <= radix <= RADIX_MAX)
    requires Returns(sg + u, radix, flags, res1, next1) && Returns(u, radix, flags, res2, next2)
    ensures Alike(res1, next1, res2, next2, 1)
    ensures res1.Double? ==> res1.negative == (sg == [45]) && !res2.negative
  {
    hide ParsePrefix, Returns, StartsInfinity;
    var s := sg + u;
    SplitText(sg, u);
    assert forall p :: 0 <= p < |u| ==> s[p + 1] == u[p];
    InfinityMoves(sg, u);
    PrefixMoves(s, u, 1, radix, flags);
    MovedCalls(s, u, 1, radix, flags, res1, next1, res2, next2);
  }

  lemma InfinityMoves(sg: seq<byte>, u: seq<byte>)
    ensures StartsInfinity(sg + u, |sg|) <==> StartsInfinity(u, 0)
  {
    var s := sg + u;
    assert forall i :: 0 <= i < |u| ==> s[|sg| + i] == u[i];
    if StartsInfinity(u, 0) {
      forall i | 0 <= i < 8 ensures s[|sg| + i] == INFINITY_TEXT[i] { assert u[0 + i] == INFINITY_TEXT[i]; }
    }
    if StartsInfinity(s, |sg|) {
      forall i | 0 <= i < 8 ensures u[0 + i] == INFINITY_TEXT[i] { assert s[|sg| + i] == INFINITY_TEXT[i]; }
    }
  }

  /**
   * The case of letters does not matter, be they digits, prefixes or the letters of exponents. The one exception is
   * the word Infinity, which is read in this spelling only.
   */
  lemma CaseDoesNotMatter(s: seq<byte>, t: seq<byte>, radix: nat, flags: Flags,
                          res1: AtodResult, next1: nat, res2: AtodResult, next2: nat)
    requires |s| == |t| && (forall p :: 0 <= p < |t| ==> SameLetter(s[p], t[p]))
    requires radix == 0 || 2 <= radix <= RADIX_MAX
    requires flags.intOnly || (StartsInfinity(s, SignLength(s)) <==> StartsInfinity(t, SignLength(t)))
    requires Returns(s, radix, flags, res1, next1) && Returns(t, radix, flags, res2, next2)
    ensures Same(res1, next1, res2, next2, 0)
  {
    hide ParsePrefix, Returns, StartsInfinity;
    if t != [] { assert SameLetter(s[0], t[0]); }
    assert forall p :: 0 <= p < |t| ==> SameLetter(s[p + 0], t[p]);
    PrefixMoves(s, t, 0, radix, flags);
    MovedCalls(s, t, 0, radix, flags, res1, next1, res2, next2);
  }
}
