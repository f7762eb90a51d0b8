/** A text in each of the encodings a body may come in: all of them are read as the same characters. */
module Renderings {
  import opened Options
  import opened Octets
  import opened Utf8
  import opened Characters
  import opened Encodings
  import opened Values

  datatype Width = Eight | Sixteen | ThirtyTwo

  /** The octets of a code unit, the high one first or last. */
  function Pair(u: nat, big: bool): Octets
    requires u < 0x10000
  {
    if big then [(u / 256) as octet, (u % 256) as octet] else [(u % 256) as octet, (u / 256) as octet]
  }

  /** A character as one code unit of UTF-16 or as two. */
  function Point16(c: nat, big: bool): Octets
    requires c < 0x110000
  {
    if c < 0x10000 then Pair(c, big)
    else Pair(0xD800 + (c - 0x10000) / 0x400, big) + Pair(0xDC00 + (c - 0x10000) % 0x400, big)
  }

  function Point32(c: nat, big: bool): Octets
    requires c < 0x110000
  {
    if big then Pair(c / 0x10000, big) + Pair(c % 0x10000, big) else Pair(c % 0x10000, big) + Pair(c / 0x10000, big)
  }

  function Point(c: nat, width: Width, big: bool): Octets
    requires c < 0x110000
  {
    match width
    case Eight => Point8(c)
    case Sixteen => Point16(c, big)
    case ThirtyTwo => Point32(c, big)
  }

  function Rendered(chars: Chars, width: Width, big: bool): Octets
    requires IsText(chars)
  {
    if chars == [] then [] else Point(chars[0], width, big) + Rendered(chars[1..], width, big)
  }

  /** The mark is a character like any other. */
  const MARK_POINT: nat := 0xFEFF

  /** A text with or without a mark ahead of it. */
  function WithMark(chars: Chars, marked: bool): Chars {
    if marked then [MARK_POINT] + chars else chars
  }

  // ----- What is written in an encoding is read in it -----

  lemma UnitOf(u: nat, big: bool, rest: Octets)
    requires u < 0x10000
    ensures var d := Pair(u, big) + rest; |d| == 2 + |rest| && Unit(d[0], d[1], big) == u && d[2..] == rest
  {
    assert u == u / 256 * 256 + u % 256;
  }

  lemma UnitsOf(u: nat, v: nat, big: bool, rest: Octets)
    requires u < 0x10000 && v < 0x10000
    ensures
      var d := Pair(u, big) + Pair(v, big) + rest;
      |d| == 4 + |rest| && Unit(d[0], d[1], big) == u && Unit(d[2], d[3], big) == v && d[4..] == rest
  {
    hide Pair, Unit;
    UnitOf(u, big, Pair(v, big) + rest);
    UnitOf(v, big, rest);
    var d := Pair(u, big) + Pair(v, big) + rest;
    assert d == Pair(u, big) + (Pair(v, big) + rest);
    assert d[2..][0] == d[2] && d[2..][1] == d[3] && d[2..][2..] == d[4..];
  }

  lemma NoPairAfter(chars: Chars)
    requires chars != [] && !HasPair(chars)
    ensures !HasPair(chars[1..]) && (|chars| > 1 ==> !(IsHigh(chars[0]) && IsLow(chars[1])))
  {
    forall i | 0 <= i < |chars| - 2
      ensures !(IsHigh(chars[1..][i]) && IsLow(chars[1..][i + 1]))
    {
      assert chars[1..][i] == chars[i + 1] && chars[1..][i + 1] == chars[i + 2];
    }
  }

  /** The first code unit is a low surrogate just where the first character is one. */
  lemma NextUnit(chars: Chars, big: bool)
    requires IsText(chars) && chars != []
    ensures var d := Rendered(chars, Sixteen, big); |d| >= 2 && (IsLow(Unit(d[0], d[1], big)) <==> IsLow(chars[0]))
  {
    hide Pair, Unit;
    var c := chars[0];
    var rest := Rendered(chars[1..], Sixteen, big);
    if c < 0x10000 {
      UnitOf(c, big, rest);
    } else {
      UnitsOf(0xD800 + (c - 0x10000) / 0x400, 0xDC00 + (c - 0x10000) % 0x400, big, rest);
      JoinedBack(c);
    }
  }

  lemma SingleReads(c: nat, big: bool, rest: Octets)
    requires c < 0x10000 && Chars16(rest, big).Some?
    requires IsHigh(c) && |rest| >= 2 ==> !IsLow(Unit(rest[0], rest[1], big))
    ensures Chars16(Pair(c, big) + rest, big) == Some([c] + Chars16(rest, big).value)
  {
    hide Pair, Unit;
    UnitOf(c, big, rest);
    var d := Pair(c, big) + rest;
    if |rest| >= 2 {
      assert d[2] == rest[0] && d[3] == rest[1];
    }
  }

  lemma JoinedReads(c: nat, big: bool, rest: Octets)
    requires 0x10000 <= c < 0x110000 && Chars16(rest, big).Some?
    ensures Chars16(Point16(c, big) + rest, big) == Some([c] + Chars16(rest, big).value)
  {
    hide Pair, Unit, Joined;
    UnitsOf(0xD800 + (c - 0x10000) / 0x400, 0xDC00 + (c - 0x10000) % 0x400, big, rest);
    JoinedBack(c);
  }

  lemma {:induction false} Reads16(chars: Chars, big: bool)
    requires IsText(chars) && !HasPair(chars)
    ensures Chars16(Rendered(chars, Sixteen, big), big) == Some(chars)
    decreases |chars|
  {
    hide Pair, Unit, HasPair, Chars16;
    if chars == [] {
      NothingReads(big);
    } else {
      var c := chars[0];
      var rest := Rendered(chars[1..], Sixteen, big);
      NoPairAfter(chars);
      Reads16(chars[1..], big);
      assert chars == [c] + chars[1..];
      if c >= 0x10000 {
        JoinedReads(c, big, rest);
      } else {
        if |chars| > 1 {
          NextUnit(chars[1..], big);
        }
        SingleReads(c, big, rest);
      }
    }
  }

  lemma NothingReads(big: bool)
    ensures Chars16([], big) == Some([]) && Chars32([], big) == Some([])
  {
  }

  lemma JoinedBack(c: nat)
    requires 0x10000 <= c < 0x110000
    ensures
      var h, l := 0xD800 + (c - 0x10000) / 0x400, 0xDC00 + (c - 0x10000) % 0x400;
      IsHigh(h) && IsLow(l) && Joined(h, l) == c
  {
  }

  lemma {:induction false} Reads32(chars: Chars, big: bool)
    requires IsText(chars)
    ensures Chars32(Rendered(chars, ThirtyTwo, big), big) == Some(chars)
    decreases |chars|
  {
    hide Pair, Unit;
    if chars != [] {
      var c := chars[0];
      var rest := Rendered(chars[1..], ThirtyTwo, big);
      Reads32(chars[1..], big);
      assert chars == [c] + chars[1..];
      if big {
        UnitsOf(c / 0x10000, c % 0x10000, big, rest);
      } else {
        UnitsOf(c % 0x10000, c / 0x10000, big, rest);
      }
      assert c == c / 0x10000 * 0x10000 + c % 0x10000;
    }
  }

  /** Whole code units are UTF-16, and nothing else is. */
  lemma {:induction false} WholeUnits(d: Octets, big: bool)
    ensures Chars16(d, big).Some? <==> |d| % 2 == 0
    decreases |d|
  {
    hide Unit;
    if |d| >= 4 {
      WholeUnits(d[4..], big);
    }
    if |d| >= 2 {
      WholeUnits(d[2..], big);
    }
  }

  /** Octets are UTF-32 exactly where code points are written as them. */
  lemma WholePoints(d: Octets, big: bool)
    ensures Chars32(d, big).Some? <==> exists chars :: IsText(chars) && Rendered(chars, ThirtyTwo, big) == d
  {
    if Chars32(d, big).Some? {
      PointsBack(d, big);
    }
    forall chars | IsText(chars) && Rendered(chars, ThirtyTwo, big) == d
      ensures Chars32(d, big).Some?
    {
      Reads32(chars, big);
    }
  }

  lemma {:induction false} PointsBack(d: Octets, big: bool)
    requires Chars32(d, big).Some?
    ensures var chars := Chars32(d, big).value; IsText(chars) && Rendered(chars, ThirtyTwo, big) == d
    decreases |d|
  {
    hide Unit, Point32;
    if d != [] {
      var a, b := Unit(d[0], d[1], big), Unit(d[2], d[3], big);
      var c := if big then a * 0x10000 + b else b * 0x10000 + a;
      var rest := Chars32(d[4..], big).value;
      PointsBack(d[4..], big);
      PointBack(d[0], d[1], d[2], d[3], big);
      assert d == [d[0], d[1], d[2], d[3]] + d[4..];
      assert ([c] + rest)[1..] == rest;
    }
  }

  lemma PointBack(a: octet, b: octet, c: octet, e: octet, big: bool)
    ensures
      var u, v := Unit(a, b, big), Unit(c, e, big);
      var n := if big then u * 0x10000 + v else v * 0x10000 + u;
      n < 0x110000 ==> Point32(n, big) == [a, b, c, e]
  {
    hide Unit, Pair;
    PairBack(a, b, big);
    PairBack(c, e, big);
  }

  lemma PairBack(a: octet, b: octet, big: bool)
    ensures Unit(a, b, big) < 0x10000 && Pair(Unit(a, b, big), big) == [a, b]
  {
  }

  lemma {:induction false} Renders8(chars: Chars, big: bool)
    requires IsText(chars)
    ensures Rendered(chars, Eight, big) == Chars8(chars)
    decreases |chars|
  {
    if chars != [] {
      Renders8(chars[1..], big);
    }
  }

  // ----- What is written in an encoding is detected as it -----

  /** A text that starts with a character in ASCII, with no NUL for either of its first two characters. */
  predicate StartsPlain(chars: Chars) {
    IsText(chars) && !HasPair(chars) && chars != [] && 0 < chars[0] < 0x80 && (|chars| > 1 ==> chars[1] != 0)
  }

  function EncodingOf(width: Width, big: bool, marked: bool): Encoding {
    match width
    case Eight => if marked then MarkedUtf8 else PlainUtf8
    case Sixteen => if marked then MarkedUtf16 else Utf16(big)
    case ThirtyTwo => if marked then MarkedUtf32 else Utf32(big)
  }

  lemma NoMark(d: Octets)
    requires d != [] && d[0] < 0xEF && (d[0] == 0 && |d| >= 4 ==> d[1] != 0 || d[2] != 0xFE)
    ensures !([0, 0, 0xFE, 0xFF] <= d) && !([0xFF, 0xFE, 0, 0] <= d) && !([0xFE, 0xFF] <= d) && !([0xFF, 0xFE] <= d)
    ensures !(MARK <= d)
  {
    assert forall mark: Octets, i | mark <= d && 0 <= i < |mark| :: mark[i] == d[i];
  }

  /** The first character in ASCII, and what the next one starts with. */
  lemma FirstOctets(chars: Chars, width: Width, big: bool)
    requires StartsPlain(chars)
    ensures
      var d := Rendered(chars, width, big);
      var c := chars[0] as octet;
      match width
      case Eight => |d| >= 1 && d[0] == c && (|d| > 1 ==> d[1] != 0)
      case Sixteen =>
        |d| >= 2 && d[0] == (if big then 0 else c) && d[1] == (if big then c else 0) && |d| != 3 &&
        (|d| > 2 ==> d[2] != 0 || d[3] != 0)
      case ThirtyTwo =>
        |d| >= 4 && d[0] == (if big then 0 else c) && d[1] == 0 && d[2] == 0 && d[3] == (if big then c else 0)
  {
    var rest := Rendered(chars[1..], width, big);
    if |chars| > 1 {
      assert rest == Point(chars[1], width, big) + Rendered(chars[1..][1..], width, big);
      NextOctets(chars[1], width, big);
    }
  }

  lemma NextOctets(c: nat, width: Width, big: bool)
    requires 0 < c < 0x110000
    ensures
      var p := Point(c, width, big);
      |p| >= (if width == Eight then 1 else 2) && (width == Eight ==> p[0] != 0) &&
      (width == Sixteen ==> p[0] != 0 || p[1] != 0)
  {
  }

  lemma DetectsUnmarked(chars: Chars, width: Width, big: bool)
    requires StartsPlain(chars)
    ensures Detected(Rendered(chars, width, big)) == EncodingOf(width, big, false)
  {
    hide Rendered;
    FirstOctets(chars, width, big);
    NoMark(Rendered(chars, width, big));
  }

  /** After a mark the text starts, and the mark tells which octet of a unit is the high one. */
  lemma DetectsMarked(chars: Chars, width: Width, big: bool)
    requires StartsPlain(chars)
    ensures
      var d := Rendered(WithMark(chars, true), width, big);
      var n := match width case Eight => 3 case Sixteen => 2 case ThirtyTwo => 4;
      Detected(d) == EncodingOf(width, big, true) && |d| >= n && d[n..] == Rendered(chars, width, big) &&
      (width == Sixteen ==> (d[0] == 0xFE <==> big)) && (width == ThirtyTwo ==> (d[0] == 0 <==> big))
  {
    hide Point, Detected;
    FirstOctets(chars, width, big);
    var s := Rendered(chars, width, big);
    MarkIs(width, big);
    var mark := Point(MARK_POINT, width, big);
    assert WithMark(chars, true)[1..] == chars;
    var d := Rendered(WithMark(chars, true), width, big);
    assert d == mark + s;
    assert d[..|mark|] == mark;
    DetectsMark(mark, s);
  }

  lemma MarkIs(width: Width, big: bool)
    ensures
      Point(MARK_POINT, width, big) ==
      match width
      case Eight => MARK
      case Sixteen => if big then [0xFE, 0xFF] else [0xFF, 0xFE]
      case ThirtyTwo => if big then [0, 0, 0xFE, 0xFF] else [0xFF, 0xFE, 0, 0]
  {
  }

  lemma DetectsMark(mark: Octets, s: Octets)
    requires mark == [0xFE, 0xFF] || mark == [0xFF, 0xFE] ==> |s| >= 2 && (s[0] != 0 || s[1] != 0)
    ensures (mark + s)[..|mark|] == mark && (mark + s)[|mark|..] == s
    ensures mark == MARK ==> Detected(mark + s) == MarkedUtf8
    ensures mark == [0xFE, 0xFF] || mark == [0xFF, 0xFE] ==> Detected(mark + s) == MarkedUtf16
    ensures mark == [0, 0, 0xFE, 0xFF] || mark == [0xFF, 0xFE, 0, 0] ==> Detected(mark + s) == MarkedUtf32
  {
    var d := mark + s;
    assert mark <= d;
    if mark == MARK {
      Marked(s);
    } else if mark == [0xFE, 0xFF] || mark == [0xFF, 0xFE] {
      NotWider(d, [0, 0, 0xFE, 0xFF]);
      NotWider(d, [0xFF, 0xFE, 0, 0]);
    }
  }

  lemma NotWider(d: Octets, mark: Octets)
    requires |d| >= 4 && |mark| == 4 && (d[0] != mark[0] || d[2] != mark[2] || d[3] != mark[3])
    ensures !(mark <= d)
  {
  }

  // ----- Every encoding is read alike -----

  /** A text is recoded to the same octets from whatever encoding it is written in, with a mark or without. */
  lemma RecodedAlike(chars: Chars, width: Width, big: bool, marked: bool)
    requires StartsPlain(chars)
    ensures Recoded(Rendered(WithMark(chars, marked), width, big)) == Some(Chars8(chars))
    ensures Detected(Rendered(WithMark(chars, marked), width, big)) == EncodingOf(width, big, marked)
  {
    hide Detected, Chars16, Chars32, Rendered, PassRun, Chars8;
    if marked {
      DetectsMarked(chars, width, big);
    } else {
      DetectsUnmarked(chars, width, big);
    }
    match width {
      case Eight =>
        Renders8(chars, big);
        WrittenDecodes(true, chars);
      case Sixteen => Reads16(chars, big);
      case ThirtyTwo => Reads32(chars, big);
    }
  }
}
