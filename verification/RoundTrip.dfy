/** What `_request_json` writes, `JsonStream.value` reads back: as an equal value, but for one kind of string. */
module RoundTrip {
  import opened Options
  import opened Octets
  import opened Numbers
  import opened Grammar
  import opened Values
  import opened Decimals
  import opened Quantities
  import opened Printer
  import opened Scanner
  import opened ScannerProofs
  import opened Unambiguity
  import opened Reader
  import Utf8

  // ----- Strings -----

  /** What is read back: each such pair as the one character it encodes. */
  function PairsJoined(chars: Chars): Chars
    decreases |chars|
  {
    if chars == [] then []
    else if |chars| >= 2 && IsHigh(chars[0]) && IsLow(chars[1]) then
      [Joined(chars[0], chars[1])] + PairsJoined(chars[2..])
    else [chars[0]] + PairsJoined(chars[1..])
  }

  lemma {:induction false} JoinedExactly(chars: Chars)
    ensures |PairsJoined(chars)| <= |chars|
    ensures PairsJoined(chars) == chars <==> !HasPair(chars)
    decreases |chars|
  {
    if chars != [] {
      var rest := chars[1..];
      JoinedExactly(rest);
      if |chars| >= 2 && IsHigh(chars[0]) && IsLow(chars[1]) {
        JoinedExactly(chars[2..]);
      } else {
        assert chars == [chars[0]] + rest;
        if i :| 0 <= i < |rest| - 1 && IsHigh(rest[i]) && IsLow(rest[i + 1]) {
          assert chars[i + 1] == rest[i] && chars[i + 2] == rest[i + 1];
        }
        if i :| 0 <= i < |chars| - 1 && IsHigh(chars[i]) && IsLow(chars[i + 1]) {
          assert rest[i - 1] == chars[i] && rest[i] == chars[i + 1];
        }
      }
    }
  }

  lemma HexDigitValue(n: nat)
    requires n < 16
    ensures HexValue(HexDigit(n)) == n && IsHex(HexDigit(n))
  {
  }

  lemma HexSum(u: nat)
    requires u < 0x10000
    ensures ((u / 0x1000 * 16 + u / 0x100 % 16) * 16 + u / 16 % 16) * 16 + u % 16 == u
  {
    assert u / 0x100 / 16 == u / 0x1000 && u / 16 / 16 == u / 0x100;
  }

  lemma UnitRead(u: nat, rest: Octets)
    requires u < 0x10000
    ensures
      var s := UnitEscape(u) + rest;
      IsUnicodeEscape(s) && HexFour(s, 2) && HexNumber(s, 2) == u && s[6..] == rest
  {
    hide HexDigit, HexValue, IsHex;
    HexDigitValue(u / 0x1000);
    HexDigitValue(u / 0x100 % 16);
    HexDigitValue(u / 16 % 16);
    HexDigitValue(u % 16);
    HexSum(u);
    UnitAt(HexDigit(u / 0x1000), HexDigit(u / 0x100 % 16), HexDigit(u / 16 % 16), HexDigit(u % 16), rest);
  }

  lemma UnitAt(a: octet, b: octet, c: octet, d: octet, rest: Octets)
    ensures
      var s := [BACKSLASH, LOWER_U, a, b, c, d] + rest;
      IsUnicodeEscape(s) && s[2] == a && s[3] == b && s[4] == c && s[5] == d && s[6..] == rest
  {
  }

  /** Where the next character starts with the escape of a low surrogate. */
  predicate StartsLow(s: Octets) {
    IsUnicodeEscape(s) && IsLow(HexNumber(s, 2))
  }

  lemma DecodeUnit(u: nat, rest: Octets)
    requires u < 0x10000 && !(IsHigh(u) && StartsLow(rest))
    ensures Decoded(UnitEscape(u) + rest) == [u] + Decoded(rest)
  {
    hide UnitEscape, HexNumber;
    UnitRead(u, rest);
    Shift6(UnitEscape(u) + rest);
  }

  lemma Shift6(s: Octets)
    requires |s| >= 6
    ensures IsUnicodeEscape(s[6..]) ==> HexNumber(s[6..], 2) == HexNumber(s, 8)
    ensures |s| >= 12 ==> s[6..][6..] == s[12..]
  {
  }

  lemma DecodePair(high: nat, low: nat, rest: Octets)
    requires IsHigh(high) && IsLow(low)
    ensures Decoded(UnitEscape(high) + (UnitEscape(low) + rest)) == [Joined(high, low)] + Decoded(rest)
  {
    hide UnitEscape, HexNumber;
    var s := UnitEscape(high) + (UnitEscape(low) + rest);
    UnitRead(low, rest);
    UnitRead(high, UnitEscape(low) + rest);
    Shift6(s);
    assert s[12..] == rest;
  }

  lemma DecodeShort(c: nat, rest: Octets)
    requires ShortEscape(c) != 0
    ensures Decoded(CharJson(c) + rest) == [c] + Decoded(rest)
  {
    var s := CharJson(c) + rest;
    assert s[0] == BACKSLASH && s[1] == ShortEscape(c) && s[2..] == rest;
    assert Unescaped(ShortEscape(c)) == c;
  }

  lemma DecodePlain(c: nat, rest: Octets)
    requires IsPlain(c)
    ensures Decoded(CharJson(c) + rest) == [c] + Decoded(rest)
  {
    var s := CharJson(c) + rest;
    assert s[0] == c as octet && s[1..] == rest && s[..1] == [s[0]];
    assert Utf8.Decodes([s[0]]) by {
      assert [s[0]][1..] == [];
    }
    assert SequenceLength(s) == 1 && SequencePoint([s[0]]) == c;
  }

  /** A string starts with the escape of a low surrogate just when its first character is one. */
  lemma StartsLowExactly(chars: Chars)
    requires IsText(chars)
    ensures StartsLow(CharsJson(chars)) <==> chars != [] && IsLow(chars[0])
  {
    hide HexNumber, UnitEscape, ShortEscape, IsPlain;
    if chars != [] {
      var c := chars[0];
      var rest := CharsJson(chars[1..]);
      if ShortEscape(c) != 0 || IsPlain(c) {
        NoUnicodeEscape(c, rest);
      } else if c < 0x10000 {
        UnitRead(c, rest);
      } else {
        var h, l := 0xD800 + (c - 0x10000) / 0x400 % 0x400, 0xDC00 + c % 0x400;
        UnitRead(h, UnitEscape(l) + rest);
        assert CharJson(c) + rest == UnitEscape(h) + (UnitEscape(l) + rest);
      }
    }
  }

  lemma NoUnicodeEscape(c: nat, rest: Octets)
    requires ShortEscape(c) != 0 || IsPlain(c)
    ensures !IsUnicodeEscape(CharJson(c) + rest) && !IsLow(c)
  {
    hide UnitEscape;
    var s := CharJson(c) + rest;
    assert s[0] == CharJson(c)[0];
    if ShortEscape(c) != 0 {
      assert s[1] == CharJson(c)[1];
    }
  }

  lemma {:induction false} DecodeChars(chars: Chars)
    requires IsText(chars)
    ensures Decoded(CharsJson(chars)) == PairsJoined(chars)
    decreases |chars|
  {
    hide UnitEscape, Decoded, StartsLow, Joined;
    if chars == [] {
      assert Decoded([]) == [] by {
        DecodedEmpty();
      }
    } else {
      var c := chars[0];
      var rest := CharsJson(chars[1..]);
      DecodeChars(chars[1..]);
      if ShortEscape(c) != 0 {
        DecodeShort(c, rest);
      } else if IsPlain(c) {
        DecodePlain(c, rest);
      } else if c >= 0x10000 {
        DecodeJoined(c, rest);
      } else {
        StartsLowExactly(chars[1..]);
        if |chars| >= 2 && IsHigh(c) && IsLow(chars[1]) {
          DecodeChars(chars[2..]);
          assert chars[1..][1..] == chars[2..];
          assert rest == UnitEscape(chars[1]) + CharsJson(chars[2..]);
          DecodePair(c, chars[1], CharsJson(chars[2..]));
        } else {
          DecodeUnit(c, rest);
        }
      }
    }
  }

  /** A character past the first plane is written as two escapes, and read as one character. */
  lemma DecodeJoined(c: nat, rest: Octets)
    requires 0x10000 <= c < 0x110000
    ensures Decoded(CharJson(c) + rest) == [c] + Decoded(rest)
  {
    hide UnitEscape, Decoded, Joined;
    var h, l := 0xD800 + (c - 0x10000) / 0x400 % 0x400, 0xDC00 + c % 0x400;
    JoinedIs(c);
    DecodePair(h, l, rest);
    assert CharJson(c) + rest == UnitEscape(h) + (UnitEscape(l) + rest);
  }

  lemma JoinedIs(c: nat)
    requires 0x10000 <= c < 0x110000
    ensures
      var h, l := 0xD800 + (c - 0x10000) / 0x400 % 0x400, 0xDC00 + c % 0x400;
      IsHigh(h) && IsLow(l) && Joined(h, l) == c
  {
  }

  lemma DecodedEmpty()
    ensures Decoded([]) == []
  {
  }

  // ----- The text of a string is a string of the grammar -----

  lemma {:induction false} BodyOf(chars: Chars)
    requires IsText(chars)
    ensures IsStringBody(CharsJson(chars))
    decreases |chars|
  {
    hide UnitEscape, IsStringBody;
    if chars == [] {
      BodyEmpty();
    } else {
      var c := chars[0];
      var rest := CharsJson(chars[1..]);
      BodyOf(chars[1..]);
      if ShortEscape(c) == 0 && !IsPlain(c) {
        if c < 0x10000 {
          UnitBody(c, rest);
        } else {
          var h, l := 0xD800 + (c - 0x10000) / 0x400 % 0x400, 0xDC00 + c % 0x400;
          UnitBody(l, rest);
          UnitBody(h, UnitEscape(l) + rest);
          assert CharJson(c) + rest == UnitEscape(h) + (UnitEscape(l) + rest);
        }
      } else {
        BodyNext(CharJson(c), rest);
      }
    }
  }

  lemma BodyEmpty()
    ensures IsStringBody([])
  {
  }

  lemma BodyNext(c: Octets, rest: Octets)
    requires c != [] && IsCharacter(c, 0, |c|) && IsStringBody(rest)
    ensures IsStringBody(c + rest)
  {
    var s := c + rest;
    assert s[|c|..] == rest;
    assert forall i | 0 <= i < |c| :: s[i] == c[i];
  }

  lemma UnitBody(u: nat, rest: Octets)
    requires u < 0x10000 && IsStringBody(rest)
    ensures IsStringBody(UnitEscape(u) + rest)
  {
    UnitRead(u, []);
    assert UnitEscape(u) + [] == UnitEscape(u);
    BodyNext(UnitEscape(u), rest);
  }

  /** Printable characters of ASCII alone. */
  predicate IsPrintable(s: Octets) {
    forall i | 0 <= i < |s| :: 0x20 <= s[i] <= 0x7E
  }

  lemma UnitPrintable(u: nat)
    requires u < 0x10000
    ensures IsPrintable(UnitEscape(u)) && |UnitEscape(u)| == 6
  {
  }

  /** A character that needs no escape is itself, one that has a short escape takes it, and any other six or twelve. */
  lemma CharPrintable(c: nat)
    ensures
      var s := CharJson(c);
      IsPrintable(s) &&
      if 0x20 <= c <= 0x7E && c != 0x22 && c != 0x5C then s == [c as octet]
      else if c in {0x22, 0x5C, 8, 9, 10, 12, 13} then |s| == 2 else |s| == if c < 0x10000 then 6 else 12
  {
    hide UnitEscape;
    if c < 0x10000 {
      UnitPrintable(c);
    } else {
      UnitPrintable(0xD800 + (c - 0x10000) / 0x400 % 0x400);
      UnitPrintable(0xDC00 + c % 0x400);
    }
  }

  lemma {:induction false} CharsPrintable(chars: Chars)
    ensures IsPrintable(CharsJson(chars))
    decreases |chars|
  {
    hide CharJson;
    if chars != [] {
      CharPrintable(chars[0]);
      CharsPrintable(chars[1..]);
    }
  }

  /** A string is written as one the grammar admits, and reads back with each surrogate pair in it joined. */
  lemma StringReads(chars: Chars)
    requires IsText(chars)
    ensures IsString(StringJson(chars))
    ensures StringValue(StringJson(chars)) == PairsJoined(chars)
  {
    BodyOf(chars);
    DecodeChars(chars);
    var s := StringJson(chars);
    assert s[1..|s| - 1] == CharsJson(chars);
  }

  // ----- The tree of what is written -----

  function OrEmpty(o: Option<Octets>): Octets {
    if o.Some? then o.value else []
  }

  function TreeOf(p: Param, limit: nat): Tree
    decreases p, 0
  {
    match p
    case PNull => Lit(NULL)
    case PBool(b) => Lit(if b then TRUE else FALSE)
    case PInt(n) => Num(IntegerJson(n))
    case PFloat(text) => Num(text)
    case PDecimal(d) => Num(OrEmpty(DecimalJson(d, limit)))
    case PString(chars) => Str(StringJson(chars))
    case PList(items) => if items == [] then Empty(LBRACKET, []) else Full(LBRACKET, ItemsOf(items, [], limit))
    case PDict(members) => if members == [] then Empty(LBRACE, []) else Full(LBRACE, MembersOf(members, [], limit))
  }

  function ItemsOf(items: seq<Param>, lead: Octets, limit: nat): Elements
    requires items != []
    decreases items, 1
  {
    var value := TreeOf(items[0], limit);
    if |items| == 1 then Last(Unnamed(lead), value, [])
    else More(Unnamed(lead), value, [], ItemsOf(items[1..], [SPACE], limit))
  }

  function MembersOf(members: seq<Member>, before: Octets, limit: nat): Elements
    requires members != []
    decreases members, 1
  {
    var key := Named(before, StringJson(members[0].name), [], [SPACE]);
    var value := TreeOf(members[0].value, limit);
    if |members| == 1 then Last(key, value, [])
    else More(key, value, [], MembersOf(members[1..], [SPACE], limit))
  }

  lemma {:induction false} TextWritten(p: Param, limit: nat)
    requires RequestJson(p, limit).Some?
    ensures Text(TreeOf(p, limit)) == RequestJson(p, limit).value
    decreases p, 0
  {
    match p
    case PList(items) =>
      if items != [] {
        TextOfItems(items, [], limit);
        assert [] + ItemsJson(items, limit).value == ItemsJson(items, limit).value;
      }
    case PDict(members) =>
      if members != [] {
        TextOfMembers(members, [], limit);
        assert [] + MembersJson(members, limit).value == MembersJson(members, limit).value;
      }
    case _ =>
  }

  lemma {:induction false} TextOfItems(items: seq<Param>, lead: Octets, limit: nat)
    requires items != [] && ItemsJson(items, limit).Some?
    ensures ElementsText(ItemsOf(items, lead, limit)) == lead + ItemsJson(items, limit).value
    decreases items, 1
  {
    hide RequestJson, TreeOf, Text;
    TextWritten(items[0], limit);
    var first := RequestJson(items[0], limit).value;
    if |items| == 1 {
      assert lead + first + [] == lead + (first + []);
    } else {
      TextOfItems(items[1..], [SPACE], limit);
      Spread(lead, first, [], ItemsJson(items[1..], limit).value);
    }
  }

  lemma Spread(lead: Octets, first: Octets, after: Octets, rest: Octets)
    ensures
      lead + first + [] + [COMMA] + ([SPACE] + rest) == lead + (first + (SEPARATOR + rest))
  {
  }

  lemma {:induction false} TextOfMembers(members: seq<Member>, before: Octets, limit: nat)
    requires members != [] && MembersJson(members, limit).Some?
    ensures ElementsText(MembersOf(members, before, limit)) == before + MembersJson(members, limit).value
    decreases members, 1
  {
    hide RequestJson, TreeOf, Text, StringJson;
    TextWritten(members[0].value, limit);
    var name := StringJson(members[0].name);
    var first := RequestJson(members[0].value, limit).value;
    if |members| == 1 {
      SpreadMember(before, name, first);
    } else {
      TextOfMembers(members[1..], [SPACE], limit);
      SpreadMembers(before, name, first, MembersJson(members[1..], limit).value);
    }
  }

  lemma SpreadMember(before: Octets, name: Octets, first: Octets)
    ensures
      before + name + [] + [COLON] + [SPACE] + first + [] == before + (name + [COLON, SPACE] + first + [])
  {
  }

  lemma SpreadMembers(before: Octets, name: Octets, first: Octets, rest: Octets)
    ensures
      before + name + [] + [COLON] + [SPACE] + first + [] + [COMMA] + ([SPACE] + rest) ==
      before + (name + [COLON, SPACE] + first + (SEPARATOR + rest))
  {
  }

  /** What is written is the text of the tree the structure stands for, and something is where every number can be. */
  lemma TextOfTree(p: Param, limit: nat)
    ensures RequestJson(p, limit) == if Printable(p, limit) then Some(Text(TreeOf(p, limit))) else None
  {
    hide RequestJson, Printable, TreeOf, Text;
    PrintsExactly(p, limit);
    if Printable(p, limit) {
      TextWritten(p, limit);
    }
  }

  // ----- What the reader admits -----

  /** A structure of strings of code points, nested at most `depth` deep, its numbers written as `num` admits them. */
  ghost predicate Readable(p: Param, depth: nat, limit: nat, num: Octets -> bool)
    decreases p
  {
    match p
    case PInt(n) => num(IntegerJson(n))
    case PFloat(text) => IsNumber(text) && num(text)
    case PDecimal(d) => DecimalJson(d, limit).Some? ==> num(DecimalJson(d, limit).value)
    case PString(chars) => IsText(chars)
    case PList(items) => depth > 0 && forall i | 0 <= i < |items| :: Readable(items[i], depth - 1, limit, num)
    case PDict(members) =>
      depth > 0 &&
      forall i | 0 <= i < |members| :: IsText(members[i].name) && Readable(members[i].value, depth - 1, limit, num)
    case _ => true
  }

  lemma {:induction false} TreeIsGrammar(p: Param, depth: nat, limit: nat, num: Octets -> bool)
    requires Printable(p, limit) && Readable(p, depth, limit, num)
    ensures WellFormed(TreeOf(p, limit), depth, num)
    decreases p, 0
  {
    hide StringJson, IsString, IsNumber, IntegerJson, DecimalJson, WellFormedElements;
    match p
    case PInt(n) => IntegerJsonDenotes(n);
    case PDecimal(d) => DecimalJsonDenotes(d, limit);
    case PString(chars) => StringReads(chars);
    case PList(items) =>
      if items != [] {
        ItemsAreWellFormed(items, [], depth - 1, limit, num);
      }
    case PDict(members) =>
      if members != [] {
        MembersAreWellFormed(members, [], depth - 1, limit, num);
      }
    case _ =>
  }

  lemma {:induction false} ItemsAreWellFormed(
      items: seq<Param>, lead: Octets, depth: nat, limit: nat, num: Octets -> bool)
    requires items != [] && AllWs(lead)
    requires forall i | 0 <= i < |items| :: Printable(items[i], limit) && Readable(items[i], depth, limit, num)
    ensures WellFormedElements(ItemsOf(items, lead, limit), LBRACKET, depth, num)
    decreases items, 1
  {
    hide Readable, TreeOf, WellFormed;
    TreeIsGrammar(items[0], depth, limit, num);
    if |items| > 1 {
      ItemsAreWellFormed(items[1..], [SPACE], depth, limit, num);
    }
  }

  lemma {:induction false} MembersAreWellFormed(
      members: seq<Member>, before: Octets, depth: nat, limit: nat, num: Octets -> bool)
    requires members != [] && AllWs(before)
    requires forall i | 0 <= i < |members| ::
               IsText(members[i].name) && Printable(members[i].value, limit) &&
               Readable(members[i].value, depth, limit, num)
    ensures WellFormedElements(MembersOf(members, before, limit), LBRACE, depth, num)
    decreases members, 1
  {
    hide Readable, TreeOf, WellFormed, StringJson, IsString, IsText;
    TreeIsGrammar(members[0].value, depth, limit, num);
    StringReads(members[0].name);
    if |members| > 1 {
      MembersAreWellFormed(members[1..], [SPACE], depth, limit, num);
    }
  }

  // ----- What is read back -----

  /** The same value: a Decimal by what it denotes, an integer by its own value, a float by what it is written as. */
  ghost predicate SameValue(j: Json, p: Param)
    decreases p
  {
    match p
    case PNull => j == JNull
    case PBool(b) => j == JBool(b)
    case PInt(n) => j.JNumber? && IsIntegerText(j.text) && Integer(j.text) == n
    case PFloat(text) => j == JNumber(text)
    case PDecimal(d) => j.JNumber? && d.Finite? && Denotes(j.text) == DecimalValue(d)
    case PString(chars) => j == JString(chars)
    case PList(items) =>
      j.JArray? && |j.items| == |items| && forall i | 0 <= i < |items| :: SameValue(j.items[i], items[i])
    case PDict(members) =>
      j.JObject? && |j.members| == |members| &&
      forall i | 0 <= i < |members| ::
        j.members[i].0 == members[i].name && SameValue(j.members[i].1, members[i].value)
  }

  /** No string in the structure, name or value, has a surrogate pair written as two characters. */
  ghost predicate NoPairs(p: Param)
    decreases p
  {
    match p
    case PString(chars) => !HasPair(chars)
    case PList(items) => forall i | 0 <= i < |items| :: NoPairs(items[i])
    case PDict(members) => forall i | 0 <= i < |members| :: !HasPair(members[i].name) && NoPairs(members[i].value)
    case _ => true
  }

  lemma {:induction false} TreeMeans(p: Param, depth: nat, limit: nat, num: Octets -> bool)
    requires Printable(p, limit) && Readable(p, depth, limit, num)
    ensures SameValue(Value(TreeOf(p, limit)), p) <==> NoPairs(p)
    decreases p, 0
  {
    hide StringJson, IntegerJson, Integer, IsIntegerText, Denotes, DecimalValue, IsText;
    match p
    case PInt(n) => IntegerJsonDenotes(n);
    case PDecimal(d) => DecimalJsonDenotes(d, limit);
    case PString(chars) =>
      StringReads(chars);
      JoinedExactly(chars);
    case PList(items) =>
      if items != [] {
        ItemsMean(items, [], depth - 1, limit, num);
      }
    case PDict(members) =>
      if members != [] {
        MembersMean(members, [], depth - 1, limit, num);
      }
    case _ =>
  }

  lemma {:induction false} ItemsMean(items: seq<Param>, lead: Octets, depth: nat, limit: nat, num: Octets -> bool)
    requires items != []
    requires forall i | 0 <= i < |items| :: Printable(items[i], limit) && Readable(items[i], depth, limit, num)
    ensures
      var js := Items(ItemsOf(items, lead, limit));
      |js| == |items| && forall i | 0 <= i < |items| :: SameValue(js[i], items[i]) <==> NoPairs(items[i])
    decreases items, 1
  {
    hide Readable, TreeOf, Value, SameValue, NoPairs;
    TreeMeans(items[0], depth, limit, num);
    var js := Items(ItemsOf(items, lead, limit));
    if |items| > 1 {
      ItemsMean(items[1..], [SPACE], depth, limit, num);
      var rest := Items(ItemsOf(items[1..], [SPACE], limit));
      assert js == [Value(TreeOf(items[0], limit))] + rest;
      forall i | 1 <= i < |items|
        ensures SameValue(js[i], items[i]) <==> NoPairs(items[i])
      {
        assert js[i] == rest[i - 1] && items[i] == items[1..][i - 1];
      }
    }
  }

  lemma {:induction false} MembersMean(
      members: seq<Member>, before: Octets, depth: nat, limit: nat, num: Octets -> bool)
    requires members != []
    requires forall i | 0 <= i < |members| ::
               IsText(members[i].name) && Printable(members[i].value, limit) &&
               Readable(members[i].value, depth, limit, num)
    ensures
      var js := Members(MembersOf(members, before, limit));
      |js| == |members| &&
      forall i | 0 <= i < |members| ::
        (js[i].0 == members[i].name <==> !HasPair(members[i].name)) &&
        (SameValue(js[i].1, members[i].value) <==> NoPairs(members[i].value))
    decreases members, 1
  {
    hide Readable, TreeOf, Value, SameValue, NoPairs, IsText, HasPair, StringJson, StringValue;
    TreeMeans(members[0].value, depth, limit, num);
    StringReads(members[0].name);
    JoinedExactly(members[0].name);
    var js := Members(MembersOf(members, before, limit));
    if |members| > 1 {
      MembersMean(members[1..], [SPACE], depth, limit, num);
      var rest := Members(MembersOf(members[1..], [SPACE], limit));
      assert js == [js[0]] + rest;
      forall i | 1 <= i < |members|
        ensures (js[i].0 == members[i].name <==> !HasPair(members[i].name)) &&
                (SameValue(js[i].1, members[i].value) <==> NoPairs(members[i].value))
      {
        assert js[i] == rest[i - 1] && members[i] == members[1..][i - 1];
      }
    }
  }

  // ----- The theorem -----

  /**
   * A structure is written exactly where every number in it can be. What is written is one JSON text that the reader
   * consumes whole. It reads back as an equal value exactly when no string in it has a surrogate pair written as two
   * characters.
   */
  lemma WrittenReadsBack(p: Param, limit: nat, builds: Octets -> bool)
    requires Readable(p, MAX_STREAM_DEPTH, limit, Admitted(builds))
    ensures RequestJson(p, limit).Some? <==> Printable(p, limit)
    ensures
      Printable(p, limit) ==>
        var s := RequestJson(p, limit).value;
        ScanKept(s, 0, |s|, builds) == Ok(|s|) &&
        (SameValue(Value(ReadTree(s, 0, MAX_STREAM_DEPTH, builds)), p) <==> NoPairs(p))
  {
    hide RequestJson, Printable, Readable, ScanKept, Value, SameValue, NoPairs, ReadTree;
    PrintsExactly(p, limit);
    if Printable(p, limit) {
      TextReadsBack(p, limit, builds);
    }
  }

  lemma TextReadsBack(p: Param, limit: nat, builds: Octets -> bool)
    requires Printable(p, limit) && Readable(p, MAX_STREAM_DEPTH, limit, Admitted(builds))
    ensures RequestJson(p, limit).Some?
    ensures
      var s := RequestJson(p, limit).value;
      ScanKept(s, 0, |s|, builds) == Ok(|s|) &&
      (SameValue(Value(ReadTree(s, 0, MAX_STREAM_DEPTH, builds)), p) <==> NoPairs(p))
  {
    hide Printable, Readable, Admitted, RequestJson, TreeOf, WellFormed, SameValue, NoPairs, ScanValue, ReadTree, Text;
    TextOfTree(p, limit);
    TreeIsGrammar(p, MAX_STREAM_DEPTH, limit, Admitted(builds));
    TreeMeans(p, MAX_STREAM_DEPTH, limit, Admitted(builds));
    TextReads(TreeOf(p, limit), MAX_STREAM_DEPTH, builds);
  }

  /** A string that does not read back: two characters that are read as one. */
  lemma PairDoesNotReadBack(limit: nat, builds: Octets -> bool)
    ensures
      var p := PString([0xD83D, 0xDE00]);
      var s := RequestJson(p, limit);
      s.Some? && ScanKept(s.value, 0, |s.value|, builds) == Ok(|s.value|) &&
      !SameValue(Value(ReadTree(s.value, 0, MAX_STREAM_DEPTH, builds)), p)
  {
    var p := PString([0xD83D, 0xDE00]);
    assert IsHigh(p.chars[0]) && IsLow(p.chars[1]);
    assert HasPair(p.chars);
    WrittenReadsBack(p, limit, builds);
  }
}
