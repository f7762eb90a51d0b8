/**
 * Bodies that `call` answers and `call_stream` refuses, whatever the walk and its limits: a lone surrogate written in
 * UTF-8, which the decoder behind `json.loads` lets through and the stream's does not, and every encoding but UTF-8.
 */
module Differences {
  import opened Options
  import opened Octets
  import opened Grammar
  import opened Utf8
  import opened Characters
  import opened Encodings
  import opened Renderings
  import opened Values
  import opened Replies
  import opened Walks
  import opened Shapes
  import opened Calls
  import opened Agreement
  import opened RoundTrip
  import Printer

  // ----- Other encodings -----

  /** The stream refuses whatever `json.loads` detects as anything but UTF-8 without a mark. */
  lemma OnlyPlainStreams(d: Octets, id: Chars, w: Walk, max: nat, builds: Octets -> bool)
    requires Detected(d) != PlainUtf8
    ensures StreamAnswer(d, id, w, max, builds) == FetchError
  {
    hide IsDocument, Detected, StreamAnswer;
    if t :| IsDocument(d, t, |d|, Any()) {
      PlainDocument(d, t, |d|, Any());
    }
    OnlyJson(d, id, w, max, builds);
  }

  lemma SameText(d: Octets, s: Octets, id: Chars, status: int, reach: nat, builds: Octets -> bool)
    requires Recoded(d) == Recoded(s)
    ensures Called(d, id, status, reach, builds) == Called(s, id, status, reach, builds)
  {
    hide Recoded, Discriminate, IsDocument;
    assert ParsedTree(d, reach, builds) == ParsedTree(s, reach, builds);
  }

  /** A mark ahead of a body changes nothing for `call`, and everything for `call_stream`. */
  lemma MarkDiffers(s: Octets, id: Chars, status: int, w: Walk, max: nat, reach: nat, builds: Octets -> bool)
    requires Detected(s) == PlainUtf8
    ensures Called(MARK + s, id, status, reach, builds) == Called(s, id, status, reach, builds)
    ensures StreamAnswer(MARK + s, id, w, max, builds) == FetchError
  {
    hide StreamAnswer, Called, IsDocument, Decodes, Detected;
    var d := MARK + s;
    assert d[3..] == s;
    Marked(s);
    SameText(d, s, id, status, reach, builds);
    OnlyPlainStreams(d, id, w, max, builds);
  }

  /** A JSON text starts with a character in ASCII, and has no NUL in it. */
  lemma JsonStartsPlain(chars: Chars, t: Tree, depth: nat, num: Octets -> bool)
    requires IsText(chars) && !HasPair(chars) && IsDocument(Chars8(chars), t, depth, num)
    ensures StartsPlain(chars)
  {
    hide IsDocument, WellFormed, Text;
    var d := Chars8(chars);
    DocumentNoControl(d, t, depth, num);
    DocumentFirst(d, t, depth, num);
    FirstTwo(chars);
  }

  lemma FirstTwo(chars: Chars)
    requires IsText(chars) && Chars8(chars) != [] && Chars8(chars)[0] < 0x80 && NoControl(Chars8(chars))
    ensures chars != [] && 0 < chars[0] < 0x80 && (|chars| > 1 ==> chars[1] != 0)
  {
    hide Point8;
    FirstOf(chars[0]);
    var rest := Chars8(chars[1..]);
    assert Chars8(chars) == Point8(chars[0]) + rest;
    if |chars| > 1 {
      FirstOf(chars[1]);
      assert rest == Point8(chars[1]) + Chars8(chars[1..][1..]);
      assert Chars8(chars)[1] == rest[0];
    }
  }

  /** In UTF-8 a character in ASCII is itself, and no other starts with an octet in ASCII. */
  lemma FirstOf(c: nat)
    requires c < 0x110000
    ensures if c < 0x80 then Point8(c) == [c as octet] else Point8(c) != [] && Point8(c)[0] >= 0x80
  {
  }

  /** A JSON text is parsed alike from every encoding, with a mark or without. */
  lemma EveryEncoding(
      chars: Chars, t: Tree, width: Width, big: bool, marked: bool, reach: nat, builds: Octets -> bool)
    requires IsText(chars) && !HasPair(chars) && IsDocument(Chars8(chars), t, reach, builds)
    ensures ParsedTree(Rendered(WithMark(chars, marked), width, big), reach, builds) == Some(t)
  {
    hide IsDocument, Recoded, Rendered, Chars8;
    JsonStartsPlain(chars, t, reach, builds);
    RecodedAlike(chars, width, big, marked);
    ParsedIs(Rendered(WithMark(chars, marked), width, big), Chars8(chars), t, reach, builds);
  }

  /** A text means the same to `call` in every encoding. The stream refuses it in all but UTF-8 without a mark. */
  lemma EncodingDiffers(
      chars: Chars, width: Width, big: bool, marked: bool, id: Chars, status: int, w: Walk, max: nat, reach: nat,
      builds: Octets -> bool)
    requires StartsPlain(chars)
    ensures
      var d := Rendered(WithMark(chars, marked), width, big);
      Called(d, id, status, reach, builds) == Called(Chars8(chars), id, status, reach, builds) &&
      (marked || width != Eight ==> StreamAnswer(d, id, w, max, builds) == FetchError)
  {
    hide StreamAnswer, Called, Recoded, Rendered, Detected;
    var d := Rendered(WithMark(chars, marked), width, big);
    RecodedAlike(chars, width, big, marked);
    PlainIsRendered(chars);
    SameText(d, Chars8(chars), id, status, reach, builds);
    if marked || width != Eight {
      OnlyPlainStreams(d, id, w, max, builds);
    }
  }

  lemma PlainIsRendered(chars: Chars)
    requires StartsPlain(chars)
    ensures Recoded(Chars8(chars)) == Some(Chars8(chars))
  {
    hide Recoded;
    RecodedAlike(chars, Eight, false, false);
    Renders8(chars, false);
  }

  // ----- A lone surrogate -----

  const LONE: Octets := [0xED, 0xA0, 0x80]

  predicate IsAscii(s: Octets) {
    forall i | 0 <= i < |s| :: s[i] < 0x80
  }

  lemma {:induction false} AsciiStays(s: Octets)
    requires IsAscii(s)
    ensures Run(Start, s) == PassRun(Start, s) == Start
    decreases |s|
  {
    if s != [] {
      AsciiStays(s[1..]);
    }
  }

  lemma LoneSteps()
    ensures Run(Start, LONE) == Bad && PassRun(Start, LONE) == Start
  {
    var rest := LONE[1..];
    assert rest == [0xA0, 0x80] && rest[1..] == [0x80] && rest[1..][1..] == [];
  }

  lemma LoneDecodes(a: Octets, b: Octets)
    requires IsAscii(a) && IsAscii(b)
    ensures Decodes(a + LONE + b) && !IsUtf8(a + LONE + b)
  {
    AsciiStays(a);
    AsciiStays(b);
    LoneSteps();
    PassCompose(Start, a, LONE);
    PassCompose(Start, a + LONE, b);
    RunCompose(Start, a, LONE);
    assert (a + LONE + b)[..|a + LONE|] == a + LONE;
    BadPrefix(a + LONE + b, |a + LONE|);
  }

  function StringOf(chars: Chars): Octets {
    Printer.StringJson(chars)
  }

  /** A legacy reply that echoes `id`, its result a lone surrogate. */
  function LoneReply(id: Chars): Tree {
    var result := Last(Named([], StringOf(RESULT), [], []), Str([QUOTE] + LONE + [QUOTE]), []);
    Full(LBRACE, More(Named([], StringOf(ID), [], []), Str(StringOf(id)), [], result))
  }

  lemma StringOfReads(chars: Chars)
    requires IsText(chars) && !HasPair(chars)
    ensures IsString(StringOf(chars)) && StringValue(StringOf(chars)) == chars && IsAscii(StringOf(chars))
  {
    StringReads(chars);
    JoinedExactly(chars);
    CharsPrintable(chars);
  }

  lemma LoneReplyText(id: Chars) returns (a: Octets, b: Octets)
    requires IsAscii(StringOf(id)) && IsAscii(StringOf(ID)) && IsAscii(StringOf(RESULT))
    ensures Text(LoneReply(id)) == a + LONE + b && IsAscii(a) && IsAscii(b)
  {
    hide StringOf;
    var head := [LBRACE] + (StringOf(ID) + [COLON] + StringOf(id) + [COMMA] + StringOf(RESULT) + [COLON]);
    a, b := head + [QUOTE], [QUOTE, RBRACE];
    TextPieces(StringOf(ID), StringOf(id), StringOf(RESULT));
  }

  lemma TextPieces(name: Octets, id: Octets, result: Octets)
    ensures
      var head := [LBRACE] + (name + [COLON] + id + [COMMA] + result + [COLON]);
      Text(Full(LBRACE, More(Named([], name, [], []), Str(id), [],
                             Last(Named([], result, [], []), Str([QUOTE] + LONE + [QUOTE]), [])))) ==
      head + [QUOTE] + LONE + [QUOTE, RBRACE]
  {
    var last := Last(Named([], result, [], []), Str([QUOTE] + LONE + [QUOTE]), []);
    assert ElementsText(last) == result + [COLON] + ([QUOTE] + LONE + [QUOTE]);
    var all := More(Named([], name, [], []), Str(id), [], last);
    assert ElementsText(all) == name + [COLON] + id + [COMMA] + ElementsText(last);
  }

  lemma LoneIsString()
    ensures IsString([QUOTE] + LONE + [QUOTE])
  {
    var s := [QUOTE] + LONE + [QUOTE];
    assert s[1..|s| - 1] == LONE;
    assert LONE[1..] == [0xA0, 0x80] && [0xA0 as octet, 0x80][1..] == [0x80] && [0x80 as octet][1..] == [];
    assert IsStringBody([0x80]) && IsStringBody([0xA0, 0x80]);
  }

  /** For every id there is a reply `call` answers with a result and `call_stream` refuses, whatever its bounds. */
  lemma LoneSurrogateDiffers(id: Chars, w: Walk, max: nat, reach: nat, builds: Octets -> bool)
    requires IsText(id) && !HasPair(id) && reach > 0
    ensures
      var d := Text(LoneReply(id));
      Called(d, id, 200, reach, builds).Result? && StreamAnswer(d, id, w, max, builds) == FetchError
  {
    hide Text, Decodes, IsUtf8, IsString, StringValue, StringOf, HasPair, IsAscii;
    var t := LoneReply(id);
    var d := Text(t);
    StringOfReads(id);
    NamesRead();
    var a, b := LoneReplyText(id);
    LoneDecodes(a, b);
    LoneReplyIsGrammar(id, reach, builds);
    assert [] + d + [] == d;
    PlainDocument(d, t, reach, builds);
    ParsedIs(d, d, t, reach, builds);
    LoneReplyMeans(id);
  }

  lemma LoneReplyIsGrammar(id: Chars, depth: nat, num: Octets -> bool)
    requires depth > 0 && IsString(StringOf(id)) && IsString(StringOf(ID)) && IsString(StringOf(RESULT))
    ensures WellFormed(LoneReply(id), depth, num)
  {
    hide StringOf, IsString;
    LoneIsString();
    var es := LoneReply(id).elements;
    assert WellFormedElements(es.rest, LBRACE, depth - 1, num);
    assert WellFormedElements(es, LBRACE, depth - 1, num);
  }

  lemma IdIsText()
    ensures IsText(ID) && !HasPair(ID)
  {
  }

  lemma ResultIsText()
    ensures IsText(RESULT) && !HasPair(RESULT)
  {
  }

  lemma NamesRead()
    ensures IsString(StringOf(ID)) && StringValue(StringOf(ID)) == ID && IsAscii(StringOf(ID))
    ensures IsString(StringOf(RESULT)) && StringValue(StringOf(RESULT)) == RESULT && IsAscii(StringOf(RESULT))
  {
    hide StringOf, StringValue;
    IdIsText();
    ResultIsText();
    StringOfReads(ID);
    StringOfReads(RESULT);
  }

  lemma LoneReplyMeans(id: Chars)
    requires StringValue(StringOf(id)) == id
    requires StringValue(StringOf(ID)) == ID && StringValue(StringOf(RESULT)) == RESULT
    ensures
      var v := Values.Value(LoneReply(id));
      v.JObject? && Discriminate(id, 200, ReplyOf(v.members)).Result?
  {
    hide StringValue, StringOf;
    var v := Values.Value(LoneReply(id));
    var result := JString(StringValue([QUOTE] + LONE + [QUOTE]));
    var last := Last(Named([], StringOf(RESULT), [], []), Str([QUOTE] + LONE + [QUOTE]), []);
    assert LoneReply(id).elements.rest == last;
    assert Values.NameOf(last.key) == RESULT && Values.Value(last.value) == result;
    assert Values.Members(last) == [(RESULT, result)] + [];
    var first := More(Named([], StringOf(ID), [], []), Str(StringOf(id)), [], last);
    assert LoneReply(id).elements == first;
    assert Values.NameOf(first.key) == ID && Values.Value(first.value) == JString(id);
    assert Values.Members(first) == [(ID, JString(id))] + Values.Members(last);
    var ms: seq<(Chars, Json)> := [(ID, JString(id)), (RESULT, result)];
    assert v.members == ms;
    assert ms[..1] == [(ID, JString(id))] && ms[..1][..0] == [];
    assert |ID| == 2 && |RESULT| == 6 && |JSONRPC| == 7 && |ERROR| == 5;
    forall name
      ensures Get(ms, name) == if name == RESULT then Some(result) else if name == ID then Some(JString(id)) else None
    {
      assert Get(ms[..1], name) == if name == ID then Some(JString(id)) else Get([], name);
    }
  }
}
