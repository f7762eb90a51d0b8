/**
 * The characters of a body as `json.loads` decodes it: its encoding detected from its first octets, and lone surrogates
 * let through. `Recoded` writes them out in UTF-8, which is what the grammar is about.
 */
module Encodings {
  import opened Options
  import opened Octets
  import opened Numbers
  import opened Grammar
  import opened Unambiguity
  import opened Utf8
  import opened Characters
  import opened Values

  datatype Encoding =
    | PlainUtf8
    | MarkedUtf8
    | MarkedUtf16
    | MarkedUtf32
    | Utf16(big: bool)
    | Utf32(big: bool)

  const MARK: Octets := [0xEF, 0xBB, 0xBF]

  /** The encoding of octets: by the mark they start with, or by where a NUL stands among the first four of them. */
  function Detected(d: Octets): Encoding {
    if [0, 0, 0xFE, 0xFF] <= d || [0xFF, 0xFE, 0, 0] <= d then MarkedUtf32
    else if [0xFE, 0xFF] <= d || [0xFF, 0xFE] <= d then MarkedUtf16
    else if MARK <= d then MarkedUtf8
    else if |d| >= 4 then
      if d[0] == 0 then if d[1] != 0 then Utf16(true) else Utf32(true)
      else if d[1] == 0 then if d[2] != 0 || d[3] != 0 then Utf16(false) else Utf32(false)
      else PlainUtf8
    else if |d| == 2 && d[0] == 0 then Utf16(true)
    else if |d| == 2 && d[1] == 0 then Utf16(false)
    else PlainUtf8
  }

  function Unit(high: octet, low: octet, big: bool): nat {
    if big then high as nat * 256 + low as nat else low as nat * 256 + high as nat
  }

  /** The characters of UTF-16: a surrogate pair is one, a lone surrogate is one too. */
  function Chars16(d: Octets, big: bool): Option<Chars>
    decreases |d|
  {
    if d == [] then Some([])
    else if |d| == 1 then None
    else
      var u := Unit(d[0], d[1], big);
      var pair := IsHigh(u) && |d| >= 4 && IsLow(Unit(d[2], d[3], big));
      var rest := Chars16(d[if pair then 4 else 2..], big);
      if rest.None? then None
      else Some([if pair then Joined(u, Unit(d[2], d[3], big)) else u] + rest.value)
  }

  function Chars32(d: Octets, big: bool): Option<Chars>
    decreases |d|
  {
    if d == [] then Some([])
    else if |d| < 4 then None
    else
      var a, b := Unit(d[0], d[1], big), Unit(d[2], d[3], big);
      var c := if big then a * 0x10000 + b else b * 0x10000 + a;
      var rest := Chars32(d[4..], big);
      if rest.None? || c >= 0x110000 then None else Some([c] + rest.value)
  }

  function Written8(chars: Option<Chars>): Option<Octets> {
    if chars.None? then None else Some(Chars8(chars.value))
  }

  function Strict8(d: Octets): Option<Octets> {
    if Decodes(d) then Some(d) else None
  }

  /** The characters of a body, in UTF-8, where it can be decoded. */
  function Recoded(d: Octets): Option<Octets> {
    match Detected(d)
    case PlainUtf8 => Strict8(d)
    case MarkedUtf8 => Strict8(d[3..])
    case MarkedUtf16 => Written8(Chars16(d[2..], d[0] == 0xFE))
    case MarkedUtf32 => Written8(Chars32(d[4..], d[0] == 0))
    case Utf16(big) => Written8(Chars16(d, big))
    case Utf32(big) => Written8(Chars32(d, big))
  }

  lemma Marked(d: Octets)
    ensures Detected(MARK + d) == MarkedUtf8
  {
    var s := MARK + d;
    assert s[0] == 0xEF && s[..3] == MARK;
    assert forall mark: Octets | mark != [] && mark <= s :: mark[0] == s[0];
  }

  // ----- A JSON text in UTF-8 is detected as UTF-8 -----

  predicate NoControl(s: Octets) {
    forall i | 0 <= i < |s| :: s[i] >= 9
  }

  lemma {:induction false} BodyNoControl(s: Octets)
    requires IsStringBody(s)
    ensures NoControl(s)
    decreases |s|
  {
    if s != [] {
      var n := CharacterLength(s);
      BodyNoControl(s[n..]);
      assert forall i | n <= i < |s| :: s[i] == s[n..][i - n];
    }
  }

  lemma KeyNoControl(k: Key, open: octet)
    requires WellFormedKey(k, open)
    ensures NoControl(KeyText(k))
  {
    if k.Named? {
      BodyNoControl(k.name[1..|k.name| - 1]);
      assert forall i | 0 < i < |k.name| - 1 :: k.name[i] == k.name[1..|k.name| - 1][i - 1];
    }
  }

  lemma {:induction false} TextNoControl(t: Tree, depth: nat, num: Octets -> bool)
    requires WellFormed(t, depth, num)
    ensures NoControl(Text(t))
    decreases t
  {
    hide IsNumber, IsStringBody, WellFormedElements, ElementsText;
    match t
    case Num(text) => NumberOctets(text);
    case Str(text) =>
      BodyNoControl(text[1..|text| - 1]);
      assert forall i | 0 < i < |text| - 1 :: text[i] == text[1..|text| - 1][i - 1];
    case Full(open, es) => ElementsNoControl(es, open, depth - 1, num);
    case _ =>
  }

  lemma {:induction false} ElementsNoControl(es: Elements, open: octet, depth: nat, num: Octets -> bool)
    requires WellFormedElements(es, open, depth, num)
    ensures NoControl(ElementsText(es))
    decreases es
  {
    hide WellFormed, WellFormedKey, Text, KeyText;
    KeyNoControl(es.key, open);
    TextNoControl(es.value, depth, num);
    if es.More? {
      ElementsNoControl(es.rest, open, depth, num);
    }
  }

  lemma PlainDocument(d: Octets, t: Tree, depth: nat, num: Octets -> bool)
    requires IsDocument(d, t, depth, num)
    ensures Detected(d) == PlainUtf8
  {
    hide WellFormed, Text;
    DocumentNoControl(d, t, depth, num);
    DocumentFirst(d, t, depth, num);
  }

  /** A document starts with an octet in ASCII. */
  lemma DocumentFirst(d: Octets, t: Tree, depth: nat, num: Octets -> bool)
    requires IsDocument(d, t, depth, num)
    ensures d != [] && d[0] < 0x80
  {
    hide WellFormed, Text;
    var q := DocumentStart(d, t, depth, num);
    FirstOctet(d, q, t, depth, num);
    FirstAscii(d, q, t, depth, num);
  }

  lemma DocumentNoControl(d: Octets, t: Tree, depth: nat, num: Octets -> bool)
    requires IsDocument(d, t, depth, num)
    ensures NoControl(d)
  {
    hide WellFormed, Text;
    var before: Octets, after: Octets :| AllWs(before) && AllWs(after) && d == before + Text(t) + after;
    TextNoControl(t, depth, num);
  }

  lemma FirstAscii(d: Octets, q: nat, t: Tree, depth: nat, num: Octets -> bool)
    requires WellFormed(t, depth, num) && Occurs(d, q, Text(t))
    ensures q < |d| && d[q] < 0x80
  {
    hide IsNumber, IsStringBody, AllWs, WellFormedElements, ElementsText;
    FirstOctet(d, q, t, depth, num);
    assert d[q..q + |Text(t)|] == Text(t);
    assert t.Lit? ==> d[q] == Text(t)[0];
  }
}
