/** The value a JSON text stands for: strings decoded, the members of an object in the order they are written. */
module Values {
  import opened Options
  import opened Octets
  import opened Grammar
  import opened Utf8

  /** A string as Python holds one: code points, lone surrogates included. */
  type Chars = seq<nat>

  /** Every character is a code point. */
  predicate IsText(chars: Chars) {
    forall i | 0 <= i < |chars| :: chars[i] < 0x110000
  }

  datatype Json =
    | JNull
    | JBool(b: bool)
    | JNumber(text: Octets)
    | JString(chars: Chars)
    | JArray(items: seq<Json>)
    | JObject(members: seq<(Chars, Json)>)

  function HexValue(c: octet): (n: nat)
    ensures n < 16
  {
    if IsDigit(c) then (c - ZERO) as nat
    else if 0x61 <= c <= 0x66 then (c - 0x61) as nat + 10
    else if 0x41 <= c <= 0x46 then (c - 0x41) as nat + 10
    else 0
  }

  function HexNumber(s: Octets, i: nat): (n: nat)
    requires i + 4 <= |s|
    ensures n < 0x10000
  {
    ((HexValue(s[i]) * 16 + HexValue(s[i + 1])) * 16 + HexValue(s[i + 2])) * 16 + HexValue(s[i + 3])
  }

  function Unescaped(c: octet): nat {
    if c == 0x62 then 8
    else if c == 0x66 then 12
    else if c == 0x6E then 10
    else if c == 0x72 then 13
    else if c == 0x74 then 9
    else c as nat
  }

  predicate IsHigh(u: nat) {
    0xD800 <= u < 0xDC00
  }

  predicate IsLow(u: nat) {
    0xDC00 <= u < 0xE000
  }

  function Joined(high: nat, low: nat): nat
    requires IsHigh(high) && IsLow(low)
  {
    0x10000 + (high - 0xD800) * 0x400 + (low - 0xDC00)
  }

  /** A high surrogate right before a low one, which is how one character is escaped and what it is in UTF-16. */
  predicate HasPair(chars: Chars) {
    exists i | 0 <= i < |chars| - 1 :: IsHigh(chars[i]) && IsLow(chars[i + 1])
  }

  /** How many octets the UTF-8 sequence that starts `s` takes, that of a lone surrogate included, 0 where none does. */
  function SequenceLength(s: Octets): (n: nat)
    requires s != []
    ensures n <= |s|
  {
    var n := if s[0] < 0x80 then 1 else if s[0] < 0xE0 then 2 else if s[0] < 0xF0 then 3 else 4;
    if n <= |s| && Decodes(s[..n]) then n else 0
  }

  function SequencePoint(s: Octets): nat
    requires 1 <= |s| <= 4
  {
    if |s| == 1 then s[0] as nat
    else if |s| == 2 then (s[0] as nat % 32) * 64 + s[1] as nat % 64
    else if |s| == 3 then (s[0] as nat % 16) * 4096 + (s[1] as nat % 64) * 64 + s[2] as nat % 64
    else (s[0] as nat % 8) * 262144 + (s[1] as nat % 64) * 4096 + (s[2] as nat % 64) * 64 + s[3] as nat % 64
  }

  predicate IsUnicodeEscape(s: Octets) {
    |s| >= 6 && s[0] == BACKSLASH && s[1] == LOWER_U
  }

  /** The characters between the quotes of a string. An escaped surrogate pair is the one character it stands for. */
  function Decoded(s: Octets): Chars
    decreases |s|
  {
    if s == [] then []
    else if IsUnicodeEscape(s) then
      var u := HexNumber(s, 2);
      if IsHigh(u) && IsUnicodeEscape(s[6..]) && IsLow(HexNumber(s, 8)) then
        [Joined(u, HexNumber(s, 8))] + Decoded(s[12..])
      else
        [u] + Decoded(s[6..])
    else if s[0] == BACKSLASH && |s| >= 2 then
      [Unescaped(s[1])] + Decoded(s[2..])
    else if SequenceLength(s) > 0 then
      [SequencePoint(s[..SequenceLength(s)])] + Decoded(s[SequenceLength(s)..])
    else
      [0xFFFD] + Decoded(s[1..])
  }

  /** The characters of a string, quotes and all. */
  function StringValue(s: Octets): Chars {
    if |s| < 2 then [] else Decoded(s[1..|s| - 1])
  }

  function Value(t: Tree): Json {
    match t
    case Num(text) => JNumber(text)
    case Lit(text) => if text == TRUE then JBool(true) else if text == FALSE then JBool(false) else JNull
    case Str(text) => JString(StringValue(text))
    case Empty(open, _) => if open == LBRACE then JObject([]) else JArray([])
    case Full(open, elements) => if open == LBRACE then JObject(Members(elements)) else JArray(Items(elements))
  }

  function NameOf(k: Key): Chars {
    if k.Named? then StringValue(k.name) else []
  }

  function Members(es: Elements): seq<(Chars, Json)> {
    [(NameOf(es.key), Value(es.value))] + if es.More? then Members(es.rest) else []
  }

  function Items(es: Elements): seq<Json> {
    [Value(es.value)] + if es.More? then Items(es.rest) else []
  }

  /** What a `dict` built from the members holds under `name`: the last of them wins. */
  function Get(members: seq<(Chars, Json)>, name: Chars): Option<Json> {
    if members == [] then None
    else
      var last := members[|members| - 1];
      if last.0 == name then Some(last.1) else Get(members[..|members| - 1], name)
  }

  // ----- What escapes stand for -----

  const LOWER_DIGITS: Octets :=
    [0x30, 0x31, 0x32, 0x33, 0x34, 0x35, 0x36, 0x37, 0x38, 0x39, 0x61, 0x62, 0x63, 0x64, 0x65, 0x66]
  const UPPER_DIGITS: Octets :=
    [0x30, 0x31, 0x32, 0x33, 0x34, 0x35, 0x36, 0x37, 0x38, 0x39, 0x41, 0x42, 0x43, 0x44, 0x45, 0x46]

  /** The digit is that of the number, in either case. */
  predicate IsDigitOf(c: octet, n: nat) {
    n < 16 && (c == LOWER_DIGITS[n] || c == UPPER_DIGITS[n])
  }

  lemma DigitIs(c: octet, n: nat)
    ensures IsDigitOf(c, n) <==> IsHex(c) && HexValue(c) == n
  {
  }

  /** The letters of the eight short escapes and what they stand for, in the order of section 7 of RFC 8259. */
  const ESCAPES: seq<(octet, nat)> :=
    [(QUOTE, 0x22), (BACKSLASH, 0x5C), (SLASH, 0x2F), (0x62, 8), (0x66, 12), (0x6E, 10), (0x72, 13), (0x74, 9)]

  lemma ShortEscapeDecodes(k: nat, rest: Octets)
    requires k < |ESCAPES|
    ensures IsShortEscape(ESCAPES[k].0) && Decoded([BACKSLASH, ESCAPES[k].0] + rest) == [ESCAPES[k].1] + Decoded(rest)
  {
    var s := [BACKSLASH, ESCAPES[k].0] + rest;
    assert s[0] == BACKSLASH && s[1] == ESCAPES[k].0 && s[2..] == rest;
  }

  /** Four digits of either case are the number they write. */
  lemma HexNumberIs(s: Octets, i: nat, a: nat, b: nat, c: nat, e: nat)
    requires i + 4 <= |s| && IsDigitOf(s[i], a) && IsDigitOf(s[i + 1], b)
    requires IsDigitOf(s[i + 2], c) && IsDigitOf(s[i + 3], e)
    ensures HexNumber(s, i) == a * 4096 + b * 256 + c * 16 + e
  {
    hide IsDigitOf, HexValue;
    DigitIs(s[i], a);
    DigitIs(s[i + 1], b);
    DigitIs(s[i + 2], c);
    DigitIs(s[i + 3], e);
  }

  /** The last member of that name stands there. */
  predicate LastAt(members: seq<(Chars, Json)>, name: Chars, i: int) {
    0 <= i < |members| && members[i].0 == name && forall j | i < j < |members| :: members[j].0 != name
  }

  /** Looked up is the value of the last member of that name, and nothing just where no member has it. */
  lemma {:induction false} GetExactly(members: seq<(Chars, Json)>, name: Chars)
    ensures Get(members, name).None? <==> forall i | 0 <= i < |members| :: members[i].0 != name
    ensures forall i | LastAt(members, name, i) :: Get(members, name) == Some(members[i].1)
    decreases |members|
  {
    if members != [] {
      var last := |members| - 1;
      GetExactly(members[..last], name);
      forall i | LastAt(members, name, i)
        ensures Get(members, name) == Some(members[i].1)
      {
        assert i == last || LastAt(members[..last], name, i);
      }
    }
  }

  /** No spelling of an ASCII name is longer than six octets for each of its characters. */
  lemma {:induction false} SpellingBound(s: Octets)
    requires forall i | 0 <= i < |Decoded(s)| :: Decoded(s)[i] < 0x80
    ensures |s| <= 6 * |Decoded(s)|
    decreases |s|
  {
    if s != [] {
      var chars := Decoded(s);
      var n :=
        if IsUnicodeEscape(s) then 6
        else if s[0] == BACKSLASH && |s| >= 2 then 2
        else if SequenceLength(s) > 0 then SequenceLength(s) else 1;
      assert chars[0] < 0x80;
      assert chars[1..] == Decoded(s[n..]);
      assert forall i | 0 <= i < |chars| - 1 :: Decoded(s[n..])[i] == chars[i + 1];
      SpellingBound(s[n..]);
    }
  }
}
