/** `_request_json`: a parameter structure written as JSON text, a Decimal in it as a number. */
module Printer {
  import opened Options
  import opened Octets
  import opened Values
  import opened Decimals

  /** A parameter structure, as it unfolds. What a float is written with is given. */
  datatype Param =
    | PNull
    | PBool(b: bool)
    | PInt(n: int)
    | PFloat(text: Octets)
    | PDecimal(d: Decimal)
    | PString(chars: Chars)
    | PList(items: seq<Param>)
    | PDict(members: seq<Member>)

  datatype Member = Member(name: Chars, value: Param)

  const SEPARATOR: Octets := [COMMA, SPACE]

  function HexDigit(n: nat): octet
    requires n < 16
  {
    if n < 10 then ZERO + n as octet else 0x57 + n as octet
  }

  /** A UTF-16 code unit, escaped. */
  function UnitEscape(u: nat): Octets
    requires u < 0x10000
  {
    [BACKSLASH, LOWER_U, HexDigit(u / 0x1000), HexDigit(u / 0x100 % 16), HexDigit(u / 16 % 16), HexDigit(u % 16)]
  }

  predicate IsPlain(c: nat) {
    0x20 <= c <= 0x7E && c != 0x22 && c != 0x5C
  }

  /** The letter of the escape a character has to itself, 0 where it has none. */
  function ShortEscape(c: nat): octet {
    if c == 0x22 then QUOTE
    else if c == 0x5C then BACKSLASH
    else if c == 10 then 0x6E
    else if c == 13 then 0x72
    else if c == 9 then 0x74
    else if c == 8 then 0x62
    else if c == 12 then 0x66
    else 0
  }

  /** One character of a string, in ASCII. */
  function CharJson(c: nat): Octets {
    if ShortEscape(c) != 0 then [BACKSLASH, ShortEscape(c)]
    else if IsPlain(c) then [c as octet]
    else if c < 0x10000 then UnitEscape(c)
    else UnitEscape(0xD800 + (c - 0x10000) / 0x400 % 0x400) + UnitEscape(0xDC00 + c % 0x400)
  }

  function CharsJson(chars: Chars): Octets {
    if chars == [] then [] else CharJson(chars[0]) + CharsJson(chars[1..])
  }

  function StringJson(chars: Chars): Octets {
    [QUOTE] + CharsJson(chars) + [QUOTE]
  }

  /** What of a structure can be written at all: integers of at most `limit` digits, and Decimals that fit it. */
  ghost predicate Printable(p: Param, limit: nat)
    decreases p
  {
    match p
    case PInt(n) => IntegerFits(n, limit)
    case PDecimal(d) => DecimalFits(d, limit)
    case PList(items) => forall i | 0 <= i < |items| :: Printable(items[i], limit)
    case PDict(members) => forall i | 0 <= i < |members| :: Printable(members[i].value, limit)
    case _ => true
  }

  /** The text, or nothing where a number in it has more digits than `limit` allows. */
  function RequestJson(p: Param, limit: nat): Option<Octets>
    decreases p, 0
  {
    match p
    case PNull => Some(NULL)
    case PBool(b) => Some(if b then TRUE else FALSE)
    case PInt(n) => if limit > 0 && |DigitsOf(Abs(n))| > limit then None else Some(IntegerJson(n))
    case PFloat(text) => Some(text)
    case PDecimal(d) => DecimalJson(d, limit)
    case PString(chars) => Some(StringJson(chars))
    case PList(items) =>
      var inner := ItemsJson(items, limit);
      if inner.None? then None else Some([LBRACKET] + inner.value + [RBRACKET])
    case PDict(members) =>
      var inner := MembersJson(members, limit);
      if inner.None? then None else Some([LBRACE] + inner.value + [RBRACE])
  }

  function ItemsJson(items: seq<Param>, limit: nat): Option<Octets>
    decreases items, 1
  {
    if items == [] then Some([])
    else
      var first := RequestJson(items[0], limit);
      var rest := ItemsJson(items[1..], limit);
      if first.None? || rest.None? then None
      else Some(first.value + if |items| == 1 then [] else SEPARATOR + rest.value)
  }

  function MembersJson(members: seq<Member>, limit: nat): Option<Octets>
    decreases members, 1
  {
    if members == [] then Some([])
    else
      var first := RequestJson(members[0].value, limit);
      var rest := MembersJson(members[1..], limit);
      if first.None? || rest.None? then None
      else
        Some(StringJson(members[0].name) + [COLON, SPACE] + first.value +
             if |members| == 1 then [] else SEPARATOR + rest.value)
  }

  /** A structure is written exactly where every number in it can be. */
  lemma {:induction false} PrintsExactly(p: Param, limit: nat)
    ensures RequestJson(p, limit).Some? <==> Printable(p, limit)
    decreases p, 0
  {
    hide DecimalFits, IntegerFits, DecimalJson, DigitsOf;
    match p
    case PInt(n) => IntegerFitsExactly(n, limit);
    case PDecimal(d) => DecimalJsonDenotes(d, limit);
    case PList(items) => ItemsPrint(items, limit);
    case PDict(members) => MembersPrint(members, limit);
    case _ =>
  }

  lemma {:induction false} ItemsPrint(items: seq<Param>, limit: nat)
    ensures ItemsJson(items, limit).Some? <==> forall i | 0 <= i < |items| :: Printable(items[i], limit)
    decreases items, 1
  {
    hide Printable, RequestJson;
    if items != [] {
      PrintsExactly(items[0], limit);
      ItemsPrint(items[1..], limit);
      assert forall i | 1 <= i < |items| :: items[i] == items[1..][i - 1];
    }
  }

  lemma {:induction false} MembersPrint(members: seq<Member>, limit: nat)
    ensures MembersJson(members, limit).Some? <==> forall i | 0 <= i < |members| :: Printable(members[i].value, limit)
    decreases members, 1
  {
    hide Printable, RequestJson;
    if members != [] {
      PrintsExactly(members[0].value, limit);
      MembersPrint(members[1..], limit);
      assert forall i | 1 <= i < |members| :: members[i] == members[1..][i - 1];
    }
  }
}
