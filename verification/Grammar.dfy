/**
 * JSON text by its grammar: sections 2 to 7 of RFC 8259, as concrete syntax trees.
 *
 * Nothing here reads octets. A tree says how a text is built, `Text` writes it out, and `WellFormed` is the grammar,
 * with a bound on nesting and a condition `num` on each number as parameters.
 */
module Grammar {
  import opened Octets
  import opened Numbers

  datatype Tree =
    | Num(text: Octets)
    | Lit(text: Octets)
    | Str(text: Octets)
    | Empty(open: octet, gap: Octets)
    | Full(open: octet, elements: Elements)

  /** What stands before a value in a container: whitespace, and in an object a name and a colon too. */
  datatype Key =
    | Unnamed(lead: Octets)
    | Named(before: Octets, name: Octets, gap: Octets, lead: Octets)

  datatype Elements =
    | Last(key: Key, value: Tree, after: Octets)
    | More(key: Key, value: Tree, after: Octets, rest: Elements)

  function KeyText(k: Key): Octets {
    match k
    case Unnamed(lead) => lead
    case Named(before, name, gap, lead) => before + name + gap + [COLON] + lead
  }

  function Text(t: Tree): (s: Octets)
    ensures !t.Num? && !t.Lit? && !t.Str? ==> |s| >= 2
  {
    match t
    case Num(text) => text
    case Lit(text) => text
    case Str(text) => text
    case Empty(open, gap) => [open] + gap + [Closer(open)]
    case Full(open, elements) => [open] + ElementsText(elements) + [Closer(open)]
  }

  function ElementsText(es: Elements): Octets {
    var here := KeyText(es.key) + Text(es.value) + es.after;
    match es
    case Last(_, _, _) => here
    case More(_, _, _, rest) => here + [COMMA] + ElementsText(rest)
  }

  /** `s[i..j]` is one character of a string: itself, or an escape. */
  predicate IsCharacter(s: Octets, i: nat, j: nat) {
    i < j <= |s| &&
    if s[i] != BACKSLASH then
      j == i + 1 && s[i] >= SPACE && s[i] != QUOTE
    else
      i + 1 < |s| &&
      if s[i + 1] == LOWER_U then
        j == i + 6 && HexFour(s, i + 2)
      else
        j == i + 2 && IsShortEscape(s[i + 1])
  }

  /** How many octets the character that starts `s` takes. */
  function CharacterLength(s: Octets): nat
    requires s != []
  {
    if s[0] != BACKSLASH then 1 else if |s| > 1 && s[1] == LOWER_U then 6 else 2
  }

  /** `s` is a sequence of characters, each written in one of the ways a string allows. */
  predicate IsStringBody(s: Octets)
    decreases |s|
  {
    s == [] ||
    (IsCharacter(s, 0, CharacterLength(s)) && IsStringBody(s[CharacterLength(s)..]))
  }

  predicate IsString(s: Octets) {
    |s| >= 2 && s[0] == QUOTE && s[|s| - 1] == QUOTE && IsStringBody(s[1..|s| - 1])
  }

  predicate WellFormedKey(k: Key, open: octet) {
    match k
    case Unnamed(lead) => open == LBRACKET && AllWs(lead)
    case Named(before, name, gap, lead) =>
      open == LBRACE && AllWs(before) && IsString(name) && AllWs(gap) && AllWs(lead)
  }

  /** The grammar of a value nested at most `depth` containers deep, each of its numbers one that `num` admits. */
  ghost predicate WellFormed(t: Tree, depth: nat, num: Octets -> bool) {
    match t
    case Num(text) => IsNumber(text) && num(text)
    case Lit(text) => text == TRUE || text == FALSE || text == NULL
    case Str(text) => IsString(text)
    case Empty(open, gap) => IsOpener(open) && depth > 0 && AllWs(gap)
    case Full(open, elements) => IsOpener(open) && depth > 0 && WellFormedElements(elements, open, depth - 1, num)
  }

  ghost predicate WellFormedElements(es: Elements, open: octet, depth: nat, num: Octets -> bool) {
    WellFormedKey(es.key, open) &&
    WellFormed(es.value, depth, num) &&
    AllWs(es.after) &&
    (es.More? ==> WellFormedElements(es.rest, open, depth, num))
  }

  /** `d` is one value with optional whitespace around it: a JSON text. */
  ghost predicate IsDocument(d: Octets, t: Tree, depth: nat, num: Octets -> bool) {
    WellFormed(t, depth, num) &&
    exists before: Octets, after: Octets :: AllWs(before) && AllWs(after) && d == before + Text(t) + after
  }
}
