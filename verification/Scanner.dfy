/**
 * What `JsonStream` reads of a document, as functions of the document and a position in it.
 *
 * A scan knows nothing of chunks. It answers where the thing read ends, or why it is refused and how far the reader
 * has come by then. The methods of `JsonStream` are proved against these functions, so nothing they answer depends on
 * how the document arrived. `ScannerProofs` relates the functions to the grammar.
 */
module Scanner {
  import opened Octets
  import opened Numbers

  const MAX_STREAM_NUMBER: nat := 1024
  const MAX_STREAM_DEPTH: nat := 64
  const MAX_STREAM_NAME: nat := 256

  datatype Refusal =
    | CutShort
    | Misplaced(expected: octet, index: nat)
    | ControlCharacter
    | InvalidEscape
    | InvalidUnicodeEscape
    | NoValue
    | NumberTooLong
    | Unbuildable
    | TooDeep
    | TooLong(limit: nat)
    | NotUtf8
    | ReadRaised
    | MoreThanOneValue
    | NegativeLimit
    | GivenTwice
    | WalkUnfinished

  /** `at` is where the thing read ends, or how far the reader has come when it refuses. */
  datatype Scan =
    | Ok(at: nat)
    | No(at: nat, why: Refusal)
  {
    predicate IsFailure() {
      No?
    }

    function PropagateFailure(): Scan
      requires No?
    {
      this
    }

    function Extract(): nat
      requires Ok?
    {
      at
    }
  }

  /** `first` is how the scan `s` starts. */
  predicate Continues(first: Scan, s: Scan) {
    first.at <= s.at && (first.No? ==> s == first)
  }

  /** The next octet that is not whitespace. */
  function ScanNext(d: Octets, p: nat): (s: Scan)
    requires p <= |d|
    ensures s != No(s.at, NumberTooLong)
    ensures p <= s.at <= |d| && s.at == WsEnd(d, p)
    ensures s.Ok? <==> s.at < |d|
  {
    var q := WsEnd(d, p);
    if q == |d| then No(q, CutShort) else Ok(q)
  }

  function ScanExpect(d: Octets, p: nat, c: octet): (s: Scan)
    requires p <= |d|
    ensures s != No(s.at, NumberTooLong)
    ensures p <= s.at <= |d|
    ensures s.Ok? ==> p < s.at
  {
    var q :- ScanNext(d, p);
    if d[q] == c then Ok(q + 1) else No(q, Misplaced(c, q))
  }

  /** The escape whose reverse solidus is at `p`. */
  function ScanEscape(d: Octets, p: nat): (s: Scan)
    requires p < |d|
    ensures s != No(s.at, NumberTooLong)
    ensures p <= s.at <= |d|
    ensures s.Ok? ==> p < s.at
  {
    if p + 2 > |d| then No(p, CutShort)
    else if IsShortEscape(d[p + 1]) then Ok(p + 2)
    else if d[p + 1] != LOWER_U then No(p, InvalidEscape)
    else if p + 6 > |d| then No(p, CutShort)
    else if HexFour(d, p + 2) then Ok(p + 6)
    else No(p, InvalidUnicodeEscape)
  }

  predicate StopsString(c: octet) {
    c == QUOTE || c == BACKSLASH || c < SPACE
  }

  /** The rest of a string, from `p` to its closing quote. */
  function ScanStringRest(d: Octets, p: nat): (s: Scan)
    requires p <= |d|
    ensures s != No(s.at, NumberTooLong)
    ensures p <= s.at <= |d|
    ensures s.Ok? ==> p < s.at
    decreases |d| - p
  {
    if p == |d| then No(p, CutShort)
    else if d[p] == QUOTE then Ok(p + 1)
    else if d[p] < SPACE then No(p, ControlCharacter)
    else if d[p] == BACKSLASH then
      var e :- ScanEscape(d, p);
      ScanStringRest(d, e)
    else ScanStringRest(d, p + 1)
  }

  function ScanString(d: Octets, p: nat): (s: Scan)
    requires p <= |d|
    ensures s != No(s.at, NumberTooLong)
    ensures p <= s.at <= |d|
    ensures s.Ok? ==> p + 1 < s.at
  {
    var b :- ScanExpect(d, p, QUOTE);
    ScanStringRest(d, b)
  }

  /** How many octets of a literal start `s`, 0 where none does. */
  function LiteralLength(s: Octets): (n: nat)
    ensures n <= |s|
  {
    if TRUE <= s then |TRUE| else if FALSE <= s then |FALSE| else if NULL <= s then |NULL| else 0
  }

  /** The number or the literal at `p`. `builds` says whether the parser behind `call` can build a number. */
  function ScanScalar(d: Octets, p: nat, builds: Octets -> bool): (s: Scan)
    requires p <= |d|
    ensures p <= s.at <= |d|
    ensures s.Ok? <==> p < s.at
  {
    var literal := LiteralLength(d[p..]);
    var number := NumberLength(d[p..]);
    if literal > 0 then Ok(p + literal)
    else if number == 0 then No(p, NoValue)
    else if number > MAX_STREAM_NUMBER then No(p, NumberTooLong)
    else if !builds(d[p..p + number]) then No(p, Unbuildable)
    else Ok(p + number)
  }

  function ScanMemberName(d: Octets, p: nat): (s: Scan)
    requires p <= |d|
    ensures s != No(s.at, NumberTooLong)
    ensures p <= s.at <= |d|
    ensures s.Ok? ==> p < s.at
  {
    var e :- ScanString(d, p);
    ScanExpect(d, e, COLON)
  }

  /** The name and the colon before a value in an object, nothing before one in an array. */
  function ScanKey(d: Octets, p: nat, open: octet): (s: Scan)
    requires p <= |d|
    ensures s != No(s.at, NumberTooLong)
    ensures p <= s.at <= |d|
  {
    if open == LBRACE then ScanMemberName(d, p) else Ok(p)
  }

  /** One value, nested in itself at most `depth` containers deep. */
  function ScanValue(d: Octets, p: nat, depth: nat, builds: Octets -> bool): (s: Scan)
    requires p <= |d|
    ensures p <= s.at <= |d|
    ensures s.Ok? ==> p < s.at
    decreases |d| - p, 0
  {
    var q :- ScanNext(d, p);
    if IsOpener(d[q]) then
      if depth == 0 then No(q, TooDeep)
      else
        var r :- ScanNext(d, q + 1);
        if d[r] == Closer(d[q]) then Ok(r + 1) else ScanElements(d, q + 1, d[q], depth - 1, builds)
    else if d[q] == QUOTE then ScanString(d, q)
    else ScanScalar(d, q, builds)
  }

  /** The rest of a container, from ahead of one of its elements. */
  function ScanElements(d: Octets, p: nat, open: octet, depth: nat, builds: Octets -> bool): (s: Scan)
    requires p <= |d|
    ensures p <= s.at <= |d|
    ensures s.Ok? ==> p < s.at
    decreases |d| - p, 1
  {
    var v :- ScanKey(d, p, open);
    var e :- ScanValue(d, v, depth, builds);
    var t :- ScanNext(d, e);
    if d[t] == Closer(open) then Ok(t + 1)
    else if d[t] != COMMA then No(t + 1, Misplaced(COMMA, t))
    else ScanElements(d, t + 1, open, depth, builds)
  }

  /** One value kept under `limit`: refused once more than `limit` octets of it have been read. */
  function ScanKept(d: Octets, p: nat, limit: nat, builds: Octets -> bool): (s: Scan)
    requires p <= |d|
    ensures p <= s.at <= |d|
    ensures s.Ok? ==> p < s.at && s == ScanValue(d, p, MAX_STREAM_DEPTH, builds)
  {
    var s := ScanValue(d, p, MAX_STREAM_DEPTH, builds);
    if s.at > WsEnd(d, p) + limit then No(s.at, TooLong(limit)) else s
  }

  /** Nothing but whitespace to the end of the document. */
  function ScanEnd(d: Octets, p: nat): Scan
    requires p <= |d|
  {
    var q := WsEnd(d, p);
    if q == |d| then Ok(q) else No(q, MoreThanOneValue)
  }

  /** A whole document: one value and nothing after it. */
  function ScanDocument(d: Octets, builds: Octets -> bool): Scan {
    var e :- ScanValue(d, 0, MAX_STREAM_DEPTH, builds);
    ScanEnd(d, e)
  }
}
