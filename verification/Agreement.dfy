/**
 * A reply decided as it arrives against the same reply parsed whole and then decided.
 *
 * `Calls` has the second. `Streamable` says which bodies the first reads, on their syntax trees. `StreamedExactly` is
 * what it answers, for every body and every walk, and `StreamedAgrees` and `AgreesExactly` compare the two.
 */
module Agreement {
  import opened Options
  import opened Octets
  import opened Grammar
  import opened Scanner
  import opened ScannerProofs
  import opened Unambiguity
  import opened Utf8
  import opened Encodings
  import opened Reader
  import opened Streams
  import opened Replies
  import opened Walks
  import opened Shapes
  import opened Envelopes
  import opened Calls
  import Values

  // ----- The bounds of the reader, on the tree of a reply -----

  /** What is kept after a member. */
  function After(kept: Kept, name: Values.Chars, value: Tree, w: Walk): Kept {
    if name == RESULT then kept.(result := Some(SeenOf(w, value)))
    else if IsEnvelope(name) then Keeping(kept, name, Values.Value(value))
    else kept
  }

  function AfterAll(kept: Kept, es: Elements, w: Walk): Kept
    decreases es
  {
    var now := After(kept, Values.NameOf(es.key), es.value, w);
    if es.More? then AfterAll(now, es.rest, w) else now
  }

  /** Whether the reader reads the value of a member: the walk fits the result, and any other is skipped or kept. */
  ghost predicate FitsMember(name: Values.Chars, value: Tree, w: Walk, max: nat, builds: Octets -> bool) {
    if name == RESULT then Fits(w, value, builds)
    else Skips(value, builds) && (IsEnvelope(name) ==> |Text(value)| <= max)
  }

  /** No member that is read is given twice, nor is already kept, and each fits. */
  ghost predicate Clean(es: Elements, kept: Kept, w: Walk, max: nat, builds: Octets -> bool)
    decreases es
  {
    var name := Values.NameOf(es.key);
    !Has(kept, name) && FitsMember(name, es.value, w, max, builds) &&
    (es.More? ==> Clean(es.rest, After(kept, name, es.value, w), w, max, builds))
  }

  ghost predicate CleanReply(t: Tree, w: Walk, max: nat, builds: Octets -> bool) {
    IsObject(t) && (t.Full? ==> Clean(t.elements, NOTHING, w, max, builds))
  }

  /** Whether a body is one the stream reads to its end: UTF-8, JSON, and a reply within the bounds of the reader. */
  ghost predicate Streamable(d: Octets, t: Tree, w: Walk, max: nat, builds: Octets -> bool) {
    IsUtf8(d) && IsDocument(d, t, |d|, Any()) && CleanReply(t, w, max, builds)
  }

  // ----- A member, and its name -----

  /** No spelling of a name that is read is too long for the reader to answer it. */
  lemma NameInReach(text: Octets)
    requires |text| > MAX_STREAM_NAME
    ensures var name := Values.StringValue(text); !IsEnvelope(name) && name != RESULT
  {
    var body := text[1..|text| - 1];
    var name := Values.Decoded(body);
    if IsEnvelope(name) || name == RESULT {
      Values.SpellingBound(body);
    }
  }

  /** Every way to write one of the four names takes at most 44 octets, its quotes included. */
  lemma EnvelopeSpelling(text: Octets)
    requires |text| >= 2
    requires var name := Values.StringValue(text); IsEnvelope(name) || name == RESULT
    ensures |text| <= 44
  {
    Values.SpellingBound(text[1..|text| - 1]);
  }

  /** The name the reader answers against the name the grammar gives. */
  predicate Calling(name: Option<Values.Chars>, called: Values.Chars) {
    name == Some(called) || (name == None && !IsEnvelope(called) && called != RESULT)
  }

  lemma NameCalls(k: Key)
    requires k.Named?
    ensures Calling(ShownName(k), Values.NameOf(k))
  {
    hide Values.StringValue;
    if |k.name| > MAX_STREAM_NAME {
      NameInReach(k.name);
    }
  }

  /** A member is read exactly where it is not given twice and fits, and then it is kept as it should be. */
  lemma MemberExactly(
      d: Octets, p: nat, q: nat, t: Tree, depth: nat, name: Option<Values.Chars>, called: Values.Chars, kept: Kept,
      w: Walk, max: nat, builds: Octets -> bool)
    requires WellFormed(t, depth, Any()) && WsRun(d, p, q) && Occurs(d, q, Text(t))
    requires Delimited(d, q + |Text(t)|) && Calling(name, called)
    ensures
      var m := MemberValue(d, p, name, kept, w, max, builds);
      (m.scan.Ok? <==> !Has(kept, called) && FitsMember(called, t, w, max, builds)) &&
      (m.scan.Ok? ==> m == Step(Ok(q + |Text(t)|), After(kept, called, t, w)))
  {
    hide WellFormed, Occurs, WsRun, WsEnd, Text, ScanValue, ReadTree, Fits, SeenOf, Skips, Any, WalkFrom, ScanNext,
      Delimited, Values.Value, ResultValue;
    WsForward(d, p, q);
    ResultExactly(d, p, q, t, depth, w, builds);
    SkipExactly(d, p, q, t, depth, builds);
  }

  lemma ResultExactly(d: Octets, p: nat, q: nat, t: Tree, depth: nat, w: Walk, builds: Octets -> bool)
    requires WellFormed(t, depth, Any()) && WsRun(d, p, q) && Occurs(d, q, Text(t))
    requires Delimited(d, q + |Text(t)|)
    ensures p <= |d|
    ensures
      var r := ResultValue(d, p, w, builds);
      if Fits(w, t, builds) then r.scan == Ok(q + |Text(t)|) && r.seen == SeenOf(w, t) else r.scan.No?
  {
    hide WellFormed, Occurs, WsRun, WsEnd, Text, Fits, SeenOf, Any, WalkFrom, ScanNext, Delimited;
    PeekStart(d, p, q, t, depth);
    WsForward(d, p, q);
    WalkExactly(d, q, q, t, w, depth, builds);
  }

  // ----- All members -----

  /** Reading member by member passes exactly where the members are clean, and keeps what it is asked to. */
  lemma {:induction false} EnvelopeExactly(
      d: Octets, p: nat, from: nat, es: Elements, kept: Kept, depth: nat, w: Walk, max: nat, builds: Octets -> bool)
    requires WellFormedElements(es, LBRACE, depth, Any()) && Occurs(d, p, ElementsText(es)) && WsRun(d, p, from)
    requires p + |ElementsText(es)| < |d| && d[p + |ElementsText(es)|] == RBRACE
    ensures p <= from <= |d|
    ensures
      var s := EnvelopeFrom(d, from, kept, w, max, builds);
      (s.scan.Ok? <==> Clean(es, kept, w, max, builds)) &&
      (s.scan.Ok? ==> s == Step(Ok(p + |ElementsText(es)| + 1), AfterAll(kept, es, w)))
    decreases es
  {
    hide WellFormed, WellFormedElements, WellFormedKey, Occurs, WsRun, Text, ElementsText, Any, Delimited, ScanKey,
      ScanMemberName, ScanAfter, Closed, NameAt, ShownName, MemberValue, FitsMember, After, Has, Values.NameOf, Calling;
    WsForward(d, p, from);
    var v, q, e := ElementExactly(d, p, from, es, LBRACE, depth);
    NamedKey(es, depth);
    NameCalls(es.key);
    MemberExactly(d, v, q, es.value, depth, ShownName(es.key), Values.NameOf(es.key), kept, w, max, builds);
    var m := MemberValue(d, v, NameAt(d, from), kept, w, max, builds);
    if m.scan.Ok? && es.More? {
      var t := e + |es.after|;
      WsRunEmpty(d, t + 1);
      EnvelopeExactly(d, t + 1, t + 1, es.rest, m.kept, depth, w, max, builds);
    }
  }

  lemma NamedKey(es: Elements, depth: nat)
    requires WellFormedElements(es, LBRACE, depth, Any())
    ensures es.key.Named?
  {
  }

  /** A member that passes is a value of the grammar. */
  lemma MemberIsGrammar(
      d: Octets, p: nat, name: Option<Values.Chars>, kept: Kept, w: Walk, max: nat, builds: Octets -> bool)
    requires p <= |d| && MemberValue(d, p, name, kept, w, max, builds).scan.Ok?
    ensures WholeValue(d, p, builds) == MemberValue(d, p, name, kept, w, max, builds).scan
  {
    hide ScanValue, WalkFrom, ReadTree;
    if name == Some(RESULT) {
      CheckedWalk(d, p, kept, w, max, builds);
    } else {
      DepthEnough(d, p, MAX_STREAM_DEPTH, |d|, builds);
    }
  }

  lemma EnvelopeTurns(
      d: Octets, p: nat, kept: Kept, w: Walk, max: nat, builds: Octets -> bool, v: nat, name: Option<Values.Chars>)
    requires p <= v <= |d| && ScanMemberName(d, p) == Ok(v) && name == NameAt(d, p)
    ensures
      var s := EnvelopeFrom(d, p, kept, w, max, builds);
      var m := MemberValue(d, v, name, kept, w, max, builds);
      if m.scan.No? then s == m
      else
        var t := WsEnd(d, m.scan.at);
        if t == |d| then s.scan.No?
        else if d[t] == RBRACE then s == Step(Ok(t + 1), m.kept)
        else if d[t] != COMMA then s.scan.No?
        else s == EnvelopeFrom(d, t + 1, m.kept, w, max, builds)
  {
    hide ScanMemberName, NameAt, MemberValue;
  }

  lemma ElementsTurns(d: Octets, p: nat, depth: nat, builds: Octets -> bool, v: nat)
    requires p <= v <= |d| && ScanMemberName(d, p) == Ok(v)
    ensures
      var e := ScanElements(d, p, LBRACE, depth, builds);
      var s := ScanValue(d, v, depth, builds);
      if s.No? then e == s
      else
        var t := WsEnd(d, s.at);
        if t == |d| then e.No?
        else if d[t] == RBRACE then e == Ok(t + 1)
        else if d[t] != COMMA then e.No?
        else e == ScanElements(d, t + 1, LBRACE, depth, builds)
  {
    hide ScanMemberName, ScanValue;
  }

  /** A reply that passes member by member is an object of the grammar. */
  lemma {:induction false} EnvelopeIsGrammar(
      d: Octets, p: nat, kept: Kept, w: Walk, max: nat, builds: Octets -> bool)
    requires p <= |d| && EnvelopeFrom(d, p, kept, w, max, builds).scan.Ok?
    ensures ScanElements(d, p, LBRACE, |d|, builds) == EnvelopeFrom(d, p, kept, w, max, builds).scan
    decreases |d| - p
  {
    hide ScanMemberName, ScanValue, ScanElements, EnvelopeFrom, MemberValue, NameAt;
    NameFirst(d, p, kept, w, max, builds);
    var v := ScanMemberName(d, p).at;
    EnvelopeTurns(d, p, kept, w, max, builds, v, NameAt(d, p));
    ElementsTurns(d, p, |d|, builds, v);
    MemberIsGrammar(d, v, NameAt(d, p), kept, w, max, builds);
    var m := MemberValue(d, v, NameAt(d, p), kept, w, max, builds);
    var t := WsEnd(d, m.scan.at);
    if d[t] == COMMA {
      EnvelopeIsGrammar(d, t + 1, m.kept, w, max, builds);
    }
  }

  lemma NameFirst(d: Octets, p: nat, kept: Kept, w: Walk, max: nat, builds: Octets -> bool)
    requires p <= |d| && EnvelopeFrom(d, p, kept, w, max, builds).scan.Ok?
    ensures ScanMemberName(d, p).Ok? && p < ScanMemberName(d, p).at <= |d|
    ensures MemberValue(d, ScanMemberName(d, p).at, NameAt(d, p), kept, w, max, builds).scan.Ok?
  {
    hide ScanString, ScanExpect, NameAt, MemberValue;
  }

  // ----- The whole body -----

  /** What a streamed reply answers. */
  function StreamAnswer(d: Octets, id: Values.Chars, w: Walk, max: nat, builds: Octets -> bool): Answer<seq<Seen>> {
    if IsUtf8(d) then Streamed(d, id, w, max, builds) else FetchError
  }

  /** The scan of a whole body, member by member and to its end. */
  ghost predicate Passes(d: Octets, w: Walk, max: nat, builds: Octets -> bool) {
    var s := EnvelopeRest(d, 0, false, NOTHING, w, max, builds).scan;
    s.Ok? && s.at <= |d| && ScanEnd(d, s.at).Ok?
  }

  lemma PassesExactly(d: Octets, t: Tree, w: Walk, max: nat, builds: Octets -> bool)
    requires IsDocument(d, t, |d|, Any())
    ensures Passes(d, w, max, builds) <==> CleanReply(t, w, max, builds)
    ensures
      var kept := EnvelopeRest(d, 0, false, NOTHING, w, max, builds).kept;
      Passes(d, w, max, builds) ==> kept == if t.Full? then AfterAll(NOTHING, t.elements, w) else NOTHING
  {
    hide WellFormed, WellFormedElements, IsDocument, Occurs, WsRun, WsEnd, Text, ElementsText, Any, ScanOpen, Closed,
      EnvelopeFrom, AfterAll, Clean, Delimited;
    var q := DocumentStart(d, t, |d|, Any());
    DocumentForm(d, t, |d|, Any());
    WsEndRun(d);
    ContainerExactly(d, 0, q, t, LBRACE, |d|);
    EndsInWs(d, q + |Text(t)|);
    if IsObject(t) && t.Full? {
      EnvelopeExactly(d, q + 1, WsEnd(d, q + 1), t.elements, NOTHING, |d| - 1, w, max, builds);
    }
  }

  lemma DocumentForm(d: Octets, t: Tree, depth: nat, num: Octets -> bool)
    requires IsDocument(d, t, depth, num)
    ensures WellFormed(t, depth, num)
  {
  }

  lemma WsEndRun(d: Octets)
    ensures WsRun(d, 0, WsEnd(d, 0))
  {
  }

  /** A body that passes is JSON. */
  lemma PassedIsJson(d: Octets, w: Walk, max: nat, builds: Octets -> bool) returns (t: Tree)
    requires Passes(d, w, max, builds)
    ensures IsDocument(d, t, |d|, builds)
  {
    hide EnvelopeFrom, ScanValue, ScanElements, ScanOpen, ReadTree, WellFormed, Text;
    var a := ScanOpen(d, 0, LBRACE);
    OpenIsGrammar(d, 0, LBRACE, builds);
    if !Closed(d, a.at, LBRACE) {
      EnvelopeIsGrammar(d, a.at, NOTHING, w, max, builds);
    }
    t := ValueDocument(d, builds);
  }

  lemma ValueDocument(d: Octets, builds: Octets -> bool) returns (t: Tree)
    requires var s := ScanValue(d, 0, |d|, builds); s.Ok? && ScanEnd(d, s.at).Ok?
    ensures IsDocument(d, t, |d|, builds)
  {
    hide ScanValue, ReadTree, WellFormed, Text;
    t := ReadTree(d, 0, |d|, builds);
    ValueSound(d, 0, |d|, builds);
    DocumentText(d, t, WsEnd(d, 0), ScanValue(d, 0, |d|, builds).at);
    Widens(t, |d|, |d|, Admitted(builds), builds);
  }

  lemma {:induction false} Widens(t: Tree, a: nat, b: nat, num: Octets -> bool, any: Octets -> bool)
    requires a <= b && WellFormed(t, a, num) && forall s :: num(s) ==> any(s)
    ensures WellFormed(t, b, any)
    decreases t
  {
    if t.Full? {
      ElementsWiden(t.elements, t.open, a - 1, b - 1, num, any);
    }
  }

  lemma {:induction false} ElementsWiden(
      es: Elements, open: octet, a: nat, b: nat, num: Octets -> bool, any: Octets -> bool)
    requires a <= b && WellFormedElements(es, open, a, num) && forall s :: num(s) ==> any(s)
    ensures WellFormedElements(es, open, b, any)
    decreases es
  {
    Widens(es.value, a, b, num, any);
    if es.More? {
      ElementsWiden(es.rest, open, a, b, num, any);
    }
  }

  /** A tree of a text is no deeper than the text is long. */
  lemma {:induction false} DepthFits(t: Tree, a: nat, num: Octets -> bool)
    requires WellFormed(t, a, num)
    ensures WellFormed(t, |Text(t)|, num)
    decreases t
  {
    if t.Full? {
      ElementsDepthFit(t.elements, t.open, a - 1, |Text(t)| - 1, num);
    }
  }

  lemma {:induction false} ElementsDepthFit(es: Elements, open: octet, a: nat, b: nat, num: Octets -> bool)
    requires WellFormedElements(es, open, a, num) && b >= |ElementsText(es)|
    ensures WellFormedElements(es, open, b, num)
    decreases es
  {
    DepthFits(es.value, a, num);
    Widens(es.value, |Text(es.value)|, b, num, num);
    if es.More? {
      ElementsDepthFit(es.rest, open, a, b, num);
    }
  }

  /** JSON is JSON whatever is asked of its numbers, and however deep. */
  lemma JsonIs(d: Octets, t: Tree, depth: nat, num: Octets -> bool)
    requires IsDocument(d, t, depth, num)
    ensures IsDocument(d, t, |d|, Any())
  {
    hide WellFormed, Text;
    DepthFits(t, depth, num);
    Widens(t, |Text(t)|, |d|, num, Any());
  }

  // ----- What is kept is what is looked up -----

  function Or<T>(a: Option<T>, b: Option<T>): Option<T> {
    if a.Some? then a else b
  }

  /** What a walk is shown of a result. */
  function Seeing(o: Option<Tree>, w: Walk): Option<seq<Seen>> {
    if o.Some? then Some(SeenOf(w, o.value)) else None
  }

  /** What is kept of the members of an object is what looking them up finds: of those given twice, the last. */
  lemma {:induction false} KeptIsLast(kept: Kept, es: Elements, w: Walk)
    ensures
      var now := AfterAll(kept, es, w);
      now.jsonrpc == Or(Valued(LastNamed(es, JSONRPC)), kept.jsonrpc) &&
      now.id == Or(Valued(LastNamed(es, ID)), kept.id) &&
      now.error == Or(Valued(LastNamed(es, ERROR)), kept.error) &&
      now.result == Or(Seeing(LastNamed(es, RESULT), w), kept.result)
    decreases es
  {
    hide SeenOf, Values.NameOf, Values.Value;
    if es.More? {
      KeptIsLast(After(kept, Values.NameOf(es.key), es.value, w), es.rest, w);
    }
  }

  /** An answer with its result as what a walk is shown of it. */
  function Shown(w: Walk, answer: Answer<Tree>): Answer<seq<Seen>> {
    match answer
    case Result(t) => Result(SeenOf(w, t))
    case RpcError(code, message, data) => RpcError(code, message, data)
    case HttpError(status) => HttpError(status)
    case FetchError => FetchError
  }

  lemma ShownReply(id: Values.Chars, status: int, kept: Kept, reply: Reply<Tree>, w: Walk)
    requires kept == Reply(reply.jsonrpc, reply.id, reply.error, Seeing(reply.result, w))
    ensures Discriminate(id, status, kept) == Shown(w, Discriminate(id, status, reply))
  {
  }

  // ----- The theorems -----

  /** What a streamed reply answers: for every walk, what is decided of the tree of the body, where it is streamable. */
  lemma StreamedExactly(d: Octets, t: Tree, id: Values.Chars, w: Walk, max: nat, builds: Octets -> bool)
    requires IsDocument(d, t, |d|, Any())
    ensures
      StreamAnswer(d, id, w, max, builds) ==
      if Streamable(d, t, w, max, builds) then Shown(w, Discriminate(id, 200, ReplyTree(t))) else FetchError
  {
    hide IsDocument, CleanReply, Discriminate, IsUtf8, EnvelopeRest, SeenOf, ScanEnd, AfterAll;
    PassesExactly(d, t, w, max, builds);
    if Passes(d, w, max, builds) {
      var kept := EnvelopeRest(d, 0, false, NOTHING, w, max, builds).kept;
      if t.Full? {
        KeptIsLast(NOTHING, t.elements, w);
      }
      ShownReply(id, 200, kept, ReplyTree(t), w);
    }
  }

  /** Nothing but JSON is answered. */
  lemma OnlyJson(d: Octets, id: Values.Chars, w: Walk, max: nat, builds: Octets -> bool)
    requires forall t :: !IsDocument(d, t, |d|, Any())
    ensures StreamAnswer(d, id, w, max, builds) == FetchError
  {
    hide IsDocument, Discriminate, IsUtf8, EnvelopeRest, ScanEnd;
    if Passes(d, w, max, builds) {
      var t := PassedIsJson(d, w, max, builds);
      JsonIs(d, t, |d|, builds);
    }
  }

  /** The numbers of a body that is streamable can be built. */
  lemma StreamableIsJson(d: Octets, t: Tree, w: Walk, max: nat, builds: Octets -> bool)
    requires Streamable(d, t, w, max, builds)
    ensures IsDocument(d, t, |d|, builds)
  {
    hide IsDocument, CleanReply, Passes;
    PassesExactly(d, t, w, max, builds);
    var s := PassedIsJson(d, w, max, builds);
    JsonIs(d, s, |d|, builds);
    DocumentUnique(d, s, t, |d|, Any());
  }

  /**
   * For every body and every walk: where the stream reads a body that the parser behind `call` can nest into, the two
   * answer alike, a result being shown to the walk on the one side and parsed on the other.
   */
  lemma StreamedAgrees(
      d: Octets, t: Tree, id: Values.Chars, w: Walk, max: nat, reach: nat, builds: Octets -> bool)
    requires Streamable(d, t, w, max, builds) && IsDocument(d, t, reach, builds)
    ensures StreamAnswer(d, id, w, max, builds) == Shown(w, CalledTree(d, id, 200, reach, builds))
    ensures Called(d, id, 200, reach, builds) == AsValue(CalledTree(d, id, 200, reach, builds))
    ensures CalledTree(d, id, 200, reach, builds) == Discriminate(id, 200, ReplyTree(t))
  {
    hide IsDocument, Discriminate, IsUtf8, ParsedTree, StreamAnswer, Shown, Called, AsValue, Clean;
    StreamedExactly(d, t, id, w, max, builds);
    PlainParsed(d, t, reach, builds);
    CalledIsValue(d, id, 200, reach, builds);
  }

  /** Whether a reply, under a 200, carries a result or a readable error for this very call. */
  predicate AnswersCall<R>(reply: Reply<R>, id: Values.Chars) {
    reply.id == Some(Values.JString(id)) && (IsLegacy(reply) || IsV2(reply)) &&
    if reply.error.None? || (IsLegacy(reply) && reply.error == Some(Values.JNull)) then reply.result.Some?
    else (IsLegacy(reply) || reply.result.None?) && IsReadable(reply.error.value)
  }

  lemma AnswersExactly<R>(id: Values.Chars, reply: Reply<R>)
    ensures Discriminate(id, 200, reply) != FetchError <==> AnswersCall(reply, id)
  {
  }

  /** Whether a parsed body is an object that answers the call. */
  predicate Answered(t: Option<Tree>, id: Values.Chars) {
    t.Some? && IsObject(t.value) && AnswersCall(ReplyTree(t.value), id)
  }

  /**
   * Where the two answer alike, for every body and every walk. Of a body the stream reads: where the parser can nest
   * into it, or it does not answer the call. Of any other: where the parser finds nothing in it that answers the call.
   */
  lemma AgreesExactly(d: Octets, id: Values.Chars, w: Walk, max: nat, reach: nat, builds: Octets -> bool)
    ensures forall t | Streamable(d, t, w, max, builds) ::
              (StreamAnswer(d, id, w, max, builds) == Shown(w, CalledTree(d, id, 200, reach, builds)) <==>
               IsDocument(d, t, reach, builds) || !Answered(Some(t), id))
    ensures (forall t :: !Streamable(d, t, w, max, builds)) ==>
              (StreamAnswer(d, id, w, max, builds) == Shown(w, CalledTree(d, id, 200, reach, builds)) <==>
               !Answered(ParsedTree(d, reach, builds), id))
  {
    hide IsDocument, Discriminate, IsUtf8, ParsedTree, StreamAnswer, AnswersCall, ReplyTree, CleanReply;
    var called := ParsedTree(d, reach, builds);
    if called.Some? {
      AnswersExactly(id, ReplyTree(called.value));
    }
    if t :| Streamable(d, t, w, max, builds) {
      StreamedOrNot(d, t, id, w, max, reach, builds);
      forall u | Streamable(d, u, w, max, builds)
        ensures u == t
      {
        DocumentUnique(d, t, u, |d|, Any());
      }
    } else {
      NotStreamed(d, id, w, max, builds);
    }
  }

  lemma NotStreamed(d: Octets, id: Values.Chars, w: Walk, max: nat, builds: Octets -> bool)
    requires forall t :: !Streamable(d, t, w, max, builds)
    ensures StreamAnswer(d, id, w, max, builds) == FetchError
  {
    hide IsDocument, Discriminate, StreamAnswer, CleanReply, IsUtf8;
    if t :| IsDocument(d, t, |d|, Any()) {
      StreamedExactly(d, t, id, w, max, builds);
    } else {
      OnlyJson(d, id, w, max, builds);
    }
  }

  lemma StreamedOrNot(
      d: Octets, t: Tree, id: Values.Chars, w: Walk, max: nat, reach: nat, builds: Octets -> bool)
    requires Streamable(d, t, w, max, builds)
    ensures
      StreamAnswer(d, id, w, max, builds) == Shown(w, CalledTree(d, id, 200, reach, builds)) <==>
      IsDocument(d, t, reach, builds) || !Answered(Some(t), id)
  {
    hide IsDocument, Discriminate, IsUtf8, ParsedTree, StreamAnswer, AnswersCall, ReplyTree, Clean;
    if IsDocument(d, t, reach, builds) {
      StreamedAgrees(d, t, id, w, max, reach, builds);
    } else {
      StreamedExactly(d, t, id, w, max, builds);
      AnswersExactly(id, ReplyTree(t));
      PlainDocument(d, t, |d|, Any());
      if ParsedTree(d, reach, builds).Some? {
        PlainIs(d, reach, builds);
        var u := ParsedTree(d, reach, builds).value;
        JsonIs(d, u, reach, builds);
        DocumentUnique(d, t, u, |d|, Any());
      }
    }
  }
}
