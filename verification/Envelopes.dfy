/**
 * `_streamed_result`: a reply decided as it arrives, its `result` read by a walk.
 *
 * `Streamed` is what is decided of a whole body; `StreamedResult` decides it over a stream.
 */
module Envelopes {
  import opened Options
  import opened Octets
  import opened Numbers
  import opened Scanner
  import opened Utf8
  import opened Reader
  import opened Automaton
  import opened Overlong
  import opened Streams
  import opened Replies
  import opened Walks
  import Values

  type Kept = Reply<seq<Seen>>

  const NOTHING: Kept := Reply(None, None, None, None)

  predicate IsEnvelope(name: Values.Chars) {
    name == JSONRPC || name == ID || name == ERROR
  }

  /** Whether a member of that name is kept already. */
  predicate Has(kept: Kept, name: Values.Chars) {
    if name == JSONRPC then kept.jsonrpc.Some?
    else if name == ID then kept.id.Some?
    else if name == ERROR then kept.error.Some?
    else name == RESULT && kept.result.Some?
  }

  function Keeping(kept: Kept, name: Values.Chars, value: Values.Json): Kept
    requires IsEnvelope(name)
  {
    if name == JSONRPC then kept.(jsonrpc := Some(value))
    else if name == ID then kept.(id := Some(value))
    else kept.(error := Some(value))
  }

  /** A member's value, and what is kept once it has been read. */
  datatype Step = Step(scan: Scan, kept: Kept)

  /** The `result` of a reply, read by the walk `w`: refused where the walk has not read the whole of it. */
  function ResultValue(d: Octets, p: nat, w: Walk, builds: Octets -> bool): (r: Walked)
    requires p <= |d|
    ensures p <= r.scan.at <= |d|
  {
    var q := ScanNext(d, p);
    if q.No? then Walked(q, false, 0, [])
    else
      var r := WalkFrom(d, q.at, w, builds);
      if r.scan.Ok? && (r.inside != 0 || r.scan.at == q.at) then r.(scan := No(r.scan.at, WalkUnfinished)) else r
  }

  /** The value, at `p`, of the member `name` of a reply. */
  function MemberValue(
      d: Octets, p: nat, name: Option<Values.Chars>, kept: Kept, w: Walk, max: nat, builds: Octets -> bool): (s: Step)
    requires p <= |d|
    ensures p <= s.scan.at <= |d|
  {
    if name.Some? && Has(kept, name.value) then Step(No(p, GivenTwice), kept)
    else if name == Some(RESULT) then
      var r := ResultValue(d, p, w, builds);
      Step(r.scan, if r.scan.No? then kept else kept.(result := Some(r.seen)))
    else if name.Some? && IsEnvelope(name.value) then
      var s := ScanKept(d, p, max, builds);
      Step(s, if s.No? then kept
              else Keeping(kept, name.value, Values.Value(ReadTree(d, p, MAX_STREAM_DEPTH, builds))))
    else
      Step(ScanValue(d, p, MAX_STREAM_DEPTH, builds), kept)
  }

  /**
   * The check behind a walk of `result`, however the walk was left: it passes exactly where the walk has left every
   * container it entered and has consumed the one value the grammar gives, no less and no more.
   */
  lemma CheckedWalk(d: Octets, p: nat, kept: Kept, w: Walk, max: nat, builds: Octets -> bool)
    requires p <= |d| && !Has(kept, RESULT)
    ensures
      var m := MemberValue(d, p, Some(RESULT), kept, w, max, builds).scan;
      var r := WalkFrom(d, WsEnd(d, p), w, builds);
      (m.Ok? <==> WsEnd(d, p) < |d| && r.scan.Ok? && r.inside == 0 && WholeValue(d, p, builds) == r.scan) &&
      (m.Ok? ==> m == r.scan)
  {
    hide WalkFrom, ScanValue;
    var q := WsEnd(d, p);
    WsEndUnique(d, q, q);
    ValuePastWs(d, p, q, |d|, builds);
    if WalkFrom(d, q, w, builds).scan.Ok? {
      WalkIsGrammar(d, q, w, builds);
    }
  }

  /** A reply from ahead of one of its members. */
  function EnvelopeFrom(d: Octets, p: nat, kept: Kept, w: Walk, max: nat, builds: Octets -> bool): (s: Step)
    requires p <= |d|
    ensures p <= s.scan.at <= |d|
    decreases |d| - p
  {
    var v := ScanMemberName(d, p);
    if v.No? then Step(v, kept)
    else
      var m := MemberValue(d, v.at, NameAt(d, p), kept, w, max, builds);
      if m.scan.No? then m
      else
        var t := ScanAfter(d, m.scan.at, LBRACE);
        if t.No? || Closed(d, t.at, LBRACE) then Step(t, m.kept)
        else EnvelopeFrom(d, t.at, m.kept, w, max, builds)
  }

  /** A reply from one step of the generator of its members on. */
  function EnvelopeRest(d: Octets, p: nat, begun: bool, kept: Kept, w: Walk, max: nat, builds: Octets -> bool): Step
    requires p <= |d|
  {
    var a := ScanTo(d, p, LBRACE, begun);
    if a.No? || Closed(d, a.at, LBRACE) then Step(a, kept) else EnvelopeFrom(d, a.at, kept, w, max, builds)
  }

  /** What a body under a 200 answers, its `result` read by the walk `w`. */
  function Streamed(d: Octets, id: Values.Chars, w: Walk, max: nat, builds: Octets -> bool): Answer<seq<Seen>> {
    var s := EnvelopeRest(d, 0, false, NOTHING, w, max, builds);
    if s.scan.No? || s.scan.at > |d| || ScanEnd(d, s.scan.at).No? then FetchError
    else Discriminate(id, 200, s.kept)
  }

  lemma EnvelopeTurn(d: Octets, p: nat, begun: bool, kept: Kept, w: Walk, max: nat, builds: Octets -> bool)
    requires p <= |d|
    ensures
      var whole := EnvelopeRest(d, p, begun, kept, w, max, builds);
      var step := MemberStep(d, p, begun);
      var name := MemberStepName(d, p, begun);
      if step.No? then whole.scan == step
      else if name.None? then whole == Step(step, kept)
      else
        var m := MemberValue(d, step.at, name.value, kept, w, max, builds);
        if m.scan.No? then whole.scan == m.scan
        else whole.scan == EnvelopeRest(d, m.scan.at, true, m.kept, w, max, builds).scan &&
             (whole.scan.Ok? ==> whole == EnvelopeRest(d, m.scan.at, true, m.kept, w, max, builds))
  {
    hide ScanOpen, ScanAfter, ScanMemberName, NameAt, MemberValue;
  }

  /** A step a stream refuses is one the scan refuses, or the document is not UTF-8, or a read raised. */
  lemma StepRefused(stream: JsonStream, s: Scan, out: Outcome)
    requires stream.Matches(s, out) && out.Fail?
    ensures s.No? || !IsUtf8(stream.doc) || stream.source.raised
  {
  }

  /** A read of nothing: where the source holds its reads to a deadline, the time a walk took counts. */
  method ReadNothing(stream: JsonStream) returns (out: Outcome)
    requires stream.Ready()
    modifies stream.source
    ensures !out.Stops() ==> stream.Ready()
    ensures out == if stream.source.raised then Fail(ReadRaised) else Pass
  {
    ghost var unread := stream.source.unread;
    var none, raises := stream.source.Read(0);
    assert none + stream.source.unread == stream.source.unread;
    return if raises then Fail(ReadRaised) else Pass;
  }

  /** Read `result` by a walk, and check that the walk read the whole of it. */
  method ReadResult(stream: JsonStream, w: Walk) returns (seen: seq<Seen>, out: Outcome)
    requires stream.Ready()
    modifies stream, stream.source
    ensures !out.Stops() ==> stream.Ready()
    ensures
      var r := ResultValue(stream.doc, old(stream.At()), w, stream.builds);
      (stream.Matches(r.scan, out) || (r.scan == No(r.scan.at, NumberTooLong) && out == Fail(WalkUnfinished))) &&
      (out.Pass? && r.scan.Ok? ==> seen == r.seen)
  {
    hide stream.Faithful, WalkFrom, WsEnd, CutEnd, CanCut, RefusedAs;
    seen := [];
    var octet;
    octet, out := stream.Peek();
    if out.Fail? {
      return seen, out;
    }
    var depth, start := stream.open, stream.At();
    var left;
    left, seen, out := RunWalk(stream, w);
    if out.Fail? {
      return seen, out;
    }
    out := ReadNothing(stream);
    if out.Pass? && (stream.open != depth || stream.At() == start) {
      out := Fail(WalkUnfinished);
    }
  }

  /** Read the value of one member, keeping it where it is one a reply is decided by. */
  method ReadMember(stream: JsonStream, name: Option<Values.Chars>, kept: Kept, w: Walk, max: nat)
    returns (now: Kept, out: Outcome)
    requires stream.Ready()
    modifies stream, stream.source
    ensures !out.Stops() ==> stream.Ready()
    ensures
      var m := MemberValue(stream.doc, old(stream.At()), name, kept, w, max, stream.builds);
      (out.Fail? ==> m.scan.No? || !IsUtf8(stream.doc) || stream.source.raised) &&
      (out.Pass? ==>
         if m.scan.Ok? then m.scan.at == stream.At() && now == m.kept
         else stream.CutHere(m.scan))
  {
    hide stream.Faithful, ScanValue, ScanKept, ReadTree, ResultValue, CutEnd, CanCut, RefusedAs;
    now := kept;
    if name.Some? && Has(kept, name.value) {
      return now, Fail(GivenTwice);
    }
    if name == Some(RESULT) {
      var seen;
      seen, out := ReadResult(stream, w);
      now := kept.(result := Some(seen));
    } else if name.Some? && IsEnvelope(name.value) {
      var value;
      value, out := stream.Value(max);
      now := Keeping(kept, name.value, value);
    } else {
      out := stream.Skip();
    }
  }

  /** A body under a 200, streamed: its answer is that of `Streamed` on the whole body, unless a read raised. */
  method StreamedResult(source: Source, id: Values.Chars, w: Walk, max: nat, builds: Octets -> bool)
    returns (answer: Answer<seq<Seen>>)
    requires !source.raised
    modifies source
    ensures
      var d := old(source.unread);
      answer == if IsUtf8(d) && !source.raised then Streamed(d, id, w, max, builds) else FetchError
  {
    hide EnvelopeRest, MemberStep, MemberStepName, MemberValue, IsUtf8, Discriminate, JsonStream.Faithful;
    var stream := new JsonStream(source, builds);
    var members := new MembersGenerator(stream);
    ghost var d := stream.doc;
    ghost var whole := EnvelopeRest(d, 0, false, NOTHING, w, max, builds);
    var kept := NOTHING;
    ghost var cut := false;
    while true
      invariant stream.Ready() && members.stream == stream && fresh(stream) && fresh(members)
      invariant stream.doc == d && stream.source == source && stream.builds == builds
      invariant cut ==> whole.scan.No? && members.begun && Dangling(d[stream.At()..])
      invariant !cut ==>
                  var rest := EnvelopeRest(d, stream.At(), members.begun, kept, w, max, builds);
                  whole.scan == rest.scan && (whole.scan.Ok? ==> whole == rest)
      decreases !cut, |d| - stream.At()
    {
      ghost var p := stream.At();
      ghost var step := MemberStep(d, p, members.begun);
      EnvelopeTurn(d, p, members.begun, kept, w, max, builds);
      if cut {
        DanglingStays(d, p);
      }
      var name, out := members.Next();
      if out.Fail? {
        StepRefused(stream, step, out);
        return FetchError;
      }
      if name.None? {
        break;
      }
      ghost var m := MemberValue(d, step.at, name.value, kept, w, max, builds);
      kept, out := ReadMember(stream, name.value, kept, w, max);
      if out.Fail? {
        return FetchError;
      }
      cut := m.scan.No?;
      stream.CutBehindIf(m.scan);
    }
    var out := stream.End();
    if out.Fail? {
      StepRefused(stream, ScanEnd(d, whole.scan.at), out);
      return FetchError;
    }
    return Discriminate(id, 200, kept);
  }
}
