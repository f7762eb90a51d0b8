/**
 * The explicit stack of `JsonStream.skip` against the recursion of the grammar.
 *
 * `Finish` and `Resume` are what is left to read of a value when the containers in `stack` are open, innermost last.
 * `Unwind` says that reading a container through the stack ends where reading it by recursion does.
 */
module Automaton {
  import opened Octets
  import opened Scanner

  function Top(stack: seq<octet>): octet
    requires stack != []
  {
    stack[|stack| - 1]
  }

  function Pop(stack: seq<octet>): seq<octet>
    requires stack != []
  {
    stack[..|stack| - 1]
  }

  /** What is left once a value has ended at `p`. */
  function Finish(d: Octets, p: nat, stack: seq<octet>, builds: Octets -> bool): (s: Scan)
    requires p <= |d| && |stack| <= MAX_STREAM_DEPTH
    ensures p <= s.at <= |d|
    decreases |d| - p, 0
  {
    if stack == [] then Ok(p)
    else
      var t :- ScanNext(d, p);
      if d[t] == Closer(Top(stack)) then Finish(d, t + 1, Pop(stack), builds)
      else if d[t] != COMMA then No(t + 1, Misplaced(COMMA, t))
      else Enter(d, t + 1, stack, builds)
  }

  /** What is left when the next element of the innermost container starts at `p`. */
  function Enter(d: Octets, p: nat, stack: seq<octet>, builds: Octets -> bool): (s: Scan)
    requires p <= |d| && 0 < |stack| <= MAX_STREAM_DEPTH
    ensures p <= s.at <= |d|
    decreases |d| - p, 2
  {
    var v :- ScanKey(d, p, Top(stack));
    Resume(d, v, stack, builds)
  }

  /** What is left when the next value starts at `p`. */
  function Resume(d: Octets, p: nat, stack: seq<octet>, builds: Octets -> bool): (s: Scan)
    requires p <= |d| && |stack| <= MAX_STREAM_DEPTH
    ensures p <= s.at <= |d|
    decreases |d| - p, 1
  {
    var e :- ScanValue(d, p, MAX_STREAM_DEPTH - |stack|, builds);
    Finish(d, e, stack, builds)
  }

  /** A container read by recursion, then the rest, is the rest read with that container on the stack. */
  lemma {:induction false} Unwind(d: Octets, p: nat, open: octet, stack: seq<octet>, builds: Octets -> bool)
    requires p <= |d| && |stack| < MAX_STREAM_DEPTH
    ensures
      var s := ScanElements(d, p, open, MAX_STREAM_DEPTH - |stack| - 1, builds);
      Enter(d, p, stack + [open], builds) == if s.No? then s else Finish(d, s.at, stack, builds)
    decreases |d| - p
  {
    hide ScanKey, ScanValue;
    var depth := MAX_STREAM_DEPTH - |stack| - 1;
    var v := ScanKey(d, p, open);
    var inner := stack + [open];
    assert Top(inner) == open && Pop(inner) == stack;
    if v.Ok? {
      assert Enter(d, p, inner, builds) == Resume(d, v.at, inner, builds);
      var e := ScanValue(d, v.at, depth, builds);
      if e.Ok? {
        assert Resume(d, v.at, inner, builds) == Finish(d, e.at, inner, builds);
        var t := ScanNext(d, e.at);
        if t.Ok? && d[t.at] != Closer(open) && d[t.at] == COMMA {
          Unwind(d, t.at + 1, open, stack, builds);
        }
      }
    }
  }

  lemma ValuePastWs(d: Octets, p: nat, q: nat, depth: nat, builds: Octets -> bool)
    requires p <= |d| && q == WsEnd(d, p)
    ensures ScanValue(d, p, depth, builds) == ScanValue(d, q, depth, builds)
  {
    hide ScanElements, ScanString, ScanScalar;
    WsEndUnique(d, q, q);
  }

  lemma NamePastWs(d: Octets, p: nat, q: nat)
    requires p <= |d| && q == WsEnd(d, p)
    ensures ScanMemberName(d, p) == ScanMemberName(d, q)
  {
    hide ScanStringRest;
    WsEndUnique(d, q, q);
  }

  /** Whitespace ahead of an element changes nothing. */
  lemma EnterPastWs(d: Octets, p: nat, q: nat, stack: seq<octet>, builds: Octets -> bool)
    requires p <= |d| && q == WsEnd(d, p) && 0 < |stack| <= MAX_STREAM_DEPTH
    ensures Enter(d, p, stack, builds) == Enter(d, q, stack, builds)
  {
    hide Finish, ScanMemberName, ScanValue;
    ValuePastWs(d, p, q, MAX_STREAM_DEPTH - |stack|, builds);
    NamePastWs(d, p, q);
  }

  /** One turn of the loop of `skip` at a value that is a filled container. */
  lemma OpenStep(d: Octets, p: nat, stack: seq<octet>, builds: Octets -> bool)
    requires p <= |d| && |stack| < MAX_STREAM_DEPTH
    requires var q := WsEnd(d, p); q < |d| && IsOpener(d[q])
    requires
      var q := WsEnd(d, p);
      var r := WsEnd(d, q + 1);
      r < |d| && d[r] != Closer(d[q])
    ensures
      var q := WsEnd(d, p);
      Resume(d, p, stack, builds) == Enter(d, WsEnd(d, q + 1), stack + [d[q]], builds)
  {
    hide Finish, Enter, ScanElements;
    var q := WsEnd(d, p);
    Unwind(d, q + 1, d[q], stack, builds);
    EnterPastWs(d, q + 1, WsEnd(d, q + 1), stack + [d[q]], builds);
  }

  /** How the loop of `skip` goes on from the first octet of a value. */
  lemma ResumeTurn(d: Octets, p: nat, stack: seq<octet>, builds: Octets -> bool)
    requires p <= |d| && |stack| <= MAX_STREAM_DEPTH
    ensures
      var whole := Resume(d, p, stack, builds);
      var q := ScanNext(d, p);
      Continues(q, whole) &&
      (q.Ok? ==>
         whole == Resume(d, q.at, stack, builds) &&
         (IsOpener(d[q.at]) && |stack| == MAX_STREAM_DEPTH ==> whole == No(q.at, TooDeep)) &&
         (!IsOpener(d[q.at]) ==>
            var s := if d[q.at] == QUOTE then ScanString(d, q.at) else ScanScalar(d, q.at, builds);
            Continues(s, whole) && (s.Ok? ==> whole == Finish(d, s.at, stack, builds))))
  {
    hide ScanString, ScanScalar, ScanElements, Finish;
    ValuePastWs(d, p, WsEnd(d, p), MAX_STREAM_DEPTH - |stack|, builds);
  }

  lemma ResumeEmpty(d: Octets, p: nat, builds: Octets -> bool)
    requires p <= |d|
    ensures Resume(d, p, [], builds) == ScanValue(d, p, MAX_STREAM_DEPTH, builds)
  {
  }

  /** How it goes on inside a container that opens at `q`. */
  lemma OpenTurn(d: Octets, q: nat, stack: seq<octet>, builds: Octets -> bool)
    requires q < |d| && IsOpener(d[q]) && |stack| < MAX_STREAM_DEPTH
    ensures
      var whole := Resume(d, q, stack, builds);
      var r := ScanNext(d, q + 1);
      Continues(r, whole) &&
      (r.Ok? ==>
         if d[r.at] == Closer(d[q]) then whole == Finish(d, r.at + 1, stack, builds)
         else whole == Enter(d, r.at, stack + [d[q]], builds))
  {
    hide ScanElements, Finish, Enter;
    WsEndUnique(d, q, q);
    var r := ScanNext(d, q + 1);
    if r.Ok? && d[r.at] != Closer(d[q]) {
      OpenStep(d, q, stack, builds);
    }
  }

  /** How it goes on at the next element of the innermost container. */
  lemma EnterTurn(d: Octets, p: nat, stack: seq<octet>, builds: Octets -> bool)
    requires p <= |d| && 0 < |stack| <= MAX_STREAM_DEPTH
    ensures
      var whole := Enter(d, p, stack, builds);
      if Top(stack) == LBRACE then
        var v := ScanMemberName(d, p);
        Continues(v, whole) && (v.Ok? ==> whole == Resume(d, v.at, stack, builds))
      else whole == Resume(d, p, stack, builds)
  {
    hide ScanMemberName, Resume;
  }

  /** How it goes on after a value. */
  lemma FinishTurn(d: Octets, p: nat, stack: seq<octet>, builds: Octets -> bool)
    requires p <= |d| && 0 < |stack| <= MAX_STREAM_DEPTH
    ensures
      var whole := Finish(d, p, stack, builds);
      var t := ScanNext(d, p);
      Continues(t, whole) &&
      (t.Ok? ==>
         t.at + 1 <= whole.at &&
         if d[t.at] == Closer(Top(stack)) then whole == Finish(d, t.at + 1, Pop(stack), builds)
         else if d[t.at] != COMMA then whole == No(t.at + 1, Misplaced(COMMA, t.at))
         else whole == Enter(d, t.at + 1, stack, builds))
  {
    hide Enter;
  }
}
