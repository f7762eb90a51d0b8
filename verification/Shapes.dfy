/**
 * A walk against the value it walks: which walks read the whole of a value, and what they are shown of it.
 *
 * `Fits` and `SeenOf` are about the syntax tree alone. `WalkExactly` says that a walk over the text of a value passes
 * and consumes it exactly where it fits, and is then shown what `SeenOf` says.
 */
module Shapes {
  import opened Options
  import opened Octets
  import opened Numbers
  import opened Grammar
  import opened Scanner
  import opened Reader
  import opened ScannerProofs
  import opened Unambiguity
  import opened Automaton
  import opened Streams
  import opened Walks
  import Values

  /** Every number. */
  function Any(): Octets -> bool {
    _ => true
  }

  predicate IsContainer(t: Tree, open: octet) {
    (t.Empty? || t.Full?) && t.open == open
  }

  /** Whether a walk that reads the whole of a value then says that it walks no further. */
  predicate Leaves(w: Walk) {
    match w
    case Leave(_) => true
    case Peek(first) => Leaves(first)
    case _ => false
  }

  /** Whether a value is one that `skip` reads. */
  ghost predicate Skips(t: Tree, builds: Octets -> bool) {
    WellFormed(t, MAX_STREAM_DEPTH, Admitted(builds))
  }

  /**
   * Whether a walk reads the whole of a value: a container by a walk of its own kind, with a walk that fits for each of
   * its elements, and what is skipped or kept within the bounds of the reader.
   */
  ghost predicate Fits(w: Walk, t: Tree, builds: Octets -> bool)
    decreases w, 0
  {
    match w
    case Skip => Skips(t, builds)
    case Keep(limit) => Skips(t, builds) && |Text(t)| <= limit
    case Peek(first) => Fits(first, t, builds)
    case Leave(first) => Fits(first, t, builds)
    case Abandon => false
    case Members(subs) => IsContainer(t, LBRACE) && (t.Full? ==> FitsElements(subs, t.elements, builds))
    case Items(subs) => IsContainer(t, LBRACKET) && (t.Full? ==> FitsElements(subs, t.elements, builds))
  }

  ghost predicate FitsElements(subs: seq<Walk>, es: Elements, builds: Octets -> bool)
    decreases subs, 1
  {
    subs != [] && Fits(subs[0], es.value, builds) && !Leaves(subs[0]) &&
    (es.More? ==> FitsElements(subs[1..], es.rest, builds))
  }

  /** The name a walk is shown of a member. */
  function ShownName(k: Key): Option<Values.Chars> {
    if k.Named? && |k.name| <= MAX_STREAM_NAME then Some(Values.StringValue(k.name)) else None
  }

  /** What a walk that fits is shown of a value. */
  function SeenOf(w: Walk, t: Tree): seq<Seen>
    decreases w, 0
  {
    match w
    case Skip => []
    case Keep(_) => [Value(Values.Value(t))]
    case Peek(first) => (if Text(t) == [] then [] else [First(Text(t)[0])]) + SeenOf(first, t)
    case Leave(first) => SeenOf(first, t)
    case Abandon => []
    case Members(subs) => if t.Full? then MembersSeen(subs, t.elements) else []
    case Items(subs) => if t.Full? then ItemsSeen(subs, t.elements, 0) else []
  }

  /** The name of each member, ahead of what its walk is shown of its value. */
  function MembersSeen(subs: seq<Walk>, es: Elements): seq<Seen>
    decreases subs, 1
  {
    if subs == [] then []
    else
      [Name(ShownName(es.key))] + SeenOf(subs[0], es.value) +
      if es.More? then MembersSeen(subs[1..], es.rest) else []
  }

  /** The index of each element, ahead of what its walk is shown of it. */
  function ItemsSeen(subs: seq<Walk>, es: Elements, i: nat): seq<Seen>
    decreases subs, 1
  {
    if subs == [] then []
    else
      [Index(i)] + SeenOf(subs[0], es.value) + if es.More? then ItemsSeen(subs[1..], es.rest, i + 1) else []
  }

  // ----- A value that is no value for the reader -----

  /** Text of the grammar that is read at a depth bound is within the bound, and its numbers are admitted. */
  lemma {:induction false} ValueWithin(
      d: Octets, p: nat, q: nat, t: Tree, depth: nat, bound: nat, builds: Octets -> bool)
    requires WellFormed(t, depth, Any()) && WsRun(d, p, q) && Occurs(d, q, Text(t))
    requires Delimited(d, q + |Text(t)|) && ScanValue(d, p, bound, builds).Ok?
    ensures WellFormed(t, bound, Admitted(builds))
    decreases t
  {
    hide Occurs, AllWs, WsRun, WsEnd, IsString, IsNumber, ScanElements, ScanString, ScanScalar, ElementsText,
      WellFormedElements, Admitted, Any;
    FirstOctet(d, q, t, depth, Any());
    WsEndUnique(d, p, q);
    match t
    case Num(text) => NumberWithin(d, q, text, builds);
    case Full(open, es) =>
      BracketsOccur(d, q, open, ElementsText(es), Closer(open));
      ElementsStart(d, q + 1, es, open, depth - 1, Any());
      ElementsWithin(d, q + 1, es, open, depth - 1, bound - 1, builds);
    case _ =>
  }

  lemma NumberWithin(d: Octets, q: nat, text: Octets, builds: Octets -> bool)
    requires IsNumber(text) && Occurs(d, q, text) && Delimited(d, q + |text|) && ScanScalar(d, q, builds).Ok?
    ensures Admitted(builds)(text)
  {
    hide IsNumber, NumberLength, LiteralLength;
    var s := d[q..];
    assert s[..|text|] == text == d[q..q + |text|];
    NumberOctets(text);
    NumberAlone(s, |text|);
    assert s[0] == text[0];
    NoLiteral(s);
  }

  lemma {:induction false} ElementsWithin(
      d: Octets, p: nat, es: Elements, open: octet, depth: nat, bound: nat, builds: Octets -> bool)
    requires IsOpener(open) && WellFormedElements(es, open, depth, Any()) && Occurs(d, p, ElementsText(es))
    requires p + |ElementsText(es)| < |d| && d[p + |ElementsText(es)|] == Closer(open)
    requires ScanElements(d, p, open, bound, builds).Ok?
    ensures WellFormedElements(es, open, bound, Admitted(builds))
    decreases es
  {
    hide Admitted, Any, WellFormed, Occurs, AllWs, WsRun, WsEnd, WellFormedKey, KeyText, Text, ElementsText, ScanKey,
      ScanValue, ScanElements;
    ElementsPieces(d, p, es);
    var q := p + |KeyText(es.key)|;
    var e := q + |Text(es.value)|;
    var v := KeyComplete(d, p, es.key, open);
    var v', q', e', t := ElementsOk(d, p, open, bound, builds);
    ElementsDelimited(d, e, es.after);
    ValueWithin(d, v, q, es.value, depth, bound, builds);
    ValueComplete(d, v, q, es.value, bound, builds);
    if es.More? {
      ElementsWithin(d, t + 1, es.rest, open, depth, bound, builds);
    }
  }

  /** Text of the grammar that is read is read as the tree it is the text of. */
  lemma TreeRead(d: Octets, p: nat, q: nat, t: Tree, bound: nat, builds: Octets -> bool)
    requires WellFormed(t, bound, Admitted(builds)) && WsRun(d, p, q) && Occurs(d, q, Text(t))
    requires Delimited(d, q + |Text(t)|)
    ensures ScanValue(d, p, bound, builds) == Ok(q + |Text(t)|) && ReadTree(d, p, bound, builds) == t
  {
    hide WellFormed, Admitted, Occurs, ScanValue, ReadTree, WsRun, Text;
    ValueComplete(d, p, q, t, bound, builds);
    ValueSound(d, p, bound, builds);
    FirstOctet(d, q, t, bound, Admitted(builds));
    WsEndUnique(d, p, q);
    TreeUnique(d, q, ReadTree(d, p, bound, builds), t, bound, Admitted(builds));
  }

  // ----- A walk of a value -----

  /** A walk that has not consumed the whole of a value: refused, inside a container, or not past where it started. */
  predicate Short(r: Walked, q: nat) {
    r.scan.No? || r.inside > 0 || (r.left && r.scan.at <= q)
  }

  lemma SkipExactly(d: Octets, p: nat, q: nat, t: Tree, depth: nat, builds: Octets -> bool)
    requires WellFormed(t, depth, Any()) && WsRun(d, p, q) && Occurs(d, q, Text(t))
    requires Delimited(d, q + |Text(t)|)
    ensures
      var s := ScanValue(d, p, MAX_STREAM_DEPTH, builds);
      if Skips(t, builds) then
        s == Ok(q + |Text(t)|) && ReadTree(d, p, MAX_STREAM_DEPTH, builds) == t && WsEnd(d, p) == q
      else s.No?
  {
    hide WellFormed, Occurs, WsRun, WsEnd, ScanValue, ReadTree, Text, Any, Admitted;
    WsForward(d, p, q);
    if Skips(t, builds) {
      TreeRead(d, p, q, t, MAX_STREAM_DEPTH, builds);
      FirstOctet(d, q, t, depth, Any());
      WsEndUnique(d, p, q);
    } else if ScanValue(d, p, MAX_STREAM_DEPTH, builds).Ok? {
      ValueWithin(d, p, q, t, depth, MAX_STREAM_DEPTH, builds);
    }
  }

  /** A walk over the text of a value: where it fits it consumes the value and sees what it is shown, and only there. */
  lemma {:induction false} WalkExactly(
      d: Octets, p: nat, q: nat, t: Tree, w: Walk, depth: nat, builds: Octets -> bool)
    requires WellFormed(t, depth, Any()) && WsRun(d, p, q) && Occurs(d, q, Text(t))
    requires Delimited(d, q + |Text(t)|)
    ensures
      var r := WalkFrom(d, p, w, builds);
      if Fits(w, t, builds) then r == Walked(Ok(q + |Text(t)|), Leaves(w), 0, SeenOf(w, t)) else Short(r, q)
    decreases w, 0
  {
    hide WellFormed, WellFormedElements, Occurs, WsRun, WsEnd, ScanValue, ScanOpen, ScanNext, Closed, ReadTree, Text,
      ElementsText, Any, Skips, MembersFrom, ItemsFrom, MembersSeen, ItemsSeen, FitsElements, Delimited;
    WsForward(d, p, q);
    match w
    case Skip => SkipExactly(d, p, q, t, depth, builds);
    case Keep(limit) => SkipExactly(d, p, q, t, depth, builds);
    case Peek(first) =>
      PeekStart(d, p, q, t, depth);
      WalkExactly(d, q, q, t, first, depth, builds);
    case Leave(first) => WalkExactly(d, p, q, t, first, depth, builds);
    case Abandon =>
    case Members(subs) =>
      ContainerExactly(d, p, q, t, LBRACE, depth);
      if IsContainer(t, LBRACE) && t.Full? {
        MembersExactly(d, q + 1, WsEnd(d, q + 1), t.elements, subs, depth - 1, builds);
      }
    case Items(subs) =>
      ContainerExactly(d, p, q, t, LBRACKET, depth);
      if IsContainer(t, LBRACKET) && t.Full? {
        ItemsExactly(d, q + 1, WsEnd(d, q + 1), t.elements, 0, subs, depth - 1, builds);
      }
  }

  lemma WsForward(d: Octets, p: nat, q: nat)
    requires WsRun(d, p, q)
    ensures p <= q <= |d|
  {
  }

  lemma PeekStart(d: Octets, p: nat, q: nat, t: Tree, depth: nat)
    requires WellFormed(t, depth, Any()) && WsRun(d, p, q) && Occurs(d, q, Text(t))
    ensures ScanNext(d, p) == Ok(q) && WsRun(d, q, q) && Text(t) != [] && d[q] == Text(t)[0]
  {
    hide WellFormed, Any, Text;
    FirstOctet(d, q, t, depth, Any());
    WsEndUnique(d, p, q);
    NonEmptyText(d, q, t, depth);
  }

  lemma NonEmptyText(d: Octets, q: nat, t: Tree, depth: nat)
    requires WellFormed(t, depth, Any()) && Occurs(d, q, Text(t))
    ensures Text(t) != []
  {
    hide ElementsText, WellFormedElements, AllWs, IsNumber, IsStringBody, Any;
    if t.Num? {
      NumberOctets(t.text);
    }
  }

  /** How a walk of one kind of container starts on a value. */
  lemma ContainerExactly(d: Octets, p: nat, q: nat, t: Tree, open: octet, depth: nat)
    requires IsOpener(open) && WellFormed(t, depth, Any()) && WsRun(d, p, q) && Occurs(d, q, Text(t))
    ensures
      var s := ScanOpen(d, p, open);
      if !IsContainer(t, open) then s.No?
      else if t.Empty? then s == Ok(q + |Text(t)|) && Closed(d, s.at, open)
      else
        depth > 0 && s == Ok(WsEnd(d, q + 1)) && !Closed(d, s.at, open) && WsRun(d, q + 1, s.at) &&
        WellFormedElements(t.elements, open, depth - 1, Any()) && Occurs(d, q + 1, ElementsText(t.elements)) &&
        var e := q + 1 + |ElementsText(t.elements)|;
        e < |d| && d[e] == Closer(open) && q + |Text(t)| == e + 1
  {
    hide Occurs, AllWs, IsString, IsNumber, ElementsText, WellFormedElements, WsEnd, Any;
    FirstOctet(d, q, t, depth, Any());
    WsEndUnique(d, p, q);
    if IsContainer(t, open) {
      if t.Empty? {
        BracketsOccur(d, q, open, t.gap, Closer(open));
        OccursWs(d, q + 1, t.gap);
        WsEndUnique(d, q + 1, q + 1 + |t.gap|);
      } else {
        BracketsOccur(d, q, open, ElementsText(t.elements), Closer(open));
        ElementsStart(d, q + 1, t.elements, open, depth - 1, Any());
        NotClosed(d, q, WsEnd(d, q + 1), open);
      }
    }
  }

  /** Past an element: past the comma or the closer that follows it. */
  lemma AfterExactly(d: Octets, e: nat, es: Elements, open: octet)
    requires IsOpener(open) && AllWs(es.after) && Occurs(d, e, es.after)
    requires e + |es.after| < |d| && d[e + |es.after|] == if es.More? then COMMA else Closer(open)
    ensures
      var t := e + |es.after|;
      ScanAfter(d, e, open) == Ok(t + 1) && (Closed(d, t + 1, open) <==> es.Last?) && Delimited(d, e)
  {
    hide Occurs, AllWs;
    ElementsDelimited(d, e, es.after);
  }

  /** The pieces of an element, from anywhere in the whitespace ahead of it. */
  lemma ElementExactly(d: Octets, p: nat, from: nat, es: Elements, open: octet, depth: nat)
    returns (v: nat, q: nat, e: nat)
    requires IsOpener(open) && WellFormedElements(es, open, depth, Any()) && Occurs(d, p, ElementsText(es))
    requires p + |ElementsText(es)| < |d| && d[p + |ElementsText(es)|] == Closer(open)
    requires WsRun(d, p, from)
    ensures WellFormed(es.value, depth, Any()) && Occurs(d, q, Text(es.value)) && e < |d| && Delimited(d, e)
    ensures p < |d| && e == q + |Text(es.value)| && ScanKey(d, p, open) == Ok(v) && WsRun(d, v, q)
    ensures open == LBRACKET ==> WsRun(d, from, q)
    ensures open == LBRACE ==> ScanMemberName(d, from) == Ok(v) && NameAt(d, from) == ShownName(es.key)
    ensures
      var t := e + |es.after|;
      ScanAfter(d, e, open) == Ok(t + 1) && (Closed(d, t + 1, open) <==> es.Last?) &&
      if es.Last? then t == p + |ElementsText(es)|
      else
        WellFormedElements(es.rest, open, depth, Any()) && Occurs(d, t + 1, ElementsText(es.rest)) &&
        t + 1 + |ElementsText(es.rest)| == p + |ElementsText(es)|
  {
    hide Occurs, AllWs, WsRun, WsEnd, WellFormed, Text, ElementsText, ScanKey, ScanMemberName, ScanString, IsString,
      ScanAfter, Closed, Any, NameAt, ShownName, Delimited;
    ElementsPieces(d, p, es);
    q := p + |KeyText(es.key)|;
    e := q + |Text(es.value)|;
    AfterExactly(d, e, es, open);
    v := KeyComplete(d, p, es.key, open);
    FirstOctet(d, q, es.value, depth, Any());
    if open == LBRACKET {
      UnnamedFrom(d, p, from, es.key, v, q);
    } else {
      NamedFrom(d, p, from, es.key, v);
    }
  }

  lemma UnnamedFrom(d: Octets, p: nat, from: nat, k: Key, v: nat, q: nat)
    requires p <= |d| && WsRun(d, p, from) && ScanKey(d, p, LBRACKET) == Ok(v) && WsRun(d, v, q)
    requires q < |d| && !IsWs(d[q])
    ensures WsRun(d, from, q)
  {
  }

  lemma NamedFrom(d: Octets, p: nat, from: nat, k: Key, v: nat)
    requires WsRun(d, p, from) && ScanKey(d, p, LBRACE) == Ok(v) && k.Named? && IsString(k.name)
    requires ScanString(d, p) == Ok(p + |k.before| + |k.name|) && Occurs(d, p + |k.before|, k.name)
    requires Occurs(d, p, k.before) && AllWs(k.before)
    ensures ScanMemberName(d, from) == Ok(v) && NameAt(d, from) == ShownName(k)
  {
    hide ScanStringRest, IsStringBody, Values.StringValue, Occurs;
    var q := WsEnd(d, p);
    WsRunThrough(d, p, from);
    NamePastWs(d, p, q);
    NamePastWs(d, from, q);
    NamePast(d, p);
    NamePast(d, from);
    NameStart(d, p, k);
    OccursLength(d, q, k.name, d[q..q + |k.name|]);
  }

  lemma NameStart(d: Octets, p: nat, k: Key)
    requires k.Named? && IsString(k.name) && AllWs(k.before)
    requires Occurs(d, p, k.before) && Occurs(d, p + |k.before|, k.name)
    ensures p <= |d| && WsEnd(d, p) == p + |k.before|
    ensures Occurs(d, p + |k.before|, d[p + |k.before|..p + |k.before| + |k.name|])
  {
    hide IsStringBody;
    var q := p + |k.before|;
    assert d[q] == d[q..q + |k.name|][0];
    OccursWs(d, p, k.before);
    WsEndUnique(d, p, q);
  }

  lemma {:induction false} MembersExactly(
      d: Octets, p: nat, from: nat, es: Elements, subs: seq<Walk>, depth: nat, builds: Octets -> bool)
    requires WellFormedElements(es, LBRACE, depth, Any()) && Occurs(d, p, ElementsText(es)) && WsRun(d, p, from)
    requires p + |ElementsText(es)| < |d| && d[p + |ElementsText(es)|] == RBRACE
    ensures
      var r := MembersFrom(d, from, subs, builds);
      if FitsElements(subs, es, builds) then
        r == Walked(Ok(p + |ElementsText(es)| + 1), false, 0, MembersSeen(subs, es))
      else r.scan.No? || r.inside > 0
    decreases subs, 1
  {
    hide WellFormed, WellFormedElements, Occurs, WsRun, Fits, SeenOf, ScanMemberName, ScanAfter, Closed, NameAt,
      ShownName, WalkFrom, Text, ElementsText, Any, Delimited, ScanKey;
    var v, q, e := ElementExactly(d, p, from, es, LBRACE, depth);
    if subs != [] {
      WalkExactly(d, v, q, es.value, subs[0], depth, builds);
      WalkLeaves(d, v, subs[0], builds);
      if Fits(subs[0], es.value, builds) && !Leaves(subs[0]) && es.More? {
        var t := e + |es.after|;
        WsRunEmpty(d, t + 1);
        MembersExactly(d, t + 1, t + 1, es.rest, subs[1..], depth, builds);
      }
    }
  }

  lemma WsRunEmpty(d: Octets, p: nat)
    requires p <= |d|
    ensures WsRun(d, p, p)
  {
  }

  lemma {:induction false} ItemsExactly(
      d: Octets, p: nat, from: nat, es: Elements, i: nat, subs: seq<Walk>, depth: nat, builds: Octets -> bool)
    requires WellFormedElements(es, LBRACKET, depth, Any()) && Occurs(d, p, ElementsText(es)) && WsRun(d, p, from)
    requires p + |ElementsText(es)| < |d| && d[p + |ElementsText(es)|] == RBRACKET
    ensures
      var r := ItemsFrom(d, from, i, subs, builds);
      if FitsElements(subs, es, builds) then
        r == Walked(Ok(p + |ElementsText(es)| + 1), false, 0, ItemsSeen(subs, es, i))
      else r.scan.No? || r.inside > 0
    decreases subs, 1
  {
    hide WellFormed, WellFormedElements, Occurs, Fits, SeenOf, ScanAfter, Closed, WalkFrom, Text, ElementsText, Any,
      Delimited, ScanKey, WsRun;
    var v, q, e := ElementExactly(d, p, from, es, LBRACKET, depth);
    WsForward(d, p, from);
    if subs != [] {
      WalkExactly(d, from, q, es.value, subs[0], depth, builds);
      WalkLeaves(d, from, subs[0], builds);
      if Fits(subs[0], es.value, builds) && !Leaves(subs[0]) && es.More? {
        var t := e + |es.after|;
        WsRunEmpty(d, t + 1);
        ItemsExactly(d, t + 1, t + 1, es.rest, i + 1, subs[1..], depth, builds);
      }
    }
  }
}
