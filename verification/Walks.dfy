/**
 * `JsonStream.members` and `JsonStream.items`, and the walks a caller makes with them.
 *
 * A walk is a script: each container is walked with one sub-walk an element, and a value may be peeked at ahead of its
 * walk. It stands for a callback that consumes every value before it asks for the next. `WalkFrom` says what a walk
 * reads and sees of a document; `RunWalk` runs it over a stream.
 */
module Walks {
  import opened Options
  import opened Octets
  import opened Numbers
  import opened Scanner
  import opened Reader
  import opened Automaton
  import opened ScannerProofs
  import opened Overlong
  import opened Streams
  import Values

  datatype Walk =
    | Skip
    | Keep(limit: nat)
    | Members(subs: seq<Walk>)
    | Items(subs: seq<Walk>)
      /** Look at the first octet of the value, then do `first` with it. */
    | Peek(first: Walk)
      /** Walk no further once `first` is done. */
    | Leave(first: Walk)
      /** Walk no further. */
    | Abandon

  /** What a walk is shown of a document. */
  datatype Seen =
    | Name(name: Option<Values.Chars>)
    | Index(i: nat)
    | Value(value: Values.Json)
    | First(octet: octet)

  /** Where a walk stops, whether it was left early, how many containers it left open, and what it saw. */
  datatype Walked = Walked(scan: Scan, left: bool, inside: nat, seen: seq<Seen>)

  /** The walk `w` at `p`. */
  function WalkFrom(d: Octets, p: nat, w: Walk, builds: Octets -> bool): (r: Walked)
    requires p <= |d|
    ensures p <= r.scan.at <= |d|
    decreases w, 0, |d| - p
  {
    match w
    case Skip => Walked(ScanValue(d, p, MAX_STREAM_DEPTH, builds), false, 0, [])
    case Keep(limit) =>
      var s := ScanKept(d, p, limit, builds);
      Walked(s, false, 0, if s.Ok? then [Value(Values.Value(ReadTree(d, p, MAX_STREAM_DEPTH, builds)))] else [])
    case Peek(first) =>
      var q := ScanNext(d, p);
      if q.No? then Walked(q, false, 0, [])
      else
        var r := WalkFrom(d, q.at, first, builds);
        r.(seen := [First(d[q.at])] + r.seen)
    case Leave(first) => WalkFrom(d, p, first, builds).(left := true)
    case Abandon => Walked(Ok(p), true, 0, [])
    case Members(subs) =>
      var q := ScanOpen(d, p, LBRACE);
      if q.No? || Closed(d, q.at, LBRACE) then Walked(q, false, 0, [])
      else MembersFrom(d, q.at, subs, builds)
    case Items(subs) =>
      var q := ScanOpen(d, p, LBRACKET);
      if q.No? || Closed(d, q.at, LBRACKET) then Walked(q, false, 0, [])
      else ItemsFrom(d, q.at, 0, subs, builds)
  }

  /** Whether what was just consumed is the closer of a container that `open` opens. */
  predicate Closed(d: Octets, at: nat, open: octet)
    requires at <= |d|
  {
    at > 0 && d[at - 1] == Closer(open)
  }

  /** Into a container: to its first element, or past its closer where it has none. */
  function ScanOpen(d: Octets, p: nat, open: octet): (s: Scan)
    requires p <= |d|
    ensures p <= s.at <= |d| && s != No(s.at, NumberTooLong)
    ensures s.Ok? ==> p < s.at
  {
    var q :- ScanExpect(d, p, open);
    var r :- ScanNext(d, q);
    if d[r] == Closer(open) then Ok(r + 1) else Ok(r)
  }

  /** Past an element just consumed: past the comma after it, or past the closer. */
  function ScanAfter(d: Octets, p: nat, open: octet): (s: Scan)
    requires p <= |d|
    ensures p <= s.at <= |d| && s != No(s.at, NumberTooLong)
    ensures s.Ok? ==> p < s.at && (d[s.at - 1] == COMMA || d[s.at - 1] == Closer(open))
  {
    var t :- ScanNext(d, p);
    if d[t] == COMMA || d[t] == Closer(open) then Ok(t + 1) else No(t + 1, Misplaced(COMMA, t))
  }

  /** An object from ahead of a member, the walk being inside it. */
  function MembersFrom(d: Octets, p: nat, subs: seq<Walk>, builds: Octets -> bool): (r: Walked)
    requires p <= |d|
    ensures p <= r.scan.at <= |d|
    decreases subs, 1, |d| - p
  {
    var v := ScanMemberName(d, p);
    var name := Name(NameAt(d, p));
    if v.No? then Walked(v, false, 1, [])
    else if subs == [] then Walked(v, true, 1, [name])
    else
      var r := WalkFrom(d, v.at, subs[0], builds);
      if r.scan.No? || r.left then r.(inside := r.inside + 1, seen := [name] + r.seen)
      else
        var t := ScanAfter(d, r.scan.at, LBRACE);
        if t.No? || Closed(d, t.at, LBRACE) then Walked(t, false, if t.No? then 1 else 0, [name] + r.seen)
        else
          var rest := MembersFrom(d, t.at, subs[1..], builds);
          rest.(seen := [name] + r.seen + rest.seen)
  }

  /** An array from ahead of its element `i`, the walk being inside it. */
  function ItemsFrom(d: Octets, p: nat, i: nat, subs: seq<Walk>, builds: Octets -> bool): (r: Walked)
    requires p <= |d|
    ensures p <= r.scan.at <= |d|
    decreases subs, 1, |d| - p
  {
    if subs == [] then Walked(Ok(p), true, 1, [Index(i)])
    else
      var r := WalkFrom(d, p, subs[0], builds);
      if r.scan.No? || r.left then r.(inside := r.inside + 1, seen := [Index(i)] + r.seen)
      else
        var t := ScanAfter(d, r.scan.at, LBRACKET);
        if t.No? || Closed(d, t.at, LBRACKET) then Walked(t, false, if t.No? then 1 else 0, [Index(i)] + r.seen)
        else
          var rest := ItemsFrom(d, t.at, i + 1, subs[1..], builds);
          rest.(seen := [Index(i)] + r.seen + rest.seen)
  }

  /** Past what separates a walk inside a container, or about to enter it, from the next element. */
  function ScanTo(d: Octets, p: nat, open: octet, begun: bool): (s: Scan)
    requires p <= |d|
    ensures p <= s.at <= |d| && s != No(s.at, NumberTooLong)
    ensures s.Ok? ==> p < s.at
  {
    if begun then ScanAfter(d, p, open) else ScanOpen(d, p, open)
  }

  /** How a step of a generator moves the count of containers entered and not left. */
  function Entering(begun: bool, more: bool): int {
    if more && !begun then 1 else if !more && begun then -1 else 0
  }

  /** One step of `members`: to the next member, and past its name and colon. */
  function MemberStep(d: Octets, p: nat, begun: bool): (s: Scan)
    requires p <= |d|
    ensures p <= s.at <= |d| && s != No(s.at, NumberTooLong)
    ensures s.Ok? ==> p < s.at
  {
    var a :- ScanTo(d, p, LBRACE, begun);
    if Closed(d, a, LBRACE) then Ok(a) else ScanMemberName(d, a)
  }

  /** The name that step answers, `None` where the object ends. */
  function MemberStepName(d: Octets, p: nat, begun: bool): Option<Option<Values.Chars>>
    requires p <= |d|
  {
    var a := ScanTo(d, p, LBRACE, begun).at;
    if Closed(d, a, LBRACE) then None else Some(NameAt(d, a))
  }

  /** To the next element of a container, counting the container in and out. */
  method NextElement(stream: JsonStream, opener: octet, begun: bool) returns (more: bool, out: Outcome)
    requires stream.Ready() && IsOpener(opener)
    modifies stream, stream.source
    ensures !out.Stops() ==> stream.Ready()
    ensures stream.Matches(ScanTo(stream.doc, old(stream.At()), opener, begun), out)
    ensures out.Pass? ==>
              more == !Closed(stream.doc, stream.At(), opener) &&
              stream.open == old(stream.open) + Entering(begun, more)
  {
    if begun {
      more, out := LeaveElement(stream, opener);
    } else {
      more, out := EnterContainer(stream, opener);
    }
  }

  lemma OpenParts(d: Octets, p: nat, open: octet)
    requires p <= |d| && IsOpener(open)
    ensures
      var e, s := ScanExpect(d, p, open), ScanOpen(d, p, open);
      Continues(e, s) && e != No(e.at, NumberTooLong) &&
      (e.Ok? ==>
         e.at <= |d| &&
         var r := ScanNext(d, e.at);
         Continues(r, s) && r != No(r.at, NumberTooLong) &&
         (r.Ok? ==>
            r.at < |d| && s.Ok? &&
            if d[r.at] == Closer(open) then s.at == r.at + 1 && Closed(d, s.at, open)
            else s.at == r.at && !Closed(d, s.at, open)))
  {
    if ScanOpen(d, p, open).Ok? {
      var o := WsEnd(d, p);
      NotClosed(d, o, WsEnd(d, o + 1), open);
    }
  }

  /** Consume the opener of a container, and its closer too where it is empty. */
  method EnterContainer(stream: JsonStream, opener: octet) returns (more: bool, out: Outcome)
    requires stream.Ready() && IsOpener(opener)
    modifies stream, stream.source
    ensures !out.Stops() ==> stream.Ready()
    ensures stream.Matches(ScanOpen(stream.doc, old(stream.At()), opener), out)
    ensures out.Pass? ==>
              more == !Closed(stream.doc, stream.At(), opener) &&
              stream.open == old(stream.open) + Entering(false, more)
  {
    hide stream.Faithful, ScanExpect, ScanNext, ScanOpen, Closed, WsEnd, RefusedAs, Reach, CutEnd, CanCut;
    more := false;
    OpenParts(stream.doc, stream.At(), opener);
    out := stream.Expect(opener);
    if out.Fail? {
      return more, out;
    }
    var octet;
    octet, out := stream.NextOctet();
    if out.Fail? {
      return more, out;
    }
    if octet == Closer(opener) {
      out := stream.Advance(1);
      return more, out;
    }
    more := true;
    stream.open := stream.open + 1;
  }

  /** Consume the comma after an element, or the closer of its container. */
  method LeaveElement(stream: JsonStream, opener: octet) returns (more: bool, out: Outcome)
    requires stream.Ready() && IsOpener(opener)
    modifies stream, stream.source
    ensures !out.Stops() ==> stream.Ready()
    ensures stream.Matches(ScanAfter(stream.doc, old(stream.At()), opener), out)
    ensures out.Pass? ==>
              more == !Closed(stream.doc, stream.At(), opener) && stream.open == old(stream.open) + Entering(true, more)
  {
    hide stream.Faithful;
    more := false;
    var octet;
    octet, out := stream.NextOctet();
    if out.Fail? {
      return more, out;
    }
    out := stream.Advance(1);
    if out.Fail? {
      return more, out;
    }
    if octet == Closer(opener) {
      stream.open := stream.open - 1;
    } else if octet != COMMA {
      out := Fail(Misplaced(COMMA, stream.offset + stream.pos - 1));
    } else {
      more := true;
    }
  }

  /** `JsonStream.members` as an object: `Next` runs the generator to its next yield, or to its end. */
  class MembersGenerator {
    const stream: JsonStream
    var begun: bool

    constructor (stream: JsonStream)
      ensures this.stream == stream && !begun
    {
      this.stream := stream;
      begun := false;
    }

    /** The next name, or nothing once the object has ended. */
    method Next() returns (name: Option<Option<Values.Chars>>, out: Outcome)
      requires stream.Ready()
      modifies this, stream, stream.source
      ensures !out.Stops() ==> stream.Ready()
      ensures stream.Matches(MemberStep(stream.doc, old(stream.At()), old(begun)), out)
      ensures begun
      ensures out.Pass? ==>
                name == MemberStepName(stream.doc, old(stream.At()), old(begun)) &&
                stream.open == old(stream.open) + Entering(old(begun), name.Some?)
    {
      hide stream.Faithful, ScanTo, ScanString, ScanExpect, NameAt;
      name := None;
      var more;
      more, out := NextElement(stream, LBRACE, begun);
      begun := true;
      if out.Fail? || !more {
        return name, out;
      }
      var text;
      text, out := stream.Name();
      if out.Fail? {
        return name, out;
      }
      out := stream.Expect(COLON);
      name := Some(text);
    }
  }

  /** `JsonStream.items` as an object: `Next` runs the generator to its next yield, or to its end. */
  class ItemsGenerator {
    const stream: JsonStream
    var begun: bool
    var index: nat

    constructor (stream: JsonStream)
      ensures this.stream == stream && !begun && index == 0
    {
      this.stream := stream;
      begun, index := false, 0;
    }

    /** The next index, or nothing once the array has ended. */
    method Next() returns (next: Option<nat>, out: Outcome)
      requires stream.Ready()
      modifies this, stream, stream.source
      ensures !out.Stops() ==> stream.Ready()
      ensures stream.Matches(ScanTo(stream.doc, old(stream.At()), LBRACKET, old(begun)), out)
      ensures begun && index == old(index) + if out.Pass? && next.Some? then 1 else 0
      ensures out.Pass? ==>
                next == (if Closed(stream.doc, stream.At(), LBRACKET) then None else Some(old(index))) &&
                stream.open == old(stream.open) + Entering(old(begun), next.Some?)
    {
      hide stream.Faithful, ScanTo;
      next := None;
      var more;
      more, out := NextElement(stream, LBRACKET, begun);
      begun := true;
      if out.Pass? && more {
        next := Some(index);
        index := index + 1;
      }
    }
  }

  /** A number that was cut is followed by nothing a walk can step past: it is refused where a comma is due. */
  lemma DanglingStays(d: Octets, p: nat)
    requires p <= |d| && Dangling(d[p..])
    ensures
      var refused := No(p + 1, Misplaced(COMMA, p));
      ScanAfter(d, p, LBRACE) == ScanAfter(d, p, LBRACKET) == MemberStep(d, p, true) == refused
  {
    assert d[p] == d[p..][0];
    assert WsEnd(d, p) == p;
  }

  /** Run the walk `w` over a stream. */
  method RunWalk(stream: JsonStream, w: Walk) returns (left: bool, seen: seq<Seen>, out: Outcome)
    requires stream.Ready()
    modifies stream, stream.source
    ensures !out.Stops() ==> stream.Ready()
    ensures
      var r := WalkFrom(stream.doc, old(stream.At()), w, stream.builds);
      stream.Matches(r.scan, out) &&
      (out.Pass? && r.scan.Ok? ==> left == r.left && seen == r.seen && stream.open == old(stream.open) + r.inside)
    decreases w, 0, 0
  {
    hide stream.Faithful, ScanValue, ScanKept, ReadTree;
    left, seen := false, [];
    match w
    case Skip =>
      out := stream.Skip();
    case Keep(limit) =>
      var value;
      value, out := stream.Value(limit);
      seen := [Value(value)];
    case Peek(first) =>
      var octet;
      octet, out := stream.Peek();
      if out.Fail? {
        return left, seen, out;
      }
      left, seen, out := RunWalk(stream, first);
      seen := [First(octet)] + seen;
    case Leave(first) =>
      left, seen, out := RunWalk(stream, first);
      left := true;
    case Abandon =>
      left, out := true, Pass;
    case Members(subs) =>
      var g := new MembersGenerator(stream);
      left, seen, out := RunMembers(g, subs);
    case Items(subs) =>
      var g := new ItemsGenerator(stream);
      left, seen, out := RunItems(g, subs);
  }

  /** What a walk of the members sees from one step of the generator on. */
  function MembersRest(d: Octets, p: nat, begun: bool, subs: seq<Walk>, builds: Octets -> bool): Walked
    requires p <= |d|
  {
    var a := ScanTo(d, p, LBRACE, begun);
    if a.No? || Closed(d, a.at, LBRACE) then Walked(a, false, 0, []) else MembersFrom(d, a.at, subs, builds)
  }

  lemma WalkLeaves(d: Octets, p: nat, w: Walk, builds: Octets -> bool)
    requires p <= |d|
    ensures
      var r := WalkFrom(d, p, w, builds);
      r.scan.Ok? && !r.left ==> r.inside == 0
  {
    hide WalkFrom, WholeValue;
    if WalkFrom(d, p, w, builds).scan.Ok? {
      WalkIsGrammar(d, p, w, builds);
    }
  }

  lemma MembersTurn(d: Octets, p: nat, begun: bool, subs: seq<Walk>, builds: Octets -> bool)
    requires p <= |d|
    ensures
      var whole := MembersRest(d, p, begun, subs, builds);
      var step := MemberStep(d, p, begun);
      var name := MemberStepName(d, p, begun);
      if step.No? then whole.scan == step
      else if name.None? then whole == Walked(step, false, 0, [])
      else if subs == [] then whole == Walked(step, true, 1, [Name(name.value)])
      else
        var r := WalkFrom(d, step.at, subs[0], builds);
        var seen := [Name(name.value)] + r.seen;
        if r.scan.No? || r.left then whole == Walked(r.scan, r.left, r.inside + 1, seen)
        else
          var rest := MembersRest(d, r.scan.at, true, subs[1..], builds);
          whole.scan == rest.scan && (rest.scan.Ok? ==> whole == rest.(seen := seen + rest.seen))
  {
    hide ScanOpen, ScanAfter, ScanMemberName, NameAt, WalkFrom;
  }

  method RunMembers(g: MembersGenerator, subs: seq<Walk>) returns (left: bool, seen: seq<Seen>, out: Outcome)
    requires g.stream.Ready()
    modifies g, g.stream, g.stream.source
    ensures !out.Stops() ==> g.stream.Ready()
    ensures
      var stream := g.stream;
      var r := MembersRest(stream.doc, old(stream.At()), old(g.begun), subs, stream.builds);
      stream.Matches(r.scan, out) &&
      (out.Pass? && r.scan.Ok? ==>
         left == r.left && seen == r.seen &&
         stream.open == old(stream.open) + r.inside - if old(g.begun) then 1 else 0)
    decreases subs, 1, 0
  {
    hide g.stream.Faithful, MembersRest, MemberStep, MemberStepName, WalkFrom, CutEnd, CanCut, Dangling;
    left, seen := false, [];
    MembersTurn(g.stream.doc, g.stream.At(), g.begun, subs, g.stream.builds);
    var name;
    name, out := g.Next();
    if out.Fail? || name.None? {
      return left, seen, out;
    }
    seen := [Name(name.value)];
    if subs == [] {
      return true, seen, out;
    }
    ghost var r := WalkFrom(g.stream.doc, g.stream.At(), subs[0], g.stream.builds);
    WalkLeaves(g.stream.doc, g.stream.At(), subs[0], g.stream.builds);
    var more;
    left, more, out := RunWalk(g.stream, subs[0]);
    seen := seen + more;
    if out.Fail? || left {
      return left, seen, out;
    }
    g.stream.CutBehindIf(r.scan);
    MembersDangling(g.stream.doc, g.stream.At(), subs[1..], g.stream.builds);
    left, more, out := RunMembers(g, subs[1..]);
    seen := seen + more;
  }

  lemma MembersDangling(d: Octets, p: nat, subs: seq<Walk>, builds: Octets -> bool)
    requires p <= |d|
    ensures
      Dangling(d[p..]) ==> MembersRest(d, p, true, subs, builds).scan == No(p + 1, Misplaced(COMMA, p))
  {
    hide MembersFrom;
    if Dangling(d[p..]) {
      DanglingStays(d, p);
    }
  }

  /** What a walk of the items sees from one step of the generator on. */
  function ItemsRest(d: Octets, p: nat, i: nat, begun: bool, subs: seq<Walk>, builds: Octets -> bool): Walked
    requires p <= |d|
  {
    var a := ScanTo(d, p, LBRACKET, begun);
    if a.No? || Closed(d, a.at, LBRACKET) then Walked(a, false, 0, []) else ItemsFrom(d, a.at, i, subs, builds)
  }

  lemma ItemsTurn(d: Octets, p: nat, i: nat, begun: bool, subs: seq<Walk>, builds: Octets -> bool)
    requires p <= |d|
    ensures
      var whole := ItemsRest(d, p, i, begun, subs, builds);
      var step := ScanTo(d, p, LBRACKET, begun);
      if step.No? then whole.scan == step
      else if Closed(d, step.at, LBRACKET) then whole == Walked(step, false, 0, [])
      else if subs == [] then whole == Walked(step, true, 1, [Index(i)])
      else
        var r := WalkFrom(d, step.at, subs[0], builds);
        var seen := [Index(i)] + r.seen;
        if r.scan.No? || r.left then whole == Walked(r.scan, r.left, r.inside + 1, seen)
        else
          var rest := ItemsRest(d, r.scan.at, i + 1, true, subs[1..], builds);
          whole.scan == rest.scan && (rest.scan.Ok? ==> whole == rest.(seen := seen + rest.seen))
  {
    hide ScanOpen, ScanAfter, WalkFrom;
  }

  method RunItems(g: ItemsGenerator, subs: seq<Walk>) returns (left: bool, seen: seq<Seen>, out: Outcome)
    requires g.stream.Ready()
    modifies g, g.stream, g.stream.source
    ensures !out.Stops() ==> g.stream.Ready()
    ensures
      var stream := g.stream;
      var r := ItemsRest(stream.doc, old(stream.At()), old(g.index), old(g.begun), subs, stream.builds);
      stream.Matches(r.scan, out) &&
      (out.Pass? && r.scan.Ok? ==>
         left == r.left && seen == r.seen &&
         stream.open == old(stream.open) + r.inside - if old(g.begun) then 1 else 0)
    decreases subs, 1, 0
  {
    hide g.stream.Faithful, ItemsRest, ScanTo, WalkFrom, CutEnd, CanCut, Dangling;
    left, seen := false, [];
    ItemsTurn(g.stream.doc, g.stream.At(), g.index, g.begun, subs, g.stream.builds);
    var next;
    next, out := g.Next();
    if out.Fail? || next.None? {
      return left, seen, out;
    }
    seen := [Index(next.value)];
    if subs == [] {
      return true, seen, out;
    }
    ghost var r := WalkFrom(g.stream.doc, g.stream.At(), subs[0], g.stream.builds);
    WalkLeaves(g.stream.doc, g.stream.At(), subs[0], g.stream.builds);
    var more;
    left, more, out := RunWalk(g.stream, subs[0]);
    seen := seen + more;
    if out.Fail? || left {
      return left, seen, out;
    }
    g.stream.CutBehindIf(r.scan);
    ItemsDangling(g.stream.doc, g.stream.At(), g.index, subs[1..], g.stream.builds);
    left, more, out := RunItems(g, subs[1..]);
    seen := seen + more;
  }

  lemma ItemsDangling(d: Octets, p: nat, i: nat, subs: seq<Walk>, builds: Octets -> bool)
    requires p <= |d|
    ensures
      Dangling(d[p..]) ==> ItemsRest(d, p, i, true, subs, builds).scan == No(p + 1, Misplaced(COMMA, p))
  {
    hide ItemsFrom;
    if Dangling(d[p..]) {
      DanglingStays(d, p);
    }
  }

  // ----- What a walk that is done has consumed -----

  /** Whether what opens at `q` is a container with something in it. */
  predicate Fills(d: Octets, q: nat)
    requires q <= |d|
  {
    q < |d| && IsOpener(d[q]) && WsEnd(d, q + 1) < |d| && d[WsEnd(d, q + 1)] != Closer(d[q])
  }

  /** Where the depth bound comes into the reading of a value. */
  lemma ValueTurn(d: Octets, p: nat, depth: nat, builds: Octets -> bool)
    requires p <= |d|
    ensures
      var q, s := WsEnd(d, p), ScanValue(d, p, depth, builds);
      if q == |d| then s == No(q, CutShort)
      else if !IsOpener(d[q]) then s == if d[q] == QUOTE then ScanString(d, q) else ScanScalar(d, q, builds)
      else if depth == 0 then s == No(q, TooDeep)
      else if Fills(d, q) then s == ScanElements(d, q + 1, d[q], depth - 1, builds)
      else
        var r := WsEnd(d, q + 1);
        s == if r == |d| then No(r, CutShort) else Ok(r + 1)
  {
    hide ScanString, ScanScalar, ScanElements;
  }

  /** A value is nested no deeper than it is long, so a depth bound that long admits all that any bound admits. */
  lemma {:induction false} DepthEnough(d: Octets, p: nat, b: nat, c: nat, builds: Octets -> bool)
    requires p <= |d| && ScanValue(d, p, b, builds).Ok?
    requires c >= ScanValue(d, p, b, builds).at - p
    ensures ScanValue(d, p, c, builds) == ScanValue(d, p, b, builds)
    decreases |d| - p, 0
  {
    hide ScanValue, ScanString, ScanScalar, ScanElements, WsEnd;
    ValueTurn(d, p, b, builds);
    ValueTurn(d, p, c, builds);
    var q := WsEnd(d, p);
    if Fills(d, q) {
      DepthEnoughElements(d, q + 1, d[q], b - 1, c - 1, builds);
    }
  }

  lemma {:induction false} DepthEnoughElements(
      d: Octets, p: nat, open: octet, b: nat, c: nat, builds: Octets -> bool)
    requires p <= |d| && ScanElements(d, p, open, b, builds).Ok?
    requires c >= ScanElements(d, p, open, b, builds).at - p - 1
    ensures ScanElements(d, p, open, c, builds) == ScanElements(d, p, open, b, builds)
    decreases |d| - p, 1
  {
    hide ScanKey, ScanValue, ScanElements, WsEnd, WsRun;
    var v, q, e, t := ElementsOk(d, p, open, b, builds);
    DepthEnough(d, v, b, c, builds);
    ElementsAre(d, p, open, c, builds, v, e);
    if d[t] != Closer(open) {
      DepthEnoughElements(d, t + 1, open, b, c, builds);
    }
  }

  /** A smaller depth bound changes nothing of a value that is read but that it may be refused as too deep. */
  lemma {:induction false} DepthOnly(d: Octets, p: nat, b: nat, c: nat, builds: Octets -> bool)
    requires p <= |d| && b <= c && ScanValue(d, p, c, builds).Ok?
    ensures
      var s := ScanValue(d, p, b, builds);
      s == ScanValue(d, p, c, builds) || (s.No? && s.why == TooDeep)
    decreases |d| - p, 0
  {
    hide ScanValue, ScanString, ScanScalar, ScanElements, WsEnd;
    ValueTurn(d, p, b, builds);
    ValueTurn(d, p, c, builds);
    var q := WsEnd(d, p);
    if b > 0 && Fills(d, q) {
      DepthOnlyElements(d, q + 1, d[q], b - 1, c - 1, builds);
    }
  }

  lemma {:induction false} DepthOnlyElements(
      d: Octets, p: nat, open: octet, b: nat, c: nat, builds: Octets -> bool)
    requires p <= |d| && b <= c && ScanElements(d, p, open, c, builds).Ok?
    ensures
      var s := ScanElements(d, p, open, b, builds);
      s == ScanElements(d, p, open, c, builds) || (s.No? && s.why == TooDeep)
    decreases |d| - p, 1
  {
    hide ScanKey, ScanValue, ScanElements, WsEnd, WsRun;
    var v, q, e, t := ElementsOk(d, p, open, c, builds);
    DepthOnly(d, v, b, c, builds);
    if ScanValue(d, v, b, builds).No? {
      ElementsStop(d, p, open, b, builds, v);
    } else {
      ElementsAre(d, p, open, b, builds, v, e);
      if d[t] != Closer(open) {
        DepthOnlyElements(d, t + 1, open, b, c, builds);
      }
    }
  }

  lemma ElementsStop(d: Octets, p: nat, open: octet, depth: nat, builds: Octets -> bool, v: nat)
    requires p <= v <= |d| && ScanKey(d, p, open) == Ok(v) && ScanValue(d, v, depth, builds).No?
    ensures ScanElements(d, p, open, depth, builds) == ScanValue(d, v, depth, builds)
  {
    hide ScanKey, ScanValue;
  }

  /** The value at `p` by the grammar, however deep. */
  function WholeValue(d: Octets, p: nat, builds: Octets -> bool): Scan
    requires p <= |d|
  {
    ScanValue(d, p, |d|, builds)
  }

  /**
   * A walk that is not left early, over whatever nest of members and items, ends where the grammar ends the value and
   * has left every container it entered. One that is left early is inside a container, or has consumed nothing but
   * whitespace, or has consumed the value whole.
   */
  lemma {:induction false} WalkIsGrammar(d: Octets, p: nat, w: Walk, builds: Octets -> bool)
    requires p <= |d| && WalkFrom(d, p, w, builds).scan.Ok?
    ensures
      var r := WalkFrom(d, p, w, builds);
      (!r.left ==> r.inside == 0 && WholeValue(d, p, builds) == r.scan) &&
      (r.left && r.inside == 0 ==> WholeValue(d, p, builds) == r.scan || r.scan.at <= WsEnd(d, p))
    decreases w, 0, |d| - p
  {
    hide ScanElements, ScanScalar, ScanString, ScanMemberName, ReadTree, MembersFrom, ItemsFrom;
    match w
    case Skip =>
      DepthEnough(d, p, MAX_STREAM_DEPTH, |d|, builds);
    case Keep(limit) =>
      DepthEnough(d, p, MAX_STREAM_DEPTH, |d|, builds);
    case Peek(first) =>
      var q := WsEnd(d, p);
      WalkIsGrammar(d, q, first, builds);
      ValuePastWs(d, p, q, |d|, builds);
      WsEndUnique(d, q, q);
    case Leave(first) =>
      WalkIsGrammar(d, p, first, builds);
    case Abandon =>
    case Members(subs) =>
      OpenIsGrammar(d, p, LBRACE, builds);
      var q := ScanOpen(d, p, LBRACE);
      if !Closed(d, q.at, LBRACE) {
        MembersAreGrammar(d, q.at, subs, builds);
      }
    case Items(subs) =>
      OpenIsGrammar(d, p, LBRACKET, builds);
      var q := ScanOpen(d, p, LBRACKET);
      if !Closed(d, q.at, LBRACKET) {
        ItemsAreGrammar(d, q.at, 0, subs, builds);
      }
  }

  /** A walk that is not left early ends where one `skip` ends, unless the value is too deep for `skip`. */
  lemma WalkIsSkip(d: Octets, p: nat, w: Walk, builds: Octets -> bool)
    requires p <= |d| && WalkFrom(d, p, w, builds).scan.Ok? && !WalkFrom(d, p, w, builds).left
    ensures
      var s := ScanValue(d, p, MAX_STREAM_DEPTH, builds);
      s == WalkFrom(d, p, w, builds).scan || (s.No? && s.why == TooDeep)
  {
    hide WalkFrom, ScanValue;
    WalkIsGrammar(d, p, w, builds);
    if |d| < MAX_STREAM_DEPTH {
      DepthEnough(d, p, |d|, MAX_STREAM_DEPTH, builds);
    } else {
      DepthOnly(d, p, MAX_STREAM_DEPTH, |d|, builds);
    }
  }

  lemma ElementsPastWs(d: Octets, p: nat, open: octet, depth: nat, builds: Octets -> bool)
    requires p <= |d|
    ensures ScanElements(d, WsEnd(d, p), open, depth, builds) == ScanElements(d, p, open, depth, builds)
  {
    hide ScanMemberName, ScanValue;
    var q := WsEnd(d, p);
    ValuePastWs(d, p, q, depth, builds);
    NamePastWs(d, p, q);
  }

  lemma OpenIsGrammar(d: Octets, p: nat, open: octet, builds: Octets -> bool)
    requires p <= |d| && IsOpener(open) && ScanOpen(d, p, open).Ok?
    ensures
      var q := ScanOpen(d, p, open).at;
      if Closed(d, q, open) then WholeValue(d, p, builds) == Ok(q)
      else
        var s := ScanElements(d, q, open, |d|, builds);
        s.Ok? ==> WholeValue(d, p, builds) == s
  {
    hide ScanElements, ScanString, ScanScalar;
    var o := WsEnd(d, p);
    var q := WsEnd(d, o + 1);
    if d[q] != Closer(open) {
      assert !Closed(d, q, open) by {
        NotClosed(d, o, q, open);
      }
      ElementsPastWs(d, o + 1, open, |d|, builds);
      if ScanElements(d, o + 1, open, |d|, builds).Ok? {
        DepthEnoughElements(d, o + 1, open, |d|, |d| - 1, builds);
      }
    }
  }

  /** Between an opener and what follows it there is nothing but whitespace. */
  lemma NotClosed(d: Octets, o: nat, q: nat, open: octet)
    requires o < |d| && IsOpener(open) && d[o] == open && WsRun(d, o + 1, q)
    ensures !Closed(d, q, open)
  {
  }

  lemma {:induction false} MembersAreGrammar(d: Octets, p: nat, subs: seq<Walk>, builds: Octets -> bool)
    requires p <= |d| && MembersFrom(d, p, subs, builds).scan.Ok?
    ensures
      var r := MembersFrom(d, p, subs, builds);
      if r.left then r.inside > 0
      else r.inside == 0 && ScanElements(d, p, LBRACE, |d|, builds) == r.scan
    decreases subs, 1, |d| - p
  {
    hide ScanMemberName, ScanValue, WalkFrom, WsEnd, NameAt;
    if subs != [] {
      var v := ScanMemberName(d, p);
      WalkIsGrammar(d, v.at, subs[0], builds);
      var r := WalkFrom(d, v.at, subs[0], builds);
      if !r.left {
        var t := ScanAfter(d, r.scan.at, LBRACE);
        if !Closed(d, t.at, LBRACE) {
          MembersAreGrammar(d, t.at, subs[1..], builds);
        }
      }
    }
  }

  lemma {:induction false} ItemsAreGrammar(d: Octets, p: nat, i: nat, subs: seq<Walk>, builds: Octets -> bool)
    requires p <= |d| && ItemsFrom(d, p, i, subs, builds).scan.Ok?
    ensures
      var r := ItemsFrom(d, p, i, subs, builds);
      if r.left then r.inside > 0
      else r.inside == 0 && ScanElements(d, p, LBRACKET, |d|, builds) == r.scan
    decreases subs, 1, |d| - p
  {
    hide ScanValue, WalkFrom, WsEnd;
    if subs != [] {
      WalkIsGrammar(d, p, subs[0], builds);
      var r := WalkFrom(d, p, subs[0], builds);
      if !r.left {
        var t := ScanAfter(d, r.scan.at, LBRACKET);
        if !Closed(d, t.at, LBRACKET) {
          ItemsAreGrammar(d, t.at, i + 1, subs[1..], builds);
        }
      }
    }
  }
}
