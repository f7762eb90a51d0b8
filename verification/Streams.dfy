/**
 * `JsonStream`: one JSON document read as it arrives, over a sliding buffer.
 *
 * Each method is proved against a scan of `Scanner` on the whole document from the position the stream has reached,
 * whatever the chunks. `Agrees` is the relation; it is exact except for three things. A read that raises is raised at
 * once, octets that are not UTF-8 may be refused early, and a number past `MAX_STREAM_NUMBER` may be cut where the
 * buffer ends, which leaves a `.`, an `e` or an `E` that no later step accepts.
 */
module Streams {
  import opened Options
  import opened Octets
  import opened Numbers
  import opened Scanner
  import opened Automaton
  import opened Overlong
  import opened Utf8
  import opened Reader
  import Values
  import opened Grammar
  import opened ScannerProofs
  import opened Unambiguity

  const READ_CHUNK: nat := 64 * 1024

  /** What a step of the stream answers: nothing, or the refusal it raises. */
  datatype Outcome =
    | Pass
    | Fail(why: Refusal)
  {
    predicate IsFailure() {
      Fail?
    }

    /** A refusal to read, after which the stream has nothing more to give. */
    predicate Stops() {
      this == Fail(NotUtf8) || this == Fail(ReadRaised)
    }

    function PropagateFailure(): Outcome
      requires Fail?
    {
      this
    }
  }

  /** Where the octets come from: each read answers as many as it likes, and none only at the end, or raises. */
  class Source {
    var unread: Octets
    /** Whether a read has raised. */
    ghost var raised: bool

    constructor (d: Octets)
      ensures unread == d && !raised
    {
      unread, raised := d, false;
    }

    method Read(n: nat) returns (chunk: Octets, raises: bool)
      modifies this
      ensures raised == (old(raised) || raises)
      ensures |chunk| <= n
      ensures chunk + unread == old(unread)
      ensures !raises ==> (chunk == [] <==> n == 0 || old(unread) == [])
      ensures raises ==> chunk == []
    {
      raises := *;
      raised := raised || raises;
      if raises || n == 0 || unread == [] {
        return [], raises;
      }
      var size: nat :| 0 < size <= n && size <= |unread|;
      chunk := unread[..size];
      unread := unread[size..];
    }
  }

  /** The buffer, which starts at `offset` of the document, and what is still unread behind it. */
  predicate Held(d: Octets, offset: nat, buffer: Octets, unread: Octets) {
    offset + |buffer| <= |d| && d[offset..offset + |buffer|] == buffer && d[offset + |buffer|..] == unread
  }

  lemma HeldRead(d: Octets, offset: nat, pos: nat, buffer: Octets, unread: Octets, chunk: Octets, rest: Octets)
    requires Held(d, offset, buffer, unread) && pos <= |buffer| && chunk + rest == unread
    ensures Held(d, offset + pos, buffer[pos..] + chunk, rest)
    ensures offset + |buffer| + |chunk| <= |d|
    ensures d[..offset + |buffer| + |chunk|] == d[..offset + |buffer|] + chunk
    ensures unread == [] ==> d[..offset + |buffer|] == d
  {
    var m := offset + |buffer|;
    assert d[m..][..|chunk|] == chunk && d[m..][|chunk|..] == rest;
    assert d[offset + pos..m] == buffer[pos..];
    assert d[offset + pos..m + |chunk|] == d[offset + pos..m] + d[m..m + |chunk|];
  }

  class JsonStream {
    const source: Source
    const builds: Octets -> bool
    ghost const doc: Octets
    var buffer: Octets
    var pos: nat
    var offset: nat
    var ended: bool
    var utf8: State
    var kept: Option<Octets>
    var keptLimit: nat
    var keptSoft: bool
    var open: int
    /** Whether a value is being kept, and where it starts. */
    ghost var keeping: bool
    ghost var from: nat

    constructor (source: Source, builds: Octets -> bool)
      requires !source.raised
      ensures Valid() && KeepOk() && this.source == source && this.builds == builds
      ensures doc == old(source.unread) && source.unread == doc && At() == 0 && open == 0 && !keeping
    {
      this.source := source;
      this.builds := builds;
      doc := source.unread;
      buffer, pos, offset, ended, utf8 := [], 0, 0, false, Start;
      kept, keptLimit, keptSoft, open := None, 0, false, 0;
      keeping, from := false, 0;
    }

    /** How many octets of the document have been consumed. */
    function At(): nat
      reads this`offset, this`pos
    {
      offset + pos
    }

    ghost predicate Valid()
      reads `buffer, `pos, `offset, `ended, `utf8, source
    {
      pos <= |buffer| <= READ_CHUNK + MAX_STREAM_NUMBER &&
      offset + |buffer| + |source.unread| == |doc| && !source.raised &&
      Faithful()
    }

    /** What is buffered and what is unread are the document from `offset` on, and what was read is UTF-8 so far. */
    ghost predicate Faithful()
      requires offset + |buffer| <= |doc|
      reads `buffer, `offset, `ended, `utf8, source
    {
      Held(doc, offset, buffer, source.unread) &&
      utf8 == Run(Start, doc[..offset + |buffer|]) && utf8 != Bad &&
      (ended ==> source.unread == [] && utf8 == Start)
    }

    /** What is kept is the document from where keeping started, while it fits its limit. */
    ghost predicate KeepOk()
      reads `pos, `offset, `kept, `keptLimit, `keptSoft, `keeping, `from
    {
      if !keeping then kept == None
      else
        from <= At() <= |doc| &&
        (kept.Some? ==> kept.value == doc[from..At()] && |kept.value| <= keptLimit) &&
        (kept.None? ==> keptSoft && At() - from > keptLimit)
    }

    ghost predicate Sane(out: Outcome)
      reads this, source
    {
      match out
      case Fail(NotUtf8) => true
      case Fail(ReadRaised) => true
      case Fail(TooLong(_)) => Valid() && keeping
      case _ => Valid() && KeepOk()
    }

    /** Whether what a step did is what the scan `s` answers. */
    ghost predicate Agrees(s: Scan, out: Outcome)
      reads `pos, `offset, `keptLimit, `keptSoft, `keeping, `from, source`raised
    {
      if out == Fail(ReadRaised) then source.raised
      else if source.raised then false
      else if out.Pass? then s == Ok(At()) || CutHere(s)
      else if out.why.NotUtf8? then !IsUtf8(doc)
      else if out.why.TooLong? then
        keeping && !keptSoft && out.why.limit == keptLimit && Reach(doc, s, builds) > from + keptLimit
      else if s.No? && s.why == NumberTooLong then
        RefusedAs(doc, s.at, builds, out.why) && At() == if out.why.Misplaced? then Reach(doc, s, builds) else s.at
      else s == No(At(), out.why)
    }

    /** The stream stands behind the start of a number past the bound, which it took for a number. */
    ghost predicate CutHere(s: Scan)
      reads `pos, `offset
    {
      s.No? && s.why == NumberTooLong && Cuts(doc, s.at, builds) && At() == CutEnd(doc, s.at)
    }

    /** As `Agrees`, where only the reason of a refusal is kept. */
    ghost predicate Matches(s: Scan, out: Outcome)
      reads `pos, `offset, source`raised
    {
      if out == Fail(ReadRaised) then source.raised
      else if source.raised then false
      else if out.Pass? then s == Ok(At()) || CutHere(s)
      else if out.why.NotUtf8? then !IsUtf8(doc)
      else if s.No? && s.why == NumberTooLong then RefusedAs(doc, s.at, builds, out.why) || out.why.TooLong?
      else s.No? && s.why == out.why
    }

    /** Ready for another step: not after octets that are not UTF-8, and with nothing being kept. */
    ghost predicate Ready()
      reads this, source
    {
      Valid() && KeepOk() && !keeping
    }

    /** A refusal to read: of octets that are not UTF-8, or by the source. */
    ghost predicate Unreadable(out: Outcome)
      reads source`raised
    {
      if source.raised then out == Fail(ReadRaised) else out == Fail(NotUtf8) && !IsUtf8(doc)
    }

    /** A refusal of the first part of a scan is the refusal of the scan. */
    lemma Refused(first: Scan, s: Scan, out: Outcome)
      requires Agrees(first, out) && out.Fail? && Continues(first, s)
      ensures Agrees(s, out)
    {
    }

    /** A refusal of what follows a cut is the refusal of the scan that reached the number. */
    lemma RefusedCut(rest: Scan, s: Scan, e: nat, out: Outcome)
      requires Agrees(rest, out) && out.Fail? && rest == No(e + 1, Misplaced(COMMA, e))
      requires s.No? && s.why == NumberTooLong && Cuts(doc, s.at, builds) && e == CutEnd(doc, s.at)
      ensures Agrees(s, out)
    {
    }

    lemma Passed(s: Scan, out: Outcome)
      requires Agrees(s, out) && out.Pass?
      ensures s == Ok(At()) || CutHere(s)
    {
    }

    lemma Same(s: Scan)
      requires Valid()
      ensures s == Ok(At()) || CutHere(s) ==> Agrees(s, Pass)
      ensures s.No? && s.at == At() && !s.why.NotUtf8? && !s.why.ReadRaised? && !s.why.TooLong? &&
              s.why != NumberTooLong ==>
                Agrees(s, Fail(s.why))
    {
    }

    /** The position stays; what is buffered behind it grows by the next octets of the document, if there are any. */
    method Fill() returns (more: bool, out: Outcome)
      requires Valid() && KeepOk() && |buffer| - pos <= MAX_STREAM_NUMBER
      modifies `buffer, `pos, `offset, `ended, `utf8, source
      ensures out.Pass? ==> Valid() && KeepOk() && At() == old(At())
      ensures out.Pass? && more ==>
                |buffer| - pos > old(|buffer| - pos) && |source.unread| < old(|source.unread|)
      ensures out.Pass? && !more ==>
                ended && source.unread == [] && buffer == old(buffer) && pos == old(pos) && offset == old(offset)
      ensures out.Fail? ==> Unreadable(out)
    {
      hide Run, Held, KeepOk;
      if ended {
        return false, Pass;
      }
      ghost var seen, unread := offset + |buffer|, source.unread;
      var chunk, raises := source.Read(READ_CHUNK);
      if raises {
        return false, Fail(ReadRaised);
      }
      HeldRead(doc, offset, pos, buffer, unread, chunk, source.unread);
      RunCompose(Start, doc[..seen], chunk);
      utf8 := Run(utf8, chunk);
      if utf8 == Bad || (chunk == [] && utf8 != Start) {
        if utf8 == Bad {
          BadPrefix(doc, seen + |chunk|);
        }
        return false, Fail(NotUtf8);
      }
      if chunk == [] {
        ended := true;
        return false, Pass;
      }
      Append(chunk);
      return true, Pass;
    }

    /** A chunk that continues the document goes behind what is left of the buffer. */
    method Append(chunk: Octets)
      requires pos <= |buffer| <= pos + MAX_STREAM_NUMBER && |chunk| <= READ_CHUNK && KeepOk()
      requires offset + |buffer| + |chunk| + |source.unread| == |doc| && !source.raised && !ended
      requires Held(doc, offset + pos, buffer[pos..] + chunk, source.unread)
      requires utf8 == Run(Start, doc[..offset + |buffer| + |chunk|]) && utf8 != Bad
      modifies `buffer, `pos, `offset
      ensures Valid() && KeepOk() && At() == old(At()) && |buffer| - pos == old(|buffer| - pos) + |chunk|
    {
      hide Run, Held;
      offset := offset + pos;
      buffer := buffer[pos..] + chunk;
      pos := 0;
    }

    /** The buffer holds `size` octets of the document from the position on, or all the document has left. */
    method Ensure(size: nat) returns (n: nat, out: Outcome)
      requires Valid() && KeepOk() && size <= MAX_STREAM_NUMBER + 1
      modifies `buffer, `pos, `offset, `ended, `utf8, source
      ensures out.Pass? ==> Valid() && KeepOk() && At() == old(At()) && n == |buffer| - pos
      ensures out.Pass? ==> n >= old(|buffer| - pos) && (n >= size || source.unread == [])
      ensures out.Fail? ==> Unreadable(out)
    {
      var more := true;
      while more && |buffer| - pos < size
        invariant Valid() && KeepOk() && At() == old(At()) && |buffer| - pos >= old(|buffer| - pos)
        invariant !more ==> source.unread == []
        decreases |source.unread|, more
      {
        more, out := Fill();
        if out.Fail? {
          return 0, out;
        }
      }
      return |buffer| - pos, Pass;
    }

    /** The position moves by `size`, and what is kept stays the document from where keeping started to the position. */
    method Advance(size: nat) returns (out: Outcome)
      requires Valid() && KeepOk() && pos + size <= |buffer|
      modifies `pos, `kept
      ensures Sane(out) && Agrees(Ok(old(At()) + size), out)
      ensures out.Pass? || out.why.TooLong?
      ensures pos == if out.Pass? then old(pos) + size else old(pos)
    {
      if kept.Some? {
        BufferSlice(pos, pos + size);
        assert doc[from..At()] + doc[At()..At() + size] == doc[from..At() + size];
        kept := Some(kept.value + buffer[pos..pos + size]);
        if |kept.value| > keptLimit {
          if !keptSoft {
            return Fail(TooLong(keptLimit));
          }
          kept := None;
        }
      }
      pos := pos + size;
      return Pass;
    }

    /** The position moves to the end of the whitespace of the document, across however many chunks that takes. */
    method AtEnd() returns (end: bool, out: Outcome)
      requires Valid() && KeepOk()
      modifies `buffer, `pos, `offset, `ended, `utf8, `kept, source
      ensures Sane(out) && Agrees(Ok(WsEnd(doc, old(At()))), out)
      ensures out.Pass? ==> (end <==> At() == |doc|) && (end ==> IsUtf8(doc)) && (!end ==> pos < |buffer|)
    {
      hide Faithful, WsEnd;
      ghost var p := At();
      while true
        invariant Valid() && KeepOk() && p <= At() && WsEnd(doc, p) == WsEnd(doc, At())
        decreases |source.unread|
      {
        var run := WsEnd(buffer, pos) - pos;
        BufferedWs(run);
        out := Advance(run);
        if out.Fail? {
          return false, out;
        }
        if pos < |buffer| {
          WsEndUnique(doc, At(), At());
          return false, Pass;
        }
        var more;
        more, out := Fill();
        if out.Fail? {
          return false, out;
        }
        if !more {
          WholeRead();
          return true, Pass;
        }
      }
    }

    lemma WholeRead()
      requires Valid() && ended
      ensures IsUtf8(doc) && offset + |buffer| == |doc|
    {
      assert doc[..offset + |buffer|] == doc;
    }

    lemma BufferSlice(i: nat, j: nat)
      requires Valid() && i <= j <= |buffer|
      ensures offset + j <= |doc| && buffer[i..j] == doc[offset + i..offset + j]
    {
      SliceOfSlice(doc, offset, offset + |buffer|, i, j);
    }

    lemma BufferAt(i: nat)
      requires Valid() && i < |buffer|
      ensures offset + i < |doc| && buffer[i] == doc[offset + i]
    {
    }

    /** A run of whitespace in the buffer is one of the document, as far as the buffer goes. */
    lemma BufferedWs(run: nat)
      requires Valid() && run == WsEnd(buffer, pos) - pos
      ensures WsEnd(doc, At()) == WsEnd(doc, At() + run)
      ensures pos + run < |buffer| ==> WsEnd(doc, At()) == At() + run
    {
      assert forall i | pos <= i < pos + run :: doc[offset + i] == buffer[i];
      WsRunThrough(doc, At(), At() + run);
      if pos + run < |buffer| {
        assert doc[At() + run] == buffer[pos + run];
        WsEndUnique(doc, At(), At() + run);
      }
    }

    method NextOctet() returns (octet: octet, out: Outcome)
      requires Valid() && KeepOk()
      modifies `buffer, `pos, `offset, `ended, `utf8, `kept, source
      ensures Sane(out) && Agrees(ScanNext(doc, old(At())), out)
      ensures out.Pass? ==> pos < |buffer| && octet == buffer[pos] == doc[At()]
    {
      var end;
      end, out := AtEnd();
      if out.Fail? {
        return 0, out;
      }
      if end {
        return 0, Fail(CutShort);
      }
      return buffer[pos], Pass;
    }

    method Expect(octet: octet) returns (out: Outcome)
      requires Valid() && KeepOk()
      modifies `buffer, `pos, `offset, `ended, `utf8, `kept, source
      ensures Sane(out) && Agrees(ScanExpect(doc, old(At()), octet), out)
    {
      var found;
      found, out := NextOctet();
      if out.Fail? {
        return out;
      }
      if found != octet {
        return Fail(Misplaced(octet, offset + pos));
      }
      out := Advance(1);
    }

    /** A string ends where its scan on the whole document does: no escape is lost to the end of a chunk. */
    method String() returns (out: Outcome)
      requires Valid() && KeepOk()
      modifies `buffer, `pos, `offset, `ended, `utf8, `kept, source
      ensures Sane(out) && Agrees(ScanString(doc, old(At())), out)
    {
      hide WsEnd, ScanEscape, ScanString, ScanStringRest, ScanExpect, Faithful, KeepOk, StringStop, Agrees, Dangling,
        IsUtf8;
      ghost var whole := ScanString(doc, At());
      ghost var first := ScanExpect(doc, At(), QUOTE);
      StringStart(doc, At());
      out := Expect(QUOTE);
      if out.Fail? {
        Refused(first, whole, out);
        return out;
      }
      Passed(first, out);
      while true
        invariant Valid() && KeepOk() && At() <= |doc|
        invariant whole == ScanStringRest(doc, At())
        decreases |doc| - At(), |source.unread|
      {
        out := PlainOctets(whole);
        if out.Fail? {
          return out;
        }
        if pos == |buffer| {
          out := MoreOctets(whole);
          if out.Fail? {
            return out;
          }
        } else {
          var closed;
          closed, out := StringStopped(whole);
          if out.Fail? || closed {
            return out;
          }
        }
      }
    }

    /** A run of plain octets of a string, as far as the buffer holds it, leaves the same string to scan. */
    method PlainOctets(ghost whole: Scan) returns (out: Outcome)
      requires Valid() && KeepOk() && At() <= |doc| && whole == ScanStringRest(doc, At())
      modifies `pos, `kept
      ensures Sane(out)
      ensures out.Fail? ==> Agrees(whole, out)
      ensures out.Pass? ==>
                old(At()) <= At() <= |doc| && whole == ScanStringRest(doc, At()) &&
                (pos < |buffer| ==> StopsString(buffer[pos]))
    {
      hide ScanStringRest, Faithful, KeepOk, StringStop, Agrees;
      var stop := StringStop(buffer, pos);
      PlainRun(stop);
      StringStops(buffer, pos);
      out := Advance(stop - pos);
      if out.Fail? {
        Refused(Ok(offset + stop), whole, out);
      } else {
        Passed(Ok(offset + stop), out);
      }
    }

    /** One more chunk behind a string read to the end of the buffer; at the end of the document it is cut short. */
    method MoreOctets(ghost whole: Scan) returns (out: Outcome)
      requires Valid() && KeepOk() && pos == |buffer| && At() <= |doc| && whole == ScanStringRest(doc, At())
      modifies `buffer, `pos, `offset, `ended, `utf8, source
      ensures Sane(out)
      ensures out.Fail? ==> Agrees(whole, out)
      ensures out.Pass? ==> At() == old(At()) && |source.unread| < old(|source.unread|)
    {
      hide ScanStringRest, Faithful, KeepOk, Agrees;
      StringTurn(doc, At());
      var more;
      more, out := Fill();
      if out.Fail? {
        UnreadableAgrees(whole, out);
      } else if !more {
        out := Fail(CutShort);
        Same(whole);
      }
    }

    /** Consume what a run of plain string octets stops at: the closing quote, or an escape. */
    method StringStopped(ghost whole: Scan) returns (closed: bool, out: Outcome)
      requires Valid() && KeepOk() && pos < |buffer| && StopsString(buffer[pos])
      requires whole == ScanStringRest(doc, At())
      modifies `buffer, `pos, `offset, `ended, `utf8, `kept, source
      ensures Sane(out)
      ensures out.Fail? || closed ==> Agrees(whole, out)
      ensures out.Pass? && !closed ==> old(At()) < At() <= |doc| && whole == ScanStringRest(doc, At())
    {
      hide ScanEscape, ScanStringRest, Faithful, KeepOk, Agrees;
      StringTurn(doc, At());
      BufferAt(pos);
      var octet := buffer[pos];
      if octet == QUOTE {
        out := Advance(1);
        return true, out;
      }
      if octet != BACKSLASH {
        Same(whole);
        return false, Fail(ControlCharacter);
      }
      ghost var escape := ScanEscape(doc, At());
      out := Escape();
      if out.Fail? {
        Refused(escape, whole, out);
        return false, out;
      }
      Passed(escape, out);
      return false, Pass;
    }

    lemma UnreadableAgrees(s: Scan, out: Outcome)
      requires Unreadable(out)
      ensures Agrees(s, out)
    {
    }

    /** An escape is judged by its octets in the document, two or six of them, also where a chunk ends among them. */
    method Escape() returns (out: Outcome)
      requires Valid() && KeepOk() && pos < |buffer| && buffer[pos] == BACKSLASH
      modifies `buffer, `pos, `offset, `ended, `utf8, `kept, source
      ensures Sane(out) && Agrees(ScanEscape(doc, old(At())), out)
    {
      hide Faithful, KeepOk;
      BufferAt(pos);
      var n;
      n, out := Ensure(2);
      if out.Fail? {
        return out;
      }
      if n < 2 {
        return Fail(CutShort);
      }
      BufferAt(pos + 1);
      var escape := buffer[pos + 1];
      if IsShortEscape(escape) {
        out := Advance(2);
      } else if escape == LOWER_U {
        out := UnicodeEscape();
      } else {
        out := Fail(InvalidEscape);
      }
    }

    /** The four hexadecimal digits of an escape. */
    method UnicodeEscape() returns (out: Outcome)
      requires Valid() && KeepOk() && pos + 1 < |buffer| && buffer[pos + 1] == LOWER_U
      modifies `buffer, `pos, `offset, `ended, `utf8, `kept, source
      ensures Sane(out) && Agrees(ScanEscape(doc, old(At())), out)
    {
      hide Faithful, KeepOk;
      BufferAt(pos + 1);
      var n;
      n, out := Ensure(6);
      if out.Fail? {
        return out;
      }
      if n < 6 {
        return Fail(CutShort);
      }
      BufferHex();
      if !HexFour(buffer, pos + 2) {
        return Fail(InvalidUnicodeEscape);
      }
      out := Advance(6);
    }

    lemma BufferHex()
      requires Valid() && pos + 6 <= |buffer|
      ensures HexFour(buffer, pos + 2) <==> HexFour(doc, At() + 2)
    {
      BufferAt(pos + 2);
      BufferAt(pos + 3);
      BufferAt(pos + 4);
      BufferAt(pos + 5);
    }

    /** Plain octets of a string are the same in the buffer and in the document. */
    lemma PlainRun(stop: nat)
      requires Valid() && stop == StringStop(buffer, pos)
      ensures ScanStringRest(doc, At()) == ScanStringRest(doc, offset + stop)
    {
      forall i | At() <= i < offset + stop
        ensures !StopsString(doc[i])
      {
        BufferAt(i - offset);
      }
      StringRestThrough(doc, At(), offset + stop);
    }

    /** A scalar is what its scan says, but for a number past the bound that is cut where the buffer ends. */
    method Scalar() returns (out: Outcome)
      requires Valid() && KeepOk() && pos < |buffer|
      modifies `buffer, `pos, `offset, `ended, `utf8, `kept, source
      ensures Sane(out) && Agrees(ScanScalar(doc, old(At()), builds), out)
    {
      hide Faithful, KeepOk, LiteralLength, NumberLength, CanCut, CutEnd;
      var n;
      n, out := Ensure(MAX_STREAM_NUMBER + 1);
      if out.Fail? {
        return out;
      }
      var window := buffer[pos..];
      Window();
      var literal := LiteralLength(window);
      if literal > 0 {
        out := Advance(literal);
        return out;
      }
      var number := NumberLength(window);
      if number == 0 {
        return Fail(NoValue);
      }
      if number > MAX_STREAM_NUMBER {
        return Fail(NumberTooLong);
      }
      if !builds(window[..number]) {
        return Fail(Unbuildable);
      }
      out := Advance(number);
    }

    /** What the patterns find in the buffer, with 1025 octets of the document in it or all that is left. */
    lemma Window()
      requires Valid() && (|buffer| - pos >= MAX_STREAM_NUMBER + 1 || source.unread == [])
      ensures At() <= |doc|
      ensures
        var window, s := buffer[pos..], doc[At()..];
        var w, n := NumberLength(window), NumberLength(s);
        LiteralLength(window) == LiteralLength(s) &&
        (n <= MAX_STREAM_NUMBER ==> w == n && window[..w] == doc[At()..At() + n]) &&
        (MAX_STREAM_NUMBER < n && w <= MAX_STREAM_NUMBER ==>
           0 < w && CanCut(s) && At() + w == CutEnd(doc, At()) && window[..w] == doc[At()..At() + w]) &&
        // A number past the bound is cut exactly where its octet past the bound is no digit and ends the buffer, or is
        // a mark and the sign after it does.
        (MAX_STREAM_NUMBER < n ==>
           var seen := |window| - MAX_STREAM_NUMBER;
           w <= MAX_STREAM_NUMBER <==> CanCut(s) && (seen == 1 || (seen == 2 && IsSign(s[|window| - 1]))))
    {
      hide Faithful, LiteralLength, NumberLength;
      var window, s, m := buffer[pos..], doc[At()..], |buffer| - pos;
      BufferSlice(pos, |buffer|);
      DropTake(doc, At(), m);
      assert window == buffer[pos..|buffer|];
      LiteralWindow(s, m);
      WindowMatch(s, m);
      var w, n := NumberLength(window), NumberLength(s);
      DropTake(doc, At(), w);
      TakeTake(s, m, w);
      if n <= MAX_STREAM_NUMBER {
        assert n <= m;
      } else if MAX_STREAM_NUMBER < m {
        CutExactly(s, m);
      }
    }

    /** Past the colon that the scan of a name ends with. */
    method MemberName() returns (out: Outcome)
      requires Valid() && KeepOk()
      modifies `buffer, `pos, `offset, `ended, `utf8, `kept, source
      ensures Sane(out) && Agrees(ScanMemberName(doc, old(At())), out)
    {
      hide Faithful, KeepOk, ScanString, ScanExpect;
      out := String();
      if out.Fail? {
        return out;
      }
      out := Expect(COLON);
    }

    /**
     * A value ends, or is refused, where the recursive scan of it does. `Resume` is what is left to scan with the
     * containers whose openers are in `stack`; no turn of the loop changes it.
     */
    method Skip() returns (out: Outcome)
      requires Valid() && KeepOk()
      modifies `buffer, `pos, `offset, `ended, `utf8, `kept, source
      ensures Sane(out) && Agrees(ScanValue(doc, old(At()), MAX_STREAM_DEPTH, builds), out)
      // A number is cut and passed only where it is the value itself.
      ensures
        var s := ScanValue(doc, old(At()), MAX_STREAM_DEPTH, builds);
        out.Pass? && s.No? ==> s.at == WsEnd(doc, old(At()))
    {
      hide Faithful, KeepOk, Agrees, Resume, Enter, Finish, ScanNext, ScanString, ScanMemberName, ScanScalar, ScanValue,
        Cuts, CutEnd, CanCut;
      var stack: seq<octet> := [];
      ghost var whole := ScanValue(doc, At(), MAX_STREAM_DEPTH, builds);
      ResumeEmpty(doc, At(), builds);
      while true
        invariant Valid() && KeepOk() && |stack| <= MAX_STREAM_DEPTH
        invariant Resume(doc, At(), stack, builds) == whole
        invariant stack == [] ==> At() == old(At())
        decreases |doc| - At()
      {
        ghost var p := At();
        ghost var next := ScanNext(doc, p);
        ResumeTurn(doc, p, stack, builds);
        var octet;
        octet, out := NextOctet();
        if out.Fail? {
          Refused(next, whole, out);
          return out;
        }
        Passed(next, out);
        var entered := false;
        if IsOpener(octet) {
          if |stack| == MAX_STREAM_DEPTH {
            Same(whole);
            return Fail(TooDeep);
          }
          entered, out := Open(octet, stack, whole);
          if out.Fail? {
            return out;
          }
          if entered {
            stack := stack + [octet];
          }
        } else if octet == QUOTE {
          ghost var text := ScanString(doc, At());
          out := String();
          if out.Fail? {
            Refused(text, whole, out);
            return out;
          }
          Passed(text, out);
        } else {
          ghost var scalar := ScanScalar(doc, At(), builds);
          out := Scalar();
          if out.Fail? {
            Refused(scalar, whole, out);
            return out;
          }
          Passed(scalar, out);
          ScalarStays(doc, p, next.at, builds);
        }
        if !entered {
          FinishEmpty(doc, At(), builds);
          var more;
          more, stack, out := Follow(stack, whole);
          if out.Fail? || !more {
            return out;
          }
        }
      }
    }

    /** Step past a value, or behind a number that was cut: to the next value, or to the end of the whole. */
    method Follow(open: seq<octet>, ghost whole: Scan) returns (more: bool, stack: seq<octet>, out: Outcome)
      requires Valid() && KeepOk() && |open| <= MAX_STREAM_DEPTH && At() <= |doc|
      requires whole == Finish(doc, At(), open, builds) || CutHere(whole)
      modifies `buffer, `pos, `offset, `ended, `utf8, `kept, source
      ensures Sane(out)
      ensures out.Fail? || !more ==> Agrees(whole, out)
      ensures out.Pass? && !more ==> whole == Ok(At()) || (open == [] && CutHere(whole) && At() == old(At()))
      ensures out.Pass? && more ==>
                stack != [] && |stack| <= MAX_STREAM_DEPTH && old(At()) < At() <= |doc| &&
                whole == Resume(doc, At(), stack, builds)
    {
      hide Faithful, KeepOk, Agrees, Resume, Finish, Cuts, CutEnd, CanCut, Dangling;
      ghost var e, rest := At(), Finish(doc, At(), open, builds);
      ghost var cut := whole != rest;
      if cut {
        CutBehind(whole);
        FinishCut(doc, e, open, builds);
      }
      more, stack, out := NextIn(open);
      if out.Fail? {
        if cut {
          RefusedCut(rest, whole, e, out);
        } else {
          Refused(rest, whole, out);
        }
      } else if !more {
        Same(whole);
      }
    }

    lemma CutBehind(s: Scan)
      requires CutHere(s)
      ensures At() < |doc| && WsEnd(doc, At()) == At() && Dangling(doc[At()..]) && Dangling([doc[At()]])
    {
      CutDangles(doc, s.at);
    }

    lemma CutBehindIf(s: Scan)
      ensures CutHere(s) ==> At() < |doc| && Dangling(doc[At()..])
    {
      if CutHere(s) {
        CutBehind(s);
      }
    }

    /** Step into the container that starts here, unless it is empty: then consume it. */
    method Open(octet: octet, stack: seq<octet>, ghost whole: Scan) returns (entered: bool, out: Outcome)
      requires Valid() && KeepOk() && |stack| < MAX_STREAM_DEPTH && pos < |buffer|
      requires IsOpener(octet) && octet == buffer[pos] == doc[At()]
      requires Resume(doc, At(), stack, builds) == whole
      modifies `buffer, `pos, `offset, `ended, `utf8, `kept, source
      ensures Sane(out)
      ensures out.Fail? ==> Agrees(whole, out)
      ensures out.Pass? ==>
                old(At()) < At() &&
                whole == (if entered then Resume(doc, At(), stack + [octet], builds)
                          else Finish(doc, At(), stack, builds))
    {
      hide Faithful, KeepOk, Agrees, Resume, Enter, Finish, ScanNext, ScanMemberName;
      OpenTurn(doc, At(), stack, builds);
      ghost var next := ScanNext(doc, At() + 1);
      out := Advance(1);
      if out.Fail? {
        Refused(Ok(old(At()) + 1), whole, out);
        return false, out;
      }
      Passed(Ok(old(At()) + 1), out);
      var first;
      first, out := NextOctet();
      if out.Fail? {
        Refused(next, whole, out);
        return false, out;
      }
      Passed(next, out);
      if first == Closer(octet) {
        out := Advance(1);
        if out.Fail? {
          Refused(Ok(next.at + 1), whole, out);
          return false, out;
        }
        Passed(Ok(next.at + 1), out);
        return false, Pass;
      }
      out := NextKey(stack + [octet], whole);
      return true, out;
    }

    /** What is left to scan after a value is left to scan at the next one, in the containers that are still open. */
    method NextIn(open: seq<octet>) returns (more: bool, stack: seq<octet>, out: Outcome)
      requires Valid() && KeepOk() && |open| <= MAX_STREAM_DEPTH && At() <= |doc|
      modifies `buffer, `pos, `offset, `ended, `utf8, `kept, source
      ensures Sane(out)
      ensures out.Fail? ==> Agrees(Finish(doc, old(At()), open, builds), out)
      ensures out.Pass? && more ==>
                open != [] && stack != [] && |stack| <= MAX_STREAM_DEPTH && old(At()) < At() <= |doc| &&
                Finish(doc, old(At()), open, builds) == Resume(doc, At(), stack, builds)
      ensures out.Pass? && !more ==> Finish(doc, old(At()), open, builds) == Ok(At())
      ensures out.Pass? && open != [] ==> !Dangling(doc[old(At())..])
      ensures open == [] ==> out.Pass? && !more && At() == old(At())
    {
      hide Faithful, KeepOk, Agrees, Resume, Enter, Finish, ScanMemberName, Dangling, WsEnd;
      ghost var whole := Finish(doc, At(), open, builds);
      stack := open;
      while stack != []
        invariant Valid() && KeepOk() && |stack| <= |open| && old(At()) <= At() <= |doc|
        invariant Finish(doc, At(), stack, builds) == whole
        invariant open == [] ==> At() == old(At())
        invariant (stack == open && At() == old(At())) || !Dangling(doc[old(At())..])
        decreases |stack|
      {
        var octet;
        octet, out := Mark(stack, whole);
        if out.Fail? {
          return false, stack, out;
        }
        if octet != COMMA {
          stack := Pop(stack);
        } else {
          out := NextKey(stack, whole);
          return out.Pass?, stack, out;
        }
      }
      FinishEmpty(doc, At(), builds);
      return false, stack, Pass;
    }

    /** What follows a value in a container: a comma, or the closer of the container. */
    method Mark(stack: seq<octet>, ghost whole: Scan) returns (octet: octet, out: Outcome)
      requires Valid() && KeepOk() && 0 < |stack| <= MAX_STREAM_DEPTH && At() <= |doc|
      requires whole == Finish(doc, At(), stack, builds)
      modifies `buffer, `pos, `offset, `ended, `utf8, `kept, source
      ensures Sane(out)
      ensures out.Fail? ==> Agrees(whole, out)
      ensures out.Pass? ==>
                old(At()) < At() <= |doc| && !Dangling(doc[old(At())..]) &&
                if octet == COMMA then whole == Enter(doc, At(), stack, builds)
                else whole == Finish(doc, At(), Pop(stack), builds)
    {
      hide Faithful, KeepOk, Agrees, Enter, Finish, ScanNext, Dangling, WsEnd;
      ghost var p := At();
      ghost var next := ScanNext(doc, p);
      FinishTurn(doc, p, stack, builds);
      octet, out := NextOctet();
      if out.Fail? {
        Refused(next, whole, out);
        return octet, out;
      }
      Passed(next, out);
      NotDangling(doc, p);
      out := Advance(1);
      if out.Fail? {
        Refused(Ok(next.at + 1), whole, out);
        return octet, out;
      }
      Passed(Ok(next.at + 1), out);
      if octet != COMMA && octet != Closer(Top(stack)) {
        Same(whole);
        return octet, Fail(Misplaced(COMMA, offset + pos - 1));
      }
    }

    /** The key of the next element of the innermost container: the name and colon of a member. */
    method NextKey(stack: seq<octet>, ghost whole: Scan) returns (out: Outcome)
      requires Valid() && KeepOk() && 0 < |stack| <= MAX_STREAM_DEPTH && At() <= |doc|
      requires whole == Enter(doc, At(), stack, builds)
      modifies `buffer, `pos, `offset, `ended, `utf8, `kept, source
      ensures Sane(out)
      ensures out.Fail? ==> Agrees(whole, out)
      ensures out.Pass? ==> old(At()) <= At() <= |doc| && whole == Resume(doc, At(), stack, builds)
    {
      hide Faithful, KeepOk, Agrees, Resume, Enter, ScanMemberName;
      EnterTurn(doc, At(), stack, builds);
      out := Pass;
      if Top(stack) == LBRACE {
        ghost var name := ScanMemberName(doc, At());
        out := MemberName();
        if out.Fail? {
          Refused(name, whole, out);
        } else {
          Passed(name, out);
        }
      }
    }

    /** What is kept starts empty, at the first octet of the value. */
    method Keep(limit: nat, soft: bool) returns (out: Outcome)
      requires Ready()
      modifies `buffer, `pos, `offset, `ended, `utf8, `kept, `keptLimit, `keptSoft, `keeping, `from, source
      ensures out.Pass? ==>
                Valid() && KeepOk() && keeping && from == At() && keptLimit == limit && keptSoft == soft
      ensures out.Fail? ==> !keeping && (!out.Stops() ==> Valid() && KeepOk())
      ensures Agrees(ScanNext(doc, old(At())), out)
    {
      var octet;
      octet, out := NextOctet();
      if out.Pass? {
        kept, keptLimit, keptSoft := Some([]), limit, soft;
        keeping, from := true, At();
      }
    }

    /** Stop keeping. */
    method Drop()
      modifies `kept, `keeping
      ensures !keeping && KeepOk()
    {
      kept, keeping := None, false;
    }

    /** The value of the document's own slice, whatever chunks it came in, where the slice fits its limit. */
    method Value(limit: int) returns (value: Values.Json, out: Outcome)
      requires Ready()
      modifies `buffer, `pos, `offset, `ended, `utf8, `kept, `keptLimit, `keptSoft, `keeping, `from, source
      ensures !out.Stops() ==> Ready()
      ensures limit < 0 ==> out == Fail(NegativeLimit) && At() == old(At())
      ensures limit >= 0 ==> Matches(ScanKept(doc, old(At()), limit, builds), out)
      ensures limit >= 0 && out.Pass? && ScanKept(doc, old(At()), limit, builds).Ok? ==>
                value == Values.Value(ReadTree(doc, old(At()), MAX_STREAM_DEPTH, builds))
      // A number past the bound is answered only where it is cut: as its start.
      ensures
        limit >= 0 && out.Pass? ==>
          var s := ScanKept(doc, old(At()), limit, builds);
          s.No? ==> s.at == WsEnd(doc, old(At())) && CutHere(s) && value == Values.JNumber(doc[s.at..At()])
      ensures
        limit >= 0 && out.Fail? && out.why.TooLong? ==>
          var s := ScanKept(doc, old(At()), limit, builds);
          out.why == TooLong(limit) && Reach(doc, s, builds) > WsEnd(doc, old(At())) + limit
    {
      hide Faithful, ScanValue, ScanKept, ReadTree, ScanNext, WsEnd, Cuts, CutEnd, CanCut, Matches, Reach;
      value := Values.JNull;
      if limit < 0 {
        return value, Fail(NegativeLimit);
      }
      ghost var p := At();
      KeptStart(p, limit);
      out := Keep(limit, false);
      KeepMatches(p, limit, out);
      if out.Fail? {
        return value, out;
      }
      ValuePastWs(doc, p, At(), MAX_STREAM_DEPTH, builds);
      out := Skip();
      SkipMatches(p, limit, out);
      if out.Pass? {
        value := Loads(kept.value, builds);
        KeptReads(doc, p, MAX_STREAM_DEPTH, builds);
        CutLoads(doc, from, builds);
      }
      Drop();
    }

    lemma KeepMatches(p: nat, limit: nat, out: Outcome)
      requires p <= |doc| && Agrees(ScanNext(doc, p), out) && (keeping ==> out.Pass?)
      ensures out.Fail? ==> Matches(ScanKept(doc, p, limit, builds), out) && !out.why.TooLong?
      ensures out.Pass? ==> At() == WsEnd(doc, p)
    {
      hide ScanValue, CutEnd, CanCut;
      KeptStart(p, limit);
    }

    /** A value read while it is kept is read as `ScanKept` has it. */
    lemma SkipMatches(p: nat, limit: nat, out: Outcome)
      requires p <= |doc| && keeping && !keptSoft && keptLimit == limit && from == WsEnd(doc, p)
      requires Sane(out) && Agrees(ScanValue(doc, p, MAX_STREAM_DEPTH, builds), out)
      ensures Matches(ScanKept(doc, p, limit, builds), out)
      ensures out.Pass? ==>
                kept.Some? && kept.value == doc[from..At()] &&
                ScanKept(doc, p, limit, builds) == ScanValue(doc, p, MAX_STREAM_DEPTH, builds) &&
                (ScanKept(doc, p, limit, builds) == Ok(At()) || CutHere(ScanKept(doc, p, limit, builds)))
      ensures out.Fail? && out.why.TooLong? ==>
                out.why == TooLong(limit) && Reach(doc, ScanKept(doc, p, limit, builds), builds) > from + limit
    {
      hide Faithful, ScanValue, WsEnd, CutEnd, CanCut;
    }

    /** Nothing of a value is read where the document ends. */
    lemma KeptStart(p: nat, limit: nat)
      requires p <= |doc|
      ensures
        var q := ScanNext(doc, p);
        q.No? ==> ScanKept(doc, p, limit, builds) == q
      ensures WsEnd(doc, p) == ScanNext(doc, p).at
    {
    }

    /** The name `NameAt` reads in the document: one too long for the limit is consumed all the same. */
    method Name() returns (name: Option<Values.Chars>, out: Outcome)
      requires Ready()
      modifies `buffer, `pos, `offset, `ended, `utf8, `kept, `keptLimit, `keptSoft, `keeping, `from, source
      ensures !out.Stops() ==> Ready()
      ensures Matches(ScanString(doc, old(At())), out)
      ensures out.Pass? ==> name == NameAt(doc, old(At()))
    {
      hide Faithful, ScanStringRest;
      name := None;
      ghost var p := At();
      NamePast(doc, p);
      out := Keep(MAX_STREAM_NAME, true);
      if out.Fail? {
        return name, out;
      }
      out := String();
      if out.Pass? && kept.Some? {
        name := Some(Values.StringValue(kept.value));
      }
      Drop();
    }

    /** The position moves over whitespace alone, to the octet that is answered. */
    method Peek() returns (octet: octet, out: Outcome)
      requires Ready()
      modifies `buffer, `pos, `offset, `ended, `utf8, `kept, source
      ensures !out.Stops() ==> Ready()
      ensures Matches(ScanNext(doc, old(At())), out)
      ensures out.Pass? ==> At() < |doc| && octet == doc[At()]
    {
      octet, out := NextOctet();
    }

    /** It passes at the end of the document alone, by when every octet was found to be UTF-8. */
    method End() returns (out: Outcome)
      requires Ready()
      modifies `buffer, `pos, `offset, `ended, `utf8, `kept, source
      ensures !out.Stops() ==> Ready()
      ensures Matches(ScanEnd(doc, old(At())), out)
      ensures out.Pass? ==> IsUtf8(doc)
    {
      var end;
      end, out := AtEnd();
      if out.Pass? && !end {
        out := Fail(MoreThanOneValue);
      }
    }
  }

  /** What the parser behind `value` makes of the text that was kept. */
  function Loads(text: Octets, builds: Octets -> bool): Values.Json {
    Values.Value(ReadTree(text, 0, MAX_STREAM_DEPTH, builds))
  }

  /** The start of a number that was cut is read as the number it is. */
  lemma CutLoads(d: Octets, p: nat, builds: Octets -> bool)
    ensures Cuts(d, p, builds) ==> Loads(d[p..CutEnd(d, p)], builds) == Values.JNumber(d[p..CutEnd(d, p)])
  {
    hide CanCut, CutEnd, IsNumber, ScanValue, ReadTree;
    if Cuts(d, p, builds) {
      CutIsNumber(d, p);
      NumberLoads(d[p..CutEnd(d, p)], builds);
    }
  }

  lemma NumberLoads(text: Octets, builds: Octets -> bool)
    requires IsNumber(text) && |text| <= MAX_STREAM_NUMBER && builds(text)
    ensures Loads(text, builds) == Values.JNumber(text)
  {
    hide IsNumber, ScanValue, ReadTree;
    TextReads(Num(text), MAX_STREAM_DEPTH, builds);
  }

  lemma KeptReads(d: Octets, p: nat, depth: nat, builds: Octets -> bool)
    requires p <= |d|
    ensures
      var s, q := ScanValue(d, p, depth, builds), WsEnd(d, p);
      s.Ok? ==> q <= s.at && ReadTree(d[q..s.at], 0, depth, builds) == ReadTree(d, p, depth, builds)
  {
    hide ScanValue, ReadTree, WsEnd;
    if ScanValue(d, p, depth, builds).Ok? {
      ReadAlone(d, p, depth, builds);
    }
  }

  /** The name of the member at `p`, where it is one a walk can ask for. */
  function NameAt(d: Octets, p: nat): Option<Values.Chars>
    requires p <= |d|
  {
    var q, e := WsEnd(d, p), ScanString(d, p).at;
    if q <= e <= q + MAX_STREAM_NAME then Some(Values.StringValue(d[q..e])) else None
  }

  lemma NamePast(d: Octets, p: nat)
    requires p <= |d|
    ensures
      var q := WsEnd(d, p);
      ScanString(d, p) == ScanString(d, q) && (ScanString(d, p).Ok? ==> q < ScanString(d, p).at)
  {
    hide ScanStringRest;
    WsEndUnique(d, WsEnd(d, p), WsEnd(d, p));
  }

  /** The first octet from `p` on that a string does not hold plainly, or the end. */
  function StringStop(s: Octets, p: nat): (e: nat)
    requires p <= |s|
    ensures p <= e <= |s|
    ensures forall i | p <= i < e :: !StopsString(s[i])
    ensures e < |s| ==> StopsString(s[e])
    decreases |s| - p
  {
    if p == |s| || StopsString(s[p]) then p else StringStop(s, p + 1)
  }

  lemma TakeTake(s: Octets, m: nat, w: nat)
    requires w <= m <= |s|
    ensures s[..m][..w] == s[..w]
  {
  }

  lemma DropTake(d: Octets, p: nat, m: nat)
    requires p + m <= |d|
    ensures d[p..][..m] == d[p..p + m]
  {
  }

  lemma NotDangling(d: Octets, p: nat)
    requires p <= |d|
    ensures
      var t := ScanNext(d, p);
      t.Ok? && (d[t.at] == COMMA || d[t.at] == RBRACE || d[t.at] == RBRACKET) ==> !Dangling(d[p..])
  {
  }

  lemma ScalarStays(d: Octets, p: nat, q: nat, builds: Octets -> bool)
    requires p <= |d| && ScanNext(d, p) == Ok(q)
    ensures q == WsEnd(d, p) && (ScanScalar(d, q, builds).No? ==> ScanScalar(d, q, builds).at == q)
  {
    hide NumberLength, LiteralLength;
  }

  /** Inside a container, what is left of a number that was cut is refused where a comma or a closer is due. */
  lemma FinishCut(d: Octets, e: nat, stack: seq<octet>, builds: Octets -> bool)
    requires e < |d| && Dangling([d[e]]) && WsEnd(d, e) == e && |stack| <= MAX_STREAM_DEPTH
    ensures stack != [] ==> Finish(d, e, stack, builds) == No(e + 1, Misplaced(COMMA, e))
  {
  }

  lemma FinishEmpty(d: Octets, p: nat, builds: Octets -> bool)
    requires p <= |d|
    ensures Finish(d, p, [], builds) == Ok(p)
  {
  }

  lemma StringStops(s: Octets, p: nat)
    requires p <= |s|
    ensures var e := StringStop(s, p); p <= e <= |s| && (e < |s| ==> StopsString(s[e]))
  {
  }

  lemma StringStart(d: Octets, p: nat)
    requires p <= |d|
    ensures
      var b, s := ScanExpect(d, p, QUOTE), ScanString(d, p);
      Continues(b, s) && (b.Ok? ==> s == ScanStringRest(d, b.at))
  {
    hide ScanExpect, ScanStringRest;
  }

  lemma StringTurn(d: Octets, p: nat)
    requires p <= |d|
    ensures
      var s := ScanStringRest(d, p);
      if p == |d| then s == No(p, CutShort)
      else if d[p] == QUOTE then s == Ok(p + 1)
      else if d[p] == BACKSLASH then
        var e := ScanEscape(d, p);
        Continues(e, s) && (e.Ok? ==> s == ScanStringRest(d, e.at))
      else d[p] < SPACE ==> s == No(p, ControlCharacter)
  {
  }

  lemma LiteralWindow(s: Octets, m: nat)
    requires m <= |s| && (m >= 5 || m == |s|)
    ensures LiteralLength(s[..m]) == LiteralLength(s)
  {
    if m >= 5 {
      assert forall t: Octets | |t| <= 5 :: t <= s[..m] <==> t <= s;
    } else {
      assert s[..m] == s;
    }
  }

  lemma {:induction false} StringRestThrough(d: Octets, p: nat, q: nat)
    requires p <= q <= |d| && forall i | p <= i < q :: !StopsString(d[i])
    ensures ScanStringRest(d, p) == ScanStringRest(d, q)
    decreases q - p
  {
    if p < q {
      StringRestThrough(d, p + 1, q);
    }
  }

  lemma {:induction false} WsRunThrough(d: Octets, p: nat, q: nat)
    requires WsRun(d, p, q)
    ensures WsEnd(d, p) == WsEnd(d, q)
    decreases q - p
  {
    if p < q {
      WsRunThrough(d, p + 1, q);
    }
  }
}
