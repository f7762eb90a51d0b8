/** The loops beneath a transport: a body read under a limit and a deadline, and a request sent under one. */
module Bounded {
  import opened Options
  import opened Octets

  const READ_CHUNK: nat := 64 * 1024
  const SEND_CHUNK: nat := 64 * 1024
  const MAX_ERROR_BODY_SIZE: nat := 64 * 1024

  function Min(a: int, b: int): int {
    if a <= b then a else b
  }

  /** The monotonic clock: it never runs back, and between two readings it moves as it likes. */
  class Clock {
    var now: int

    constructor ()
    {
      now := 0;
    }

    method Monotonic() returns (reading: int)
      modifies this
      ensures old(now) <= now == reading
    {
      var moved :| moved >= 0;
      now := now + moved;
      reading := now;
    }
  }

  /** What a peer sends in answer to a request: the status line, two of its headers, and the body. */
  datatype Sent = Sent(status: int, willClose: bool, announced: Option<int>, body: Octets)

  /** A response being read: each read answers as many octets as it likes, or raises. */
  class Response {
    const status: int
    const willClose: bool
    const announced: Option<int>
    var rest: Octets
    var closed: bool
    /** The clock reading taken last before each read, and how many octets were asked for. */
    ghost var receives: seq<(int, nat)>
    /** Whether a read has raised. */
    ghost var failed: bool

    constructor (sent: Sent)
      ensures status == sent.status && willClose == sent.willClose && announced == sent.announced
      ensures rest == sent.body && !closed && receives == [] && !failed
    {
      status, willClose, announced := sent.status, sent.willClose, sent.announced;
      rest, closed, receives, failed := sent.body, false, [], false;
    }

    /** One receive: nothing only at the end of the body, which closes the response. */
    method Read1(n: nat, ghost reading: int) returns (chunk: Octets, raised: bool)
      requires n > 0 && (closed ==> rest == [])
      modifies this
      ensures closed ==> rest == []
      ensures receives == old(receives) + [(reading, n)]
      ensures failed == (old(failed) || raised)
      ensures raised ==> rest == old(rest) && chunk == []
      ensures !raised ==>
                |chunk| <= n && chunk + rest == old(rest) && (chunk == [] <==> old(rest) == []) &&
                (chunk == [] ==> closed)
    {
      receives := receives + [(reading, n)];
      raised := *;
      failed := failed || raised;
      chunk := [];
      if raised {
        return;
      }
      if rest != [] {
        var size: nat :| 0 < size <= n && size <= |rest|;
        chunk, rest := rest[..size], rest[size..];
      }
      if rest == [] {
        var done: bool := *;
        closed := closed || done || chunk == [];
      }
    }
  }

  datatype Read =
    | Body(body: Octets)
    | BadLimit
    | Announced
    | TooLarge
    | Expired
    | Raised

  /** The body of a response, never more than `limit` octets of it and one to tell that there is more. */
  method ReadBounded(response: Response, limit: int, deadline: int, truncate: bool, clock: Clock) returns (read: Read)
    requires (response.closed ==> response.rest == []) && !response.failed
    modifies response, clock
    ensures response.closed ==> response.rest == []
    // No more is received than tells a body over the limit from one at it, a chunk at a time.
    ensures |response.rest| <= |old(response.rest)|
    ensures limit >= 0 ==> |old(response.rest)| - |response.rest| <= limit + 1
    ensures old(response.receives) <= response.receives
    ensures forall i | |old(response.receives)| <= i < |response.receives| ::
              response.receives[i].0 <= deadline && response.receives[i].1 <= Min(READ_CHUNK, limit + 1)
    // What is answered is the body, or where it is cut the longest prefix the limit allows.
    ensures read.Body? && !truncate ==>
              read.body == old(response.rest) && |read.body| <= limit && response.rest == []
    ensures read.Body? && truncate ==> limit >= 0 && read.body == old(response.rest)[..Min(limit, |old(response.rest)|)]
    // What is refused is what is announced or found to be larger, unless it is cut.
    ensures read.BadLimit? <==> limit < 0
    ensures read.Announced? <==>
              limit >= 0 && !truncate && response.announced.Some? && response.announced.value > limit
    ensures read.BadLimit? || read.Announced? ==>
              response.rest == old(response.rest) && response.receives == old(response.receives)
    ensures limit >= 0 && !read.Announced? && !read.Expired? && !read.Raised? ==>
              (read.TooLarge? <==> !truncate && |old(response.rest)| > limit)
    // Nothing else is refused: a receive raised, or the clock is past the deadline.
    ensures read.Raised? <==> response.failed
    ensures read.Expired? ==> clock.now > deadline
    // No body is answered once the clock has been read past the deadline.
    ensures read.Body? ==> clock.now <= deadline
    ensures clock.now >= old(clock.now)
    // A body within the limit is read to its end, which closes the response.
    ensures read.Body? && |old(response.rest)| <= limit ==> response.closed && response.rest == []
  {
    if limit < 0 {
      return BadLimit;
    }
    if !truncate && response.announced.Some? && response.announced.value > limit {
      return Announced;
    }
    ghost var whole := response.rest;
    var buffer: Octets := [];
    var remaining: int := limit + 1;
    while remaining > 0
      invariant 0 <= remaining == limit + 1 - |buffer|
      invariant buffer + response.rest == whole
      invariant (response.closed ==> response.rest == []) && !response.failed
      invariant old(response.receives) <= response.receives
      invariant forall i | |old(response.receives)| <= i < |response.receives| ::
                  response.receives[i].0 <= deadline && response.receives[i].1 <= Min(READ_CHUNK, limit + 1)
      invariant clock.now >= old(clock.now) && (remaining <= limit ==> clock.now <= deadline)
      decreases remaining
    {
      var reading := clock.Monotonic();
      if reading > deadline {
        return Expired;
      }
      var chunk, raised := response.Read1(Min(remaining, READ_CHUNK), reading);
      if raised {
        return Raised;
      }
      if chunk == [] {
        break;
      }
      buffer := buffer + chunk;
      remaining := remaining - |chunk|;
    }
    assert buffer == whole[..|buffer|];
    if |buffer| > limit {
      if truncate {
        return Body(buffer[..limit]);
      }
      return TooLarge;
    }
    return Body(buffer);
  }

  /** One send: the clock reading taken last before it, the timeout it was given, and how much it was offered. */
  datatype Sending = Sending(reading: int, timeout: int, offered: nat)

  /** A connected socket: each send takes some of what it is offered, or raises. */
  class Socket {
    var timeout: int
    ghost var taken: Octets
    ghost var sendings: seq<Sending>
    /** Whether a send has raised. */
    ghost var failed: bool

    constructor ()
      ensures taken == [] && sendings == [] && !failed
    {
      timeout, taken, sendings, failed := 1, [], [], false;
    }

    method Send(data: Octets, ghost reading: int) returns (n: nat, raised: bool)
      requires data != [] && timeout > 0
      modifies `taken, `sendings, `failed
      ensures failed == (old(failed) || raised)
      ensures sendings == old(sendings) + [Sending(reading, timeout, |data|)]
      ensures raised ==> taken == old(taken)
      ensures !raised ==> 0 < n <= |data| && taken == old(taken) + data[..n]
    {
      sendings := sendings + [Sending(reading, timeout, |data|)];
      raised := *;
      failed := failed || raised;
      n := 0;
      if !raised {
        n :| 0 < n <= |data|;
        taken := taken + data[..n];
      }
    }
  }

  /** A send of a chunk at most, begun between `start` and the deadline with what was left then. */
  predicate InTime(sending: Sending, start: int, deadline: int) {
    start <= sending.reading < deadline && sending.timeout == deadline - sending.reading &&
    0 < sending.offered <= SEND_CHUNK
  }

  /** Send all of `data`: what was taken when it raises is never all of it. */
  method SendAll(socket: Socket, data: Octets, deadline: int, clock: Clock) returns (raised: bool)
    requires !socket.failed
    modifies socket, clock
    ensures raised <==> socket.failed || (clock.now >= deadline && socket.taken != old(socket.taken) + data)
    ensures !raised ==> socket.taken == old(socket.taken) + data
    ensures raised ==> exists n: nat | n < |data| :: socket.taken == old(socket.taken) + data[..n]
    ensures clock.now >= old(clock.now)
    // Each send is given just what is left of the deadline, and that is something.
    ensures old(socket.sendings) <= socket.sendings
    ensures forall i | |old(socket.sendings)| <= i < |socket.sendings| ::
              InTime(socket.sendings[i], old(clock.now), deadline)
  {
    var view := data;
    ghost var sent := 0;
    while view != []
      invariant sent <= |data| && view == data[sent..] && !socket.failed
      invariant socket.taken == old(socket.taken) + data[..sent]
      invariant clock.now >= old(clock.now) && old(socket.sendings) <= socket.sendings
      invariant forall i | |old(socket.sendings)| <= i < |socket.sendings| ::
                  InTime(socket.sendings[i], old(clock.now), deadline)
      decreases |view|
    {
      var reading := clock.Monotonic();
      if deadline - reading <= 0 {
        return true;
      }
      socket.timeout := deadline - reading;
      var n, failed := socket.Send(view[..Min(|view|, SEND_CHUNK)], reading);
      if failed {
        return true;
      }
      assert data[..sent] + view[..n] == data[..sent + n];
      view, sent := view[n..], sent + n;
    }
    return false;
  }
}
