/**
 * `SessionTransport`: one connection kept for each scheme, host and port, and one exchange at a time over it.
 *
 * A connection is driven through steps that may each succeed or raise. The peer answers the requests written on a
 * connection in order and sends nothing else: `peer` says what it sends in answer to each call. `Valid` holds between
 * calls over every run, and `Call` says what one call returns.
 */
module Sessions {
  import opened Options
  import opened Octets
  import opened Bounded

  const CLIENT_ERROR: int := 400
  /** The longest timeout, in the milliseconds all times are counted in. */
  const MAX_TIMEOUT: int := 2_147_483_647

  datatype Key = Key(scheme: string, host: string, port: nat)

  type Peer = nat -> Sent

  /** How the write of a request ends: whole, or with an error that says the peer is gone, or with another. */
  datatype Write = Written | Stale | Broken

  /**
   * One try at writing a request: whether one was tried over its connection before, how the write ended, the clock
   * reading taken last before it, and the deadline and the timeout its connection was held to.
   */
  datatype Attempt = Attempt(call: nat, reused: bool, write: Write, reading: int, deadline: int, timeout: int)

  /** The tries made, and of every other step the clock reading taken last before it. */
  datatype Record = Record(attempts: seq<Attempt>, begun: seq<int>)

  /**
   * Every try at writing a request, in order, when every other step began, and how many steps have raised, but for a
   * stale write over a connection used before. The steps themselves keep it, so none can be left out of it or made up.
   */
  class Log {
    ghost var attempts: seq<Attempt>
    ghost var begun: seq<int>
    ghost var raises: nat

    ghost constructor ()
      ensures attempts == [] && begun == [] && raises == 0
    {
      attempts, begun, raises := [], [], 0;
    }

    ghost function Kept(): Record
      reads `attempts, `begun
    {
      Record(attempts, begun)
    }
  }

  /** Held to the deadline: begun before it, with just the time that was left as the timeout. */
  predicate Held(a: Attempt, start: int, deadline: int) {
    a.deadline == deadline && start <= a.reading < deadline && a.timeout == deadline - a.reading
  }

  /** Every step since `before` was begun from `start` on and before the deadline, and every try was held to it. */
  predicate Timely(before: Record, after: Record, start: int, deadline: int) {
    before.attempts <= after.attempts && before.begun <= after.begun &&
    (forall k | |before.attempts| <= k < |after.attempts| :: Held(after.attempts[k], start, deadline)) &&
    (forall k | |before.begun| <= k < |after.begun| :: start <= after.begun[k] < deadline)
  }

  lemma TimelyNone(record: Record, start: int, deadline: int)
    ensures Timely(record, record, start, deadline)
  {
  }

  lemma TimelyStep(before: Record, after: Record, now: int, deadline: int)
    requires after == Record(before.attempts, before.begun + [now]) && now < deadline
    ensures Timely(before, after, now, deadline)
  {
  }

  lemma TimelyOn(a: Record, b: Record, c: Record, start: int, middle: int, deadline: int)
    requires Timely(a, b, start, deadline) && Timely(b, c, middle, deadline) && start <= middle
    ensures Timely(a, c, start, deadline)
  {
  }

  /** One connection, open from when the factory answers it until it is closed. */
  class Connection {
    const key: Key
    const peer: Peer
    ghost const log: Log
    ghost var tried: bool
    /** Whether the last probe saw the peer gone. */
    ghost var gone: bool
    var closed: bool
    var deadline: int
    var timeout: int
    /** What is on the wire: the calls whose requests are written whole and whose status lines have not been read. */
    var unanswered: seq<nat>
    /** The response whose status line was read last, of which some may still be on the wire. */
    var current: Option<Response>

    constructor (key: Key, peer: Peer, timeout: int, ghost log: Log)
      ensures this.key == key && this.peer == peer && !closed && unanswered == [] && current == None
      ensures this.log == log && !tried && !gone && this.timeout == timeout
    {
      this.key, this.peer, this.timeout := key, peer, timeout;
      this.log, tried, gone := log, false, false;
      closed, deadline := false, 0;
      unanswered, current := [], None;
    }

    /** Nothing of an earlier response is still to come. */
    predicate Drained()
      reads `current, (if current.Some? then {current.value} else {})`rest
    {
      current.Some? ==> current.value.rest == []
    }

    /** Open, with no request to be answered and nothing of an answer unread. */
    predicate Idle()
      reads `closed, `unanswered, `current, (if current.Some? then {current.value} else {})`rest
    {
      !closed && unanswered == [] && Drained()
    }

    method Close()
      modifies `closed
      ensures closed
    {
      closed := true;
    }

    /** The probe before a reuse: a socket readable with no request in flight is one whose peer is gone. */
    method IsDead(ghost clock: Clock) returns (dead: bool, raised: bool)
      modifies `gone, log`raises, log`begun
      ensures gone == dead && log.raises == old(log.raises) + if raised then 1 else 0
      ensures log.begun == old(log.begun) + [clock.now]
    {
      log.begun := log.begun + [clock.now];
      dead, raised := *, *;
      gone := dead;
      log.raises := log.raises + if raised then 1 else 0;
    }

    /** The timeout of the socket is set, which may raise all the same. */
    method SetTimeout(left: int, ghost clock: Clock) returns (raised: bool)
      modifies `timeout, log`raises, log`begun
      ensures timeout == left && log.raises == old(log.raises) + if raised then 1 else 0
      ensures log.begun == old(log.begun) + [clock.now]
    {
      log.begun := log.begun + [clock.now];
      timeout := left;
      raised := *;
      log.raises := log.raises + if raised then 1 else 0;
    }

    method Request(call: nat, ghost clock: Clock) returns (write: Write)
      requires !closed && !gone && timeout > 0
      modifies `unanswered, `tried, log`attempts, log`raises
      ensures unanswered == if write == Written then old(unanswered) + [call] else old(unanswered)
      ensures tried
      ensures log.attempts == old(log.attempts) + [Attempt(call, old(tried), write, clock.now, deadline, timeout)]
      ensures log.raises == old(log.raises) + if write == Written || (write == Stale && old(tried)) then 0 else 1
    {
      write := *;
      log.raises := log.raises + if write == Written || (write == Stale && tried) then 0 else 1;
      log.attempts := log.attempts + [Attempt(call, tried, write, clock.now, deadline, timeout)];
      tried := true;
      if write == Written {
        unanswered := unanswered + [call];
      }
    }

    /**
     * The status line of the next response. Where something of an earlier response is still to come, it is that which
     * is read for a status line: anything at all.
     */
    method GetResponse(ghost clock: Clock) returns (response: Option<Response>)
      modifies `unanswered, `current, log`raises, log`begun
      ensures log.begun == old(log.begun) + [clock.now]
      ensures log.raises == old(log.raises) + if response.None? then 1 else 0
      ensures response.None? ==> unanswered == old(unanswered) && current == old(current)
      ensures response.Some? ==>
                fresh(response.value) && current == response && !response.value.closed && !response.value.failed &&
                (old(Drained()) && old(unanswered) != [] ==>
                   unanswered == old(unanswered[1..]) && Carries(response.value, peer(old(unanswered[0]))))
    {
      log.begun := log.begun + [clock.now];
      var raised: bool := *;
      if raised {
        log.raises := log.raises + 1;
        return None;
      }
      var sent: Sent := *;
      if Drained() && unanswered != [] {
        sent, unanswered := peer(unanswered[0]), unanswered[1..];
      }
      var answer := new Response(sent);
      response := Some(answer);
      current := response;
    }
  }

  /** A response that carries what the peer sent, none of its body read. */
  ghost predicate Carries(response: Response, sent: Sent)
    reads response
  {
    response.status == sent.status && response.willClose == sent.willClose &&
    response.announced == sent.announced && response.rest == sent.body && response.receives == []
  }

  /**
   * No call is tried again, save once on a fresh connection after a stale write on one that was used before. `next` is
   * the call to come.
   */
  predicate SentOnce(attempts: seq<Attempt>, next: nat) {
    (forall i | 0 <= i < |attempts| :: attempts[i].call < next) &&
    (forall i, j | 0 <= i < j < |attempts| && attempts[i].call == attempts[j].call ::
       j == i + 1 && attempts[i].write == Stale && attempts[i].reused && !attempts[j].reused)
  }

  /** A first try, of a call not tried before. */
  lemma FirstTry(attempts: seq<Attempt>, call: nat, a: Attempt)
    requires SentOnce(attempts, call) && a.call == call
    ensures SentOnce(attempts + [a], call + 1)
  {
  }

  /** A second try, on a fresh connection after a stale write on one used before. */
  lemma SecondTry(attempts: seq<Attempt>, call: nat, a: Attempt, b: Attempt)
    requires SentOnce(attempts, call) && a.call == b.call == call
    requires a.write == Stale && a.reused && !b.reused
    ensures SentOnce(attempts + [a] + [b], call + 1)
  {
  }

  /** What was tried since `before` was tried for that call. */
  predicate Only(before: seq<Attempt>, after: seq<Attempt>, call: nat) {
    before <= after && forall k | |before| <= k < |after| :: after[k].call == call
  }

  /** What was tried since `before` was tried for that call, and something was; `write` is how the last try ended. */
  predicate Tried(before: seq<Attempt>, after: seq<Attempt>, call: nat, write: Write) {
    Only(before, after, call) && |before| < |after| && after[|after| - 1].write == write
  }

  /** What a call returns of what the peer sent: the body, or under an error status the start of it. */
  function Received(sent: Sent): (int, Octets) {
    (sent.status,
     if sent.status >= CLIENT_ERROR then sent.body[..Min(MAX_ERROR_BODY_SIZE, |sent.body|)] else sent.body)
  }

  /** Whether a body is announced or found to be larger than what the caller asked for. */
  predicate TooBig(announced: Option<int>, size: nat, max: int) {
    size > max || (announced.Some? && announced.value > max)
  }

  class SessionTransport {
    const peer: Peer
    var connections: map<Key, Connection>
    /** Every connection the factory answered, and every response read over one. */
    ghost var made: set<Connection>
    ghost var responses: set<Response>
    ghost const log: Log
    /** The calls made so far. */
    var calls: nat

    constructor (peer: Peer)
      ensures Valid() && fresh(made) && fresh(responses) && fresh(log)
      ensures this.peer == peer && connections == map[] && calls == 0
    {
      this.peer := peer;
      connections, made, responses := map[], {}, {};
      calls := 0;
      log := new Log();
    }

    /** The responses of the connections are theirs alone. */
    ghost predicate Owned()
      reads this, made`current
    {
      (forall c | c in made :: c.peer == peer && c.log == log && (c.current.Some? ==> c.current.value in responses)) &&
      (forall c, e | c in made && e in made && c != e && c.current.Some? :: c.current != e.current)
    }

    /**
     * Each connection the factory answered is closed, or is the one pooled for its key, and never both. Each pooled
     * one is open with nothing of an earlier response unread, except that a response is being read over the one for
     * `during`. And no request is ever written whole twice.
     */
    ghost predicate ValidDuring(during: Option<Key>)
      reads this, made`closed, made`unanswered, made`tried, made`current, responses`rest, log`attempts
    {
      Owned() && Accounted() &&
      (forall k | k in connections ::
         connections[k].key == k && !connections[k].closed && connections[k].unanswered == [] &&
         connections[k].tried) &&
      (forall k | k in connections && Some(k) != during :: connections[k].Drained()) &&
      SentOnce(log.attempts, calls)
    }

    ghost predicate Accounted()
      reads this, made`closed
    {
      (forall k | k in connections :: connections[k] in made) &&
      (forall c | c in made :: c.closed || (c.key in connections && connections[c.key] == c))
    }

    ghost predicate Valid()
      reads this, made`closed, made`unanswered, made`tried, made`current, responses`rest, log`attempts
    {
      ValidDuring(None)
    }

    /** The time left before the deadline, or nothing where there is none. */
    method TimeLeft(deadline: int, clock: Clock) returns (left: Option<int>)
      modifies clock
      ensures left == if clock.now < deadline then Some(deadline - clock.now) else None
      ensures clock.now >= old(clock.now)
    {
      var reading := clock.Monotonic();
      left := if deadline - reading > 0 then Some(deadline - reading) else None;
    }

    /** An exchange is under way for `key` over `c`, which may not be pooled yet; every other is as between calls. */
    ghost predicate Exchanging(key: Key, c: Connection)
      reads this, made`closed, made`unanswered, made`tried, made`current, responses`rest
    {
      Owned() && c in made && c.key == key &&
      (forall k | k in connections ::
         connections[k] in made && connections[k].key == k &&
         if k == key then connections[k] == c || connections[k].closed
         else connections[k].Idle() && connections[k].tried) &&
      (forall e | e in made :: e.closed || e == c || (e.key in connections && connections[e.key] == e))
    }

    /** Fit for a write: its peer not seen gone, held to the deadline, and its timeout what is left of it. */
    ghost predicate HeldTo(c: Connection, deadline: int, clock: Clock)
      reads c`gone, c`deadline, c`timeout, clock
    {
      !c.gone && c.deadline == deadline && c.timeout == deadline - clock.now > 0
    }

    /** No connection is open for `key`; every other one is as between calls. */
    ghost predicate Vacant(key: Key)
      reads this, made`closed, made`unanswered, made`tried, made`current, responses`rest
    {
      Owned() &&
      (forall k | k in connections ::
         connections[k] in made && connections[k].key == k &&
         if k == key then connections[k].closed else connections[k].Idle() && connections[k].tried) &&
      (forall e | e in made :: e.closed || (e.key in connections && connections[e.key] == e))
    }

    lemma NoneIsVacant(key: Key)
      requires Valid() && key !in connections
      ensures Vacant(key)
    {
      hide SentOnce;
    }

    lemma PooledIsExchanging(key: Key)
      requires Valid() && key in connections
      ensures Exchanging(key, connections[key]) && connections[key].Idle() && connections[key].tried
      ensures connections[key] in made && connections[key].log == log && SentOnce(log.attempts, calls)
    {
      hide SentOnce;
    }

    /** The factory: a fresh connection, or an exception. */
    method Factory(key: Key, timeout: int, ghost clock: Clock) returns (connection: Option<Connection>)
      modifies log`raises, log`begun
      ensures log.begun == old(log.begun) + [clock.now]
      ensures log.raises == old(log.raises) + if connection.None? then 1 else 0
      ensures connection.Some? ==>
                var c := connection.value;
                fresh(c) && c.key == key && c.peer == peer && c.log == log && c.timeout == timeout &&
                !c.tried && !c.gone && !c.closed && c.unanswered == [] && c.current == None
    {
      log.begun := log.begun + [clock.now];
      var raised: bool := *;
      if raised {
        log.raises := log.raises + 1;
        return None;
      }
      var c := new Connection(key, peer, timeout, log);
      return Some(c);
    }

    /** Ask the factory for a connection within the time left. */
    method Connect(key: Key, deadline: int, clock: Clock) returns (connection: Option<Connection>)
      requires Vacant(key)
      modifies clock, `made, log`raises, log`begun
      ensures Timely(old(log.Kept()), log.Kept(), old(clock.now), deadline)
      ensures clock.now >= old(clock.now) && log.raises >= old(log.raises)
      ensures connection.None? ==> log.raises > old(log.raises) || clock.now >= deadline
      ensures old(made) <= made
      ensures connection.None? ==> made == old(made)
      ensures connection.Some? ==>
                var c := connection.value;
                made == old(made) + {c} && fresh(c) && !c.tried && c.Idle() && Exchanging(key, c) &&
                HeldTo(c, deadline, clock)
    {
      var left := TimeLeft(deadline, clock);
      if left.None? {
        return None;
      }
      connection := Factory(key, left.value, clock);
      if connection.Some? {
        connection.value.deadline := deadline;
        made := made + {connection.value};
      }
    }

    /** Close the connection of the exchange and drop what is pooled for its key. */
    method Discard(key: Key, c: Connection)
      requires Exchanging(key, c) && SentOnce(log.attempts, calls)
      modifies c`closed, `connections
      ensures Valid() && c.closed && connections == old(connections) - {key}
    {
      c.Close();
      connections := connections - {key};
    }

    /** Hold a pooled connection to the deadline, its socket to the time left. */
    method Hold(c: Connection, deadline: int, clock: Clock) returns (held: bool)
      requires c.log == log && !c.gone
      modifies c`timeout, c`deadline, clock, log`raises, log`begun
      ensures clock.now >= old(clock.now) && log.raises >= old(log.raises)
      ensures if held then HeldTo(c, deadline, clock) else log.raises > old(log.raises) || clock.now >= deadline
      ensures Timely(old(log.Kept()), log.Kept(), old(clock.now), deadline)
    {
      var left := TimeLeft(deadline, clock);
      if left.None? {
        return false;
      }
      var raised := c.SetTimeout(left.value, clock);
      if raised {
        return false;
      }
      c.deadline := deadline;
      return true;
    }

    /** The connection pooled for `key` where its peer is there, and a fresh one where none is. */
    method Acquire(key: Key, deadline: int, clock: Clock) returns (connection: Option<Connection>, reused: bool)
      requires Valid() && clock.now < deadline
      modifies this`connections, this`made, made, clock, log`raises, log`begun
      ensures Timely(old(log.Kept()), log.Kept(), old(clock.now), deadline)
      ensures clock.now >= old(clock.now) && log.raises >= old(log.raises)
      ensures connection.None? ==> log.raises > old(log.raises) || clock.now >= deadline
      ensures connections - {key} == old(connections) - {key}
      ensures old(made) <= made && fresh(made - old(made))
      ensures connection.None? ==> Valid()
      ensures connection.Some? ==>
                var c := connection.value;
                Exchanging(key, c) && c.Idle() && HeldTo(c, deadline, clock) &&
                (reused <==> key in old(connections) && !old(connections)[key].gone) &&
                if reused then key in old(connections) && c == old(connections[key]) && c in old(made) && c.tried
                else fresh(c) && !c.tried
    {
      hide Owned, Exchanging, Vacant, ValidDuring, Accounted, Timely, HeldTo;
      ghost var before := log.Kept();
      connection := if key in connections then Some(connections[key]) else None;
      reused := connection.Some?;
      if connection.Some? {
        PooledIsExchanging(key);
        var dead, raised := connection.value.IsDead(clock);
        TimelyStep(before, log.Kept(), clock.now, deadline);
        if raised {
          return None, reused;
        }
        if dead {
          Discard(key, connection.value);
          connection, reused := None, false;
        }
      } else {
        TimelyNone(before, clock.now, deadline);
      }
      ghost var middle := log.Kept();
      if connection.None? {
        NoneIsVacant(key);
        connection := Connect(key, deadline, clock);
      } else {
        var held := Hold(connection.value, deadline, clock);
        connection := if held then connection else None;
      }
      TimelyOn(before, middle, log.Kept(), old(clock.now), old(clock.now), deadline);
    }

    /** One try at writing the request of the call over the connection of the exchange. */
    method Write(key: Key, c: Connection, call: nat, deadline: int, ghost clock: Clock) returns (write: Write)
      requires Exchanging(key, c) && c.Idle() && HeldTo(c, deadline, clock)
      modifies c`unanswered, c`tried, log`attempts, log`raises
      ensures Exchanging(key, c) && HeldTo(c, deadline, clock) && c.tried
      ensures Timely(old(log.Kept()), log.Kept(), clock.now, deadline)
      ensures write == Written ==> !c.closed && c.unanswered == [call] && c.Drained()
      ensures log.attempts == old(log.attempts) + [Attempt(call, old(c.tried), write, clock.now, deadline, c.timeout)]
      ensures log.raises == old(log.raises) + if write == Written || (write == Stale && old(c.tried)) then 0 else 1
    {
      write := c.Request(call, clock);
    }

    /** Close the connection of the exchange, so that none is open for its key. */
    method Shut(key: Key, c: Connection)
      requires Exchanging(key, c)
      modifies c`closed
      ensures Exchanging(key, c) && c.closed && Vacant(key)
    {
      c.Close();
    }

    /**
     * Write the request of the call. A stale write on a connection pooled before the call is tried once more on a
     * fresh one; whatever else happens, the write is not tried again.
     */
    method WriteRequest(key: Key, first: Connection, reused: bool, call: nat, deadline: int, clock: Clock)
      returns (c: Connection, write: Write)
      requires Exchanging(key, first) && first.Idle() && SentOnce(log.attempts, call) && calls == call + 1
      requires reused == first.tried && HeldTo(first, deadline, clock)
      modifies this`made, log, first, clock
      ensures old(made) <= made && fresh(made - old(made))
      ensures Exchanging(key, c) && SentOnce(log.attempts, calls) && c.tried
      ensures clock.now >= old(clock.now) && log.raises >= old(log.raises)
      ensures write != Written ==> log.raises > old(log.raises) || clock.now >= deadline
      ensures write == Written ==> !c.closed && c.unanswered == [call] && c.Drained() && clock.now < deadline
      ensures c == first || fresh(c)
      ensures Tried(old(log.attempts), log.attempts, call, write)
      ensures Timely(old(log.Kept()), log.Kept(), old(clock.now), deadline)
    {
      hide SentOnce, Vacant, Exchanging, Owned, Timely;
      c := first;
      ghost var before := log.Kept();
      write := Write(key, c, call, deadline, clock);
      ghost var a := log.attempts[|before.attempts|];
      FirstTry(before.attempts, call, a);
      if write == Stale && reused {
        ghost var middle, reading := log.Kept(), clock.now;
        c, write := TryAgain(key, c, call, before.attempts, a, deadline, clock);
        TimelyOn(before, middle, log.Kept(), old(clock.now), reading, deadline);
      }
    }

    /** Try a stale write once more, on a fresh connection. */
    method TryAgain(
        key: Key, stale: Connection, call: nat, ghost before: seq<Attempt>, ghost a: Attempt, deadline: int,
        clock: Clock)
      returns (c: Connection, write: Write)
      requires Exchanging(key, stale) && stale.tried
      requires SentOnce(before, call) && calls == call + 1
      requires log.attempts == before + [a] && SentOnce(log.attempts, calls)
      requires a.call == call && a.reused && a.write == Stale
      modifies this`made, log, stale`closed, clock
      ensures old(made) <= made && fresh(made - old(made))
      ensures Exchanging(key, c) && SentOnce(log.attempts, calls) && c.tried
      ensures clock.now >= old(clock.now) && log.raises >= old(log.raises)
      ensures write != Written ==> log.raises > old(log.raises) || clock.now >= deadline
      ensures write == Written ==> !c.closed && c.unanswered == [call] && c.Drained() && clock.now < deadline
      ensures c == stale || fresh(c)
      ensures Tried(before, log.attempts, call, write)
      ensures Timely(old(log.Kept()), log.Kept(), old(clock.now), deadline)
    {
      hide SentOnce, Vacant, Exchanging, Owned, Timely;
      c, write := stale, Stale;
      Shut(key, c);
      ghost var first := log.Kept();
      var next := Connect(key, deadline, clock);
      if next.Some? {
        c := next.value;
        ghost var middle, reading := log.Kept(), clock.now;
        write := Write(key, c, call, deadline, clock);
        TimelyOn(first, middle, log.Kept(), old(clock.now), reading, deadline);
        ghost var b := log.attempts[|before| + 1];
        SecondTry(before, call, a, b);
      }
    }

    /** Count a call. */
    method Count() returns (call: nat)
      requires Valid()
      modifies `calls
      ensures Valid() && SentOnce(log.attempts, call)
      ensures call == old(calls) && calls == call + 1
    {
      call := calls;
      calls := calls + 1;
    }

    /** The response is the one to this call's request, and it belongs to no other connection. */
    method Receive(key: Key, c: Connection, call: nat, ghost deadline: int, ghost clock: Clock)
      returns (response: Option<Response>)
      requires Exchanging(key, c) && !c.closed && c.unanswered == [call] && c.Drained() && clock.now < deadline
      modifies `responses, c`unanswered, c`current, log`raises, log`begun
      ensures Timely(old(log.Kept()), log.Kept(), clock.now, deadline)
      ensures log.raises >= old(log.raises) && (response.None? ==> log.raises > old(log.raises))
      ensures responses == old(responses) + if response.Some? then {response.value} else {}
      ensures Exchanging(key, c)
      ensures response.Some? ==>
                c.unanswered == [] && c.current == response && response.value in responses &&
                fresh(response.value) && !response.value.closed && !response.value.failed &&
                Carries(response.value, peer(call))
    {
      hide Carries;
      response := c.GetResponse(clock);
      if response.Some? {
        responses := responses + {response.value};
      }
    }

    /** Keep the connection that a response has started to come over. */
    method Pool(key: Key, c: Connection)
      requires Exchanging(key, c) && SentOnce(log.attempts, calls) && !c.closed && c.unanswered == [] && c.tried
      modifies `connections
      ensures ValidDuring(Some(key)) && connections == old(connections)[key := c]
    {
      hide SentOnce;
      connections := connections[key := c];
    }

    /** Send the request of the call over the connection of the exchange, and keep it or discard it. */
    method Ask(key: Key, first: Connection, reused: bool, call: nat, deadline: int, clock: Clock)
      returns (response: Option<Response>)
      requires Exchanging(key, first) && first.Idle() && SentOnce(log.attempts, call) && calls == call + 1
      requires reused == first.tried && HeldTo(first, deadline, clock)
      modifies this`connections, this`made, this`responses, log, first, clock
      ensures connections - {key} == old(connections) - {key}
      ensures clock.now >= old(clock.now) && log.raises >= old(log.raises)
      ensures response.None? ==> log.raises > old(log.raises) || clock.now >= deadline
      ensures old(made) <= made && fresh(made - old(made))
      ensures responses == old(responses) + if response.Some? then {response.value} else {}
      ensures Only(old(log.attempts), log.attempts, call)
      ensures Timely(old(log.Kept()), log.Kept(), old(clock.now), deadline)
      ensures response.None? ==> Valid()
      ensures response.Some? ==>
                Tried(old(log.attempts), log.attempts, call, Written) &&
                ValidDuring(Some(key)) && key in connections && connections[key].current == response &&
                response.value in responses && fresh(response.value) && !response.value.closed &&
                !response.value.failed && Carries(response.value, peer(call))
    {
      hide Owned, Exchanging, ValidDuring, Accounted, SentOnce, Carries, HeldTo, Only, Timely;
      ghost var before := log.Kept();
      var c, write := WriteRequest(key, first, reused, call, deadline, clock);
      response := None;
      if write == Written {
        ghost var middle := log.Kept();
        response := Receive(key, c, call, deadline, clock);
        TimelyOn(before, middle, log.Kept(), old(clock.now), clock.now, deadline);
      }
      if response.Some? {
        Pool(key, c);
      } else {
        Discard(key, c);
      }
    }

    /** One exchange up to its status line: on every path the pool is in order for what comes next. */
    method SendAndReceive(key: Key, deadline: int, clock: Clock) returns (response: Option<Response>)
      requires Valid() && clock.now < deadline
      modifies this, made, log, clock
      ensures connections - {key} == old(connections) - {key}
      ensures calls == old(calls) + 1
      ensures clock.now >= old(clock.now) && log.raises >= old(log.raises)
      ensures response.None? ==> log.raises > old(log.raises) || clock.now >= deadline
      ensures old(made) <= made && fresh(made - old(made))
      ensures responses == old(responses) + if response.Some? then {response.value} else {}
      ensures Only(old(log.attempts), log.attempts, old(calls))
      ensures Timely(old(log.Kept()), log.Kept(), old(clock.now), deadline)
      ensures response.None? ==> Valid()
      ensures response.Some? ==>
                Tried(old(log.attempts), log.attempts, old(calls), Written) &&
                ValidDuring(Some(key)) && key in connections && connections[key].current == response &&
                response.value in responses && fresh(response.value) && !response.value.closed &&
                !response.value.failed && Carries(response.value, peer(old(calls)))
    {
      hide Owned, Exchanging, ValidDuring, Accounted, SentOnce, Carries, HeldTo, Tried, Timely;
      ghost var before := log.Kept();
      var call := Count();
      var connection, reused := Acquire(key, deadline, clock);
      if connection.None? {
        return None;
      }
      ghost var middle, reading := log.Kept(), clock.now;
      response := Ask(key, connection.value, reused, call, deadline, clock);
      TimelyOn(before, middle, log.Kept(), old(clock.now), reading, deadline);
    }

    /** Close the connection a response came over and drop it. */
    method Evict(key: Key, c: Connection)
      requires ValidDuring(Some(key)) && key in connections && connections[key] == c
      modifies c`closed, `connections
      ensures Valid() && connections == old(connections) - {key} && c.closed
    {
      c.Close();
      connections := connections - {key};
    }

    /** A connection whose response has been read to its end may stay. */
    lemma Stay(key: Key)
      requires ValidDuring(Some(key)) && key in connections && connections[key].Drained()
      ensures Valid()
    {
    }

    /** Keep the connection a response was read over, or close and drop it. */
    method Settle(key: Key, c: Connection, keep: bool)
      requires ValidDuring(Some(key)) && key in connections && connections[key] == c && (keep ==> c.Drained())
      modifies c`closed, `connections
      ensures Valid() && connections == if keep then old(connections) else old(connections) - {key}
    {
      if keep {
        Stay(key);
      } else {
        Evict(key, c);
      }
    }

    /** Read the body of a response: an error's is cut at its bound, any other is held to `max`. */
    method ReadReply(key: Key, response: Response, max: int, deadline: int, clock: Clock)
      returns (read: Read, toTheEnd: bool)
      requires ValidDuring(Some(key)) && key in connections && connections[key].current == Some(response)
      requires !response.closed && !response.failed && max >= 0
      modifies response, clock
      ensures clock.now >= old(clock.now)
      ensures !read.Body? ==>
                response.failed || clock.now > deadline ||
                (response.status < CLIENT_ERROR && TooBig(response.announced, |old(response.rest)|, max))
      ensures ValidDuring(Some(key))
      ensures read.Body? ==> clock.now <= deadline
      ensures old(response.receives) <= response.receives
      ensures forall i | |old(response.receives)| <= i < |response.receives| :: response.receives[i].0 <= deadline
      ensures read.Body? && toTheEnd ==> response.rest == []
      ensures response.status < CLIENT_ERROR ==> toTheEnd
      ensures read.Body? && |old(response.rest)| <= MAX_ERROR_BODY_SIZE ==> toTheEnd
      ensures read.Body? ==>
                var body := old(response.rest);
                if response.status >= CLIENT_ERROR then
                  read.body == body[..Min(MAX_ERROR_BODY_SIZE, |body|)] &&
                  (toTheEnd ==> |body| <= MAX_ERROR_BODY_SIZE + 1)
                else read.body == body && |body| <= max
    {
      toTheEnd := true;
      if response.status >= CLIENT_ERROR {
        read := ReadBounded(response, MAX_ERROR_BODY_SIZE, deadline, true, clock);
        toTheEnd := response.closed;
      } else {
        read := ReadBounded(response, max, deadline, false, clock);
      }
    }

    /** One call: answered with what the peer sent for it, or not at all, the pool in order either way. */
    method Call(key: Key, timeout: int, max: int, clock: Clock)
      returns (answer: Option<(int, Octets)>, ghost entry: int)
      requires Valid()
      modifies this, made, responses, log, clock
      ensures connections - {key} == old(connections) - {key}
      ensures Valid()
      ensures old(made) <= made && fresh(made - old(made))
      ensures old(responses) <= responses && fresh(responses - old(responses))
      // Whatever is tried is tried for this call; what is returned was asked for by a request written whole.
      ensures Only(old(log.attempts), log.attempts, old(calls)) && calls <= old(calls) + 1
      ensures old(calls) <= calls && (log.attempts != old(log.attempts) ==> calls == old(calls) + 1)
      ensures answer.Some? ==> Tried(old(log.attempts), log.attempts, old(calls), Written)
      // The deadline is the timeout after the clock was read on entry. Every step is begun before it, every write is
      // held to it with what is left of it as the timeout, no receive is begun past it, and nothing returned past it.
      ensures old(clock.now) <= entry <= clock.now
      ensures Timely(old(log.Kept()), log.Kept(), entry, entry + timeout)
      ensures forall r, i | r in responses && fresh(r) && 0 <= i < |r.receives| :: r.receives[i].0 <= entry + timeout
      ensures answer.Some? ==> clock.now <= entry + timeout
      // An invalid timeout or limit costs no request.
      ensures !(0 < timeout <= MAX_TIMEOUT) || max < 0 ==>
                answer.None? && log.attempts == old(log.attempts) &&
                connections == old(connections) && made == old(made)
      // What is returned is what the peer sent for this very call, whole but for an error's body past its bound.
      ensures answer.Some? ==>
                answer.value == Received(peer(old(calls))) && calls == old(calls) + 1 &&
                (answer.value.0 < CLIENT_ERROR ==> |answer.value.1| <= max)
      // Nothing is returned only where a step raised, the time ran out, or the answer is larger than asked for. A stale
      // write over a connection used before is no reason: it is tried again.
      ensures answer.None? && 0 < timeout <= MAX_TIMEOUT && max >= 0 ==>
                log.raises > old(log.raises) || (exists r | r in responses && fresh(r) :: r.failed) ||
                clock.now >= entry + timeout ||
                (peer(old(calls)).status < CLIENT_ERROR &&
                 TooBig(peer(old(calls)).announced, |peer(old(calls)).body|, max))
      // The connection is kept for the next call, unless the peer closes or the body is cut short.
      ensures answer.Some? && (answer.value.0 < CLIENT_ERROR || |peer(old(calls)).body| <= MAX_ERROR_BODY_SIZE) ==>
                (key in connections <==> !peer(old(calls)).willClose)
      ensures answer.Some? &&
              (peer(old(calls)).willClose ||
               (answer.value.0 >= CLIENT_ERROR && |peer(old(calls)).body| > MAX_ERROR_BODY_SIZE + 1)) ==>
                key !in connections
    {
      hide Owned, ValidDuring, Accounted, SentOnce, Timely;
      answer, entry := None, clock.now;
      TimelyNone(log.Kept(), entry, entry + timeout);
      if !(0 < timeout <= MAX_TIMEOUT) || max < 0 {
        return;
      }
      var reading := clock.Monotonic();
      entry := reading;
      var deadline := reading + timeout;
      var received := SendAndReceive(key, deadline, clock);
      if received.None? {
        return;
      }
      var response := received.value;
      var read, toTheEnd := ReadReply(key, response, max, deadline, clock);
      if !read.Body? {
        Evict(key, connections[key]);
        return;
      }
      Settle(key, connections[key], !response.willClose && toTheEnd);
      answer := Some((response.status, read.body));
    }

    /** Afterwards every connection ever made is closed: there was none open outside the pool. */
    method Close()
      requires Valid()
      modifies this`connections, made
      ensures Valid() && connections == map[] && forall c | c in made :: c.closed
    {
      var left := connections.Keys;
      while left != {}
        invariant left <= connections.Keys && Owned() && Accounted() && SentOnce(log.attempts, calls)
        invariant forall k | k in connections :: connections[k].key == k
        invariant forall k | k in connections.Keys - left :: connections[k].closed
        decreases left
      {
        var k :| k in left;
        connections[k].Close();
        left := left - {k};
      }
      connections := map[];
    }
  }

  datatype Action = Exchange(key: Key, timeout: int, max: int) | CloseAll

  /** Whether a request for that call was written whole since `before`. */
  predicate WrittenFor(before: seq<Attempt>, after: seq<Attempt>, call: nat) {
    exists k | |before| <= k < |after| :: after[k].call == call && after[k].write == Written
  }

  /** The calls that actions made are in order, and each try since `before` was made for one of them. */
  predicate MadeFor(before: seq<Attempt>, after: seq<Attempt>, asked: seq<Option<nat>>, next: nat) {
    before <= after &&
    (forall k | |before| <= k < |after| :: Some(after[k].call) in asked) &&
    (forall i | 0 <= i < |asked| && asked[i].Some? :: asked[i].value < next) &&
    (forall i, j | 0 <= i < j < |asked| && asked[i].Some? && asked[j].Some? :: asked[i].value < asked[j].value)
  }

  lemma MadeNext(
      before: seq<Attempt>, middle: seq<Attempt>, after: seq<Attempt>, asked: seq<Option<nat>>, next: nat, later: nat)
    requires MadeFor(before, middle, asked, next) && Only(middle, after, next)
    requires later == next + 1 || (later == next && after == middle)
    ensures MadeFor(before, after, asked + [if later == next then None else Some(next)], later)
  {
    var more := asked + [if later == next then None else Some(next)];
    forall k | |before| <= k < |after|
      ensures Some(after[k].call) in more
    {
      if k < |middle| {
        assert Some(middle[k].call) in asked;
      } else {
        assert more[|asked|] == Some(after[k].call);
      }
    }
  }

  /** Each try since `before` was held to the deadline of the action it was made for: its timeout after its entry. */
  predicate HeldFor(
      before: seq<Attempt>, after: seq<Attempt>, script: seq<Action>, asked: seq<Option<nat>>, entries: seq<int>)
    requires |entries| == |asked| <= |script|
  {
    before <= after &&
    forall k | |before| <= k < |after| :: InItsTime(after[k], script, asked, entries)
  }

  predicate InItsTime(a: Attempt, script: seq<Action>, asked: seq<Option<nat>>, entries: seq<int>)
    requires |entries| == |asked| <= |script|
  {
    exists i | 0 <= i < |asked| ::
      asked[i] == Some(a.call) && script[i].Exchange? && Held(a, entries[i], entries[i] + script[i].timeout)
  }

  lemma HeldNext(
      before: seq<Attempt>, middle: seq<Attempt>, after: seq<Attempt>, script: seq<Action>, asked: seq<Option<nat>>,
      entries: seq<int>, call: nat, later: nat, entry: int)
    requires |entries| == |asked| < |script| && HeldFor(before, middle, script, asked, entries)
    requires Only(middle, after, call) && (after != middle ==> later == call + 1 && script[|asked|].Exchange?)
    requires after != middle ==>
               forall k | |middle| <= k < |after| :: Held(after[k], entry, entry + script[|asked|].timeout)
    ensures HeldFor(before, after, script, asked + [if later == call then None else Some(call)], entries + [entry])
  {
    hide Held;
    var more, all := asked + [if later == call then None else Some(call)], entries + [entry];
    forall k | |before| <= k < |after|
      ensures InItsTime(after[k], script, more, all)
    {
      if k < |middle| {
        assert InItsTime(middle[k], script, asked, entries);
        var i :| 0 <= i < |asked| && asked[i] == Some(middle[k].call) && script[i].Exchange? &&
                 Held(middle[k], entries[i], entries[i] + script[i].timeout);
        assert more[i] == Some(after[k].call) && all[i] == entries[i];
      } else {
        assert more[|asked|] == Some(after[k].call) && all[|asked|] == entry;
      }
    }
  }

  lemma WrittenLater(before: seq<Attempt>, middle: seq<Attempt>, after: seq<Attempt>, call: nat)
    requires middle <= after && WrittenFor(before, middle, call)
    ensures WrittenFor(before, after, call)
  {
    var k :| |before| <= k < |middle| && middle[k].call == call && middle[k].write == Written;
    assert after[k] == middle[k];
  }

  lemma WrittenNow(before: seq<Attempt>, middle: seq<Attempt>, after: seq<Attempt>, call: nat)
    requires before <= middle && Tried(middle, after, call, Written)
    ensures WrittenFor(before, after, call)
  {
    assert after[|after| - 1].call == call;
  }

  /** One action: what a call returns, or nothing where everything is closed. */
  method Act(transport: SessionTransport, action: Action, clock: Clock)
    returns (answer: Option<(int, Octets)>, ghost entry: int)
    requires transport.Valid()
    modifies transport, transport.made, transport.responses, transport.log, clock
    ensures transport.Valid()
    ensures fresh(transport.made - old(transport.made)) && fresh(transport.responses - old(transport.responses))
    ensures Only(old(transport.log.attempts), transport.log.attempts, old(transport.calls))
    ensures old(transport.calls) <= transport.calls <= old(transport.calls) + 1
    ensures transport.log.attempts != old(transport.log.attempts) ==>
              action.Exchange? && transport.calls == old(transport.calls) + 1 &&
              forall k | |old(transport.log.attempts)| <= k < |transport.log.attempts| ::
                Held(transport.log.attempts[k], entry, entry + action.timeout)
    ensures answer.Some? ==>
              action.Exchange? && transport.calls == old(transport.calls) + 1 &&
              answer.value == Received(transport.peer(old(transport.calls))) &&
              Tried(old(transport.log.attempts), transport.log.attempts, old(transport.calls), Written)
  {
    hide transport.Owned, transport.Accounted, transport.ValidDuring, SentOnce, Received, Held;
    answer, entry := None, 0;
    match action {
      case Exchange(key, timeout, max) =>
        answer, entry := transport.Call(key, timeout, max, clock);
      case CloseAll =>
        transport.Close();
    }
  }

  /**
   * A run: calls and closes in any order. `asked` says which call each action made, if it made one. Each answer is what
   * the peer sent for the one call of its action, whose request was written whole; and over all tries of all actions,
   * no request written whole is ever tried again, and each try was held to the deadline of its own action, the timeout
   * of which ran from `entries` on. At the end the pool is as it is between calls.
   */
  method Run(transport: SessionTransport, script: seq<Action>, clock: Clock)
    returns (answers: seq<Option<(int, Octets)>>, ghost asked: seq<Option<nat>>, ghost entries: seq<int>)
    requires transport.Valid()
    modifies transport, transport.made, transport.responses, transport.log, clock
    ensures transport.Valid()
    ensures |answers| == |asked| == |entries| == |script|
    ensures forall i | 0 <= i < |script| && answers[i].Some? ::
              script[i].Exchange? && asked[i].Some? && answers[i].value == Received(transport.peer(asked[i].value)) &&
              WrittenFor(old(transport.log.attempts), transport.log.attempts, asked[i].value)
    ensures MadeFor(old(transport.log.attempts), transport.log.attempts, asked, transport.calls)
    ensures HeldFor(old(transport.log.attempts), transport.log.attempts, script, asked, entries)
    // Two tries for one call are one right after the other, so there are never three: the first a write that failed on
    // a connection used before, the second on a fresh one.
    ensures
      var log := transport.log.attempts;
      forall i, j | 0 <= i < j < |log| && log[i].call == log[j].call ::
        j == i + 1 && log[i].write == Stale && log[i].reused && !log[j].reused
  {
    answers, asked, entries := [], [], [];
    var n := 0;
    while n < |script|
      invariant transport.Valid() && n <= |script| && |answers| == |asked| == |entries| == n
      invariant fresh(transport.made - old(transport.made)) && fresh(transport.responses - old(transport.responses))
      invariant forall i | 0 <= i < n && answers[i].Some? ::
                  script[i].Exchange? && asked[i].Some? &&
                  answers[i].value == Received(transport.peer(asked[i].value)) &&
                  WrittenFor(old(transport.log.attempts), transport.log.attempts, asked[i].value)
      invariant MadeFor(old(transport.log.attempts), transport.log.attempts, asked, transport.calls)
      invariant HeldFor(old(transport.log.attempts), transport.log.attempts, script, asked, entries)
    {
      hide transport.Valid, SentOnce, WrittenFor, Received, HeldFor, MadeFor, Held;
      ghost var call, middle := transport.calls, transport.log.attempts;
      var answer;
      ghost var entry;
      answer, entry := Act(transport, script[n], clock);
      ghost var before, after := old(transport.log.attempts), transport.log.attempts;
      assert before <= middle by {
        Kept(before, middle, asked, call);
      }
      MadeNext(before, middle, after, asked, call, transport.calls);
      HeldNext(before, middle, after, script, asked, entries, call, transport.calls, entry);
      forall i | 0 <= i < n && answers[i].Some?
        ensures WrittenFor(before, after, asked[i].value)
      {
        WrittenLater(before, middle, after, asked[i].value);
      }
      if answer.Some? {
        WrittenNow(before, middle, after, call);
      }
      asked := asked + [if transport.calls == call then None else Some(call)];
      answers, entries := answers + [answer], entries + [entry];
      n := n + 1;
    }
    LoggedOnce(transport);
  }

  lemma Kept(before: seq<Attempt>, after: seq<Attempt>, asked: seq<Option<nat>>, next: nat)
    requires MadeFor(before, after, asked, next)
    ensures before <= after
  {
  }

  lemma LoggedOnce(transport: SessionTransport)
    requires transport.Valid()
    ensures SentOnce(transport.log.attempts, transport.calls)
  {
    hide SentOnce, transport.Owned, transport.Accounted;
  }
}
