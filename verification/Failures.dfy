/**
 * A streamed reply under a status other than 200: its body is cut to a diagnosis, and decided as one read whole is.
 *
 * `FailureBody` keeps the octets `ReadBounded` keeps of the same body, and `FailureSays` is what they can say.
 */
module Failures {
  import opened Options
  import opened Octets
  import opened Grammar
  import opened Unambiguity
  import opened Encodings
  import opened Bounded
  import opened Replies
  import opened Calls
  import Values

  /** One read of a streamed body: refused past the deadline, and where the response raises. */
  method StreamRead(response: Response, size: nat, deadline: int, clock: Clock) returns (chunk: Octets, raised: bool)
    requires size > 0 && (response.closed ==> response.rest == []) && !response.failed
    modifies response, clock
    ensures response.closed ==> response.rest == []
    ensures |chunk| <= size && chunk + response.rest == old(response.rest)
    ensures !raised ==> !response.failed && (chunk == [] <==> old(response.rest) == [])
    ensures raised ==> response.failed || clock.now > deadline
    ensures old(response.receives) <= response.receives
    ensures forall i | |old(response.receives)| <= i < |response.receives| ::
              response.receives[i].0 <= deadline && response.receives[i].1 <= Min(size, READ_CHUNK)
  {
    var reading := clock.Monotonic();
    if reading > deadline {
      return [], true;
    }
    chunk, raised := response.Read1(Min(size, READ_CHUNK), reading);
  }

  /** The start of the body of a failure, or nothing where reading it fails. */
  method FailureBody(response: Response, deadline: int, clock: Clock) returns (body: Octets, ghost failed: bool)
    requires (response.closed ==> response.rest == []) && !response.failed
    modifies response, clock
    ensures response.closed ==> response.rest == []
    ensures failed ==> response.failed || clock.now > deadline
    ensures body == if failed then [] else old(response.rest)[..Min(MAX_ERROR_BODY_SIZE, |old(response.rest)|)]
    ensures |response.rest| <= |old(response.rest)| <= |response.rest| + MAX_ERROR_BODY_SIZE
    ensures old(response.receives) <= response.receives
    ensures forall i | |old(response.receives)| <= i < |response.receives| :: response.receives[i].0 <= deadline
  {
    ghost var whole := response.rest;
    body, failed := [], false;
    while |body| < MAX_ERROR_BODY_SIZE
      invariant |body| <= MAX_ERROR_BODY_SIZE && body + response.rest == whole
      invariant (response.closed ==> response.rest == []) && !response.failed
      invariant old(response.receives) <= response.receives
      invariant forall i | |old(response.receives)| <= i < |response.receives| :: response.receives[i].0 <= deadline
    {
      var chunk, raised := StreamRead(response, MAX_ERROR_BODY_SIZE - |body|, deadline, clock);
      if raised {
        assert |whole| == |body| + |chunk| + |response.rest|;
        return [], true;
      }
      if chunk == [] {
        break;
      }
      assert body + chunk + response.rest == whole;
      body := body + chunk;
    }
    assert body == whole[..|body|];
  }

  /**
   * What a failure answers: the error of the node where its body is a legacy reply to this very call with a readable
   * error, and the status everywhere else, as where its body could not be read.
   */
  lemma FailureSays(d: Octets, id: Values.Chars, status: int, reach: nat, builds: Octets -> bool)
    requires status != 200
    ensures
      var answer, v := Called(d, id, status, reach, builds), Parsed(d, reach, builds);
      (answer.RpcError? || answer == HttpError(status)) &&
      (answer.RpcError? <==>
         v.Some? && v.value.JObject? &&
         var reply := ReplyOf(v.value.members);
         IsLegacy(reply) && reply.id == Some(Values.JString(id)) && reply.error.Some? &&
         IsReadable(reply.error.value)) &&
      (answer.RpcError? ==>
         Says(ReplyOf(v.value.members).error.value, answer.code, answer.message, answer.data))
    ensures d == [] ==> Called(d, id, status, reach, builds) == HttpError(status)
  {
    hide Discriminate, IsReadable, Says, ReplyOf, IsDocument, Recoded;
    var v := Parsed(d, reach, builds);
    if v.Some? && v.value.JObject? {
      RpcErrorExactly(id, status, ReplyOf(v.value.members));
      StatusSurvives(id, status, ReplyOf(v.value.members));
    }
    if d == [] && v.Some? {
      assert Recoded([]) == Some([]) by {
        NothingIsPlain();
      }
      NotEmpty(d, ParsedTree(d, reach, builds).value, reach, builds);
    }
  }

  lemma NothingIsPlain()
    ensures Recoded([]) == Some([])
  {
  }

  lemma NotEmpty(d: Octets, t: Tree, depth: nat, num: Octets -> bool)
    requires IsDocument(d, t, depth, num)
    ensures d != []
  {
    var q := DocumentStart(d, t, depth, num);
    FirstOctet(d, q, t, depth, num);
  }
}
