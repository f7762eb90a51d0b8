/** A batch of calls: its replies matched to its requests by id, in whatever order they arrive. */
module Batches {
  import opened Options
  import opened Values
  import opened Replies
  import opened Calls

  /** The id a reply echoes, where it is an object with a string for one. */
  function EchoedId(reply: Json): (id: Option<Chars>)
    ensures id.Some? ==> reply.JObject?
  {
    if !reply.JObject? then None
    else
      var id := Get(reply.members, ID);
      if id.Some? && id.value.JString? then Some(id.value.chars) else None
  }

  /** Whether a reply is to the request of that id: an object whose last `id` is the string. */
  predicate RepliesTo(reply: Json, id: Chars) {
    reply.JObject? && Get(reply.members, ID) == Some(JString(id))
  }

  predicate RepliesToOne(reply: Json, ids: seq<Chars>) {
    exists id | id in ids :: RepliesTo(reply, id)
  }

  /** Whether a batch reply answers the requests: as many objects as requests, each to one sent, no two to the same. */
  ghost predicate Correlated(ids: seq<Chars>, replies: seq<Json>) {
    |replies| == |ids| &&
    (forall i | 0 <= i < |replies| :: RepliesToOne(replies[i], ids)) &&
    (forall i, j, id | 0 <= i < j < |replies| && RepliesTo(replies[i], id) :: !RepliesTo(replies[j], id))
  }

  /** Every id sent, with the one reply to it. */
  ghost predicate IsIndex(byId: map<Chars, Json>, ids: seq<Chars>, replies: seq<Json>) {
    (forall id :: id in byId <==> id in ids) &&
    (forall id | id in byId :: byId[id] in replies && RepliesTo(byId[id], id))
  }

  /** The same, by the id each reply echoes. */
  predicate EchoedApart(ids: seq<Chars>, replies: seq<Json>) {
    |replies| == |ids| &&
    (forall i | 0 <= i < |replies| :: EchoedId(replies[i]).Some? && EchoedId(replies[i]).value in ids) &&
    (forall i, j | 0 <= i < j < |replies| :: EchoedId(replies[i]) != EchoedId(replies[j]))
  }

  lemma EchoIs(reply: Json)
    ensures forall id :: EchoedId(reply) == Some(id) <==> RepliesTo(reply, id)
  {
  }

  lemma CorrelatedByEcho(ids: seq<Chars>, replies: seq<Json>)
    ensures Correlated(ids, replies) <==> EchoedApart(ids, replies)
  {
    hide EchoedId, RepliesTo;
    forall i | 0 <= i < |replies|
      ensures forall id :: EchoedId(replies[i]) == Some(id) <==> RepliesTo(replies[i], id)
    {
      EchoIs(replies[i]);
    }
    if Correlated(ids, replies) {
      forall i | 0 <= i < |replies|
        ensures EchoedId(replies[i]).Some? && EchoedId(replies[i]).value in ids
      {
        var id :| id in ids && RepliesTo(replies[i], id);
        assert EchoedId(replies[i]) == Some(id);
      }
      forall i, j | 0 <= i < j < |replies|
        ensures EchoedId(replies[i]) != EchoedId(replies[j])
      {
        assert RepliesTo(replies[i], EchoedId(replies[i]).value);
      }
    }
    if EchoedApart(ids, replies) {
      forall i | 0 <= i < |replies|
        ensures RepliesToOne(replies[i], ids)
      {
        assert RepliesTo(replies[i], EchoedId(replies[i]).value);
      }
    }
  }

  /** Each entry is a reply under its own id, which was sent. */
  ghost predicate EntriesRight(found: map<Chars, Json>, ids: seq<Chars>, replies: seq<Json>) {
    forall id | id in found :: id in ids && found[id] in replies && EchoedId(found[id]) == Some(id)
  }

  /** The first `i` replies have entries, no two the same. */
  ghost predicate EntriesFor(found: map<Chars, Json>, replies: seq<Json>, i: nat)
    requires i <= |replies|
  {
    (forall j | 0 <= j < i :: EchoedId(replies[j]).Some? && EchoedId(replies[j]).value in found) &&
    (forall j, k | 0 <= j < k < i :: EchoedId(replies[j]) != EchoedId(replies[k]))
  }

  /** The first `i` replies, each found under its own id, which was sent, and no two under the same. */
  ghost predicate Indexed(found: map<Chars, Json>, ids: seq<Chars>, replies: seq<Json>, i: nat)
    requires i <= |replies|
  {
    |found| == i && EntriesRight(found, ids, replies) && EntriesFor(found, replies, i)
  }

  lemma IndexedNext(found: map<Chars, Json>, ids: seq<Chars>, replies: seq<Json>, i: nat, id: Chars)
    requires i < |replies| && Indexed(found, ids, replies, i)
    requires EchoedId(replies[i]) == Some(id) && id in ids && id !in found
    ensures Indexed(found[id := replies[i]], ids, replies, i + 1)
  {
    hide EchoedId, EntriesRight, EntriesFor;
    assert found[id := replies[i]].Keys == found.Keys + {id};
    RightNext(found, ids, replies, id, replies[i]);
    ForNext(found, replies, i, id);
  }

  lemma RightNext(found: map<Chars, Json>, ids: seq<Chars>, replies: seq<Json>, id: Chars, reply: Json)
    requires EntriesRight(found, ids, replies)
    requires reply in replies && EchoedId(reply) == Some(id) && id in ids && id !in found
    ensures EntriesRight(found[id := reply], ids, replies)
  {
    hide EchoedId;
  }

  lemma ForNext(found: map<Chars, Json>, replies: seq<Json>, i: nat, id: Chars)
    requires i < |replies| && EntriesFor(found, replies, i) && EchoedId(replies[i]) == Some(id) && id !in found
    ensures EntriesFor(found[id := replies[i]], replies, i + 1)
  {
    hide EchoedId;
  }

  /** The replies by the id each echoes, or nothing where they do not answer the requests. */
  method CorrelatedReplies(ids: seq<Chars>, replies: seq<Json>) returns (byId: Option<map<Chars, Json>>)
    ensures byId.Some? <==> Correlated(ids, replies)
    ensures byId.Some? ==> IsIndex(byId.value, ids, replies)
  {
    hide EchoedId, Indexed, EchoedApart, Correlated, IsIndex;
    CorrelatedByEcho(ids, replies);
    if |replies| != |ids| {
      NotCorrelated(ids, replies, map[], 0);
      return None;
    }
    var sent := set id | id in ids;
    var found: map<Chars, Json> := map[];
    IndexedNone(ids, replies);
    for i := 0 to |replies|
      invariant Indexed(found, ids, replies, i)
    {
      var reply := replies[i];
      var id := EchoedId(reply);
      if id.None? || id.value !in sent || id.value in found {
        NotCorrelated(ids, replies, found, i);
        return None;
      }
      IndexedNext(found, ids, replies, i, id.value);
      found := found[id.value := reply];
    }
    IndexedAll(found, ids, replies);
    return Some(found);
  }

  lemma IndexedNone(ids: seq<Chars>, replies: seq<Json>)
    ensures Indexed(map[], ids, replies, 0)
  {
  }

  lemma NotCorrelated(ids: seq<Chars>, replies: seq<Json>, found: map<Chars, Json>, i: nat)
    requires i <= |replies| && (|replies| == |ids| ==> i < |replies| && Indexed(found, ids, replies, i))
    requires
      |replies| == |ids| ==>
        var id := EchoedId(replies[i]);
        id.None? || id.value !in ids || id.value in found
    ensures !EchoedApart(ids, replies)
  {
    hide EchoedId;
    if |replies| == |ids| && EchoedId(replies[i]).Some? && EchoedId(replies[i]).value in found {
      EarlierEcho(found, ids, replies, i, EchoedId(replies[i]).value);
    }
  }

  /** An id found already is one an earlier reply echoes: as many ids are found as replies were read. */
  lemma EarlierEcho(found: map<Chars, Json>, ids: seq<Chars>, replies: seq<Json>, i: nat, id: Chars)
    requires i <= |replies| && Indexed(found, ids, replies, i) && id in found
    ensures exists j | 0 <= j < i :: EchoedId(replies[j]) == Some(id)
  {
    hide EchoedId;
    if forall j | 0 <= j < i :: EchoedId(replies[j]) != Some(id) {
      var echoed := set j | 0 <= j < i :: EchoedId(replies[j]).value;
      CountEchoes(replies, i, echoed);
      assert echoed <= found.Keys - {id};
      SizeOfSubset(echoed, found.Keys - {id});
    }
  }

  lemma {:induction false} CountEchoes(replies: seq<Json>, i: nat, echoed: set<Chars>)
    requires i <= |replies| && forall j | 0 <= j < i :: EchoedId(replies[j]).Some?
    requires forall j, k | 0 <= j < k < i :: EchoedId(replies[j]) != EchoedId(replies[k])
    requires echoed == set j | 0 <= j < i :: EchoedId(replies[j]).value
    ensures |echoed| == i
    decreases i
  {
    hide EchoedId;
    if i > 0 {
      var fewer := set j | 0 <= j < i - 1 :: EchoedId(replies[j]).value;
      CountEchoes(replies, i - 1, fewer);
      var last := EchoedId(replies[i - 1]).value;
      assert echoed == fewer + {last};
      assert last !in fewer by {
        forall j | 0 <= j < i - 1
          ensures EchoedId(replies[j]).value != last
        {
          assert EchoedId(replies[j]) != EchoedId(replies[i - 1]);
        }
      }
    }
  }

  lemma {:induction false} SizeOfSubset(a: set<Chars>, b: set<Chars>)
    requires a <= b
    ensures |a| <= |b|
    decreases |a|
  {
    if x :| x in a {
      SizeOfSubset(a - {x}, b - {x});
    }
  }

  lemma IndexedAll(found: map<Chars, Json>, ids: seq<Chars>, replies: seq<Json>)
    requires |replies| == |ids| && Indexed(found, ids, replies, |replies|)
    ensures EchoedApart(ids, replies) && IsIndex(found, ids, replies)
  {
    hide EchoedId, RepliesTo;
    Pigeonhole(ids, found.Keys);
    forall id | id in found
      ensures RepliesTo(found[id], id)
    {
      EchoIs(found[id]);
    }
  }

  /** As many distinct ids as were sent, each of them sent, are all that were sent. */
  lemma Pigeonhole(ids: seq<Chars>, keys: set<Chars>)
    requires |keys| == |ids| && forall id | id in keys :: id in ids
    ensures forall id :: id in keys <==> id in ids
  {
    var sent := set id | id in ids;
    AtMost(ids, sent);
    SubsetOfSize(keys, sent);
  }

  lemma {:induction false} AtMost(ids: seq<Chars>, sent: set<Chars>)
    requires sent == set id | id in ids
    ensures |sent| <= |ids|
    decreases |ids|
  {
    if ids != [] {
      var rest := set id | id in ids[1..];
      AtMost(ids[1..], rest);
      assert sent == rest + {ids[0]};
    }
  }

  lemma {:induction false} SubsetOfSize(a: set<Chars>, b: set<Chars>)
    requires a <= b && |a| >= |b|
    ensures a == b
    decreases |a|
  {
    if x :| x in a {
      SubsetOfSize(a - {x}, b - {x});
      assert a == a - {x} + {x} && b == b - {x} + {x};
    } else {
      assert a == {} && |b| == 0;
    }
  }

  /** A result, or an error the node computed: an answer to one member of a batch. */
  predicate IsAnswer<R>(answer: Answer<R>) {
    answer.Result? || answer.RpcError?
  }

  /** Whether the answer is what a reply to the request of that id says to it. */
  predicate Answers(replies: seq<Json>, id: Chars, answer: Answer<Json>) {
    exists reply | reply in replies ::
      RepliesTo(reply, id) && answer == Discriminate(id, 200, ReplyOf(reply.members))
  }

  /** Each request beside what the reply to it answers. */
  predicate Aligned(ids: seq<Chars>, replies: seq<Json>, answers: seq<Answer<Json>>) {
    |answers| == |ids| &&
    forall i | 0 <= i < |ids| :: Answers(replies, ids[i], answers[i])
  }

  /** Whether every reply is an answer to the request it replies to. */
  ghost predicate AllAnswer(replies: seq<Json>) {
    forall reply, id | reply in replies && RepliesTo(reply, id) ::
      IsAnswer(Discriminate(id, 200, ReplyOf(reply.members)))
  }

  /**
   * The results of a batch, aligned with its requests: of each, its result, or the error the node computed for it as a
   * value. Nothing where the exchange as a whole is no answer.
   */
  method BatchResults(ids: seq<Chars>, replies: seq<Json>) returns (answers: Option<seq<Answer<Json>>>)
    ensures answers.Some? <==> Correlated(ids, replies) && AllAnswer(replies)
    ensures answers.Some? ==> Aligned(ids, replies, answers.value)
  {
    hide EchoedId, Correlated, AllAnswer, Discriminate, ReplyOf;
    var byId := CorrelatedReplies(ids, replies);
    if byId.None? {
      return None;
    }
    var done: seq<Answer<Json>> := [];
    for i := 0 to |ids|
      invariant |done| == i
      invariant forall j | 0 <= j < i ::
                  done[j] == Discriminate(ids[j], 200, ReplyOf(byId.value[ids[j]].members)) && IsAnswer(done[j])
    {
      var reply := byId.value[ids[i]];
      var answer := Discriminate(ids[i], 200, ReplyOf(reply.members));
      if !IsAnswer(answer) {
        NotAllAnswer(replies, reply, ids[i]);
        return None;
      }
      done := done + [answer];
    }
    AllIndexedAnswer(ids, replies, byId.value, done);
    AlignedById(ids, replies, byId.value, done);
    return Some(done);
  }

  lemma NotAllAnswer(replies: seq<Json>, reply: Json, id: Chars)
    requires reply in replies && RepliesTo(reply, id) && !IsAnswer(Discriminate(id, 200, ReplyOf(reply.members)))
    ensures !AllAnswer(replies)
  {
  }

  lemma AllIndexedAnswer(ids: seq<Chars>, replies: seq<Json>, byId: map<Chars, Json>, answers: seq<Answer<Json>>)
    requires Correlated(ids, replies) && IsIndex(byId, ids, replies) && |answers| == |ids|
    requires forall i | 0 <= i < |ids| ::
               answers[i] == Discriminate(ids[i], 200, ReplyOf(byId[ids[i]].members)) && IsAnswer(answers[i])
    ensures AllAnswer(replies)
  {
    hide Discriminate, ReplyOf, Correlated, IsIndex, IsAnswer;
    forall reply, id | reply in replies && RepliesTo(reply, id)
      ensures IsAnswer(Discriminate(id, 200, ReplyOf(reply.members)))
    {
      EachIsIndexed(ids, replies, byId, reply, id);
    }
  }

  /** Whether a parsed body answers the batch: an array of replies, one to each request, each of them an answer. */
  ghost predicate AnswersBatch(ids: seq<Chars>, body: Option<Json>) {
    body.Some? && body.value.JArray? && Correlated(ids, body.value.items) && AllAnswer(body.value.items)
  }

  /** What `call_batch` makes of a status and of a body, parsed where it could be. */
  method BatchAnswer(ids: seq<Chars>, status: int, body: Option<Json>) returns (results: Answer<seq<Answer<Json>>>)
    ensures results.HttpError? <==> status != 200
    ensures results.HttpError? ==> results.status == status
    ensures results.Result? <==> status == 200 && AnswersBatch(ids, body)
    ensures results.Result? ==> Aligned(ids, body.value.items, results.value)
    ensures !results.RpcError?
  {
    hide Correlated, AllAnswer, IsAnswer, Aligned;
    if status != 200 {
      return HttpError(status);
    }
    if body.None? || !body.value.JArray? {
      return FetchError;
    }
    var answers := BatchResults(ids, body.value.items);
    if answers.None? {
      return FetchError;
    }
    return Result(answers.value);
  }

  lemma AlignedById(
      ids: seq<Chars>, replies: seq<Json>, byId: map<Chars, Json>, answers: seq<Answer<Json>>)
    requires IsIndex(byId, ids, replies) && |answers| == |ids|
    requires forall i | 0 <= i < |ids| :: answers[i] == Discriminate(ids[i], 200, ReplyOf(byId[ids[i]].members))
    ensures Aligned(ids, replies, answers)
  {
    hide Discriminate, ReplyOf;
    forall i | 0 <= i < |ids|
      ensures Answers(replies, ids[i], answers[i])
    {
      var reply := byId[ids[i]];
      assert reply in replies && RepliesTo(reply, ids[i]);
    }
  }

  lemma OneReply(ids: seq<Chars>, replies: seq<Json>, x: Json, y: Json, id: Chars)
    requires Correlated(ids, replies) && x in replies && y in replies && RepliesTo(x, id) && RepliesTo(y, id)
    ensures x == y
  {
    hide RepliesTo;
    var j :| 0 <= j < |replies| && replies[j] == x;
    var k :| 0 <= k < |replies| && replies[k] == y;
    assert j == k;
  }

  /** Every reply of a correlated batch is the one looked up for the request it is to. */
  lemma EachIsIndexed(ids: seq<Chars>, replies: seq<Json>, byId: map<Chars, Json>, reply: Json, id: Chars)
    requires Correlated(ids, replies) && IsIndex(byId, ids, replies) && reply in replies && RepliesTo(reply, id)
    ensures exists i | 0 <= i < |ids| :: ids[i] == id && byId[ids[i]] == reply
  {
    var j :| 0 <= j < |replies| && replies[j] == reply;
    assert id in ids;
    OneReply(ids, replies, reply, byId[id], id);
  }

  // ----- The order of the replies -----

  function Echoes(replies: seq<Json>): seq<Option<Chars>> {
    seq(|replies|, i requires 0 <= i < |replies| => EchoedId(replies[i]))
  }

  lemma {:induction false} DistinctBySize<T>(xs: seq<T>)
    ensures |set x | x in xs| <= |xs|
    ensures (forall i, j | 0 <= i < j < |xs| :: xs[i] != xs[j]) <==> |set x | x in xs| == |xs|
    decreases |xs|
  {
    if xs != [] {
      var rest := xs[1..];
      DistinctBySize(rest);
      var all, some := set x | x in xs, set x | x in rest;
      assert all == some + {xs[0]};
      if xs[0] in rest {
        assert all == some;
        var j :| 0 <= j < |rest| && rest[j] == xs[0];
        assert xs[j + 1] == xs[0];
      } else {
        assert |all| == |some| + 1;
        if forall i, j | 0 <= i < j < |rest| :: rest[i] != rest[j] {
          forall i, j | 0 <= i < j < |xs|
            ensures xs[i] != xs[j]
          {
            if i > 0 {
              assert rest[i - 1] != rest[j - 1];
            } else {
              assert rest[j - 1] == xs[j];
            }
          }
        } else {
          var i, j :| 0 <= i < j < |rest| && rest[i] == rest[j];
          assert xs[i + 1] == xs[j + 1];
        }
      }
    }
  }

  lemma SameMembers(r: seq<Json>, s: seq<Json>)
    requires multiset(r) == multiset(s)
    ensures |r| == |s| && forall x :: x in r <==> x in s
  {
    assert |multiset(r)| == |multiset(s)|;
    forall x
      ensures x in r <==> x in s
    {
      assert x in r <==> x in multiset(r);
      assert x in s <==> x in multiset(s);
    }
  }

  lemma ApartBySets(ids: seq<Chars>, replies: seq<Json>)
    ensures
      EchoedApart(ids, replies) <==>
      |replies| == |ids| &&
      (forall reply | reply in replies :: EchoedId(reply).Some? && EchoedId(reply).value in ids) &&
      |set reply | reply in replies :: EchoedId(reply)| == |replies|
  {
    hide EchoedId;
    var echoes := Echoes(replies);
    DistinctBySize(echoes);
    assert forall i | 0 <= i < |replies| :: echoes[i] == EchoedId(replies[i]);
    assert (set reply | reply in replies :: EchoedId(reply)) == set e | e in echoes;
    if forall i, j | 0 <= i < j < |replies| :: EchoedId(replies[i]) != EchoedId(replies[j]) {
      forall i, j | 0 <= i < j < |echoes|
        ensures echoes[i] != echoes[j]
      {
        assert EchoedId(replies[i]) != EchoedId(replies[j]);
      }
    }
    if forall i, j | 0 <= i < j < |echoes| :: echoes[i] != echoes[j] {
      forall i, j | 0 <= i < j < |replies|
        ensures EchoedId(replies[i]) != EchoedId(replies[j])
      {
        assert echoes[i] != echoes[j];
      }
    }
  }

  /** Replies in whatever order are found under the same ids. */
  lemma IndexIsUnique(ids: seq<Chars>, r: seq<Json>, s: seq<Json>, m: map<Chars, Json>, n: map<Chars, Json>)
    requires multiset(r) == multiset(s) && Correlated(ids, r) && IsIndex(m, ids, r) && IsIndex(n, ids, s)
    ensures m == n
  {
    hide RepliesTo;
    SameMembers(r, s);
    forall id | id in ids
      ensures m[id] == n[id]
    {
      OneReply(ids, r, m[id], n[id], id);
    }
  }

  /** Whether a batch reply answers, by what map, and with what, does not depend on the order its replies come in. */
  lemma OrderIsIrrelevant(
      ids: seq<Chars>, r: seq<Json>, s: seq<Json>, a: seq<Answer<Json>>, b: seq<Answer<Json>>)
    requires multiset(r) == multiset(s)
    ensures Correlated(ids, r) <==> Correlated(ids, s)
    ensures forall m, n | Correlated(ids, r) && IsIndex(m, ids, r) && IsIndex(n, ids, s) :: m == n
    ensures AllAnswer(r) <==> AllAnswer(s)
    ensures Correlated(ids, r) && Aligned(ids, r, a) && Aligned(ids, s, b) ==> a == b
  {
    hide RepliesTo, Discriminate, ReplyOf, IsAnswer, IsIndex, Correlated, Aligned;
    SameMembers(r, s);
    CorrelatedAlike(ids, r, s);
    forall m, n | Correlated(ids, r) && IsIndex(m, ids, r) && IsIndex(n, ids, s)
      ensures m == n
    {
      IndexIsUnique(ids, r, s, m, n);
    }
    if Correlated(ids, r) && Aligned(ids, r, a) && Aligned(ids, s, b) {
      AlignedAlike(ids, r, s, a, b);
    }
  }

  lemma CorrelatedAlike(ids: seq<Chars>, r: seq<Json>, s: seq<Json>)
    requires multiset(r) == multiset(s)
    ensures Correlated(ids, r) <==> Correlated(ids, s)
  {
    hide EchoedId, EchoedApart, Correlated;
    SameMembers(r, s);
    CorrelatedByEcho(ids, r);
    CorrelatedByEcho(ids, s);
    ApartBySets(ids, r);
    ApartBySets(ids, s);
    assert (set reply | reply in r :: EchoedId(reply)) == set reply | reply in s :: EchoedId(reply);
  }

  lemma AlignedAlike(ids: seq<Chars>, r: seq<Json>, s: seq<Json>, a: seq<Answer<Json>>, b: seq<Answer<Json>>)
    requires multiset(r) == multiset(s) && Correlated(ids, r) && Aligned(ids, r, a) && Aligned(ids, s, b)
    ensures a == b
  {
    hide Discriminate, ReplyOf, Correlated;
    SameMembers(r, s);
    forall i | 0 <= i < |ids|
      ensures a[i] == b[i]
    {
      assert Answers(r, ids[i], a[i]) && Answers(s, ids[i], b[i]);
      var x :| x in r && RepliesTo(x, ids[i]) && a[i] == Discriminate(ids[i], 200, ReplyOf(x.members));
      var y :| y in s && RepliesTo(y, ids[i]) && b[i] == Discriminate(ids[i], 200, ReplyOf(y.members));
      OneReply(ids, r, x, y, ids[i]);
    }
  }
}
