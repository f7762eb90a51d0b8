/** What a JSON-RPC reply means: which version it is read as, and whether it answers with a result or with an error. */
module Replies {
  import opened Options
  import opened Values
  import opened Quantities

  const JSONRPC: Chars := [0x6A, 0x73, 0x6F, 0x6E, 0x72, 0x70, 0x63]
  const ID: Chars := [0x69, 0x64]
  const ERROR: Chars := [0x65, 0x72, 0x72, 0x6F, 0x72]
  const RESULT: Chars := [0x72, 0x65, 0x73, 0x75, 0x6C, 0x74]
  const CODE: Chars := [0x63, 0x6F, 0x64, 0x65]
  const MESSAGE: Chars := [0x6D, 0x65, 0x73, 0x73, 0x61, 0x67, 0x65]
  const DATA: Chars := [0x64, 0x61, 0x74, 0x61]
  const TWO_ZERO: Chars := [0x32, 0x2E, 0x30]

  /** The members of a reply that are read. `R` is what a result is held as. */
  datatype Reply<+R> = Reply(jsonrpc: Option<Json>, id: Option<Json>, error: Option<Json>, result: Option<R>)

  /** What a call returns, or the class of the exception it raises. */
  datatype Answer<+R> =
    | Result(value: R)
    | RpcError(code: int, message: Chars, data: Json)
    | HttpError(status: int)
    | FetchError

  function GetOr(o: Option<Json>, default: Json): Json {
    if o.Some? then o.value else default
  }

  /** An error the node computed: an object with an integer code and a string message. */
  function ReadError<R>(error: Json): Answer<R> {
    if !error.JObject? then FetchError
    else
      var code := GetOr(Get(error.members, CODE), JNull);
      var message := GetOr(Get(error.members, MESSAGE), JNull);
      if !code.JNumber? || !IsIntegerText(code.text) || !message.JString? then FetchError
      else RpcError(Integer(code.text), message.chars, GetOr(Get(error.members, DATA), JNull))
  }

  function LegacyResult<R>(id: Chars, status: int, reply: Reply<R>): Answer<R> {
    var ours := reply.id == Some(JString(id));
    var error := GetOr(reply.error, JNull);
    if ours && error != JNull then
      var e := ReadError<R>(error);
      if e.RpcError? || status == 200 then e else HttpError(status)
    else if status != 200 then HttpError(status)
    else if !ours then FetchError
    else if reply.result.None? then FetchError
    else Result(reply.result.value)
  }

  function V2Result<R>(id: Chars, status: int, reply: Reply<R>): Answer<R> {
    if status != 200 then HttpError(status)
    else if reply.id != Some(JString(id)) then FetchError
    else if reply.result.Some? == reply.error.Some? then FetchError
    else if reply.error.Some? then ReadError(reply.error.value)
    else Result(reply.result.value)
  }

  function Discriminate<R>(id: Chars, status: int, reply: Reply<R>): Answer<R> {
    if reply.jsonrpc.None? then LegacyResult(id, status, reply)
    else if reply.jsonrpc != Some(JString(TWO_ZERO)) then
      if status != 200 then HttpError(status) else FetchError
    else V2Result(id, status, reply)
  }

  // ----- What the two dialects promise -----

  predicate IsLegacy<R>(reply: Reply<R>) {
    reply.jsonrpc.None?
  }

  predicate IsV2<R>(reply: Reply<R>) {
    reply.jsonrpc == Some(JString(TWO_ZERO))
  }

  /** A call returns a result exactly for a 200 that echoes its id with a result and, by its dialect, no error. */
  lemma ResultExactly<R>(id: Chars, status: int, reply: Reply<R>)
    ensures
      Discriminate(id, status, reply).Result? <==>
      status == 200 && reply.id == Some(JString(id)) && reply.result.Some? &&
      ((IsLegacy(reply) && (reply.error.None? || reply.error == Some(JNull))) || (IsV2(reply) && reply.error.None?))
    ensures Discriminate(id, status, reply).Result? ==> Discriminate(id, status, reply) == Result(reply.result.value)
  {
    if reply.error.Some? && IsV2(reply) && reply.result.None? {
      assert !ReadError<R>(reply.error.value).Result?;
    }
  }

  /** An error object that can be read: its last `code` is an integer and its last `message` a string. */
  predicate IsReadable(error: Json) {
    error.JObject? &&
    var code, message := Get(error.members, CODE), Get(error.members, MESSAGE);
    code.Some? && code.value.JNumber? && IsIntegerText(code.value.text) && message.Some? && message.value.JString?
  }

  /** What an error object says: the integer its code is, its message, and its last `data`, null where it has none. */
  predicate Says(error: Json, code: int, message: Chars, data: Json) {
    IsReadable(error) &&
    code == Integer(Get(error.members, CODE).value.text) &&
    Get(error.members, MESSAGE) == Some(JString(message)) &&
    (Get(error.members, DATA) == Some(data) || (Get(error.members, DATA).None? && data == JNull))
  }

  /**
   * A call reports an error of the node, with that code, message and data, exactly where a reply that echoes its id
   * says it in its error object: under any status in the legacy dialect, under a 200 and with no result beside it in
   * 2.0.
   */
  lemma RpcErrorExactly<R>(id: Chars, status: int, reply: Reply<R>)
    ensures
      Discriminate(id, status, reply).RpcError? <==>
      reply.id == Some(JString(id)) && reply.error.Some? && IsReadable(reply.error.value) &&
      (IsLegacy(reply) || (IsV2(reply) && status == 200 && reply.result.None?))
    ensures forall code, message, data ::
              Discriminate(id, status, reply) == RpcError(code, message, data) <==>
              reply.id == Some(JString(id)) && reply.error.Some? && Says(reply.error.value, code, message, data) &&
              (IsLegacy(reply) || (IsV2(reply) && status == 200 && reply.result.None?))
  {
    if reply.error == Some(JNull) {
      assert !ReadError<R>(JNull).RpcError?;
    }
  }

  /** Under any other status than 200, what is not an error of the node is that status and nothing else. */
  lemma StatusSurvives<R>(id: Chars, status: int, reply: Reply<R>)
    requires status != 200
    ensures !Discriminate(id, status, reply).RpcError? ==> Discriminate(id, status, reply) == HttpError(status)
  {
  }
}
