/** What `call` makes of a body: decoded, parsed whole, and decided. */
module Calls {
  import opened Options
  import opened Octets
  import opened Grammar
  import opened Unambiguity
  import opened Utf8
  import opened Encodings
  import opened Replies
  import Values

  /** The syntax tree of a body in whatever encoding, for a parser that nests at most `reach` deep. */
  ghost function ParsedTree(d: Octets, reach: nat, builds: Octets -> bool): Option<Tree> {
    var text := Recoded(d);
    if text.Some? && exists t :: IsDocument(text.value, t, reach, builds) then
      var t :| IsDocument(text.value, t, reach, builds);
      Some(t)
    else None
  }

  /** The value a body is parsed to. */
  ghost function Parsed(d: Octets, reach: nat, builds: Octets -> bool): Option<Values.Json> {
    var t := ParsedTree(d, reach, builds);
    if t.Some? then Some(Values.Value(t.value)) else None
  }

  /** The members of a reply that are read: of those given twice, the last. */
  function ReplyOf(members: seq<(Values.Chars, Values.Json)>): Reply<Values.Json> {
    Reply(Values.Get(members, JSONRPC), Values.Get(members, ID), Values.Get(members, ERROR),
          Values.Get(members, RESULT))
  }

  ghost function Called(d: Octets, id: Values.Chars, status: int, reach: nat, builds: Octets -> bool)
    : Answer<Values.Json>
  {
    match Parsed(d, reach, builds)
    case Some(JObject(members)) => Discriminate(id, status, ReplyOf(members))
    case _ => if status != 200 then HttpError(status) else FetchError
  }

  // ----- The same, with a result held as its syntax tree -----

  predicate IsObject(t: Tree) {
    (t.Empty? || t.Full?) && t.open == LBRACE
  }

  /** The last member of that name. */
  function LastNamed(es: Elements, name: Values.Chars): Option<Tree>
    decreases es
  {
    var later := if es.More? then LastNamed(es.rest, name) else None;
    if later.Some? then later else if Values.NameOf(es.key) == name then Some(es.value) else None
  }

  function MemberNamed(t: Tree, name: Values.Chars): Option<Tree> {
    if t.Full? then LastNamed(t.elements, name) else None
  }

  function Valued(o: Option<Tree>): Option<Values.Json> {
    if o.Some? then Some(Values.Value(o.value)) else None
  }

  function ReplyTree(t: Tree): Reply<Tree> {
    Reply(Valued(MemberNamed(t, JSONRPC)), Valued(MemberNamed(t, ID)), Valued(MemberNamed(t, ERROR)),
          MemberNamed(t, RESULT))
  }

  ghost function CalledTree(d: Octets, id: Values.Chars, status: int, reach: nat, builds: Octets -> bool)
    : Answer<Tree>
  {
    var t := ParsedTree(d, reach, builds);
    if t.Some? && IsObject(t.value) then Discriminate(id, status, ReplyTree(t.value))
    else if status != 200 then HttpError(status) else FetchError
  }

  /** An answer with its result as the value of its tree. */
  function AsValue(answer: Answer<Tree>): Answer<Values.Json> {
    match answer
    case Result(t) => Result(Values.Value(t))
    case RpcError(code, message, data) => RpcError(code, message, data)
    case HttpError(status) => HttpError(status)
    case FetchError => FetchError
  }

  lemma {:induction false} GetFirst(
      x: (Values.Chars, Values.Json), members: seq<(Values.Chars, Values.Json)>, name: Values.Chars)
    ensures
      var g := Values.Get(members, name);
      Values.Get([x] + members, name) == if g.Some? then g else if x.0 == name then Some(x.1) else None
    decreases |members|
  {
    if members == [] {
      assert [x] + members == [x];
    } else {
      var all := [x] + members;
      assert all[..|all| - 1] == [x] + members[..|members| - 1];
      GetFirst(x, members[..|members| - 1], name);
    }
  }

  /** Looking a member up in the value finds the value of the last member of that name. */
  lemma {:induction false} GetIsLast(es: Elements, name: Values.Chars)
    ensures Values.Get(Values.Members(es), name) == Valued(LastNamed(es, name))
    decreases es
  {
    var first := (Values.NameOf(es.key), Values.Value(es.value));
    var rest := if es.More? then Values.Members(es.rest) else [];
    assert Values.Members(es) == [first] + rest;
    GetFirst(first, rest, name);
    if es.More? {
      GetIsLast(es.rest, name);
    }
  }

  lemma ReplyIs(t: Tree)
    requires IsObject(t)
    ensures Values.Value(t).JObject?
    ensures
      var r, s := ReplyOf(Values.Value(t).members), ReplyTree(t);
      r == Reply(s.jsonrpc, s.id, s.error, Valued(s.result))
  {
    if t.Full? {
      GetIsLast(t.elements, JSONRPC);
      GetIsLast(t.elements, ID);
      GetIsLast(t.elements, ERROR);
      GetIsLast(t.elements, RESULT);
    }
  }

  lemma OnlyObjects(t: Tree)
    ensures Values.Value(t).JObject? <==> IsObject(t)
    ensures t.Str? || t.Num? || t.Lit? ==> !IsObject(t)
  {
  }

  lemma SameReply(id: Values.Chars, status: int, r: Reply<Values.Json>, s: Reply<Tree>)
    requires r == Reply(s.jsonrpc, s.id, s.error, Valued(s.result))
    ensures Discriminate(id, status, r) == AsValue(Discriminate(id, status, s))
  {
  }

  /** What `call` answers is the value of what it answers as a tree. */
  lemma CalledIsValue(d: Octets, id: Values.Chars, status: int, reach: nat, builds: Octets -> bool)
    ensures Called(d, id, status, reach, builds) == AsValue(CalledTree(d, id, status, reach, builds))
  {
    hide Discriminate, ReplyOf, ReplyTree, IsObject, ParsedTree;
    var t := ParsedTree(d, reach, builds);
    if t.Some? {
      OnlyObjects(t.value);
      if IsObject(t.value) {
        ReplyIs(t.value);
        SameReply(id, status, ReplyOf(Values.Value(t.value).members), ReplyTree(t.value));
      }
    }
  }

  /** The tree a body is parsed to is the one tree its text has. */
  lemma ParsedIs(d: Octets, text: Octets, t: Tree, reach: nat, builds: Octets -> bool)
    requires Recoded(d) == Some(text) && IsDocument(text, t, reach, builds)
    ensures ParsedTree(d, reach, builds) == Some(t)
  {
    hide IsDocument, Recoded;
    var s := ParsedTree(d, reach, builds).value;
    assert IsDocument(text, s, reach, builds);
    DocumentUnique(text, s, t, reach, builds);
  }

  /** A body in UTF-8 that is JSON is parsed as it stands. */
  lemma PlainParsed(d: Octets, t: Tree, reach: nat, builds: Octets -> bool)
    requires IsUtf8(d) && IsDocument(d, t, reach, builds)
    ensures ParsedTree(d, reach, builds) == Some(t)
  {
    hide IsDocument, Run, PassRun;
    StrictPasses(Start, d);
    PlainDocument(d, t, reach, builds);
    ParsedIs(d, d, t, reach, builds);
  }

  /** What is parsed out of octets in plain UTF-8 is JSON as it stands. */
  lemma PlainIs(d: Octets, reach: nat, builds: Octets -> bool)
    requires Detected(d) == PlainUtf8 && ParsedTree(d, reach, builds).Some?
    ensures IsDocument(d, ParsedTree(d, reach, builds).value, reach, builds)
  {
    hide IsDocument, Decodes;
  }
}
