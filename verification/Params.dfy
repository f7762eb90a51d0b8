/**
 * `_assert_json_params`: what a parameter structure may be, over an object graph that may share and may be cyclic.
 *
 * A graph says what each object is. `Check` is the walk. `CheckExactly` says what it accepts in terms of the paths
 * through the graph alone, and `CheckTells` that each refusal is true of some path.
 */
module Params {
  import opened Options
  import opened Octets
  import opened Values
  import opened Decimals

  const MAX_PARAMS_DEPTH: nat := 100

  type Id = nat

  datatype Name =
    | Text(chars: Chars)
    | NoText

  datatype Node =
    | NNull
    | NBool(b: bool)
    | NInt(n: int)
      /** A float, with the digits it is written with. */
    | NFloat(finite: bool, text: Octets)
    | NDecimal(d: Decimal)
    | NString(chars: Chars)
    | NBytes
    | NDict(members: seq<(Name, Id)>)
    | NList(items: seq<Id>)
    | NOther

  /** What each object is: the identity of an object is its `Id`. */
  type Graph = Id -> Node

  datatype Refusal =
    | TooDeep
    | Cycle
    | NotText
    | NotANumber
    | NotJson

  /** Why a value that is no container is refused, if it is. */
  function ScalarRefusal(n: Node): Option<Refusal>
    requires !n.NDict? && !n.NList?
  {
    match n
    case NDecimal(d) => if d.NotFinite? then Some(NotANumber) else None
    case NFloat(finite, _) => if finite then None else Some(NotANumber)
    case NBytes => Some(NotJson)
    case NOther => Some(NotJson)
    case _ => None
  }

  /** The walk, `enclosing` being the containers the value sits inside, outermost first. */
  function Check(g: Graph, id: Id, depth: nat, enclosing: seq<Id>): Option<Refusal>
    requires depth <= MAX_PARAMS_DEPTH + 1
    decreases MAX_PARAMS_DEPTH + 1 - depth, 0
  {
    if depth > MAX_PARAMS_DEPTH then Some(TooDeep)
    else
      match g(id)
      case NDict(members) =>
        if id in enclosing then Some(Cycle) else CheckMembers(g, members, depth + 1, enclosing + [id])
      case NList(items) =>
        if id in enclosing then Some(Cycle) else CheckItems(g, items, depth + 1, enclosing + [id])
      case scalar => ScalarRefusal(scalar)
  }

  function CheckMembers(g: Graph, members: seq<(Name, Id)>, depth: nat, enclosing: seq<Id>): Option<Refusal>
    requires depth <= MAX_PARAMS_DEPTH + 1
    decreases MAX_PARAMS_DEPTH + 1 - depth, 1 + |members|
  {
    if members == [] then None
    else if members[0].0.NoText? then Some(NotText)
    else
      var first := Check(g, members[0].1, depth, enclosing);
      if first.Some? then first else CheckMembers(g, members[1..], depth, enclosing)
  }

  function CheckItems(g: Graph, items: seq<Id>, depth: nat, enclosing: seq<Id>): Option<Refusal>
    requires depth <= MAX_PARAMS_DEPTH + 1
    decreases MAX_PARAMS_DEPTH + 1 - depth, 1 + |items|
  {
    if items == [] then None
    else
      var first := Check(g, items[0], depth, enclosing);
      if first.Some? then first else CheckItems(g, items[1..], depth, enclosing)
  }

  predicate Accepted(g: Graph, root: Id) {
    Check(g, root, 0, []) == None
  }

  // ----- Paths -----

  /** Whether `b` is directly inside `a`. */
  predicate Inside(g: Graph, a: Id, b: Id) {
    match g(a)
    case NDict(members) => exists i | 0 <= i < |members| :: members[i].1 == b
    case NList(items) => b in items
    case _ => false
  }

  predicate IsPath(g: Graph, path: seq<Id>) {
    path != [] && forall i | 0 <= i < |path| - 1 :: Inside(g, path[i], path[i + 1])
  }

  function End(path: seq<Id>): Id
    requires path != []
  {
    path[|path| - 1]
  }

  /** A value that could be written, whatever is inside it. */
  predicate CanBeWritten(n: Node) {
    match n
    case NDict(members) => forall i | 0 <= i < |members| :: members[i].0.Text?
    case NList(_) => true
    case scalar => ScalarRefusal(scalar) == None
  }

  /** Whether a path closes on itself. */
  predicate Closes(path: seq<Id>) {
    path != [] && exists i | 0 <= i < |path| - 1 :: path[i] == path[|path| - 1]
  }

  lemma Extend(g: Graph, path: seq<Id>, b: Id)
    requires IsPath(g, path) && Inside(g, End(path), b)
    ensures IsPath(g, path + [b])
  {
    var q := path + [b];
    forall i | 0 <= i < |q| - 1
      ensures Inside(g, q[i], q[i + 1])
    {
      if i < |path| - 1 {
        assert q[i] == path[i] && q[i + 1] == path[i + 1];
      }
    }
  }

  /** What a refusal says of the path it comes from. */
  predicate Tells(g: Graph, path: seq<Id>, why: Refusal) {
    IsPath(g, path) &&
    match why
    case TooDeep => |path| == MAX_PARAMS_DEPTH + 2
    case Cycle => Closes(path)
    case NotText => g(End(path)).NDict? && !CanBeWritten(g(End(path)))
    case _ => !g(End(path)).NDict? && !g(End(path)).NList? && ScalarRefusal(g(End(path))) == Some(why)
  }

  // ----- What is refused -----

  /** Each refusal is true of a path from the root: a structure that only shares is never called cyclic. */
  lemma {:induction false} CheckTells(g: Graph, id: Id, depth: nat, enclosing: seq<Id>, why: Refusal)
    returns (path: seq<Id>)
    requires depth == |enclosing| <= MAX_PARAMS_DEPTH + 1 && IsPath(g, enclosing + [id])
    requires Check(g, id, depth, enclosing) == Some(why)
    ensures enclosing + [id] <= path && Tells(g, path, why)
    decreases MAX_PARAMS_DEPTH + 1 - depth, 0
  {
    path := enclosing + [id];
    if depth <= MAX_PARAMS_DEPTH {
      match g(id)
      case NDict(members) =>
        if i :| 0 <= i < |enclosing| && enclosing[i] == id {
          assert path[i] == path[|path| - 1];
        } else {
          path := MembersTell(g, id, members, 0, depth + 1, path, why);
        }
      case NList(items) =>
        if i :| 0 <= i < |enclosing| && enclosing[i] == id {
          assert path[i] == path[|path| - 1];
        } else {
          path := ItemsTell(g, id, items, 0, depth + 1, path, why);
        }
      case _ =>
    }
  }

  lemma {:induction false} MembersTell(
      g: Graph, id: Id, members: seq<(Name, Id)>, i: nat, depth: nat, path: seq<Id>, why: Refusal)
    returns (told: seq<Id>)
    requires depth == |path| <= MAX_PARAMS_DEPTH + 1 && IsPath(g, path) && End(path) == id
    requires g(id) == NDict(members) && i <= |members|
    requires CheckMembers(g, members[i..], depth, path) == Some(why)
    ensures path <= told && Tells(g, told, why)
    decreases MAX_PARAMS_DEPTH + 1 - depth, 1 + |members| - i
  {
    var rest := members[i..];
    assert rest[0] == members[i] && rest[1..] == members[i + 1..];
    if rest[0].0.NoText? {
      told := path;
      assert members[i].0.NoText?;
    } else if Check(g, rest[0].1, depth, path).Some? {
      Extend(g, path, rest[0].1);
      told := CheckTells(g, rest[0].1, depth, path, why);
    } else {
      told := MembersTell(g, id, members, i + 1, depth, path, why);
    }
  }

  lemma {:induction false} ItemsTell(
      g: Graph, id: Id, items: seq<Id>, i: nat, depth: nat, path: seq<Id>, why: Refusal)
    returns (told: seq<Id>)
    requires depth == |path| <= MAX_PARAMS_DEPTH + 1 && IsPath(g, path) && End(path) == id
    requires g(id) == NList(items) && i <= |items|
    requires CheckItems(g, items[i..], depth, path) == Some(why)
    ensures path <= told && Tells(g, told, why)
    decreases MAX_PARAMS_DEPTH + 1 - depth, 1 + |items| - i
  {
    var rest := items[i..];
    assert rest[0] == items[i] && rest[1..] == items[i + 1..];
    if Check(g, rest[0], depth, path).Some? {
      Extend(g, path, rest[0]);
      told := CheckTells(g, rest[0], depth, path, why);
    } else {
      told := ItemsTell(g, id, items, i + 1, depth, path, why);
    }
  }

  // ----- What is accepted -----

  lemma {:induction false} MembersAccepted(
      g: Graph, members: seq<(Name, Id)>, depth: nat, enclosing: seq<Id>, i: nat)
    requires depth <= MAX_PARAMS_DEPTH + 1 && i < |members|
    requires CheckMembers(g, members, depth, enclosing) == None
    ensures members[i].0.Text? && Check(g, members[i].1, depth, enclosing) == None
    decreases i
  {
    if i > 0 {
      MembersAccepted(g, members[1..], depth, enclosing, i - 1);
    }
  }

  lemma {:induction false} ItemsAccepted(g: Graph, items: seq<Id>, depth: nat, enclosing: seq<Id>, i: nat)
    requires depth <= MAX_PARAMS_DEPTH + 1 && i < |items|
    requires CheckItems(g, items, depth, enclosing) == None
    ensures Check(g, items[i], depth, enclosing) == None
    decreases i
  {
    if i > 0 {
      ItemsAccepted(g, items[1..], depth, enclosing, i - 1);
    }
  }

  /** What the walk accepts, it accepts along every path. */
  lemma {:induction false} CheckCovers(g: Graph, id: Id, depth: nat, enclosing: seq<Id>, path: seq<Id>)
    requires depth == |enclosing| <= MAX_PARAMS_DEPTH + 1 && Check(g, id, depth, enclosing) == None
    requires IsPath(g, path) && enclosing + [id] <= path
    ensures |path| <= MAX_PARAMS_DEPTH + 1 && CanBeWritten(g(End(path)))
    decreases MAX_PARAMS_DEPTH + 1 - depth
  {
    var here := enclosing + [id];
    assert path[depth] == here[depth];
    if g(id).NDict? {
      forall i | 0 <= i < |g(id).members|
        ensures g(id).members[i].0.Text? && Check(g, g(id).members[i].1, depth + 1, here) == None
      {
        MembersAccepted(g, g(id).members, depth + 1, here, i);
      }
    } else if g(id).NList? {
      forall i | 0 <= i < |g(id).items|
        ensures Check(g, g(id).items[i], depth + 1, here) == None
      {
        ItemsAccepted(g, g(id).items, depth + 1, here, i);
      }
    }
    if |path| > depth + 1 {
      var next := path[depth + 1];
      assert Inside(g, path[depth], path[depth + 1]);
      assert here + [next] <= path;
      CheckCovers(g, next, depth + 1, here, path);
    }
  }

  // ----- Cycles -----

  /** Going round a cycle makes a path as long as one likes. */
  lemma {:induction false} Pump(g: Graph, path: seq<Id>, n: nat) returns (long: seq<Id>)
    requires IsPath(g, path) && Closes(path)
    ensures IsPath(g, long) && long[0] == path[0] && |long| >= n
    decreases n - |path|
  {
    if |path| >= n {
      return path;
    }
    var i :| 0 <= i < |path| - 1 && path[i] == path[|path| - 1];
    var once := path + path[i + 1..];
    forall j | 0 <= j < |once| - 1
      ensures Inside(g, once[j], once[j + 1])
    {
      if j < |path| - 1 {
        assert once[j] == path[j] && once[j + 1] == path[j + 1];
      } else {
        var k := j - (|path| - 1) + i;
        assert once[j] == path[k] && once[j + 1] == path[k + 1];
      }
    }
    assert once[|path| - 1] == once[|once| - 1];
    long := Pump(g, once, n);
  }

  // ----- The theorem -----

  /** Along every path from the root, no more than a hundred levels down, there is a value that can be written. */
  ghost predicate Writable(g: Graph, root: Id) {
    forall path: seq<Id> | IsPath(g, path) && path[0] == root ::
      |path| <= MAX_PARAMS_DEPTH + 1 && CanBeWritten(g(End(path)))
  }

  /** The walk accepts exactly the structures that are writable; one that contains itself is not. */
  lemma CheckExactly(g: Graph, root: Id)
    ensures Accepted(g, root) <==> Writable(g, root)
  {
    if Accepted(g, root) {
      forall path: seq<Id> | IsPath(g, path) && path[0] == root
        ensures |path| <= MAX_PARAMS_DEPTH + 1 && CanBeWritten(g(End(path)))
      {
        CheckCovers(g, root, 0, [], path);
      }
    } else {
      var why := Check(g, root, 0, []).value;
      var path := CheckTells(g, root, 0, [], why);
      assert path[0] == root;
      if why == Cycle {
        var long := Pump(g, path, MAX_PARAMS_DEPTH + 2);
      }
    }
  }

  /** Every cycle that can be reached is refused. */
  lemma CyclesAreRefused(g: Graph, root: Id, path: seq<Id>)
    requires IsPath(g, path) && path[0] == root && Closes(path)
    ensures !Accepted(g, root)
  {
    var long := Pump(g, path, MAX_PARAMS_DEPTH + 2);
    CheckExactly(g, root);
  }

  /** A structure that shares but has no cycle is never refused as cyclic. */
  lemma SharingIsNoCycle(g: Graph, root: Id)
    requires forall path: seq<Id> | IsPath(g, path) && path[0] == root :: !Closes(path)
    ensures Check(g, root, 0, []) != Some(Cycle)
  {
    if Check(g, root, 0, []) == Some(Cycle) {
      var path := CheckTells(g, root, 0, [], Cycle);
    }
  }
}
