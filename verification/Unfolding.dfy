/** The tree a parameter structure unfolds to: what the walk accepts and what the writer writes. */
module Unfolding {
  import opened Options
  import opened Params
  import opened Printer

  /** The unfolding of an object `depth` containers down, where it is a tree of values that can be written. */
  function Unfold(g: Graph, id: Id, depth: nat): Option<Param>
    requires depth <= MAX_PARAMS_DEPTH + 1
    decreases MAX_PARAMS_DEPTH + 1 - depth, 0
  {
    if depth > MAX_PARAMS_DEPTH then None
    else
      match g(id)
      case NNull => Some(PNull)
      case NBool(b) => Some(PBool(b))
      case NInt(n) => Some(PInt(n))
      case NFloat(finite, text) => if finite then Some(PFloat(text)) else None
      case NDecimal(d) => if d.NotFinite? then None else Some(PDecimal(d))
      case NString(chars) => Some(PString(chars))
      case NDict(members) =>
        var inner := UnfoldMembers(g, members, depth + 1);
        if inner.None? then None else Some(PDict(inner.value))
      case NList(items) =>
        var inner := UnfoldItems(g, items, depth + 1);
        if inner.None? then None else Some(PList(inner.value))
      case _ => None
  }

  function UnfoldMembers(g: Graph, members: seq<(Name, Id)>, depth: nat): Option<seq<Member>>
    requires depth <= MAX_PARAMS_DEPTH + 1
    decreases MAX_PARAMS_DEPTH + 1 - depth, 1 + |members|
  {
    if members == [] then Some([])
    else if members[0].0.NoText? then None
    else
      var first := Unfold(g, members[0].1, depth);
      var rest := UnfoldMembers(g, members[1..], depth);
      if first.None? || rest.None? then None
      else Some([Member(members[0].0.chars, first.value)] + rest.value)
  }

  function UnfoldItems(g: Graph, items: seq<Id>, depth: nat): Option<seq<Param>>
    requires depth <= MAX_PARAMS_DEPTH + 1
    decreases MAX_PARAMS_DEPTH + 1 - depth, 1 + |items|
  {
    if items == [] then Some([])
    else
      var first := Unfold(g, items[0], depth);
      var rest := UnfoldItems(g, items[1..], depth);
      if first.None? || rest.None? then None else Some([first.value] + rest.value)
  }

  lemma {:induction false} CheckedUnfolds(g: Graph, id: Id, depth: nat, enclosing: seq<Id>)
    requires depth <= MAX_PARAMS_DEPTH + 1 && Check(g, id, depth, enclosing) == None
    ensures Unfold(g, id, depth).Some?
    decreases MAX_PARAMS_DEPTH + 1 - depth, 0
  {
    match g(id)
    case NDict(members) => MembersUnfold(g, members, depth + 1, enclosing + [id]);
    case NList(items) => ItemsUnfold(g, items, depth + 1, enclosing + [id]);
    case _ =>
  }

  lemma {:induction false} MembersUnfold(g: Graph, members: seq<(Name, Id)>, depth: nat, enclosing: seq<Id>)
    requires depth <= MAX_PARAMS_DEPTH + 1 && CheckMembers(g, members, depth, enclosing) == None
    ensures UnfoldMembers(g, members, depth).Some?
    decreases MAX_PARAMS_DEPTH + 1 - depth, 1 + |members|
  {
    if members != [] {
      CheckedUnfolds(g, members[0].1, depth, enclosing);
      MembersUnfold(g, members[1..], depth, enclosing);
    }
  }

  lemma {:induction false} ItemsUnfold(g: Graph, items: seq<Id>, depth: nat, enclosing: seq<Id>)
    requires depth <= MAX_PARAMS_DEPTH + 1 && CheckItems(g, items, depth, enclosing) == None
    ensures UnfoldItems(g, items, depth).Some?
    decreases MAX_PARAMS_DEPTH + 1 - depth, 1 + |items|
  {
    if items != [] {
      CheckedUnfolds(g, items[0], depth, enclosing);
      ItemsUnfold(g, items[1..], depth, enclosing);
    }
  }

  lemma {:induction false} MemberUnfolds(g: Graph, members: seq<(Name, Id)>, depth: nat, i: nat)
    requires depth <= MAX_PARAMS_DEPTH + 1 && i < |members| && UnfoldMembers(g, members, depth).Some?
    ensures members[i].0.Text? && Unfold(g, members[i].1, depth).Some?
    decreases i
  {
    if i > 0 {
      MemberUnfolds(g, members[1..], depth, i - 1);
    }
  }

  lemma {:induction false} ItemUnfolds(g: Graph, items: seq<Id>, depth: nat, i: nat)
    requires depth <= MAX_PARAMS_DEPTH + 1 && i < |items| && UnfoldItems(g, items, depth).Some?
    ensures Unfold(g, items[i], depth).Some?
    decreases i
  {
    if i > 0 {
      ItemUnfolds(g, items[1..], depth, i - 1);
    }
  }

  /** What unfolds to a tree is writable along every path through it. */
  lemma {:induction false} UnfoldCovers(g: Graph, depth: nat, path: seq<Id>)
    requires IsPath(g, path) && depth < |path| && depth <= MAX_PARAMS_DEPTH + 1
    requires Unfold(g, path[depth], depth).Some?
    ensures |path| <= MAX_PARAMS_DEPTH + 1 && CanBeWritten(g(End(path)))
    decreases MAX_PARAMS_DEPTH + 1 - depth
  {
    var id := path[depth];
    if g(id).NDict? {
      forall i | 0 <= i < |g(id).members|
        ensures g(id).members[i].0.Text? && Unfold(g, g(id).members[i].1, depth + 1).Some?
      {
        MemberUnfolds(g, g(id).members, depth + 1, i);
      }
    } else if g(id).NList? {
      forall i | 0 <= i < |g(id).items|
        ensures Unfold(g, g(id).items[i], depth + 1).Some?
      {
        ItemUnfolds(g, g(id).items, depth + 1, i);
      }
    }
    if |path| > depth + 1 {
      assert Inside(g, path[depth], path[depth + 1]);
      UnfoldCovers(g, depth + 1, path);
    }
  }

  /** The walk accepts exactly the structures that unfold to a tree. */
  lemma AcceptedExactlyUnfolds(g: Graph, root: Id)
    ensures Accepted(g, root) <==> Unfold(g, root, 0).Some?
  {
    if Accepted(g, root) {
      CheckedUnfolds(g, root, 0, []);
    }
    if Unfold(g, root, 0).Some? {
      forall path: seq<Id> | IsPath(g, path) && path[0] == root
        ensures |path| <= MAX_PARAMS_DEPTH + 1 && CanBeWritten(g(End(path)))
      {
        UnfoldCovers(g, 0, path);
      }
      CheckExactly(g, root);
    }
  }
}
