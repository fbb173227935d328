/** The explicit-stack traversal of a type (crates/dojo/types/src/schema.rs, `TyIter`). */
module SchemaIter {
  import opened Wrappers
  import opened Schema
  import opened Sequences

  /** The traversal as a recursion: a node, then its children from the last to the first. */
  function Visit(t: Ty): (r: seq<Ty>)
    ensures r != []
    decreases t, 0
  {
    match t
    case Struct(_, children) => [t] + VisitFields(children)
    case Enum(_, _, options) => [t] + VisitFields(options)
    case _ => [t]
  }

  function VisitFields<K>(fields: seq<Named<K>>): (r: seq<Ty>)
    decreases fields, 0
  {
    if fields == [] then [] else VisitFields(fields[1..]) + Visit(fields[0].ty)
  }

  /** What a stack has yet to yield: the top of the stack comes first. */
  function Pending(stack: seq<Ty>): (r: seq<Ty>) {
    if stack == [] then [] else Pending(stack[1..]) + Visit(stack[0])
  }

  function Tys<K>(fields: seq<Named<K>>): (r: seq<Ty>)
    ensures |r| == |fields| && forall i :: 0 <= i < |r| ==> r[i] == fields[i].ty
  {
    seq(|fields|, i requires 0 <= i < |fields| => fields[i].ty)
  }

  /** The types of the members or options. */
  function Children(t: Ty): (r: seq<Ty>) {
    match t
    case Struct(_, children) => Tys(children)
    case Enum(_, _, options) => Tys(options)
    case _ => []
  }

  lemma {:induction false} PendingPush(stack: seq<Ty>, more: seq<Ty>)
    ensures Pending(stack + more) == Pending(more) + Pending(stack)
  {
    if stack == [] {
      assert stack + more == more && Pending(more) + [] == Pending(more);
    } else {
      assert (stack + more)[1..] == stack[1..] + more;
      PendingPush(stack[1..], more);
      Associate(Pending(more), Pending(stack[1..]), Visit(stack[0]));
    }
  }

  lemma {:induction false} PendingFields<K>(fields: seq<Named<K>>)
    ensures Pending(Tys(fields)) == VisitFields(fields)
  {
    if fields != [] {
      assert Tys(fields)[1..] == Tys(fields[1..]);
      PendingFields(fields[1..]);
    }
  }

  class TyIter {
    var stack: seq<Ty>

    constructor (root: Ty)
      ensures stack == [root]
    {
      stack := [root];
    }

    /** `next`: pops a type and pushes its members or options. */
    method Next() returns (r: Option<Ty>)
      modifies this
      ensures old(stack) == [] ==> r == None && stack == []
      ensures old(stack) != [] ==>
                && r == Some(old(stack)[|old(stack)| - 1])
                && stack == old(stack)[..|old(stack)| - 1] + Children(r.value)
      ensures old(stack) != [] ==> Pending(old(stack)) == [r.value] + Pending(stack)
    {
      if stack == [] {
        return None;
      }
      var ty := stack[|stack| - 1];
      ghost var below := stack[..|stack| - 1];
      assert stack == below + [ty];
      PendingPush(below, [ty]);
      assert Pending([ty]) == Visit(ty);
      stack := stack[..|stack| - 1];
      match ty {
        case Struct(_, children) => PushFields(children);
        case Enum(_, _, options) => PushFields(options);
        case _ =>
      }
      assert Visit(ty) + Pending(below) == [ty] + Pending(stack);
      return Some(ty);
    }

    method PushFields<K>(fields: seq<Named<K>>)
      modifies this
      ensures stack == old(stack) + Tys(fields)
      ensures Pending(stack) == VisitFields(fields) + Pending(old(stack))
    {
      ghost var below := stack;
      for i := 0 to |fields|
        invariant stack == below + Tys(fields[..i])
      {
        assert Tys(fields[..i + 1]) == Tys(fields[..i]) + [fields[i].ty];
        stack := stack + [fields[i].ty];
      }
      assert fields[..|fields|] == fields;
      PendingPush(below, Tys(fields));
      PendingFields(fields);
    }

    /** Polling until the end yields the whole traversal and stops. */
    method Collect() returns (yielded: seq<Ty>)
      modifies this
      ensures yielded == Pending(old(stack))
    {
      yielded := [];
      ghost var all := Pending(stack);
      while stack != []
        invariant yielded + Pending(stack) == all
        decreases |Pending(stack)|
      {
        ghost var before := Pending(stack);
        var r := Next();
        assert yielded + ([r.value] + Pending(stack)) == (yielded + [r.value]) + Pending(stack);
        yielded := yielded + [r.value];
      }
    }
  }

  // ----- what the traversal visits -----

  /** Children before parents, first child first. */
  function Postorder(t: Ty): (r: seq<Ty>)
    decreases t, 0
  {
    match t
    case Struct(_, children) => PostorderFields(children) + [t]
    case Enum(_, _, options) => PostorderFields(options) + [t]
    case _ => [t]
  }

  function PostorderFields<K>(fields: seq<Named<K>>): (r: seq<Ty>)
    decreases fields, 0
  {
    if fields == [] then [] else Postorder(fields[0].ty) + PostorderFields(fields[1..])
  }

  /** The iterator yields the postorder of the tree backwards. */
  lemma {:induction false} VisitReversesPostorder(t: Ty)
    ensures Visit(t) == Reverse(Postorder(t))
    decreases t, 0
  {
    match t
    case Struct(_, children) =>
      VisitFieldsReversesPostorder(children);
      ReverseConcat(PostorderFields(children), [t]);
      assert Reverse([t]) == [t];
    case Enum(_, _, options) =>
      VisitFieldsReversesPostorder(options);
      ReverseConcat(PostorderFields(options), [t]);
      assert Reverse([t]) == [t];
    case _ =>
      assert Reverse([t]) == [t];
  }

  lemma {:induction false} VisitFieldsReversesPostorder<K>(fields: seq<Named<K>>)
    ensures VisitFields(fields) == Reverse(PostorderFields(fields))
    decreases fields, 0
  {
    if fields != [] {
      VisitReversesPostorder(fields[0].ty);
      VisitFieldsReversesPostorder(fields[1..]);
      ReverseConcat(Postorder(fields[0].ty), PostorderFields(fields[1..]));
    }
  }

  /** The type at the end of a path of child positions, through structs and enums only. */
  function At(t: Ty, path: seq<nat>): (r: Option<Ty>) {
    if path == [] then Some(t)
    else
      match t
      case Struct(_, children) => if path[0] < |children| then At(children[path[0]].ty, path[1..]) else None
      case Enum(_, _, options) => if path[0] < |options| then At(options[path[0]].ty, path[1..]) else None
      case _ => None
  }

  /** Every struct or enum descendant is visited. */
  lemma {:induction false} VisitReachesPath(t: Ty, path: seq<nat>)
    requires At(t, path).Some?
    ensures At(t, path).value in Visit(t)
    decreases path
  {
    if path != [] {
      match t
      case Struct(_, children) =>
        VisitReachesPath(children[path[0]].ty, path[1..]);
        VisitFieldsContain(children, path[0]);
      case Enum(_, _, options) =>
        VisitReachesPath(options[path[0]].ty, path[1..]);
        VisitFieldsContain(options, path[0]);
    }
  }

  lemma {:induction false} VisitFieldsContain<K>(fields: seq<Named<K>>, i: nat)
    requires i < |fields|
    ensures forall x :: x in Visit(fields[i].ty) ==> x in VisitFields(fields)
    decreases i
  {
    if i > 0 {
      VisitFieldsContain(fields[1..], i - 1);
    }
  }

  /** And nothing else is: each visited type sits at the end of some path. */
  lemma {:induction false} VisitedHasPath(t: Ty, x: Ty) returns (path: seq<nat>)
    requires x in Visit(t)
    ensures At(t, path) == Some(x)
    decreases t, 0
  {
    path := [];
    if x != t {
      match t
      case Struct(_, children) =>
        var i := VisitedField(children, x);
        var p := VisitedHasPath(children[i].ty, x);
        path := [i] + p;
        assert path[1..] == p;
      case Enum(_, _, options) =>
        var i := VisitedField(options, x);
        var p := VisitedHasPath(options[i].ty, x);
        path := [i] + p;
        assert path[1..] == p;
    }
  }

  lemma {:induction false} VisitedField<K>(fields: seq<Named<K>>, x: Ty) returns (i: nat)
    requires x in VisitFields(fields)
    ensures i < |fields| && x in Visit(fields[i].ty)
    decreases |fields|
  {
    if x in Visit(fields[0].ty) {
      i := 0;
    } else {
      i := VisitedField(fields[1..], x);
      i := i + 1;
    }
  }

  // ----- once each -----

  function Under(k: nat, paths: seq<seq<nat>>): (r: seq<seq<nat>>)
    ensures |r| == |paths| && forall i :: 0 <= i < |r| ==> r[i] == [k] + paths[i]
  {
    seq(|paths|, i requires 0 <= i < |paths| => [k] + paths[i])
  }

  /** The paths of all struct and enum descendants, in the order of the traversal. */
  function Paths(t: Ty): (r: seq<seq<nat>>)
    decreases t, 0, 0
  {
    match t
    case Struct(_, children) => [[]] + PathsFrom(children, 0)
    case Enum(_, _, options) => [[]] + PathsFrom(options, 0)
    case _ => [[]]
  }

  function PathsFrom<K>(fields: seq<Named<K>>, k: nat): (r: seq<seq<nat>>)
    decreases fields, 1, |fields| - k
  {
    if k >= |fields| then [] else PathsFrom(fields, k + 1) + Under(k, Paths(fields[k].ty))
  }

  function AtField<K>(fields: seq<Named<K>>, path: seq<nat>): (r: Option<Ty>) {
    if path != [] && path[0] < |fields| then At(fields[path[0]].ty, path[1..]) else None
  }

  ghost predicate NoRepetition(paths: seq<seq<nat>>) {
    forall i, j :: 0 <= i < j < |paths| ==> paths[i] != paths[j]
  }

  /** `paths` leads, in order and without repetition, to `ts`. */
  ghost predicate LeadsTo(t: Ty, paths: seq<seq<nat>>, ts: seq<Ty>) {
    |paths| == |ts| && NoRepetition(paths) && forall i :: 0 <= i < |paths| ==> At(t, paths[i]) == Some(ts[i])
  }

  ghost predicate FieldsLeadTo<K>(fields: seq<Named<K>>, k: nat, paths: seq<seq<nat>>, ts: seq<Ty>) {
    && |paths| == |ts| && NoRepetition(paths)
    && forall i :: 0 <= i < |paths| ==>
         paths[i] != [] && paths[i][0] >= k && AtField(fields, paths[i]) == Some(ts[i])
  }

  /** The traversal visits each position once: its list is that of all paths, none of them twice. */
  lemma {:induction false} VisitsOncePerPosition(t: Ty)
    ensures LeadsTo(t, Paths(t), Visit(t))
    ensures forall path :: At(t, path).Some? <==> path in Paths(t)
    decreases t, 0, 0
  {
    match t
    case Struct(_, children) =>
      FieldsOncePerPosition(children, 0);
      RootFirst(t, children);
    case Enum(_, _, options) =>
      FieldsOncePerPosition(options, 0);
      RootFirst(t, options);
    case _ =>
  }

  /** The root, then what is under its fields. */
  lemma RootFirst<K>(t: Ty, fields: seq<Named<K>>)
    requires forall path :: path != [] ==> At(t, path) == AtField(fields, path)
    requires FieldsLeadTo(fields, 0, PathsFrom(fields, 0), VisitFields(fields[0..]))
    requires forall path :: AtField(fields, path).Some? && path[0] >= 0 <==> path in PathsFrom(fields, 0)
    ensures LeadsTo(t, [[]] + PathsFrom(fields, 0), [t] + VisitFields(fields))
    ensures forall path :: At(t, path).Some? <==> path in [[]] + PathsFrom(fields, 0)
  {
    assert fields[0..] == fields;
    RootThen(t, fields, PathsFrom(fields, 0), VisitFields(fields));
    forall path ensures At(t, path).Some? <==> path in [[]] + PathsFrom(fields, 0) {
      assert path in [[]] + PathsFrom(fields, 0) <==> path == [] || path in PathsFrom(fields, 0);
    }
  }

  lemma RootThen<K>(t: Ty, fields: seq<Named<K>>, paths: seq<seq<nat>>, ts: seq<Ty>)
    requires forall path :: path != [] ==> At(t, path) == AtField(fields, path)
    requires FieldsLeadTo(fields, 0, paths, ts)
    ensures LeadsTo(t, [[]] + paths, [t] + ts)
  {
    var all := [[]] + paths;
    forall i | 0 <= i < |all| ensures At(t, all[i]) == Some(([t] + ts)[i]) {
      if i > 0 {
        assert all[i] == paths[i - 1];
      }
    }
    forall i, j | 0 <= i < j < |all| ensures all[i] != all[j] {
      assert all[j] == paths[j - 1];
    }
  }

  lemma {:induction false} FieldsOncePerPosition<K>(fields: seq<Named<K>>, k: nat)
    requires k <= |fields|
    ensures FieldsLeadTo(fields, k, PathsFrom(fields, k), VisitFields(fields[k..]))
    ensures forall path :: AtField(fields, path).Some? && path[0] >= k <==> path in PathsFrom(fields, k)
    decreases fields, 1, |fields| - k
  {
    if k < |fields| {
      VisitsOncePerPosition(fields[k].ty);
      FieldsOncePerPosition(fields, k + 1);
      assert fields[k..][1..] == fields[k + 1..];
      OneFieldMore(fields, k, PathsFrom(fields, k + 1), VisitFields(fields[k + 1..]));
    }
  }

  lemma OneFieldMore<K>(fields: seq<Named<K>>, k: nat, later: seq<seq<nat>>, ts: seq<Ty>)
    requires k < |fields| && FieldsLeadTo(fields, k + 1, later, ts)
    requires forall path :: AtField(fields, path).Some? && path[0] >= k + 1 <==> path in later
    requires LeadsTo(fields[k].ty, Paths(fields[k].ty), Visit(fields[k].ty))
    requires forall path :: At(fields[k].ty, path).Some? <==> path in Paths(fields[k].ty)
    ensures var paths := later + Under(k, Paths(fields[k].ty));
            && FieldsLeadTo(fields, k, paths, ts + Visit(fields[k].ty))
            && (forall path :: AtField(fields, path).Some? && path[0] >= k <==> path in paths)
  {
    var here := Under(k, Paths(fields[k].ty));
    UnderLeads(fields, k);
    forall path ensures AtField(fields, path).Some? && path[0] >= k <==> path in later + here {
      if path != [] && path[0] == k {
        UnderMember(k, Paths(fields[k].ty), path);
      } else {
        UnderOther(k, Paths(fields[k].ty), path);
      }
    }
    JoinFields(fields, k, later, ts, here, Visit(fields[k].ty));
  }

  lemma UnderMember(k: nat, paths: seq<seq<nat>>, path: seq<nat>)
    requires path != [] && path[0] == k
    ensures path in Under(k, paths) <==> path[1..] in paths
  {
    assert path == [k] + path[1..];
    if path in Under(k, paths) {
      var i :| 0 <= i < |paths| && Under(k, paths)[i] == path;
      assert ([k] + paths[i])[1..] == paths[i];
    }
    if path[1..] in paths {
      var i :| 0 <= i < |paths| && paths[i] == path[1..];
      assert Under(k, paths)[i] == path;
    }
  }

  lemma UnderOther(k: nat, paths: seq<seq<nat>>, path: seq<nat>)
    requires path == [] || path[0] != k
    ensures path !in Under(k, paths)
  {
  }

  lemma UnderLeads<K>(fields: seq<Named<K>>, k: nat)
    requires k < |fields| && LeadsTo(fields[k].ty, Paths(fields[k].ty), Visit(fields[k].ty))
    ensures FieldsLeadTo(fields, k, Under(k, Paths(fields[k].ty)), Visit(fields[k].ty))
    ensures forall path <- Under(k, Paths(fields[k].ty)) :: path != [] && path[0] == k
  {
    var paths := Paths(fields[k].ty);
    var here := Under(k, paths);
    forall i | 0 <= i < |here|
      ensures here[i][1..] == paths[i] && AtField(fields, here[i]) == Some(Visit(fields[k].ty)[i])
    {
    }
    forall i, j | 0 <= i < j < |here| ensures here[i] != here[j] {
      assert here[i][1..] == paths[i] && here[j][1..] == paths[j];
    }
  }

  lemma JoinFields<K>(fields: seq<Named<K>>, k: nat, later: seq<seq<nat>>, ts: seq<Ty>, here: seq<seq<nat>>,
                      us: seq<Ty>)
    requires FieldsLeadTo(fields, k + 1, later, ts) && FieldsLeadTo(fields, k, here, us)
    requires forall path <- here :: path != [] && path[0] == k
    ensures FieldsLeadTo(fields, k, later + here, ts + us)
  {
    var paths := later + here;
    forall i, j | 0 <= i < j < |paths| ensures paths[i] != paths[j] {
      if i < |later| <= j {
        assert paths[i] == later[i] && paths[j] == here[j - |later|];
      }
    }
  }
}
