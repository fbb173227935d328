/** What one Cairo type has over another, said of the two types alone. */
module Remainders {
  import opened Wrappers
  import opened Selections
  import opened Schema
  import opened FieldLookup

  /** The elements of `xs` that do not occur in `ys`. */
  function NotIn(xs: seq<Ty>, ys: seq<Ty>): (r: seq<Ty>)
    ensures |r| <= |xs|
  {
    if xs == [] then []
    else if xs[0] in ys then NotIn(xs[1..], ys)
    else [xs[0]] + NotIn(xs[1..], ys)
  }

  /** An element that does not occur in `ys`. */
  function Missing(ys: seq<Ty>): (f: Ty -> Option<Ty>) {
    (x: Ty) => if x in ys then None else Some(x)
  }

  /** Exactly the elements that do not occur are kept, in order. */
  lemma {:induction false} NotInSelects(xs: seq<Ty>, ys: seq<Ty>) returns (at: seq<nat>)
    ensures Selects(Missing(ys), xs, NotIn(xs, ys), at)
  {
    at := [];
    if xs != [] {
      at := NotInSelects(xs[1..], ys);
      at := SelectsCons(Missing(ys), xs[1..], NotIn(xs[1..], ys), at, xs[0]);
      assert [xs[0]] + xs[1..] == xs;
    }
  }

  /** `b` has all that `a` has: fields by name, the first of that name, tuples place by place, leaves by equality. */
  ghost predicate Covered(a: Ty, b: Ty)
    decreases a
  {
    match (a, b)
    case (Struct(_, cs), Struct(_, ds)) => forall i :: 0 <= i < |cs| ==> FieldCovered(cs[i], ds)
    case (Enum(_, _, cs), Enum(_, _, ds)) => forall i :: 0 <= i < |cs| ==> FieldCovered(cs[i], ds)
    case (Tuple(xs), Tuple(ys)) => |xs| == |ys| && forall i :: 0 <= i < |xs| ==> Covered(xs[i], ys[i])
    case (Array(xs), Array(ys)) => xs == ys
    case (ByteArray(s), ByteArray(t)) => s == t
    case (Prim(p), Prim(q)) => p == q
    case _ => false
  }

  ghost predicate FieldCovered<K>(c: Named<K>, ds: seq<Named<K>>)
    decreases c
  {
    var j := Find(ds, c.name);
    j.Some? && Covered(c.ty, ds[j.value].ty)
  }

  /** `d` is what `a` has and `b` lacks, under the name and option of `a`. */
  ghost predicate Remainder(d: Ty, a: Ty, b: Ty)
    decreases a, 0
  {
    match (d, a, b)
    case (Struct(m, es), Struct(n, cs), Struct(_, ds)) => m == n && FieldsRemainder(es, cs, ds)
    case (Enum(m, o, es), Enum(n, p, cs), Enum(_, _, ds)) => m == n && o == p && FieldsRemainder(es, cs, ds)
    case (Tuple(zs), Tuple(xs), Tuple(ys)) =>
      if |xs| == |ys| then ItemsRemainder(zs, xs, ys) else zs == NotIn(xs, ys)
    case (Array(_), Array(_), Array(_)) => d == a
    case (ByteArray(_), ByteArray(_), ByteArray(_)) => d == a
    case (Prim(_), Prim(_), Prim(_)) => d == a
    case _ => false
  }

  /** `es` lists, in order, the new fields and the remainders of those that are not covered. */
  ghost predicate FieldsRemainder<K>(es: seq<Named<K>>, cs: seq<Named<K>>, ds: seq<Named<K>>)
    decreases cs, 0
  {
    if cs == [] then es == []
    else if FieldCovered(cs[0], ds) then FieldsRemainder(es, cs[1..], ds)
    else
      var j := Find(ds, cs[0].name);
      && es != [] && FieldsRemainder(es[1..], cs[1..], ds)
      && if j.None? then es[0] == cs[0]
         else es[0] == cs[0].(ty := es[0].ty) && Remainder(es[0].ty, cs[0].ty, ds[j.value].ty)
  }

  ghost predicate ItemsRemainder(zs: seq<Ty>, xs: seq<Ty>, ys: seq<Ty>)
    requires |xs| == |ys|
    decreases xs, 0
  {
    if xs == [] then zs == []
    else if Covered(xs[0], ys[0]) then ItemsRemainder(zs, xs[1..], ys[1..])
    else zs != [] && Remainder(zs[0], xs[0], ys[0]) && ItemsRemainder(zs[1..], xs[1..], ys[1..])
  }

  /** What `a` has over `b` is itself one of `zs`. */
  ghost predicate Reappears(a: Ty, b: Ty, zs: seq<Ty>) {
    !Covered(a, b) && exists k :: 0 <= k < |zs| && Remainder(zs[k], a, b)
  }

  /** Nothing of `a` is in `b`: fields are new or wholly new, leaves differ, tuples differ all over or share nothing. */
  ghost predicate WhollyNew(a: Ty, b: Ty)
    decreases a
  {
    match (a, b)
    case (Struct(_, cs), Struct(_, ds)) => cs != [] && forall i :: 0 <= i < |cs| ==> FieldWhollyNew(cs[i], ds)
    case (Enum(_, _, cs), Enum(_, _, ds)) => cs != [] && forall i :: 0 <= i < |cs| ==> FieldWhollyNew(cs[i], ds)
    case (Tuple(xs), Tuple(ys)) =>
      if |xs| == |ys| then xs != [] && forall i :: 0 <= i < |xs| ==> WhollyNew(xs[i], ys[i])
      else forall i :: 0 <= i < |xs| ==> xs[i] !in ys
    case (Array(xs), Array(ys)) => xs != ys
    case (ByteArray(s), ByteArray(t)) => s != t
    case (Prim(p), Prim(q)) => p != q
    case _ => false
  }

  ghost predicate FieldWhollyNew<K>(c: Named<K>, ds: seq<Named<K>>)
    decreases c
  {
    var j := Find(ds, c.name);
    j.Some? ==> WhollyNew(c.ty, ds[j.value].ty)
  }
}
