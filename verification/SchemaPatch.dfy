/** A difference as a patch: laid over the second type, it gives what the first type needs. */
module SchemaPatch {
  import opened Wrappers
  import opened Primitives
  import opened Schema
  import opened FieldLookup
  import opened Remainders
  import opened SchemaDiff

  /** `d` laid over `b`: fields of `d` are merged by name or appended, leaves replace. */
  function Overlay(d: Ty, b: Ty): (r: Ty)
    decreases d, 0, 0
  {
    match (d, b)
    case (Struct(_, cs), Struct(n, ds)) => Struct(n, Merge(cs, ds) + Fresh(cs, ds))
    case (Enum(_, _, cs), Enum(n, o, ds)) => Enum(n, o, Merge(cs, ds) + Fresh(cs, ds))
    case (Tuple(xs), Tuple(ys)) => if |xs| == |ys| then Tuple(OverlayItems(xs, ys)) else d
    case _ => d
  }

  function Merge<K>(cs: seq<Named<K>>, ds: seq<Named<K>>): (r: seq<Named<K>>)
    ensures |r| == |ds|
    decreases cs, 1, |ds|
  {
    if ds == [] then []
    else
      var i := Find(cs, ds[0].name);
      var head := if i.None? then ds[0] else ds[0].(ty := Overlay(cs[i.value].ty, ds[0].ty));
      [head] + Merge(cs, ds[1..])
  }

  function Fresh<K>(cs: seq<Named<K>>, ds: seq<Named<K>>): (r: seq<Named<K>>) {
    if cs == [] then []
    else if Find(ds, cs[0].name).Some? then Fresh(cs[1..], ds)
    else [cs[0]] + Fresh(cs[1..], ds)
  }

  function OverlayItems(xs: seq<Ty>, ys: seq<Ty>): (r: seq<Ty>)
    requires |xs| == |ys|
    ensures |r| == |xs|
    decreases xs, 1, 0
  {
    if xs == [] then [] else [Overlay(xs[0], ys[0])] + OverlayItems(xs[1..], ys[1..])
  }

  // ----- what merging does -----

  lemma {:induction false} MergeAt<K>(cs: seq<Named<K>>, ds: seq<Named<K>>, j: nat)
    requires j < |ds|
    ensures Merge(cs, ds)[j].name == ds[j].name
    ensures var i := Find(cs, ds[j].name);
            Merge(cs, ds)[j].ty == if i.None? then ds[j].ty else Overlay(cs[i.value].ty, ds[j].ty)
    decreases j
  {
    if j > 0 {
      MergeAt(cs, ds[1..], j - 1);
    }
  }

  lemma {:induction false} FindConcat<K>(xs: seq<Named<K>>, ys: seq<Named<K>>, name: string)
    ensures Find(xs + ys, name) ==
            if Find(xs, name).Some? then Find(xs, name)
            else match Find(ys, name) { case Some(k) => Some(|xs| + k) case None => None }
  {
    if xs == [] {
      assert xs + ys == ys;
    } else {
      assert (xs + ys)[1..] == xs[1..] + ys;
      FindConcat(xs[1..], ys, name);
    }
  }

  lemma {:induction false} FindMerge<K>(cs: seq<Named<K>>, ds: seq<Named<K>>, name: string)
    ensures Find(Merge(cs, ds), name) == Find(ds, name)
    decreases |ds|
  {
    if ds != [] {
      FindMerge(cs, ds[1..], name);
      assert Merge(cs, ds)[1..] == Merge(cs, ds[1..]);
    }
  }

  /** Names of `b` are found where they were. */
  lemma FindInMerge<K>(cs: seq<Named<K>>, ds: seq<Named<K>>, name: string)
    requires Find(ds, name).Some?
    ensures Find(Merge(cs, ds) + Fresh(cs, ds), name) == Find(ds, name)
  {
    FindMerge(cs, ds, name);
    FindConcat(Merge(cs, ds), Fresh(cs, ds), name);
  }

  /** A new field is found, as it is, among the appended ones. */
  lemma FindFresh<K>(cs: seq<Named<K>>, ds: seq<Named<K>>, name: string)
    requires Find(ds, name).None? && Find(cs, name).Some?
    ensures var all := Merge(cs, ds) + Fresh(cs, ds);
            var j := Find(all, name);
            j.Some? && all[j.value] == cs[Find(cs, name).value]
  {
    FindMerge(cs, ds, name);
    FindConcat(Merge(cs, ds), Fresh(cs, ds), name);
    FreshFinds(cs, ds, name);
  }

  lemma {:induction false} FreshFinds<K>(cs: seq<Named<K>>, ds: seq<Named<K>>, name: string)
    requires Find(ds, name).None? && Find(cs, name).Some?
    ensures var k := Find(Fresh(cs, ds), name);
            k.Some? && Fresh(cs, ds)[k.value] == cs[Find(cs, name).value]
  {
    if cs[0].name != name {
      FreshFinds(cs[1..], ds, name);
      if Find(ds, cs[0].name).None? {
        assert Fresh(cs, ds)[1..] == Fresh(cs[1..], ds);
      }
    }
  }

  // ----- what a difference holds -----

  lemma {:induction false} DiffFieldNames<K>(cs: seq<Named<K>>, ds: seq<Named<K>>, name: string)
    requires DiffFields(cs, ds).Some? && Find(cs, name).None?
    ensures Find(DiffFields(cs, ds).value, name).None?
    decreases |cs|
  {
    if cs != [] {
      assert cs == [cs[0]] + cs[1..];
      assert Find(cs[1..], name).None?;
      DiffFieldNames(cs[1..], ds, name);
      var d := DiffFields(cs, ds).value;
      assert d != DiffFields(cs[1..], ds).value ==> d[0].name == cs[0].name && d[1..] == DiffFields(cs[1..], ds).value;
    }
  }

  /** `d` holds the field if it is new or changed, and nothing of its name otherwise. */
  ghost predicate Holds<K>(d: seq<Named<K>>, c: Named<K>, ds: seq<Named<K>>) {
    var j, k := Find(ds, c.name), Find(d, c.name);
    if j.None? then k.Some? && d[k.value] == c
    else
      var r := Diff(c.ty, ds[j.value].ty);
      if r == Same then k.None? else r.Delta? && k.Some? && d[k.value].ty == r.ty
  }

  lemma HoldsBehind<K>(head: Named<K>, d: seq<Named<K>>, c: Named<K>, ds: seq<Named<K>>)
    requires head.name != c.name && Holds(d, c, ds)
    ensures Holds([head] + d, c, ds)
  {
    assert ([head] + d)[1..] == d;
  }

  /** The difference holds a field exactly when the field is new or changed. */
  lemma {:induction false} DiffFieldAt<K>(cs: seq<Named<K>>, ds: seq<Named<K>>, i: nat)
    requires i < |cs| && DistinctFields(cs) && DiffFields(cs, ds).Some?
    ensures Holds(DiffFields(cs, ds).value, cs[i], ds)
    decreases |cs|
  {
    var d, rest := DiffFields(cs, ds).value, DiffFields(cs[1..], ds).value;
    if i == 0 {
      assert Find(cs[1..], cs[0].name).None?;
      DiffFieldNames(cs[1..], ds, cs[0].name);
    } else {
      DiffFieldAt(cs[1..], ds, i - 1);
      if d != rest {
        assert d == [d[0]] + rest && d[0].name == cs[0].name;
        HoldsBehind(d[0], rest, cs[i], ds);
      }
    }
  }

  // ----- nothing left to say -----

  lemma {:induction false} CoveredItself(t: Ty)
    requires DistinctNames(t)
    ensures Covered(t, t)
  {
    match t
    case Struct(_, cs) =>
      forall i | 0 <= i < |cs| ensures FieldCovered(cs[i], cs) { CoveredItself(cs[i].ty); }
    case Enum(_, _, cs) =>
      forall i | 0 <= i < |cs| ensures FieldCovered(cs[i], cs) { CoveredItself(cs[i].ty); }
    case Tuple(xs) => forall i | 0 <= i < |xs| ensures Covered(xs[i], xs[i]) { CoveredItself(xs[i]); }
    case _ =>
  }

  lemma DiffWithItself(t: Ty)
    requires DistinctNames(t)
    ensures Diff(t, t) == Same
  {
    CoveredItself(t);
    CoveredIff(t, t);
  }

  /** In a tuple that is not covered no element is covered by its partner, or, at unequal lengths, none is shared. */
  ghost predicate Patchable(a: Ty, b: Ty)
    decreases a
  {
    match (a, b)
    case (Struct(_, cs), Struct(_, ds)) => forall i :: 0 <= i < |cs| ==> FieldPatchable(cs[i], ds)
    case (Enum(_, _, cs), Enum(_, _, ds)) => forall i :: 0 <= i < |cs| ==> FieldPatchable(cs[i], ds)
    case (Tuple(xs), Tuple(ys)) =>
      if |xs| == |ys| then forall i :: 0 <= i < |xs| ==> !Covered(xs[i], ys[i]) && Patchable(xs[i], ys[i])
      else forall i :: 0 <= i < |xs| ==> xs[i] !in ys
    case _ => true
  }

  ghost predicate FieldPatchable<K>(c: Named<K>, ds: seq<Named<K>>)
    decreases c
  {
    var j := Find(ds, c.name);
    j.Some? && !Covered(c.ty, ds[j.value].ty) ==> Patchable(c.ty, ds[j.value].ty)
  }

  /** Laying the difference over the second type leaves the first nothing to ask for, exactly when tuples allow it. */
  lemma {:induction false} PatchSufficesIff(a: Ty, b: Ty)
    requires DistinctNames(a) && Diff(a, b).Delta?
    ensures Diff(a, Overlay(Diff(a, b).ty, b)) == Same <==> Patchable(a, b)
    decreases a, 0
  {
    match (a, b)
    case (Struct(_, cs), Struct(_, ds)) => FieldsPatchIff(cs, ds);
    case (Enum(_, _, cs), Enum(_, _, ds)) => FieldsPatchIff(cs, ds);
    case (Tuple(xs), Tuple(ys)) =>
      if |xs| == |ys| {
        AllDifferIff(xs, ys);
        if |DiffItems(xs, ys).value| == |xs| {
          ItemsPatchIff(xs, ys);
        }
      } else {
        NotInAll(xs, ys);
        NotInIsAllIff(xs, ys);
        DiffWithItself(a);
      }
    case _ =>
  }

  lemma {:induction false} NotInAll(xs: seq<Ty>, ys: seq<Ty>)
    ensures |NotIn(xs, ys)| == |xs| ==> NotIn(xs, ys) == xs
  {
    if xs != [] {
      NotInAll(xs[1..], ys);
      assert xs == [xs[0]] + xs[1..];
    }
  }

  lemma {:induction false} FieldsPatchIff<K>(cs: seq<Named<K>>, ds: seq<Named<K>>)
    requires DiffFields(cs, ds).Some?
    requires DistinctFields(cs) && forall i :: 0 <= i < |cs| ==> DistinctNames(cs[i].ty)
    ensures var d := DiffFields(cs, ds).value;
            DiffFields(cs, Merge(d, ds) + Fresh(d, ds)) == Some([]) <==>
            forall i :: 0 <= i < |cs| ==> FieldPatchable(cs[i], ds)
    decreases cs, 1
  {
    var d := DiffFields(cs, ds).value;
    var all := Merge(d, ds) + Fresh(d, ds);
    FieldsCoveredIff(cs, all);
    forall i | 0 <= i < |cs| ensures FieldCovered(cs[i], all) <==> FieldPatchable(cs[i], ds) {
      DiffFieldAt(cs, ds, i);
      FieldCoveredIff(cs[i], all);
      var j := Find(ds, cs[i].name);
      if j.None? {
        FindFresh(d, ds, cs[i].name);
        DiffWithItself(cs[i].ty);
      } else {
        FindInMerge(d, ds, cs[i].name);
        MergeAt(d, ds, j.value);
        CoveredIff(cs[i].ty, ds[j.value].ty);
        if Diff(cs[i].ty, ds[j.value].ty).Delta? {
          PatchSufficesIff(cs[i].ty, ds[j.value].ty);
        }
      }
    }
  }

  lemma {:induction false} ItemsPatchIff(xs: seq<Ty>, ys: seq<Ty>)
    requires |xs| == |ys| && DiffItems(xs, ys).Some? && |DiffItems(xs, ys).value| == |xs|
    requires forall i :: 0 <= i < |xs| ==> DistinctNames(xs[i])
    ensures DiffItems(xs, OverlayItems(DiffItems(xs, ys).value, ys)) == Some([]) <==>
            forall i :: 0 <= i < |xs| ==> Patchable(xs[i], ys[i])
    decreases xs, 1
  {
    if xs != [] {
      assert xs == [xs[0]] + xs[1..] && ys == [ys[0]] + ys[1..];
      var d := DiffItems(xs, ys).value;
      assert Diff(xs[0], ys[0]).Delta?;
      assert d[0] == Diff(xs[0], ys[0]).ty && d[1..] == DiffItems(xs[1..], ys[1..]).value;
      PatchSufficesIff(xs[0], ys[0]);
      ItemsPatchIff(xs[1..], ys[1..]);
      var over := OverlayItems(d, ys);
      assert over[0] == Overlay(d[0], ys[0]) && over[1..] == OverlayItems(d[1..], ys[1..]);
    }
  }

  // ----- no overlay would do -----

  /** Tuples of two bytes. */
  function TwoBytes(x: int, y: int): (t: Ty)
    requires InRange(U8, x) && InRange(U8, y)
  {
    Tuple([Prim(Primitive(U8, Some(x))), Prim(Primitive(U8, Some(y)))])
  }

  lemma TwoBytesDiffer(x: int, y: int)
    requires InRange(U8, x) && InRange(U8, y) && x != y
    ensures Diff(TwoBytes(x, y), TwoBytes(y, y)) == Delta(Tuple([Prim(Primitive(U8, Some(x)))]))
    ensures Diff(TwoBytes(y, x), TwoBytes(y, y)) == Delta(Tuple([Prim(Primitive(U8, Some(x)))]))
  {
    var a, b := Prim(Primitive(U8, Some(x))), Prim(Primitive(U8, Some(y)));
    assert [a, b][1..] == [b] && [b, a][1..] == [a] && [b, b][1..] == [b] && [a][1..] == [] && [b][1..] == [];
    assert DiffItems([b], [b]) == Some([]) && DiffItems([a], [b]) == Some([a] + []);
    assert [a] + [] == [a];
  }

  /** The tuples that are covered by a type of two elements are those it equals, place by place. */
  lemma TwoBytesCovered(x: int, y: int, t: Ty)
    requires InRange(U8, x) && InRange(U8, y) && Diff(TwoBytes(x, y), t) == Same
    ensures t == TwoBytes(x, y)
  {
    CoveredIff(TwoBytes(x, y), t);
    var xs := TwoBytes(x, y).items;
    assert Covered(xs[0], t.items[0]) && Covered(xs[1], t.items[1]);
    assert t.items == xs;
  }

  /**
   * A difference is not enough to patch with, however it is laid over: (2, 1) and (1, 2) have the same difference
   * from (1, 1), and no type covers both.
   */
  lemma NoOverlaySuffices(overlay: (Ty, Ty) -> Ty)
    ensures var b := TwoBytes(1, 1);
            exists a :: Diff(a, b).Delta? && Diff(a, overlay(Diff(a, b).ty, b)) != Same
  {
    var a, a', b := TwoBytes(2, 1), TwoBytes(1, 2), TwoBytes(1, 1);
    TwoBytesDiffer(2, 1);
    var t := overlay(Diff(a, b).ty, b);
    if Diff(a, t) == Same {
      TwoBytesCovered(2, 1, t);
      if Diff(a', t) == Same {
        TwoBytesCovered(1, 2, t);
      }
      assert Diff(a', b).Delta? && Diff(a', overlay(Diff(a', b).ty, b)) != Same;
    } else {
      assert Diff(a, b).Delta? && Diff(a, overlay(Diff(a, b).ty, b)) != Same;
    }
  }

  // ----- types without tuples -----

  /** No tuple is reached through structs and enums; arrays are compared whole. */
  ghost predicate TupleFree(a: Ty) {
    match a
    case Struct(_, cs) => forall i :: 0 <= i < |cs| ==> TupleFree(cs[i].ty)
    case Enum(_, _, cs) => forall i :: 0 <= i < |cs| ==> TupleFree(cs[i].ty)
    case Tuple(_) => false
    case _ => true
  }

  lemma {:induction false} TupleFreeConditions(a: Ty, b: Ty)
    requires TupleFree(a)
    ensures Stable(a, b) && Patchable(a, b)
  {
    match (a, b)
    case (Struct(_, cs), Struct(_, ds)) => TupleFreeFields(cs, ds);
    case (Enum(_, _, cs), Enum(_, _, ds)) => TupleFreeFields(cs, ds);
    case _ =>
  }

  lemma {:induction false} TupleFreeFields<K>(cs: seq<Named<K>>, ds: seq<Named<K>>)
    requires forall i :: 0 <= i < |cs| ==> TupleFree(cs[i].ty)
    ensures forall i :: 0 <= i < |cs| ==> FieldStable(cs[i], ds) && FieldPatchable(cs[i], ds)
  {
    forall i | 0 <= i < |cs| ensures FieldStable(cs[i], ds) && FieldPatchable(cs[i], ds) {
      var j := Find(ds, cs[i].name);
      if j.Some? {
        TupleFreeConditions(cs[i].ty, ds[j.value].ty);
      }
    }
  }

  /** Without tuples, a difference is its own difference and a patch that leaves nothing to ask for. */
  lemma TupleFreeDiffIsAPatch(a: Ty, b: Ty)
    requires Comparable(a, b) && DistinctNames(a) && TupleFree(a) && Diff(a, b) != Same
    ensures Diff(a, b).Delta?
    ensures Diff(Diff(a, b).ty, b) == Diff(a, b)
    ensures Diff(a, Overlay(Diff(a, b).ty, b)) == Same
  {
    DiffPanicsIff(a, b);
    TupleFreeConditions(a, b);
    DiffIdempotentIff(a, b);
    PatchSufficesIff(a, b);
  }

  /** The name, and in an enum the chosen option. */
  predicate SameHead(d: Ty, a: Ty) {
    match (d, a)
    case (Struct(m, _), Struct(n, _)) => m == n
    case (Enum(m, o, _), Enum(n, p, _)) => m == n && o == p
    case (Tuple(_), Tuple(_)) => true
    case _ => d == a
  }

  lemma {:induction false} SubsumedItself(a: Ty)
    requires DistinctNames(a)
    ensures Subsumed(a, a)
  {
    match a
    case Struct(_, cs) =>
      forall i | 0 <= i < |cs| ensures FieldSubsumed(cs[i], cs) { SubsumedItself(cs[i].ty); }
    case Enum(_, _, cs) =>
      forall i | 0 <= i < |cs| ensures FieldSubsumed(cs[i], cs) { SubsumedItself(cs[i].ty); }
    case Tuple(xs) => forall i | 0 <= i < |xs| ensures Subsumed(xs[i], xs[i]) { SubsumedItself(xs[i]); }
    case _ =>
  }

  /** Without tuples, a difference is a part of the first type, under the first type's name and option. */
  lemma {:induction false} DifferenceIsPartOfFirst(a: Ty, b: Ty)
    requires DistinctNames(a) && TupleFree(a) && Diff(a, b).Delta?
    ensures SameHead(Diff(a, b).ty, a) && Subsumed(Diff(a, b).ty, a)
    decreases a, 1
  {
    match (a, b)
    case (Struct(_, cs), Struct(_, ds)) => FieldsPartOfFirst(cs, cs, ds);
    case (Enum(_, _, cs), Enum(_, _, ds)) => FieldsPartOfFirst(cs, cs, ds);
    case _ => SubsumedItself(a);
  }

  lemma {:induction false} FieldsPartOfFirst<K>(cs: seq<Named<K>>, all: seq<Named<K>>, ds: seq<Named<K>>)
    requires DistinctFields(all) && (forall i :: 0 <= i < |cs| ==> cs[i] in all)
    requires (forall i :: 0 <= i < |cs| ==> DistinctNames(cs[i].ty) && TupleFree(cs[i].ty)) && DiffFields(cs, ds).Some?
    ensures var d := DiffFields(cs, ds).value; forall i :: 0 <= i < |d| ==> FieldSubsumed(d[i], all)
    decreases cs, 0
  {
    if cs != [] {
      FieldsPartOfFirst(cs[1..], all, ds);
      var j := Find(ds, cs[0].name);
      if j.None? {
        SubsumedItself(cs[0].ty);
      } else if Diff(cs[0].ty, ds[j.value].ty).Delta? {
        DifferenceIsPartOfFirst(cs[0].ty, ds[j.value].ty);
      }
    }
  }
}
