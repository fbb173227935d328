/** Structural difference of Cairo types (crates/dojo/types/src/schema.rs, `diff`). */
module SchemaDiff {
  import opened Wrappers
  import opened Primitives
  import opened Schema
  import opened FieldLookup
  import opened Remainders

  /** `None`, `Some(ty)`, or the panic on types of different kinds. */
  datatype Difference = Same | Delta(ty: Ty) | Mismatch

  function Diff(a: Ty, b: Ty): (r: Difference)
    decreases a, 0
  {
    match (a, b)
    case (Struct(n, cs), Struct(_, ds)) =>
      var r := DiffFields(cs, ds);
      if r.None? then Mismatch else if r.value == [] then Same else Delta(Struct(n, r.value))
    case (Enum(n, o, cs), Enum(_, _, ds)) =>
      var r := DiffFields(cs, ds);
      if r.None? then Mismatch else if r.value == [] then Same else Delta(Enum(n, o, r.value))
    case (Tuple(xs), Tuple(ys)) =>
      if |xs| != |ys| then Delta(Tuple(NotIn(xs, ys)))
      else
        var r := DiffItems(xs, ys);
        if r.None? then Mismatch else if r.value == [] then Same else Delta(Tuple(r.value))
    case (Array(xs), Array(ys)) => if xs == ys then Same else Delta(a)
    case (ByteArray(s), ByteArray(t)) => if s == t then Same else Delta(a)
    case (Prim(p), Prim(q)) => if p == q then Same else Delta(a)
    case _ => Mismatch
  }

  /** The fields that are new or different; `None` when some comparison panics. */
  function DiffFields<K>(cs: seq<Named<K>>, ds: seq<Named<K>>): (r: Option<seq<Named<K>>>)
    ensures r.Some? ==> |r.value| <= |cs|
    decreases cs, 0
  {
    if cs == [] then Some([])
    else
      var rest := DiffFields(cs[1..], ds);
      var j := Find(ds, cs[0].name);
      if j.None? then
        if rest.None? then None else Some([cs[0]] + rest.value)
      else
        match Diff(cs[0].ty, ds[j.value].ty)
        case Mismatch => None
        case Same => rest
        case Delta(d) => if rest.None? then None else Some([cs[0].(ty := d)] + rest.value)
  }

  function DiffItems(xs: seq<Ty>, ys: seq<Ty>): (r: Option<seq<Ty>>)
    requires |xs| == |ys|
    ensures r.Some? ==> |r.value| <= |xs|
    decreases xs, 0
  {
    if xs == [] then Some([])
    else
      var rest := DiffItems(xs[1..], ys[1..]);
      match Diff(xs[0], ys[0])
      case Mismatch => None
      case Same => rest
      case Delta(d) => if rest.None? then None else Some([d] + rest.value)
  }

  // ----- when it panics -----

  /** No pair that `diff` reaches has different kinds. */
  ghost predicate Comparable(a: Ty, b: Ty)
    decreases a
  {
    match (a, b)
    case (Struct(_, cs), Struct(_, ds)) =>
      forall i :: 0 <= i < |cs| ==> FieldComparable(cs[i], ds)
    case (Enum(_, _, cs), Enum(_, _, ds)) =>
      forall i :: 0 <= i < |cs| ==> FieldComparable(cs[i], ds)
    case (Tuple(xs), Tuple(ys)) =>
      |xs| == |ys| ==> forall i :: 0 <= i < |xs| ==> Comparable(xs[i], ys[i])
    case (Array(_), Array(_)) => true
    case (ByteArray(_), ByteArray(_)) => true
    case (Prim(_), Prim(_)) => true
    case _ => false
  }

  ghost predicate FieldComparable<K>(c: Named<K>, ds: seq<Named<K>>)
    decreases c
  {
    var j := Find(ds, c.name);
    j.Some? ==> Comparable(c.ty, ds[j.value].ty)
  }

  lemma {:induction false} DiffPanicsIff(a: Ty, b: Ty)
    ensures Diff(a, b) == Mismatch <==> !Comparable(a, b)
    decreases a, 0
  {
    match (a, b)
    case (Struct(_, cs), Struct(_, ds)) => FieldsPanicIff(cs, ds);
    case (Enum(_, _, cs), Enum(_, _, ds)) => FieldsPanicIff(cs, ds);
    case (Tuple(xs), Tuple(ys)) =>
      if |xs| == |ys| {
        ItemsPanicIff(xs, ys);
      }
    case _ =>
  }

  lemma {:induction false} FieldsPanicIff<K>(cs: seq<Named<K>>, ds: seq<Named<K>>)
    ensures DiffFields(cs, ds).Some? <==> forall i :: 0 <= i < |cs| ==> FieldComparable(cs[i], ds)
    decreases cs, 0
  {
    if cs != [] {
      assert cs == [cs[0]] + cs[1..];
      FieldsPanicIff(cs[1..], ds);
      var j := Find(ds, cs[0].name);
      if j.Some? {
        DiffPanicsIff(cs[0].ty, ds[j.value].ty);
      }
    }
  }

  lemma {:induction false} ItemsPanicIff(xs: seq<Ty>, ys: seq<Ty>)
    requires |xs| == |ys|
    ensures DiffItems(xs, ys).Some? <==> forall i :: 0 <= i < |xs| ==> Comparable(xs[i], ys[i])
    decreases xs, 0
  {
    if xs != [] {
      assert xs == [xs[0]] + xs[1..] && ys == [ys[0]] + ys[1..];
      ItemsPanicIff(xs[1..], ys[1..]);
      DiffPanicsIff(xs[0], ys[0]);
    }
  }

  // ----- when it finds nothing -----

  /** Everything in `a` occurs in `b`: members and options by name, leaves by equality. */
  ghost predicate Subsumed(a: Ty, b: Ty)
    decreases a
  {
    match (a, b)
    case (Struct(_, cs), Struct(_, ds)) =>
      forall i :: 0 <= i < |cs| ==> FieldSubsumed(cs[i], ds)
    case (Enum(_, _, cs), Enum(_, _, ds)) =>
      forall i :: 0 <= i < |cs| ==> FieldSubsumed(cs[i], ds)
    case (Tuple(xs), Tuple(ys)) => |xs| == |ys| && forall i :: 0 <= i < |xs| ==> Subsumed(xs[i], ys[i])
    case (Array(xs), Array(ys)) => xs == ys
    case (ByteArray(s), ByteArray(t)) => s == t
    case (Prim(p), Prim(q)) => p == q
    case _ => false
  }

  ghost predicate FieldSubsumed<K>(c: Named<K>, ds: seq<Named<K>>)
    decreases c
  {
    exists j :: 0 <= j < |ds| && ds[j].name == c.name && Subsumed(c.ty, ds[j].ty)
  }

  ghost predicate DistinctNames(t: Ty) {
    match t
    case Struct(_, cs) => DistinctFields(cs) && forall i :: 0 <= i < |cs| ==> DistinctNames(cs[i].ty)
    case Enum(_, _, cs) => DistinctFields(cs) && forall i :: 0 <= i < |cs| ==> DistinctNames(cs[i].ty)
    case Tuple(xs) => forall i :: 0 <= i < |xs| ==> DistinctNames(xs[i])
    case _ => true
  }

  /** `diff` returns `None` exactly when the first type is subsumed by the second. */
  lemma {:induction false} DiffDecidesSubsumption(a: Ty, b: Ty)
    requires Comparable(a, b) && DistinctNames(b)
    ensures Diff(a, b) == Same <==> Subsumed(a, b)
    decreases a, 0
  {
    match (a, b)
    case (Struct(_, cs), Struct(_, ds)) => FieldsDecideSubsumption(cs, ds);
    case (Enum(_, _, cs), Enum(_, _, ds)) => FieldsDecideSubsumption(cs, ds);
    case (Tuple(xs), Tuple(ys)) =>
      if |xs| == |ys| {
        ItemsDecideSubsumption(xs, ys);
      }
    case _ =>
  }

  lemma {:induction false} FieldsDecideSubsumption<K>(cs: seq<Named<K>>, ds: seq<Named<K>>)
    requires DistinctFields(ds) && forall j :: 0 <= j < |ds| ==> DistinctNames(ds[j].ty)
    requires forall i :: 0 <= i < |cs| ==> FieldComparable(cs[i], ds)
    ensures DiffFields(cs, ds).Some?
    ensures DiffFields(cs, ds) == Some([]) <==> forall i :: 0 <= i < |cs| ==> FieldSubsumed(cs[i], ds)
    decreases cs, 0
  {
    if cs != [] {
      assert cs == [cs[0]] + cs[1..];
      FieldsDecideSubsumption(cs[1..], ds);
      var j := Find(ds, cs[0].name);
      if j.Some? {
        assert FieldComparable(cs[0], ds);
        DiffDecidesSubsumption(cs[0].ty, ds[j.value].ty);
        DiffPanicsIff(cs[0].ty, ds[j.value].ty);
        assert FieldSubsumed(cs[0], ds) <==> Subsumed(cs[0].ty, ds[j.value].ty);
      }
    }
  }

  lemma {:induction false} ItemsDecideSubsumption(xs: seq<Ty>, ys: seq<Ty>)
    requires |xs| == |ys| && forall i :: 0 <= i < |xs| ==> Comparable(xs[i], ys[i]) && DistinctNames(ys[i])
    ensures DiffItems(xs, ys).Some?
    ensures DiffItems(xs, ys) == Some([]) <==> forall i :: 0 <= i < |xs| ==> Subsumed(xs[i], ys[i])
    decreases xs, 0
  {
    if xs != [] {
      assert xs == [xs[0]] + xs[1..] && ys == [ys[0]] + ys[1..];
      ItemsDecideSubsumption(xs[1..], ys[1..]);
      DiffDecidesSubsumption(xs[0], ys[0]);
      DiffPanicsIff(xs[0], ys[0]);
    }
  }

  // ----- what it gives -----

  /** There is no difference exactly when the second type covers the first. */
  lemma {:induction false} CoveredIff(a: Ty, b: Ty)
    ensures Diff(a, b) == Same <==> Covered(a, b)
    decreases a, 0
  {
    match (a, b)
    case (Struct(_, cs), Struct(_, ds)) => FieldsCoveredIff(cs, ds);
    case (Enum(_, _, cs), Enum(_, _, ds)) => FieldsCoveredIff(cs, ds);
    case (Tuple(xs), Tuple(ys)) =>
      if |xs| == |ys| {
        ItemsCoveredIff(xs, ys);
      }
    case _ =>
  }

  lemma {:induction false} FieldsCoveredIff<K>(cs: seq<Named<K>>, ds: seq<Named<K>>)
    ensures DiffFields(cs, ds) == Some([]) <==> forall i :: 0 <= i < |cs| ==> FieldCovered(cs[i], ds)
    decreases cs, 0
  {
    if cs != [] {
      assert cs == [cs[0]] + cs[1..];
      FieldsCoveredIff(cs[1..], ds);
      FieldCoveredIff(cs[0], ds);
    }
  }

  lemma {:induction false} FieldCoveredIff<K>(c: Named<K>, ds: seq<Named<K>>)
    ensures var j := Find(ds, c.name);
            FieldCovered(c, ds) <==> j.Some? && Diff(c.ty, ds[j.value].ty) == Same
    decreases c, 0
  {
    var j := Find(ds, c.name);
    if j.Some? {
      CoveredIff(c.ty, ds[j.value].ty);
    }
  }

  lemma {:induction false} ItemsCoveredIff(xs: seq<Ty>, ys: seq<Ty>)
    requires |xs| == |ys|
    ensures DiffItems(xs, ys) == Some([]) <==> forall i :: 0 <= i < |xs| ==> Covered(xs[i], ys[i])
    decreases xs, 0
  {
    if xs != [] {
      assert xs == [xs[0]] + xs[1..] && ys == [ys[0]] + ys[1..];
      ItemsCoveredIff(xs[1..], ys[1..]);
      CoveredIff(xs[0], ys[0]);
    }
  }

  /** A difference is exactly the remainder of the first type over the second. */
  lemma {:induction false} DifferenceIsRemainder(d: Ty, a: Ty, b: Ty)
    ensures Diff(a, b) == Delta(d) <==> !Covered(a, b) && Remainder(d, a, b)
    decreases a, 0
  {
    CoveredIff(a, b);
    match (d, a, b)
    case (Struct(_, es), Struct(_, cs), Struct(_, ds)) => FieldsAreRemainder(es, cs, ds);
    case (Enum(_, _, es), Enum(_, _, cs), Enum(_, _, ds)) => FieldsAreRemainder(es, cs, ds);
    case (Tuple(zs), Tuple(xs), Tuple(ys)) =>
      if |xs| == |ys| {
        ItemsAreRemainder(zs, xs, ys);
      }
    case _ =>
  }

  lemma {:induction false} FieldsAreRemainder<K>(es: seq<Named<K>>, cs: seq<Named<K>>, ds: seq<Named<K>>)
    ensures DiffFields(cs, ds) == Some(es) <==> FieldsRemainder(es, cs, ds)
    decreases cs, 0
  {
    if cs != [] {
      FieldCoveredIff(cs[0], ds);
      var j := Find(ds, cs[0].name);
      if FieldCovered(cs[0], ds) {
        FieldsAreRemainder(es, cs[1..], ds);
      } else if es != [] {
        assert es == [es[0]] + es[1..];
        FieldsAreRemainder(es[1..], cs[1..], ds);
        if j.Some? {
          DifferenceIsRemainder(es[0].ty, cs[0].ty, ds[j.value].ty);
        }
        FieldsSplit(es, cs, ds);
      }
    }
  }

  /** A difference whose first field is new or changed starts with that field and goes on with the rest. */
  lemma FieldsSplit<K>(es: seq<Named<K>>, cs: seq<Named<K>>, ds: seq<Named<K>>)
    requires es != [] && cs != [] && !FieldCovered(cs[0], ds)
    requires var j := Find(ds, cs[0].name); j.Some? ==> Diff(cs[0].ty, ds[j.value].ty) != Same
    ensures var j, rest := Find(ds, cs[0].name), DiffFields(cs[1..], ds);
            DiffFields(cs, ds) == Some(es) <==>
            && rest == Some(es[1..])
            && if j.None? then es[0] == cs[0]
               else Diff(cs[0].ty, ds[j.value].ty) == Delta(es[0].ty) && es[0] == cs[0].(ty := es[0].ty)
  {
    var d := DiffFields(cs, ds);
    assert es == [es[0]] + es[1..];
    if d.Some? && d.value != [] {
      assert d.value[1..] == DiffFields(cs[1..], ds).value;
    }
  }

  lemma {:induction false} ItemsAreRemainder(zs: seq<Ty>, xs: seq<Ty>, ys: seq<Ty>)
    requires |xs| == |ys|
    ensures DiffItems(xs, ys) == Some(zs) <==> ItemsRemainder(zs, xs, ys)
    decreases xs, 0
  {
    if xs != [] {
      CoveredIff(xs[0], ys[0]);
      if Covered(xs[0], ys[0]) {
        ItemsAreRemainder(zs, xs[1..], ys[1..]);
      } else if zs != [] {
        assert zs == [zs[0]] + zs[1..];
        DifferenceIsRemainder(zs[0], xs[0], ys[0]);
        ItemsAreRemainder(zs[1..], xs[1..], ys[1..]);
        ItemsSplit(zs, xs, ys);
      }
    }
  }

  lemma ItemsSplit(zs: seq<Ty>, xs: seq<Ty>, ys: seq<Ty>)
    requires |xs| == |ys| && xs != [] && zs != [] && Diff(xs[0], ys[0]) != Same
    ensures DiffItems(xs, ys) == Some(zs) <==>
            Diff(xs[0], ys[0]) == Delta(zs[0]) && DiffItems(xs[1..], ys[1..]) == Some(zs[1..])
  {
    var d := DiffItems(xs, ys);
    assert zs == [zs[0]] + zs[1..];
    if d.Some? && d.value != [] {
      assert d.value[1..] == DiffItems(xs[1..], ys[1..]).value;
    }
  }

  /** The difference is the whole first type exactly when nothing of it is in the second. */
  lemma {:induction false} WhollyNewIff(a: Ty, b: Ty)
    ensures Diff(a, b) == Delta(a) <==> WhollyNew(a, b)
    decreases a, 0
  {
    match (a, b)
    case (Struct(_, cs), Struct(_, ds)) => FieldsWhollyNewIff(cs, ds);
    case (Enum(_, _, cs), Enum(_, _, ds)) => FieldsWhollyNewIff(cs, ds);
    case (Tuple(xs), Tuple(ys)) =>
      if |xs| == |ys| {
        ItemsWhollyNewIff(xs, ys);
      } else {
        NotInIsAllIff(xs, ys);
      }
    case _ =>
  }

  lemma {:induction false} FieldsWhollyNewIff<K>(cs: seq<Named<K>>, ds: seq<Named<K>>)
    ensures DiffFields(cs, ds) == Some(cs) <==> forall i :: 0 <= i < |cs| ==> FieldWhollyNew(cs[i], ds)
    decreases cs, 0
  {
    if cs != [] {
      assert cs == [cs[0]] + cs[1..];
      FieldsWhollyNewIff(cs[1..], ds);
      var j := Find(ds, cs[0].name);
      if j.Some? {
        WhollyNewIff(cs[0].ty, ds[j.value].ty);
        if Diff(cs[0].ty, ds[j.value].ty) != Same {
          FieldCoveredIff(cs[0], ds);
          FieldsSplit(cs, cs, ds);
        }
      } else {
        FieldsSplit(cs, cs, ds);
      }
    }
  }

  lemma {:induction false} ItemsWhollyNewIff(xs: seq<Ty>, ys: seq<Ty>)
    requires |xs| == |ys|
    ensures DiffItems(xs, ys) == Some(xs) <==> forall i :: 0 <= i < |xs| ==> WhollyNew(xs[i], ys[i])
    decreases xs, 0
  {
    if xs != [] {
      assert xs == [xs[0]] + xs[1..] && ys == [ys[0]] + ys[1..];
      ItemsWhollyNewIff(xs[1..], ys[1..]);
      WhollyNewIff(xs[0], ys[0]);
      if Diff(xs[0], ys[0]) != Same {
        ItemsSplit(xs, xs, ys);
      }
    }
  }

  // ----- when it is idempotent -----

  /**
   Taking the difference twice gives the same as taking it once. Tuples decide: their differing elements lose their
   positions, so that a shortened tuple is compared by membership, and one cut to the other's length place by place.
   */
  ghost predicate Stable(a: Ty, b: Ty)
    decreases a
  {
    match (a, b)
    case (Struct(_, cs), Struct(_, ds)) => forall i :: 0 <= i < |cs| ==> FieldStable(cs[i], ds)
    case (Enum(_, _, cs), Enum(_, _, ds)) => forall i :: 0 <= i < |cs| ==> FieldStable(cs[i], ds)
    case (Tuple(xs), Tuple(ys)) =>
      if |xs| != |ys| then
        var kept := NotIn(xs, ys);
        |kept| == |ys| ==> forall i :: 0 <= i < |kept| ==> WhollyNew(kept[i], ys[i])
      else if forall i :: 0 <= i < |xs| ==> !Covered(xs[i], ys[i]) then
        forall i :: 0 <= i < |xs| ==> Stable(xs[i], ys[i])
      else
        forall i :: 0 <= i < |xs| ==> !Reappears(xs[i], ys[i], ys)
    case _ => true
  }

  ghost predicate FieldStable<K>(c: Named<K>, ds: seq<Named<K>>)
    decreases c
  {
    var j := Find(ds, c.name);
    j.Some? && !Covered(c.ty, ds[j.value].ty) ==> Stable(c.ty, ds[j.value].ty)
  }

  lemma {:induction false} DiffIdempotentIff(a: Ty, b: Ty)
    requires Diff(a, b).Delta?
    ensures Diff(Diff(a, b).ty, b) == Diff(a, b) <==> Stable(a, b)
    decreases a, 0
  {
    match (a, b)
    case (Struct(_, cs), Struct(_, ds)) => FieldsIdempotentIff(cs, ds);
    case (Enum(_, _, cs), Enum(_, _, ds)) => FieldsIdempotentIff(cs, ds);
    case (Tuple(xs), Tuple(ys)) => TupleIdempotentIff(xs, ys);
    case _ =>
  }

  lemma {:induction false} FieldsIdempotentIff<K>(cs: seq<Named<K>>, ds: seq<Named<K>>)
    requires DiffFields(cs, ds).Some?
    ensures var d := DiffFields(cs, ds).value;
            DiffFields(d, ds) == Some(d) <==> forall i :: 0 <= i < |cs| ==> FieldStable(cs[i], ds)
    decreases cs, 0
  {
    if cs != [] {
      assert cs == [cs[0]] + cs[1..];
      FieldsIdempotentIff(cs[1..], ds);
      var j := Find(ds, cs[0].name);
      var d, rest := DiffFields(cs, ds).value, DiffFields(cs[1..], ds).value;
      if j.None? {
        assert d[0] == cs[0] && d[1..] == rest;
      } else {
        var r := Diff(cs[0].ty, ds[j.value].ty);
        CoveredIff(cs[0].ty, ds[j.value].ty);
        if r.Delta? {
          DiffIdempotentIff(cs[0].ty, ds[j.value].ty);
          assert d[0] == cs[0].(ty := r.ty) && d[1..] == rest;
          HeadTail(d, rest, ds);
        }
      }
    }
  }

  /** A difference that starts with a changed field is reproduced exactly when its head and tail are. */
  lemma HeadTail<K>(d: seq<Named<K>>, rest: seq<Named<K>>, ds: seq<Named<K>>)
    requires d != [] && d[1..] == rest && Find(ds, d[0].name).Some?
    ensures DiffFields(d, ds) == Some(d) <==>
            Diff(d[0].ty, ds[Find(ds, d[0].name).value].ty) == Delta(d[0].ty) && DiffFields(rest, ds) == Some(rest)
  {
    var r, q := Diff(d[0].ty, ds[Find(ds, d[0].name).value].ty), DiffFields(rest, ds);
    assert d == [d[0]] + rest;
    if r.Delta? && q.Some? {
      var e := [d[0].(ty := r.ty)] + q.value;
      assert DiffFields(d, ds) == Some(e);
      if e == d {
        assert e[0] == d[0] && e[1..] == rest && e[1..] == q.value;
      }
    }
  }

  lemma {:induction false} TupleIdempotentIff(xs: seq<Ty>, ys: seq<Ty>)
    requires Diff(Tuple(xs), Tuple(ys)).Delta?
    ensures var r := Diff(Tuple(xs), Tuple(ys));
            Diff(r.ty, Tuple(ys)) == r <==> Stable(Tuple(xs), Tuple(ys))
    decreases xs, 2
  {
    if |xs| == |ys| {
      var d := DiffItems(xs, ys).value;
      AllDifferIff(xs, ys);
      if |d| == |xs| {
        AllItemsIdempotentIff(xs, ys);
      } else {
        NotInIsAllIff(d, ys);
        NoneReappearsIff(xs, ys, ys);
        assert (forall e <- d :: e !in ys) <==> forall i :: 0 <= i < |d| ==> d[i] !in ys;
      }
    } else {
      var kept := NotIn(xs, ys);
      NotInTwice(xs, ys);
      if |kept| == |ys| {
        NotInEmpty(xs, ys);
        ItemsWhollyNewIff(kept, ys);
      }
    }
  }

  /** Every place has a difference exactly when no element is covered by its partner. */
  lemma {:induction false} AllDifferIff(xs: seq<Ty>, ys: seq<Ty>)
    requires |xs| == |ys| && DiffItems(xs, ys).Some?
    ensures |DiffItems(xs, ys).value| == |xs| <==> forall i :: 0 <= i < |xs| ==> !Covered(xs[i], ys[i])
    decreases |xs|
  {
    if xs != [] {
      assert xs == [xs[0]] + xs[1..] && ys == [ys[0]] + ys[1..];
      AllDifferIff(xs[1..], ys[1..]);
      CoveredIff(xs[0], ys[0]);
    }
  }

  lemma ReappearsIff(a: Ty, b: Ty, zs: seq<Ty>)
    ensures Reappears(a, b, zs) <==> Diff(a, b).Delta? && Diff(a, b).ty in zs
  {
    CoveredIff(a, b);
    forall k | 0 <= k < |zs|
      ensures Diff(a, b) == Delta(zs[k]) <==> !Covered(a, b) && Remainder(zs[k], a, b)
    {
      DifferenceIsRemainder(zs[k], a, b);
    }
  }

  /** No difference occurs in `zs` exactly when at no place the remainder does. */
  lemma {:induction false} NoneReappearsIff(xs: seq<Ty>, ys: seq<Ty>, zs: seq<Ty>)
    requires |xs| == |ys| && DiffItems(xs, ys).Some?
    ensures (forall d <- DiffItems(xs, ys).value :: d !in zs) <==>
            (forall i :: 0 <= i < |xs| ==> !Reappears(xs[i], ys[i], zs))
    decreases |xs|
  {
    if xs != [] {
      assert xs == [xs[0]] + xs[1..] && ys == [ys[0]] + ys[1..];
      NoneReappearsIff(xs[1..], ys[1..], zs);
      ReappearsIff(xs[0], ys[0], zs);
      var d, rest := DiffItems(xs, ys).value, DiffItems(xs[1..], ys[1..]).value;
      assert d == if Diff(xs[0], ys[0]).Delta? then [Diff(xs[0], ys[0]).ty] + rest else rest;
    }
  }

  lemma {:induction false} NotInIsAllIff(xs: seq<Ty>, ys: seq<Ty>)
    ensures NotIn(xs, ys) == xs <==> forall i :: 0 <= i < |xs| ==> xs[i] !in ys
  {
    if xs != [] {
      assert xs == [xs[0]] + xs[1..];
      NotInIsAllIff(xs[1..], ys);
      if xs[0] !in ys {
        assert ([xs[0]] + NotIn(xs[1..], ys))[1..] == NotIn(xs[1..], ys);
      }
    }
  }

  lemma {:induction false} NotInTwice(xs: seq<Ty>, ys: seq<Ty>)
    ensures NotIn(NotIn(xs, ys), ys) == NotIn(xs, ys)
  {
    if xs != [] {
      NotInTwice(xs[1..], ys);
      if xs[0] !in ys {
        assert ([xs[0]] + NotIn(xs[1..], ys))[1..] == NotIn(xs[1..], ys);
      }
    }
  }

  lemma {:induction false} NotInEmpty(xs: seq<Ty>, ys: seq<Ty>)
    ensures ys == [] ==> NotIn(xs, ys) == xs
  {
    NotInIsAllIff(xs, ys);
  }

  lemma {:induction false} AllItemsIdempotentIff(xs: seq<Ty>, ys: seq<Ty>)
    requires |xs| == |ys| && DiffItems(xs, ys).Some? && |DiffItems(xs, ys).value| == |xs|
    ensures var d := DiffItems(xs, ys).value;
            DiffItems(d, ys) == Some(d) <==> forall i :: 0 <= i < |xs| ==> Stable(xs[i], ys[i])
    decreases xs, 1
  {
    if xs != [] {
      assert xs == [xs[0]] + xs[1..] && ys == [ys[0]] + ys[1..];
      var d, rest := DiffItems(xs, ys).value, DiffItems(xs[1..], ys[1..]).value;
      assert Diff(xs[0], ys[0]).Delta?;
      DiffIdempotentIff(xs[0], ys[0]);
      assert d[0] == Diff(xs[0], ys[0]).ty && d[1..] == rest;
      AllItemsIdempotentIff(xs[1..], ys[1..]);
      var r, q := Diff(d[0], ys[0]), DiffItems(rest, ys[1..]);
      assert d == [d[0]] + rest;
      if r.Delta? && q.Some? {
        assert ([r.ty] + q.value)[1..] == q.value;
      }
    }
  }

  /** Idempotence does fail: the second difference drops an element that moved in the tuple. */
  lemma TupleDifferenceIsNotIdempotent(one: Ty, two: Ty, three: Ty, four: Ty)
    requires one == Prim(Primitive(U8, Some(1))) && two == Prim(Primitive(U8, Some(2)))
    requires three == Prim(Primitive(U8, Some(3))) && four == Prim(Primitive(U8, Some(4)))
    ensures var a, b := Tuple([two, three, four]), Tuple([one, two, four]);
            Diff(a, b) == Delta(Tuple([two, three])) && Diff(Tuple([two, three]), b) == Delta(Tuple([three]))
  {
    var xs, ys := [two, three, four], [one, two, four];
    assert xs[1..] == [three, four] && ys[1..] == [two, four];
    assert [three, four][1..] == [four] && [two, four][1..] == [four];
    assert [four][1..] == [];
    assert DiffItems([four], [four]) == Some([]);
    assert DiffItems([three, four], [two, four]) == Some([three] + []);
    assert [three] + [] == [three] && [two] + [three] == [two, three];
    assert DiffItems(xs, ys) == Some([two] + [three]);
    assert [two, three][1..] == [three] && [three][1..] == [];
    assert NotIn([three], ys) == [three] + [];
    assert NotIn([two, three], ys) == [three];
  }
}
