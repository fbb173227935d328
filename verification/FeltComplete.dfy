/**
 * When a read that succeeds is complete: `deserialize` also returns successfully when the felts run out, and then
 * leaves what it did not reach as it was.
 */
module FeltComplete {
  import opened Wrappers
  import opened Felts
  import opened Primitives
  import opened Schema
  import opened FeltCodec
  import opened FeltRoundTrip
  import opened FeltReads

  /**
   * The felts up to the end of the last primitive or enum the template held no value for. What comes after it,
   * byte arrays and what the template already had, makes a value read or unread.
   */
  ghost function Solid(c: ByteArrayCodec, v: Ty, t: Ty): (n: nat)
    decreases v, 0
  {
    match (v, t)
    case (Prim(_), Prim(q)) => if q.value.Some? then 0 else Width(c, v)
    case (Struct(_, cs), Struct(_, ds)) => FieldsSolid(c, cs, ds)
    case (Enum(_, o, cs), Enum(_, _, ds)) =>
      if o.None? || o.value >= |cs| || o.value >= |ds| then 1 else Behind(Solid(c, cs[o.value].ty, ds[o.value].ty))
    case (Tuple(xs), Tuple(ys)) => ItemsSolid(c, xs, ys)
    case (Array(xs), Array(ys)) => if ys == [] then 0 else Behind(CopiesSolid(c, xs, ys[0]))
    case _ => 0
  }

  ghost function FieldsSolid<K>(c: ByteArrayCodec, cs: seq<Named<K>>, ds: seq<Named<K>>): (n: nat)
    decreases cs, 0
  {
    if cs == [] || ds == [] then 0
    else SolidThen(Width(c, cs[0].ty), Solid(c, cs[0].ty, ds[0].ty), FieldsSolid(c, cs[1..], ds[1..]))
  }

  ghost function ItemsSolid(c: ByteArrayCodec, xs: seq<Ty>, ys: seq<Ty>): (n: nat)
    decreases xs, 0
  {
    if xs == [] || ys == [] then 0
    else SolidThen(Width(c, xs[0]), Solid(c, xs[0], ys[0]), ItemsSolid(c, xs[1..], ys[1..]))
  }

  ghost function CopiesSolid(c: ByteArrayCodec, xs: seq<Ty>, item: Ty): (n: nat)
    decreases xs, 0
  {
    if xs == [] then 0 else SolidThen(Width(c, xs[0]), Solid(c, xs[0], item), CopiesSolid(c, xs[1..], item))
  }

  ghost function SolidThen(width: nat, solid: nat, more: nat): nat {
    if more > 0 then width + more else solid
  }

  /** An enum's option, or an array's length, only counts if something solid follows. */
  ghost function Behind(solid: nat): nat {
    if solid == 0 then 0 else 1 + solid
  }

  lemma {:induction false} SolidWithinWidth(c: ByteArrayCodec, v: Ty, t: Ty)
    ensures Solid(c, v, t) <= Width(c, v)
    decreases v, 0
  {
    match (v, t)
    case (Struct(_, cs), Struct(_, ds)) => FieldsSolidWithinWidth(c, cs, ds);
    case (Enum(_, o, cs), Enum(_, _, ds)) =>
      if o.Some? && o.value < |cs| && o.value < |ds| {
        SolidWithinWidth(c, cs[o.value].ty, ds[o.value].ty);
      }
    case (Tuple(xs), Tuple(ys)) => ItemsSolidWithinWidth(c, xs, ys);
    case (Array(xs), Array(ys)) =>
      if ys != [] {
        CopiesSolidWithinWidth(c, xs, ys[0]);
      }
    case _ =>
  }

  lemma {:induction false} FieldsSolidWithinWidth<K>(c: ByteArrayCodec, cs: seq<Named<K>>, ds: seq<Named<K>>)
    ensures FieldsSolid(c, cs, ds) <= FieldsWidth(c, cs)
    decreases cs, 0
  {
    if cs != [] && ds != [] {
      SolidWithinWidth(c, cs[0].ty, ds[0].ty);
      FieldsSolidWithinWidth(c, cs[1..], ds[1..]);
    }
  }

  lemma {:induction false} ItemsSolidWithinWidth(c: ByteArrayCodec, xs: seq<Ty>, ys: seq<Ty>)
    ensures ItemsSolid(c, xs, ys) <= ItemsWidth(c, xs)
    decreases xs, 0
  {
    if xs != [] && ys != [] {
      SolidWithinWidth(c, xs[0], ys[0]);
      ItemsSolidWithinWidth(c, xs[1..], ys[1..]);
    }
  }

  lemma {:induction false} CopiesSolidWithinWidth(c: ByteArrayCodec, xs: seq<Ty>, item: Ty)
    ensures CopiesSolid(c, xs, item) <= ItemsWidth(c, xs)
    decreases xs, 0
  {
    if xs != [] {
      SolidWithinWidth(c, xs[0], item);
      CopiesSolidWithinWidth(c, xs[1..], item);
    }
  }

  // ----- what is left unread -----

  ghost predicate ItemsFit(xs: seq<Ty>, ys: seq<Ty>) {
    |xs| == |ys| && forall i :: 0 <= i < |xs| ==> Fits(xs[i], ys[i])
  }

  /** A template passes for a value of itself exactly when nothing in it is solid. */
  lemma {:induction false} UnreadFitsIff(c: ByteArrayCodec, t: Ty)
    requires Template(t)
    ensures Fits(t, t) <==> Solid(c, t, t) == 0
    decreases t, 0
  {
    match t
    case Struct(_, cs) => UnreadFieldsFitIff(c, cs);
    case Enum(_, o, cs) =>
      if o.Some? && o.value < |cs| {
        UnreadFitsIff(c, cs[o.value].ty);
      }
    case Tuple(xs) => UnreadItemsFitIff(c, xs);
    case Array(xs) =>
      UnreadFitsIff(c, xs[0]);
      assert CopiesSolid(c, xs, xs[0]) == Solid(c, xs[0], xs[0]);
    case _ =>
  }

  lemma {:induction false} UnreadFieldsFitIff<K>(c: ByteArrayCodec, cs: seq<Named<K>>)
    requires forall i :: 0 <= i < |cs| ==> Template(cs[i].ty)
    ensures FieldsFit(cs, cs) <==> FieldsSolid(c, cs, cs) == 0
    decreases cs, 0
  {
    if cs != [] {
      assert cs == [cs[0]] + cs[1..];
      UnreadFitsIff(c, cs[0].ty);
      UnreadFieldsFitIff(c, cs[1..]);
      FieldsFitCons(cs, cs);
    }
  }

  lemma {:induction false} UnreadItemsFitIff(c: ByteArrayCodec, xs: seq<Ty>)
    requires forall i :: 0 <= i < |xs| ==> Template(xs[i])
    ensures ItemsFit(xs, xs) <==> ItemsSolid(c, xs, xs) == 0
    decreases xs, 0
  {
    if xs != [] {
      UnreadFitsIff(c, xs[0]);
      UnreadItemsFitIff(c, xs[1..]);
      ItemsFitCons(xs, xs);
    }
  }

  lemma FieldsFitCons<K>(cs: seq<Named<K>>, ds: seq<Named<K>>)
    requires cs != [] && ds != []
    ensures FieldsFit(cs, ds) <==>
            && cs[0].name == ds[0].name && cs[0].key == ds[0].key && Fits(cs[0].ty, ds[0].ty)
            && FieldsFit(cs[1..], ds[1..])
  {
    assert cs == [cs[0]] + cs[1..] && ds == [ds[0]] + ds[1..];
  }

  lemma ItemsFitCons(xs: seq<Ty>, ys: seq<Ty>)
    requires xs != [] && ys != []
    ensures ItemsFit(xs, ys) <==> Fits(xs[0], ys[0]) && ItemsFit(xs[1..], ys[1..])
  {
    assert xs == [xs[0]] + xs[1..] && ys == [ys[0]] + ys[1..];
  }

  // ----- what a read takes -----

  /**
   * The felts cover the width of what was read, and exactly that was taken; or they ran out, and then what there
   * is fits if and only if they cover its solid part.
   */
  ghost predicate TookAll(felts: seq<Felt>, rest: seq<Felt>, width: nat, solid: nat, fits: bool) {
    if width <= |felts| then rest == felts[width..] && fits
    else rest == [] && (fits <==> solid <= |felts|)
  }

  lemma TookThen(felts: seq<Felt>, middle: seq<Felt>, rest: seq<Felt>,
                 w: nat, s: nat, f: bool, w': nat, s': nat, f': bool)
    requires TookAll(felts, middle, w, s, f) && TookAll(middle, rest, w', s', f') && s <= w && s' <= w'
    ensures TookAll(felts, rest, w + w', SolidThen(w, s, s'), f && f')
  {
    if w + w' <= |felts| {
      assert felts[w..][w'..] == felts[w + w'..];
    }
  }

  /** One felt more in front: an enum's option, or an array's length. */
  lemma TookOneMore(felts: seq<Felt>, rest: seq<Felt>, w: nat, s: nat, f: bool)
    requires felts != [] && TookAll(felts[1..], rest, w, s, f) && s <= w
    ensures TookAll(felts, rest, 1 + w, Behind(s), f)
  {
    if w < |felts| {
      assert felts[1..][w..] == felts[1 + w..];
    }
  }

  ghost predicate ReadTookAll(c: ByteArrayCodec, t: Ty, felts: seq<Felt>) {
    var r := DeserializeTy(c, t, felts);
    TookAll(felts, r.rest, Width(c, r.value), Solid(c, r.value, t), Fits(r.value, t))
  }

  lemma UnreadTookAll(c: ByteArrayCodec, t: Ty)
    requires Template(t)
    ensures ReadTookAll(c, t, [])
  {
    UnreadFitsIff(c, t);
    SolidWithinWidth(c, t, t);
  }

  lemma {:induction false} ReadTakesAll(c: ByteArrayCodec, t: Ty, felts: seq<Felt>)
    requires c.Lawful() && Template(t) && DeserializeTy(c, t, felts).status == Done
    ensures ReadTookAll(c, t, felts)
    decreases t, 0, 0
  {
    if felts == [] {
      UnreadTookAll(c, t);
    } else {
      match t
      case Prim(_) => LeafTakesAll(c, t, felts);
      case Struct(_, ds) => FieldsTakeAll(c, ds, felts);
      case Enum(_, _, ds) => EnumTakesAll(c, t, felts);
      case Tuple(ys) => ItemsTakeAll(c, ys, felts);
      case Array(ys) => ArrayTakesAll(c, t, felts);
      case ByteArray(_) => LeafTakesAll(c, t, felts);
    }
  }

  lemma LeafTakesAll(c: ByteArrayCodec, t: Ty, felts: seq<Felt>)
    requires c.Lawful() && (t.Prim? || t.ByteArray?) && felts != [] && DeserializeTy(c, t, felts).status == Done
    ensures ReadTookAll(c, t, felts)
  {
  }

  lemma {:induction false} EnumTakesAll(c: ByteArrayCodec, t: Ty, felts: seq<Felt>)
    requires c.Lawful() && Template(t) && t.Enum? && felts != []
    requires DeserializeTy(c, t, felts).status == Done
    ensures ReadTookAll(c, t, felts)
    decreases t.options, 1, 0
  {
    var ds, i := t.options, felts[0];
    var ty := ds[i].ty;
    var r := DeserializeTy(c, t, felts);
    var v := r.value.options[i].ty;
    if ty == Tuple([]) {
      assert v == ty && Fits(ty, ty) && felts[1..][0..] == felts[1..];
    } else {
      ReadTakesAll(c, ty, felts[1..]);
    }
    SolidWithinWidth(c, v, ty);
    TookOneMore(felts, r.rest, Width(c, v), Solid(c, v, ty), Fits(v, ty));
    assert Fits(r.value, t) <==> Fits(v, ty);
  }

  lemma {:induction false} ArrayTakesAll(c: ByteArrayCodec, t: Ty, felts: seq<Felt>)
    requires c.Lawful() && Template(t) && t.Array? && felts != []
    requires DeserializeTy(c, t, felts).status == Done
    ensures ReadTookAll(c, t, felts)
    decreases t.items, 2, 0
  {
    var item := t.items[0];
    var r := DeserializeCopies(c, item, felts[0], felts[1..]);
    ArrayRead(c, t, felts, r);
    CopiesTakeAll(c, item, felts[0], felts[1..], r);
    ArrayTook(c, t, felts, item, r);
  }

  lemma ArrayRead(c: ByteArrayCodec, t: Ty, felts: seq<Felt>, r: Read<seq<Ty>>)
    requires Template(t) && t.Array? && felts != [] && DeserializeTy(c, t, felts).status == Done
    requires r == DeserializeCopies(c, t.items[0], felts[0], felts[1..])
    ensures t == Array([t.items[0]]) && r.status == Done
    ensures DeserializeTy(c, t, felts) == Read(Done, Array(r.value), r.rest)
    ensures Fits(Array(r.value), t) <==> CopiesFit(r.value, t.items[0])
  {
    assert t.items[..0] + r.value == r.value;
  }

  lemma ArrayTook(c: ByteArrayCodec, t: Ty, felts: seq<Felt>, item: Ty, r: Read<seq<Ty>>)
    requires felts != [] && t == Array([item]) && DeserializeTy(c, t, felts) == Read(Done, Array(r.value), r.rest)
    requires CopiesTookAll(c, item, felts[1..], r) && (Fits(Array(r.value), t) <==> CopiesFit(r.value, item))
    ensures ReadTookAll(c, t, felts)
  {
    CopiesSolidWithinWidth(c, r.value, item);
    TookOneMore(felts, r.rest, ItemsWidth(c, r.value), CopiesSolid(c, r.value, item), CopiesFit(r.value, item));
  }

  lemma {:induction false} FieldsTakeAll<K>(c: ByteArrayCodec, ds: seq<Named<K>>, felts: seq<Felt>)
    requires c.Lawful() && (forall i :: 0 <= i < |ds| ==> Template(ds[i].ty))
    requires DeserializeFields(c, ds, felts).status == Done
    ensures var r := DeserializeFields(c, ds, felts);
            TookAll(felts, r.rest, FieldsWidth(c, r.value), FieldsSolid(c, r.value, ds), FieldsFit(r.value, ds))
    decreases ds, 0, 0
  {
    if ds != [] {
      var h := DeserializeTy(c, ds[0].ty, felts);
      var q := DeserializeFields(c, ds[1..], h.rest);
      var cs := DeserializeFields(c, ds, felts).value;
      ReadTakesAll(c, ds[0].ty, felts);
      FieldsTakeAll(c, ds[1..], h.rest);
      SolidWithinWidth(c, h.value, ds[0].ty);
      FieldsSolidWithinWidth(c, q.value, ds[1..]);
      TookThen(felts, h.rest, q.rest, Width(c, h.value), Solid(c, h.value, ds[0].ty), Fits(h.value, ds[0].ty),
               FieldsWidth(c, q.value), FieldsSolid(c, q.value, ds[1..]), FieldsFit(q.value, ds[1..]));
      assert cs[0] == ds[0].(ty := h.value) && cs[1..] == q.value;
      FieldsFitCons(cs, ds);
    }
  }

  ghost predicate ItemsTookAll(c: ByteArrayCodec, ys: seq<Ty>, felts: seq<Felt>, r: Read<seq<Ty>>) {
    TookAll(felts, r.rest, ItemsWidth(c, r.value), ItemsSolid(c, r.value, ys), ItemsFit(r.value, ys))
  }

  lemma {:induction false} ItemsTakeAll(c: ByteArrayCodec, ys: seq<Ty>, felts: seq<Felt>)
    requires c.Lawful() && (forall i :: 0 <= i < |ys| ==> Template(ys[i]))
    requires DeserializeItems(c, ys, felts).status == Done
    ensures ItemsTookAll(c, ys, felts, DeserializeItems(c, ys, felts))
    decreases ys, 0, 0
  {
    if ys != [] {
      var h, q := ItemsUnfold(c, ys, felts);
      ReadTakesAll(c, ys[0], felts);
      ItemsTakeAll(c, ys[1..], h.rest);
      ItemsTook(c, ys, felts, h, q);
    }
  }

  lemma ItemsUnfold(c: ByteArrayCodec, ys: seq<Ty>, felts: seq<Felt>) returns (h: Read<Ty>, q: Read<seq<Ty>>)
    requires ys != [] && DeserializeItems(c, ys, felts).status == Done
    ensures h == DeserializeTy(c, ys[0], felts) && h.status == Done
    ensures q == DeserializeItems(c, ys[1..], h.rest) && q.status == Done
    ensures DeserializeItems(c, ys, felts) == Read(Done, [h.value] + q.value, q.rest)
  {
    h := DeserializeTy(c, ys[0], felts);
    q := DeserializeItems(c, ys[1..], h.rest);
  }

  lemma ItemsTook(c: ByteArrayCodec, ys: seq<Ty>, felts: seq<Felt>, h: Read<Ty>, q: Read<seq<Ty>>)
    requires ys != [] && TookAll(felts, h.rest, Width(c, h.value), Solid(c, h.value, ys[0]), Fits(h.value, ys[0]))
    requires ItemsTookAll(c, ys[1..], h.rest, q)
    ensures ItemsTookAll(c, ys, felts, Read(Done, [h.value] + q.value, q.rest))
  {
    var xs := [h.value] + q.value;
    SolidWithinWidth(c, h.value, ys[0]);
    ItemsSolidWithinWidth(c, q.value, ys[1..]);
    TookThen(felts, h.rest, q.rest, Width(c, h.value), Solid(c, h.value, ys[0]), Fits(h.value, ys[0]),
             ItemsWidth(c, q.value), ItemsSolid(c, q.value, ys[1..]), ItemsFit(q.value, ys[1..]));
    assert xs[0] == h.value && xs[1..] == q.value;
    ItemsFitCons(xs, ys);
  }

  ghost predicate CopiesTookAll(c: ByteArrayCodec, item: Ty, felts: seq<Felt>, r: Read<seq<Ty>>) {
    TookAll(felts, r.rest, ItemsWidth(c, r.value), CopiesSolid(c, r.value, item), CopiesFit(r.value, item))
  }

  lemma {:induction false} CopiesTakeAll(c: ByteArrayCodec, item: Ty, n: nat, felts: seq<Felt>, r: Read<seq<Ty>>)
    requires c.Lawful() && Template(item) && r == DeserializeCopies(c, item, n, felts) && r.status == Done
    ensures CopiesTookAll(c, item, felts, r)
    decreases item, 1, n
  {
    if n > 0 {
      var h, q := CopiesUnfold(c, item, n, felts);
      ReadTakesAll(c, item, felts);
      CopiesTakeAll(c, item, n - 1, h.rest, q);
      CopiesTook(c, item, felts, h, q);
    }
  }

  lemma CopiesTook(c: ByteArrayCodec, item: Ty, felts: seq<Felt>, h: Read<Ty>, q: Read<seq<Ty>>)
    requires TookAll(felts, h.rest, Width(c, h.value), Solid(c, h.value, item), Fits(h.value, item))
    requires CopiesTookAll(c, item, h.rest, q)
    ensures CopiesTookAll(c, item, felts, Read(Done, [h.value] + q.value, q.rest))
  {
    var xs := [h.value] + q.value;
    SolidWithinWidth(c, h.value, item);
    CopiesSolidWithinWidth(c, q.value, item);
    TookThen(felts, h.rest, q.rest, Width(c, h.value), Solid(c, h.value, item), Fits(h.value, item),
             ItemsWidth(c, q.value), CopiesSolid(c, q.value, item), CopiesFit(q.value, item));
    assert xs[0] == h.value && xs[1..] == q.value;
    CopiesFitCons(xs, item);
  }

  /**
   * A successful read gives a value if and only if the felts cover the solid part of what it gives. It takes that
   * thing's width, or runs the felts out.
   */
  lemma ReadIsCompleteIff(c: ByteArrayCodec, t: Ty, felts: seq<Felt>)
    requires c.Lawful() && Template(t) && DeserializeTy(c, t, felts).status == Done
    ensures var r := DeserializeTy(c, t, felts);
            && (Fits(r.value, t) <==> Solid(c, r.value, t) <= |felts|)
            && (Width(c, r.value) <= |felts| ==> Fits(r.value, t) && r.rest == felts[Width(c, r.value)..])
            && (Width(c, r.value) > |felts| ==> r.rest == [])
  {
    ReadTakesAll(c, t, felts);
    SolidWithinWidth(c, DeserializeTy(c, t, felts).value, t);
  }

  // ----- what running out looks like -----

  /** Two bytes asked for and one given: the read succeeds, and leaves the second unset. */
  lemma TruncatedReadSucceeds(c: ByteArrayCodec, x: Felt)
    requires x < 256
    ensures var unset, given := Prim(Primitive(U8, None)), Prim(Primitive(U8, Some(x)));
            && DeserializeTy(c, Tuple([unset, unset]), [x]) == Read(Done, Tuple([given, unset]), [])
            && !Fits(Tuple([given, unset]), Tuple([unset, unset]))
  {
    var unset, given := Prim(Primitive(U8, None)), Prim(Primitive(U8, Some(x)));
    assert [unset, unset][1..] == [unset] && [unset][1..] == [] && [x][1..] == [];
    assert DeserializeTy(c, unset, [x]) == Read(Done, given, []);
    assert DeserializeItems(c, [], []) == Read(Done, [], []);
    assert DeserializeItems(c, [unset], []) == Read(Done, [unset] + [], []);
    assert [given] + ([unset] + []) == [given, unset];
    assert !Fits([given, unset][1], [unset, unset][1]);
  }

  /** The width alone does not decide: an unread byte array passes for an empty one. */
  lemma UnreadTextLooksComplete(c: ByteArrayCodec)
    requires c.Lawful() && c.encode("").Some?
    ensures var r := DeserializeTy(c, ByteArray(""), []);
            r == Read(Done, ByteArray(""), []) && Fits(r.value, ByteArray("")) && Width(c, r.value) > 0
  {
    assert c.decode(c.encode("").value + []).Some?;
  }

  /** What the felts do not reach keeps the values it had. */
  lemma {:induction false} UnreachedIsKept<K>(c: ByteArrayCodec, ds: seq<Named<K>>, es: seq<Named<K>>, felts: seq<Felt>)
    requires DeserializeFields(c, ds, felts).status == Done && DeserializeFields(c, ds, felts).rest == []
    ensures DeserializeFields(c, ds + es, felts) == Read(Done, DeserializeFields(c, ds, felts).value + es, [])
    decreases |ds| + |es|
  {
    if ds != [] {
      var h := DeserializeTy(c, ds[0].ty, felts);
      var q := DeserializeFields(c, ds[1..], h.rest);
      UnreachedIsKept(c, ds[1..], es, h.rest);
      assert (ds + es)[1..] == ds[1..] + es;
      FieldsStep(c, ds + es, felts, h.value, h.rest, q.value + es, []);
      assert [ds[0].(ty := h.value)] + (q.value + es) == [ds[0].(ty := h.value)] + q.value + es;
    } else if es != [] {
      UnreachedIsKept(c, [], es[1..], felts);
      assert [] + es == es && [] + es[1..] == es[1..] && [es[0]] + es[1..] == es;
    }
  }

  lemma {:induction false} UnreachedItemsAreKept(c: ByteArrayCodec, ys: seq<Ty>, zs: seq<Ty>, felts: seq<Felt>)
    requires DeserializeItems(c, ys, felts).status == Done && DeserializeItems(c, ys, felts).rest == []
    ensures DeserializeItems(c, ys + zs, felts) == Read(Done, DeserializeItems(c, ys, felts).value + zs, [])
  {
    if ys != [] {
      var h, q := ItemsUnfold(c, ys, felts);
      UnreachedItemsAreKept(c, ys[1..], zs, h.rest);
      assert (ys + zs)[1..] == ys[1..] + zs;
      ItemsStep(c, ys + zs, felts, h.value, h.rest, q.value + zs, []);
      assert [h.value] + (q.value + zs) == [h.value] + q.value + zs;
    } else {
      NothingToRead(c, zs);
      assert [] + zs == zs;
    }
  }

  /**
   * A value read over a value need not be one: an enum set to its first option, and given only the number of its
   * second, is left without the byte that option asks for.
   */
  lemma RereadLosesValue(c: ByteArrayCodec)
    ensures var blank, unset := Tuple([]), Prim(Primitive(U8, None));
            var options := [Named("a", (), blank), Named("b", (), unset)];
            var t := Enum("e", Some(0), options);
            && Template(t) && Fits(t, t)
            && DeserializeTy(c, t, [1]) == Read(Done, Enum("e", Some(1), options), [])
            && !Fits(Enum("e", Some(1), options), t)
  {
    var unset := Prim(Primitive(U8, None));
    var options := [Named("a", (), Tuple([])), Named("b", (), unset)];
    assert Template(options[0].ty) && Template(options[1].ty) && Fits(options[0].ty, options[0].ty);
    assert [1 as Felt][1..] == [] && options[1 := options[1].(ty := unset)] == options;
    assert !Fits(options[1].ty, options[1].ty);
  }

  // ----- only the felts taken matter -----

  /** A read that takes nothing, with felts at hand, changes nothing. */
  lemma {:induction false} TakesNothing(c: ByteArrayCodec, t: Ty, felts: seq<Felt>)
    requires c.Lawful() && felts != []
    requires DeserializeTy(c, t, felts).status == Done && |DeserializeTy(c, t, felts).rest| == |felts|
    ensures DeserializeTy(c, t, felts).value == t
    decreases t, 0
  {
    match t
    case Prim(_) =>
    case Struct(_, ds) => FieldsTakeNothing(c, ds, felts);
    case Enum(_, _, ds) => ReadLeavesSuffix(c, ds[felts[0]].ty, felts[1..]);
    case Tuple(ys) => ItemsTakeNothing(c, ys, felts);
    case Array(ys) => CopiesLeaveSuffix(c, ys[|ys| - 1], felts[0], felts[1..]);
    case ByteArray(_) => TextTakesFelts(c, felts);
  }

  lemma TextTakesFelts(c: ByteArrayCodec, felts: seq<Felt>)
    requires c.Lawful() && c.decode(felts).Some? && c.decode(felts).value.text.Some?
    ensures c.decode(felts).value.size > 0
  {
    var s := c.decode(felts).value.text.value;
    assert c.decode(c.encode(s).value + []).Some?;
  }

  lemma {:induction false} FieldsTakeNothing<K>(c: ByteArrayCodec, ds: seq<Named<K>>, felts: seq<Felt>)
    requires c.Lawful() && felts != []
    requires DeserializeFields(c, ds, felts).status == Done && |DeserializeFields(c, ds, felts).rest| == |felts|
    ensures DeserializeFields(c, ds, felts).value == ds
    decreases ds, 0
  {
    if ds != [] {
      var h := DeserializeTy(c, ds[0].ty, felts);
      ReadLeavesSuffix(c, ds[0].ty, felts);
      FieldsLeaveSuffix(c, ds[1..], h.rest);
      assert h.rest == felts;
      TakesNothing(c, ds[0].ty, felts);
      FieldsTakeNothing(c, ds[1..], felts);
      assert [ds[0]] + ds[1..] == ds;
    }
  }

  lemma {:induction false} ItemsTakeNothing(c: ByteArrayCodec, ys: seq<Ty>, felts: seq<Felt>)
    requires c.Lawful() && felts != []
    requires DeserializeItems(c, ys, felts).status == Done && |DeserializeItems(c, ys, felts).rest| == |felts|
    ensures DeserializeItems(c, ys, felts).value == ys
    decreases ys, 0
  {
    if ys != [] {
      var h := DeserializeTy(c, ys[0], felts);
      ReadLeavesSuffix(c, ys[0], felts);
      ItemsLeaveSuffix(c, ys[1..], h.rest);
      assert h.rest == felts;
      TakesNothing(c, ys[0], felts);
      ItemsTakeNothing(c, ys[1..], felts);
      assert [ys[0]] + ys[1..] == ys;
    }
  }

  /** What is left is the tail and some of what came before it. */
  lemma LeftInFront(rest: seq<Felt>, felts: seq<Felt>, tail: seq<Felt>) returns (more: seq<Felt>)
    requires IsSuffix(rest, felts + tail) && |rest| >= |tail|
    ensures rest == more + tail && IsSuffix(more, felts)
  {
    more := felts[|felts| + |tail| - |rest|..];
    assert (felts + tail)[|felts| + |tail| - |rest|..] == more + tail;
  }

  /** Reading does not look at the felts it leaves: without them, it gives the same. */
  lemma {:induction false} ReadIsLocal(c: ByteArrayCodec, t: Ty, felts: seq<Felt>, more: seq<Felt>, tail: seq<Felt>)
    requires c.Lawful() && c.Local() && tail != []
    requires DeserializeTy(c, t, felts + tail).status == Done && DeserializeTy(c, t, felts + tail).rest == more + tail
    ensures DeserializeTy(c, t, felts) == Read(Done, DeserializeTy(c, t, felts + tail).value, more)
    decreases t, 0, 0
  {
    ReadLeavesSuffix(c, t, felts + tail);
    if felts == [] {
      assert felts + tail == tail;
      TakesNothing(c, t, tail);
    } else {
      match t
      case Prim(_) => LeafIsLocal(c, t, felts, more, tail);
      case Struct(_, ds) => FieldsAreLocal(c, ds, felts, more, tail);
      case Enum(_, _, ds) =>
        assert (felts + tail)[1..] == felts[1..] + tail;
        if ds[felts[0]].ty != Tuple([]) {
          ReadIsLocal(c, ds[felts[0]].ty, felts[1..], more, tail);
        } else {
          SameFront(felts[1..], more, tail);
        }
      case Tuple(ys) => ItemsAreLocal(c, ys, felts, more, tail);
      case Array(ys) =>
        assert (felts + tail)[1..] == felts[1..] + tail;
        var xs := DeserializeCopies(c, ys[|ys| - 1], felts[0], felts[1..] + tail).value;
        CopiesAreLocal(c, ys[|ys| - 1], felts[0], felts[1..], more, tail, xs);
      case ByteArray(_) => LeafIsLocal(c, t, felts, more, tail);
    }
  }

  lemma SameFront(xs: seq<Felt>, ys: seq<Felt>, tail: seq<Felt>)
    requires xs + tail == ys + tail
    ensures xs == ys
  {
    assert |xs| == |ys| && xs == (xs + tail)[..|xs|] && ys == (ys + tail)[..|ys|];
  }

  lemma LeafIsLocal(c: ByteArrayCodec, t: Ty, felts: seq<Felt>, more: seq<Felt>, tail: seq<Felt>)
    requires c.Lawful() && c.Local() && tail != [] && felts != [] && (t.Prim? || t.ByteArray?)
    requires DeserializeTy(c, t, felts + tail).status == Done && DeserializeTy(c, t, felts + tail).rest == more + tail
    ensures DeserializeTy(c, t, felts) == Read(Done, DeserializeTy(c, t, felts + tail).value, more)
  {
    var n := |felts| - |more|;
    ReadLeavesSuffix(c, t, felts + tail);
    DropThenAppend(felts, tail, n);
    SameFront(felts[n..], more, tail);
    if t.Prim? {
      PrimitiveIsLocal(t.primitive, felts, tail, n);
    } else {
      TextIsLocal(c, t, felts, tail, n);
    }
  }

  lemma PrimitiveIsLocal(p: Primitive, felts: seq<Felt>, tail: seq<Felt>, n: nat)
    requires felts != [] && Primitives.Deserialize(p, felts + tail).status == Done && n <= |felts|
    requires |Primitives.Deserialize(p, felts + tail).rest| == |felts + tail| - n
    ensures Primitives.Deserialize(p, felts) == Read(Done, Primitives.Deserialize(p, felts + tail).value, felts[n..])
  {
    assert (felts + tail)[0] == felts[0];
    assert p.kind == U256 ==> n == 2 && (felts + tail)[1] == felts[1];
  }

  lemma TextIsLocal(c: ByteArrayCodec, t: Ty, felts: seq<Felt>, tail: seq<Felt>, n: nat)
    requires c.Local() && t.ByteArray? && felts != [] && n <= |felts|
    requires DeserializeTy(c, t, felts + tail).status == Done
    requires |DeserializeTy(c, t, felts + tail).rest| == |felts + tail| - n
    ensures DeserializeTy(c, t, felts) == Read(Done, DeserializeTy(c, t, felts + tail).value, felts[n..])
  {
    assert c.decode(felts + tail).value.size == n;
    assert c.decode(felts) == c.decode(felts + tail);
  }

  lemma DropThenAppend(felts: seq<Felt>, tail: seq<Felt>, n: nat)
    requires n <= |felts|
    ensures (felts + tail)[n..] == felts[n..] + tail
  {
  }

  lemma {:induction false} FieldsAreLocal<K>(c: ByteArrayCodec, ds: seq<Named<K>>, felts: seq<Felt>, more: seq<Felt>,
                                             tail: seq<Felt>)
    requires c.Lawful() && c.Local() && tail != []
    requires var r := DeserializeFields(c, ds, felts + tail); r.status == Done && r.rest == more + tail
    ensures DeserializeFields(c, ds, felts) == Read(Done, DeserializeFields(c, ds, felts + tail).value, more)
    decreases ds, 0, 0
  {
    if ds == [] {
      SameFront(felts, more, tail);
    } else {
      var h := DeserializeTy(c, ds[0].ty, felts + tail);
      ReadLeavesSuffix(c, ds[0].ty, felts + tail);
      FieldsLeaveSuffix(c, ds[1..], h.rest);
      var middle := LeftInFront(h.rest, felts, tail);
      ReadIsLocal(c, ds[0].ty, felts, middle, tail);
      FieldsAreLocal(c, ds[1..], middle, more, tail);
    }
  }

  lemma {:induction false} ItemsAreLocal(c: ByteArrayCodec, ys: seq<Ty>, felts: seq<Felt>, more: seq<Felt>,
                                         tail: seq<Felt>)
    requires c.Lawful() && c.Local() && tail != []
    requires var r := DeserializeItems(c, ys, felts + tail); r.status == Done && r.rest == more + tail
    ensures DeserializeItems(c, ys, felts) == Read(Done, DeserializeItems(c, ys, felts + tail).value, more)
    decreases ys, 0, 0
  {
    if ys == [] {
      SameFront(felts, more, tail);
    } else {
      var h := DeserializeTy(c, ys[0], felts + tail);
      ReadLeavesSuffix(c, ys[0], felts + tail);
      ItemsLeaveSuffix(c, ys[1..], h.rest);
      var middle := LeftInFront(h.rest, felts, tail);
      ReadIsLocal(c, ys[0], felts, middle, tail);
      ItemsAreLocal(c, ys[1..], middle, more, tail);
    }
  }

  lemma CopiesReadJoin(c: ByteArrayCodec, item: Ty, n: nat, felts: seq<Felt>, x: Ty, middle: seq<Felt>, ys: seq<Ty>,
                       rest: seq<Felt>)
    requires n > 0 && DeserializeTy(c, item, felts) == Read(Done, x, middle)
    requires CopiesRead(c, item, n - 1, middle, ys, rest)
    ensures CopiesRead(c, item, n, felts, [x] + ys, rest)
  {
    CopiesStep(c, item, n - 1, felts, x, middle, ys, rest);
  }

  lemma {:induction false} CopiesAreLocal(c: ByteArrayCodec, item: Ty, n: nat, felts: seq<Felt>, more: seq<Felt>,
                                          tail: seq<Felt>, xs: seq<Ty>)
    requires c.Lawful() && c.Local() && tail != [] && CopiesRead(c, item, n, felts + tail, xs, more + tail)
    ensures CopiesRead(c, item, n, felts, xs, more)
    decreases item, 1, n
  {
    if n == 0 {
      SameFront(felts, more, tail);
    } else {
      var x, left, ys := CopiesReadSplit(c, item, n, felts + tail, xs, more + tail);
      var middle := LeftInFront(left, felts, tail);
      ReadIsLocal(c, item, felts, middle, tail);
      CopiesAreLocal(c, item, n - 1, middle, more, tail, ys);
      CopiesReadJoin(c, item, n, felts, x, middle, ys, more);
    }
  }
}
