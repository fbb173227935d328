/** What a successful `deserialize` says about its input and its result. */
module FeltReads {
  import opened Felts
  import opened Primitives
  import opened Schema
  import opened FeltCodec
  import opened FeltRoundTrip

  /** A schema: every array holds the one item that describes its elements. */
  ghost predicate Template(t: Ty) {
    match t
    case Struct(_, children) => forall i :: 0 <= i < |children| ==> Template(children[i].ty)
    case Enum(_, _, options) => forall i :: 0 <= i < |options| ==> Template(options[i].ty)
    case Tuple(items) => forall i :: 0 <= i < |items| ==> Template(items[i])
    case Array(items) => |items| == 1 && Template(items[0])
    case _ => true
  }

  /** A schema without values: arrays hold one item, primitives and enums are unset. */
  ghost predicate Unset(t: Ty) {
    match t
    case Prim(p) => p.value.None?
    case Struct(_, cs) => forall i :: 0 <= i < |cs| ==> Unset(cs[i].ty)
    case Enum(_, o, cs) => o.None? && forall i :: 0 <= i < |cs| ==> Unset(cs[i].ty)
    case Tuple(xs) => forall i :: 0 <= i < |xs| ==> Unset(xs[i])
    case Array(xs) => |xs| == 1 && Unset(xs[0])
    case ByteArray(s) => s == ""
  }

  lemma {:induction false} UnsetIsTemplate(t: Ty)
    requires Unset(t)
    ensures Template(t)
  {
    match t
    case Struct(_, cs) => forall i | 0 <= i < |cs| ensures Template(cs[i].ty) { UnsetIsTemplate(cs[i].ty); }
    case Enum(_, _, cs) => forall i | 0 <= i < |cs| ensures Template(cs[i].ty) { UnsetIsTemplate(cs[i].ty); }
    case Tuple(xs) => forall i | 0 <= i < |xs| ensures Template(xs[i]) { UnsetIsTemplate(xs[i]); }
    case Array(xs) => UnsetIsTemplate(xs[0]);
    case _ =>
  }

  /** `u` has the shape of `t`: only values change, and an array's last item becomes any number of items. */
  ghost predicate SameShape(t: Ty, u: Ty)
    decreases t
  {
    match (t, u)
    case (Prim(p), Prim(q)) => p.kind == q.kind
    case (Struct(n, cs), Struct(m, ds)) =>
      n == m && |cs| == |ds| &&
      forall i :: 0 <= i < |cs| ==> cs[i].name == ds[i].name && cs[i].key == ds[i].key && SameShape(cs[i].ty, ds[i].ty)
    case (Enum(n, _, cs), Enum(m, _, ds)) =>
      n == m && |cs| == |ds| &&
      forall i :: 0 <= i < |cs| ==> cs[i].name == ds[i].name && SameShape(cs[i].ty, ds[i].ty)
    case (Tuple(xs), Tuple(ys)) =>
      |xs| == |ys| && forall i :: 0 <= i < |xs| ==> SameShape(xs[i], ys[i])
    case (Array(xs), Array(ys)) =>
      if xs == [] then ys == []
      else
        var k := |xs| - 1;
        k <= |ys| && ys[..k] == xs[..k] && forall i :: k <= i < |ys| ==> SameShape(xs[k], ys[i])
    case (ByteArray(_), ByteArray(_)) => true
    case _ => false
  }

  lemma {:induction false} SameShapeReflexive(t: Ty)
    ensures SameShape(t, t)
  {
    match t
    case Struct(_, cs) =>
      forall i | 0 <= i < |cs| ensures SameShape(cs[i].ty, cs[i].ty) { SameShapeReflexive(cs[i].ty); }
    case Enum(_, _, cs) =>
      forall i | 0 <= i < |cs| ensures SameShape(cs[i].ty, cs[i].ty) { SameShapeReflexive(cs[i].ty); }
    case Tuple(xs) => forall i | 0 <= i < |xs| ensures SameShape(xs[i], xs[i]) { SameShapeReflexive(xs[i]); }
    case Array(xs) => forall i | 0 <= i < |xs| ensures SameShape(xs[i], xs[i]) { SameShapeReflexive(xs[i]); }
    case _ =>
  }

  /** Reading never changes the shape of the type, whether it succeeds, fails or panics. */
  lemma {:induction false} ReadKeepsShape(c: ByteArrayCodec, t: Ty, felts: seq<Felt>)
    ensures SameShape(t, DeserializeTy(c, t, felts).value)
    decreases t, 0, 0
  {
    SameShapeReflexive(t);
    if felts != [] {
      match t
      case Prim(_) =>
      case Struct(_, cs) => FieldsKeepShape(c, cs, felts);
      case Enum(_, _, cs) =>
        forall i | 0 <= i < |cs| ensures SameShape(cs[i].ty, cs[i].ty) { SameShapeReflexive(cs[i].ty); }
        if felts[0] < |cs| && felts[0] <= 255 {
          ReadKeepsShape(c, cs[felts[0]].ty, felts[1..]);
        }
      case Tuple(xs) => ItemsKeepShape(c, xs, felts);
      case Array(xs) =>
        if xs != [] && felts[0] < 0x1_0000_0000 {
          CopiesKeepShape(c, xs[|xs| - 1], felts[0], felts[1..]);
          GrownArrayShape(xs, DeserializeCopies(c, xs[|xs| - 1], felts[0], felts[1..]).value);
        }
      case ByteArray(_) =>
    }
  }

  ghost predicate AllShaped(item: Ty, ys: seq<Ty>) {
    forall i :: 0 <= i < |ys| ==> SameShape(item, ys[i])
  }

  lemma GrownArrayShape(xs: seq<Ty>, ys: seq<Ty>)
    requires xs != [] && AllShaped(xs[|xs| - 1], ys)
    ensures SameShape(Array(xs), Array(xs[..|xs| - 1] + ys))
  {
    var k := |xs| - 1;
    var zs := xs[..k] + ys;
    assert zs[..k] == xs[..k];
    assert forall i :: k <= i < |zs| ==> zs[i] == ys[i - k];
  }

  lemma {:induction false} FieldsKeepShape<K>(c: ByteArrayCodec, cs: seq<Named<K>>, felts: seq<Felt>)
    ensures var ds := DeserializeFields(c, cs, felts).value;
            forall i :: 0 <= i < |cs| ==>
              cs[i].name == ds[i].name && cs[i].key == ds[i].key && SameShape(cs[i].ty, ds[i].ty)
    decreases cs, 0, 0
  {
    if cs != [] {
      var r := DeserializeTy(c, cs[0].ty, felts);
      ReadKeepsShape(c, cs[0].ty, felts);
      FieldsKeepShape(c, cs[1..], r.rest);
      forall i | 1 <= i < |cs| ensures SameShape(cs[i].ty, cs[i].ty) { SameShapeReflexive(cs[i].ty); }
      assert forall i :: 1 <= i < |cs| ==> cs[i] == cs[1..][i - 1];
    }
  }

  lemma {:induction false} ItemsKeepShape(c: ByteArrayCodec, xs: seq<Ty>, felts: seq<Felt>)
    ensures var ys := DeserializeItems(c, xs, felts).value;
            forall i :: 0 <= i < |xs| ==> SameShape(xs[i], ys[i])
    decreases xs, 0, 0
  {
    if xs != [] {
      var r := DeserializeTy(c, xs[0], felts);
      ReadKeepsShape(c, xs[0], felts);
      ItemsKeepShape(c, xs[1..], r.rest);
      forall i | 1 <= i < |xs| ensures SameShape(xs[i], xs[i]) { SameShapeReflexive(xs[i]); }
      assert forall i :: 1 <= i < |xs| ==> xs[i] == xs[1..][i - 1];
    }
  }

  lemma {:induction false} CopiesKeepShape(c: ByteArrayCodec, item: Ty, n: nat, felts: seq<Felt>)
    ensures AllShaped(item, DeserializeCopies(c, item, n, felts).value)
    decreases item, 1, n
  {
    if n > 0 {
      var r := DeserializeTy(c, item, felts);
      ReadKeepsShape(c, item, felts);
      CopiesKeepShape(c, item, n - 1, r.rest);
    }
  }

  function Copies(item: Ty, n: nat): (r: seq<Ty>)
    ensures |r| == n
  {
    if n == 0 then [] else [item] + Copies(item, n - 1)
  }

  lemma {:induction false} CopiesAreItems(c: ByteArrayCodec, item: Ty, n: nat, felts: seq<Felt>)
    ensures var r, q := DeserializeCopies(c, item, n, felts), DeserializeItems(c, Copies(item, n), felts);
            r.status == q.status && r.rest == q.rest && (r.status == Done ==> r.value == q.value)
  {
    if n > 0 {
      assert Copies(item, n)[1..] == Copies(item, n - 1);
      CopiesAreItems(c, item, n - 1, DeserializeTy(c, item, felts).rest);
    }
  }

  lemma {:induction false} NothingToRead(c: ByteArrayCodec, ys: seq<Ty>)
    ensures DeserializeItems(c, ys, []) == Read(Done, ys, [])
  {
    if ys != [] {
      NothingToRead(c, ys[1..]);
      assert [ys[0]] + ys[1..] == ys;
    }
  }

  /** An array is read as a tuple of as many copies of its last item as the length felt says, which replace it. */
  lemma ArrayIsReadAsTuple(c: ByteArrayCodec, items: seq<Ty>, n: nat, felts: seq<Felt>)
    requires items != [] && n < 0x1_0000_0000
    ensures var r := DeserializeTy(c, Array(items), [n] + felts);
            var q := DeserializeTy(c, Tuple(Copies(items[|items| - 1], n)), felts);
            && r.status == q.status && r.rest == q.rest
            && (r.status == Done ==> r.value.items == items[..|items| - 1] + q.value.items)
  {
    assert ([n] + felts)[1..] == felts;
    NothingToRead(c, Copies(items[|items| - 1], n));
    CopiesAreItems(c, items[|items| - 1], n, felts);
  }

  ghost predicate CopiesFit(xs: seq<Ty>, item: Ty) {
    forall i :: 0 <= i < |xs| ==> Fits(xs[i], item)
  }

  lemma CopiesFitCons(xs: seq<Ty>, item: Ty)
    requires xs != []
    ensures CopiesFit(xs, item) <==> Fits(xs[0], item) && CopiesFit(xs[1..], item)
  {
    assert xs == [xs[0]] + xs[1..];
  }
}
