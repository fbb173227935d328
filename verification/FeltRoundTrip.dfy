/** When felts written by `serialize` are read back by `deserialize`. */
module FeltRoundTrip {
  import opened Wrappers
  import opened Felts
  import opened Primitives
  import SignedFelts
  import opened Schema
  import opened FeltCodec

  // ----- zero-width types -----

  /** The type is written as no felt at all: nested structs and tuples without a leaf. */
  ghost predicate ZeroWidth(t: Ty) {
    match t
    case Struct(_, children) => forall i :: 0 <= i < |children| ==> ZeroWidth(children[i].ty)
    case Tuple(items) => forall i :: 0 <= i < |items| ==> ZeroWidth(items[i])
    case _ => false
  }

  ghost predicate ZeroWidthFields<K>(fields: seq<Named<K>>) {
    forall i :: 0 <= i < |fields| ==> ZeroWidth(fields[i].ty)
  }

  /** Only the chosen option of each enum carries felts. */
  ghost predicate SelectedOnly(v: Ty) {
    match v
    case Struct(_, children) => forall i :: 0 <= i < |children| ==> SelectedOnly(children[i].ty)
    case Enum(_, o, options) =>
      o.Some? && o.value < |options| &&
      forall i :: 0 <= i < |options| ==>
        if i == o.value then SelectedOnly(options[i].ty) else ZeroWidth(options[i].ty)
    case Tuple(items) => forall i :: 0 <= i < |items| ==> SelectedOnly(items[i])
    case Array(items) => forall i :: 0 <= i < |items| ==> SelectedOnly(items[i])
    case _ => true
  }

  lemma ThenEmpty(a: Serialized, b: Serialized)
    ensures Then(a, b) == Ok([]) <==> a == Ok([]) && b == Ok([])
  {
    if a.Ok? && b.Ok? {
      assert |a.value + b.value| == |a.value| + |b.value|;
    }
  }

  lemma {:induction false} ZeroWidthSerializes(c: ByteArrayCodec, t: Ty)
    requires c.Lawful()
    ensures ZeroWidth(t) <==> SerializeTy(c, t) == Ok([])
    decreases t, 0
  {
    match t
    case Struct(_, children) => ZeroWidthFieldsSerialize(c, children);
    case Tuple(items) => ZeroWidthItemsSerialize(c, items);
    case Prim(_) =>
    case Enum(_, o, options) =>
      if o.Some? {
        ThenEmpty(Ok([o.value]), SerializeFields(c, options));
      }
    case Array(items) =>
      if |items| < 0x1_0000_0000 {
        ThenEmpty(Ok([|items|]), SerializeItems(c, items));
      }
    case ByteArray(s) =>
      if c.encode(s).Some? {
        var _ := c.decode(c.encode(s).value + []);
      }
  }

  lemma {:induction false} ZeroWidthFieldsSerialize<K>(c: ByteArrayCodec, fields: seq<Named<K>>)
    requires c.Lawful()
    ensures ZeroWidthFields(fields) <==> SerializeFields(c, fields) == Ok([])
    decreases fields, 0
  {
    if fields != [] {
      ZeroWidthSerializes(c, fields[0].ty);
      ZeroWidthFieldsSerialize(c, fields[1..]);
      ThenEmpty(SerializeTy(c, fields[0].ty), SerializeFields(c, fields[1..]));
      assert fields == [fields[0]] + fields[1..];
    }
  }

  lemma {:induction false} ZeroWidthItemsSerialize(c: ByteArrayCodec, items: seq<Ty>)
    requires c.Lawful()
    ensures (forall i :: 0 <= i < |items| ==> ZeroWidth(items[i])) <==> SerializeItems(c, items) == Ok([])
    decreases items, 0
  {
    if items != [] {
      ZeroWidthSerializes(c, items[0]);
      ZeroWidthItemsSerialize(c, items[1..]);
      ThenEmpty(SerializeTy(c, items[0]), SerializeItems(c, items[1..]));
      assert items == [items[0]] + items[1..];
    }
  }

  /** A zero-width value is its template. */
  lemma {:induction false} ZeroWidthFits(v: Ty, t: Ty)
    requires ZeroWidth(v) && Fits(v, t)
    ensures v == t
  {
    match v
    case Struct(_, cs) =>
      forall i | 0 <= i < |cs| ensures cs[i] == t.children[i] {
        ZeroWidthFits(cs[i].ty, t.children[i].ty);
      }
    case Tuple(xs) =>
      forall i | 0 <= i < |xs| ensures xs[i] == t.items[i] {
        ZeroWidthFits(xs[i], t.items[i]);
      }
  }

  // ----- round trip -----

  ghost predicate FieldsFit<K>(cs: seq<Named<K>>, ds: seq<Named<K>>) {
    |cs| == |ds| &&
    forall i :: 0 <= i < |cs| ==> cs[i].name == ds[i].name && cs[i].key == ds[i].key && Fits(cs[i].ty, ds[i].ty)
  }

  ghost predicate FieldsSelectedOnly<K>(cs: seq<Named<K>>) {
    forall i :: 0 <= i < |cs| ==> SelectedOnly(cs[i].ty)
  }

  lemma FieldsStep<K>(c: ByteArrayCodec, ds: seq<Named<K>>, felts: seq<Felt>, head: Ty, middle: seq<Felt>,
                      cs: seq<Named<K>>, rest: seq<Felt>)
    requires ds != [] && DeserializeTy(c, ds[0].ty, felts) == Read(Done, head, middle)
    requires DeserializeFields(c, ds[1..], middle) == Read(Done, cs, rest)
    ensures DeserializeFields(c, ds, felts) == Read(Done, [ds[0].(ty := head)] + cs, rest)
  {
  }

  lemma ItemsStep(c: ByteArrayCodec, ys: seq<Ty>, felts: seq<Felt>, head: Ty, middle: seq<Felt>,
                  xs: seq<Ty>, rest: seq<Felt>)
    requires ys != [] && DeserializeTy(c, ys[0], felts) == Read(Done, head, middle)
    requires DeserializeItems(c, ys[1..], middle) == Read(Done, xs, rest)
    ensures DeserializeItems(c, ys, felts) == Read(Done, [head] + xs, rest)
  {
  }

  lemma CopiesStep(c: ByteArrayCodec, item: Ty, n: nat, felts: seq<Felt>, head: Ty, middle: seq<Felt>,
                   xs: seq<Ty>, rest: seq<Felt>)
    requires DeserializeTy(c, item, felts) == Read(Done, head, middle)
    requires DeserializeCopies(c, item, n, middle) == Read(Done, xs, rest)
    ensures DeserializeCopies(c, item, n + 1, felts) == Read(Done, [head] + xs, rest)
  {
  }

  lemma CopiesUnfold(c: ByteArrayCodec, item: Ty, n: nat, felts: seq<Felt>) returns (h: Read<Ty>, q: Read<seq<Ty>>)
    requires n > 0 && DeserializeCopies(c, item, n, felts).status == Done
    ensures h == DeserializeTy(c, item, felts) && h.status == Done
    ensures q == DeserializeCopies(c, item, n - 1, h.rest) && q.status == Done
    ensures DeserializeCopies(c, item, n, felts) == Read(Done, [h.value] + q.value, q.rest)
  {
    h := DeserializeTy(c, item, felts);
    q := DeserializeCopies(c, item, n - 1, h.rest);
  }

  /** The felts of a value, followed by any tail, are read back as the value and leave the tail. */
  lemma {:induction false} ReadsBack(c: ByteArrayCodec, t: Ty, v: Ty, tail: seq<Felt>)
    requires c.Lawful() && Fits(v, t) && SelectedOnly(v) && SerializeTy(c, v).Ok?
    ensures DeserializeTy(c, t, SerializeTy(c, v).value + tail) == Read(Done, v, tail)
    decreases v, 0
  {
    var felts := SerializeTy(c, v).value + tail;
    ZeroWidthSerializes(c, v);
    if felts == [] {
      assert SerializeTy(c, v).value == [];
      ZeroWidthFits(v, t);
    } else {
      match v
      case Prim(p) => Primitives.RoundTrip(t.primitive, p, tail);
      case Struct(_, cs) => FieldsReadBack(c, t.children, cs, tail);
      case Enum(_, o, cs) => EnumReadsBack(c, t, v, tail);
      case Tuple(xs) => ItemsReadBack(c, t.items, xs, tail);
      case Array(xs) =>
        CopiesReadBack(c, t.items[0], xs, tail);
        assert felts == [|xs|] + (SerializeItems(c, xs).value + tail);
        assert t.items[..0] + xs == xs;
      case ByteArray(s) =>
        assert felts[|c.encode(s).value|..] == tail;
    }
  }

  lemma {:induction false} FieldsReadBack<K>(c: ByteArrayCodec, ds: seq<Named<K>>, cs: seq<Named<K>>, tail: seq<Felt>)
    requires c.Lawful() && FieldsFit(cs, ds) && FieldsSelectedOnly(cs) && SerializeFields(c, cs).Ok?
    ensures DeserializeFields(c, ds, SerializeFields(c, cs).value + tail) == Read(Done, cs, tail)
    decreases cs, 0
  {
    if cs != [] {
      var felts, more := ConsFelts(SerializeTy(c, cs[0].ty), SerializeFields(c, cs[1..]), tail);
      FieldsTail(cs, ds);
      ReadsBack(c, ds[0].ty, cs[0].ty, more);
      FieldsReadBack(c, ds[1..], cs[1..], tail);
      FieldsStep(c, ds, felts, cs[0].ty, more, cs[1..], tail);
    }
  }

  lemma ConsFelts(a: Serialized, b: Serialized, tail: seq<Felt>) returns (felts: seq<Felt>, more: seq<Felt>)
    requires Then(a, b).Ok?
    ensures a.Ok? && b.Ok? && more == b.value + tail
    ensures felts == Then(a, b).value + tail == a.value + more
  {
    more := b.value + tail;
    felts := Then(a, b).value + tail;
  }

  lemma FieldsTail<K>(cs: seq<Named<K>>, ds: seq<Named<K>>)
    requires cs != [] && FieldsFit(cs, ds) && FieldsSelectedOnly(cs)
    ensures Fits(cs[0].ty, ds[0].ty) && SelectedOnly(cs[0].ty)
    ensures FieldsFit(cs[1..], ds[1..]) && FieldsSelectedOnly(cs[1..])
    ensures cs == [ds[0].(ty := cs[0].ty)] + cs[1..]
  {
    assert cs == [cs[0]] + cs[1..];
  }

  lemma {:induction false} ItemsReadBack(c: ByteArrayCodec, ys: seq<Ty>, xs: seq<Ty>, tail: seq<Felt>)
    requires c.Lawful() && |xs| == |ys| && SerializeItems(c, xs).Ok?
    requires forall i :: 0 <= i < |xs| ==> Fits(xs[i], ys[i]) && SelectedOnly(xs[i])
    ensures DeserializeItems(c, ys, SerializeItems(c, xs).value + tail) == Read(Done, xs, tail)
    decreases xs, 0
  {
    if xs != [] {
      var felts, more := ConsFelts(SerializeTy(c, xs[0]), SerializeItems(c, xs[1..]), tail);
      assert xs == [xs[0]] + xs[1..] && ys == [ys[0]] + ys[1..];
      ReadsBack(c, ys[0], xs[0], more);
      ItemsReadBack(c, ys[1..], xs[1..], tail);
      ItemsStep(c, ys, felts, xs[0], more, xs[1..], tail);
    }
  }

  lemma {:induction false} CopiesReadBack(c: ByteArrayCodec, item: Ty, xs: seq<Ty>, tail: seq<Felt>)
    requires c.Lawful() && SerializeItems(c, xs).Ok?
    requires forall i :: 0 <= i < |xs| ==> Fits(xs[i], item) && SelectedOnly(xs[i])
    ensures DeserializeCopies(c, item, |xs|, SerializeItems(c, xs).value + tail) == Read(Done, xs, tail)
    decreases xs, 0
  {
    if xs != [] {
      var felts, more := ConsFelts(SerializeTy(c, xs[0]), SerializeItems(c, xs[1..]), tail);
      assert xs == [xs[0]] + xs[1..];
      ReadsBack(c, item, xs[0], more);
      CopiesReadBack(c, item, xs[1..], tail);
      CopiesStep(c, item, |xs| - 1, felts, xs[0], more, xs[1..], tail);
    }
  }

  /** Options that are all zero-width but one serialise as that one. */
  lemma {:induction false} OnlySelectedSerializes(c: ByteArrayCodec, options: seq<EnumOption>, o: nat)
    requires c.Lawful() && o < |options|
    requires forall i :: 0 <= i < |options| && i != o ==> ZeroWidth(options[i].ty)
    ensures SerializeFields(c, options) == SerializeTy(c, options[o].ty)
  {
    var rest := options[1..];
    if o == 0 {
      ZeroWidthFieldsSerialize(c, rest);
    } else {
      ZeroWidthSerializes(c, options[0].ty);
      OnlySelectedSerializes(c, rest, o - 1);
    }
    var a, b := SerializeTy(c, options[0].ty), SerializeFields(c, rest);
    assert Then(a, b) == SerializeTy(c, options[o].ty) by {
      if a.Ok? && b.Ok? {
        assert a.value + [] == a.value && [] + b.value == b.value;
      }
    }
  }

  lemma {:induction false} EnumReadsBack(c: ByteArrayCodec, t: Ty, v: Ty, tail: seq<Felt>)
    requires v.Enum? && c.Lawful() && Fits(v, t) && SelectedOnly(v) && SerializeTy(c, v).Ok?
    ensures DeserializeTy(c, t, SerializeTy(c, v).value + tail) == Read(Done, v, tail)
    decreases v.options, 1
  {
    var o, cs, ds := v.option.value, v.options, t.options;
    OnlySelectedSerializes(c, cs, o);
    var chosen := SerializeTy(c, cs[o].ty);
    var felts := SerializeTy(c, v).value + tail;
    assert felts == [o] + (chosen.value + tail);
    assert felts[1..] == chosen.value + tail;
    ReadsBack(c, ds[o].ty, cs[o].ty, tail);
    assert cs[o].key == () == ds[o].key;
    assert ds[o := ds[o].(ty := cs[o].ty)] == cs;
    if ds[o].ty == Tuple([]) {
      assert cs[o].ty.items == [];
      assert chosen == Ok([]) && [] + tail == tail;
      assert ds == cs;
    }
  }

  // ----- how much a read consumes -----

  ghost predicate IsSuffix(s: seq<Felt>, felts: seq<Felt>) {
    |s| <= |felts| && felts[|felts| - |s|..] == s
  }

  lemma SuffixTransitive(a: seq<Felt>, b: seq<Felt>, d: seq<Felt>)
    requires IsSuffix(a, b) && IsSuffix(b, d)
    ensures IsSuffix(a, d)
  {
    assert d[|d| - |a|..] == d[|d| - |b|..][|b| - |a|..];
  }

  /** Every read, successful or not, leaves a suffix of its input. */
  lemma {:induction false} ReadLeavesSuffix(c: ByteArrayCodec, t: Ty, felts: seq<Felt>)
    ensures IsSuffix(DeserializeTy(c, t, felts).rest, felts)
    decreases t, 0, 0
  {
    if felts != [] {
      match t
      case Prim(_) =>
      case Struct(_, children) => FieldsLeaveSuffix(c, children, felts);
      case Enum(_, _, options) => EnumLeavesSuffix(c, t, felts);
      case Tuple(items) => ItemsLeaveSuffix(c, items, felts);
      case Array(items) => ArrayLeavesSuffix(c, t, felts);
      case ByteArray(_) =>
    }
  }

  lemma {:induction false} EnumLeavesSuffix(c: ByteArrayCodec, t: Ty, felts: seq<Felt>)
    requires t.Enum? && felts != []
    ensures IsSuffix(DeserializeTy(c, t, felts).rest, felts)
    decreases t.options, 1, 0
  {
    if felts[0] < |t.options| && felts[0] <= 255 {
      var ty := t.options[felts[0]].ty;
      ReadLeavesSuffix(c, ty, felts[1..]);
      SuffixTransitive(DeserializeTy(c, ty, felts[1..]).rest, felts[1..], felts);
    }
  }

  lemma {:induction false} ArrayLeavesSuffix(c: ByteArrayCodec, t: Ty, felts: seq<Felt>)
    requires t.Array? && felts != []
    ensures IsSuffix(DeserializeTy(c, t, felts).rest, felts)
    decreases t.items, 2, 0
  {
    if t.items != [] && felts[0] < 0x1_0000_0000 {
      var item := t.items[|t.items| - 1];
      CopiesLeaveSuffix(c, item, felts[0], felts[1..]);
      SuffixTransitive(DeserializeCopies(c, item, felts[0], felts[1..]).rest, felts[1..], felts);
    }
  }

  lemma {:induction false} FieldsLeaveSuffix<K>(c: ByteArrayCodec, fields: seq<Named<K>>, felts: seq<Felt>)
    ensures IsSuffix(DeserializeFields(c, fields, felts).rest, felts)
    decreases fields, 0, 0
  {
    if fields != [] {
      var r := DeserializeTy(c, fields[0].ty, felts);
      ReadLeavesSuffix(c, fields[0].ty, felts);
      FieldsLeaveSuffix(c, fields[1..], r.rest);
      SuffixTransitive(DeserializeFields(c, fields[1..], r.rest).rest, r.rest, felts);
    }
  }

  lemma {:induction false} ItemsLeaveSuffix(c: ByteArrayCodec, items: seq<Ty>, felts: seq<Felt>)
    ensures IsSuffix(DeserializeItems(c, items, felts).rest, felts)
    decreases items, 0, 0
  {
    if items != [] {
      var r := DeserializeTy(c, items[0], felts);
      ReadLeavesSuffix(c, items[0], felts);
      ItemsLeaveSuffix(c, items[1..], r.rest);
      SuffixTransitive(DeserializeItems(c, items[1..], r.rest).rest, r.rest, felts);
    }
  }

  lemma {:induction false} CopiesLeaveSuffix(c: ByteArrayCodec, item: Ty, n: nat, felts: seq<Felt>)
    ensures IsSuffix(DeserializeCopies(c, item, n, felts).rest, felts)
    decreases item, 1, n
  {
    if n > 0 {
      var r := DeserializeTy(c, item, felts);
      ReadLeavesSuffix(c, item, felts);
      CopiesLeaveSuffix(c, item, n - 1, r.rest);
      SuffixTransitive(DeserializeCopies(c, item, n - 1, r.rest).rest, r.rest, felts);
    }
  }

  /** Reading `n` copies succeeds with `xs` and leaves `rest`. */
  ghost predicate CopiesRead(c: ByteArrayCodec, item: Ty, n: nat, felts: seq<Felt>, xs: seq<Ty>, rest: seq<Felt>) {
    DeserializeCopies(c, item, n, felts) == Read(Done, xs, rest)
  }

  lemma CopiesReadSplit(c: ByteArrayCodec, item: Ty, n: nat, felts: seq<Felt>, xs: seq<Ty>, rest: seq<Felt>)
    returns (x: Ty, middle: seq<Felt>, ys: seq<Ty>)
    requires n > 0 && CopiesRead(c, item, n, felts, xs, rest)
    ensures DeserializeTy(c, item, felts) == Read(Done, x, middle)
    ensures CopiesRead(c, item, n - 1, middle, ys, rest) && xs == [x] + ys
    ensures IsSuffix(middle, felts) && |rest| <= |middle|
  {
    var h, q := CopiesUnfold(c, item, n, felts);
    x, middle, ys := h.value, h.rest, q.value;
    ReadLeavesSuffix(c, item, felts);
    CopiesLeaveSuffix(c, item, n - 1, middle);
  }

  /** The felts a read takes to produce `v`: only the chosen option of an enum counts. */
  ghost function Width(c: ByteArrayCodec, v: Ty): (n: nat)
    decreases v, 0
  {
    match v
    case Prim(p) => if p.kind == U256 then 2 else 1
    case Struct(_, children) => FieldsWidth(c, children)
    case Enum(_, o, options) => 1 + if o.Some? && o.value < |options| then Width(c, options[o.value].ty) else 0
    case Tuple(items) => ItemsWidth(c, items)
    case Array(items) => 1 + ItemsWidth(c, items)
    case ByteArray(s) => if c.encode(s).Some? then |c.encode(s).value| else 0
  }

  ghost function FieldsWidth<K>(c: ByteArrayCodec, fields: seq<Named<K>>): (n: nat)
    decreases fields, 0
  {
    if fields == [] then 0 else Width(c, fields[0].ty) + FieldsWidth(c, fields[1..])
  }

  ghost function ItemsWidth(c: ByteArrayCodec, items: seq<Ty>): (n: nat)
    decreases items, 0
  {
    if items == [] then 0 else Width(c, items[0]) + ItemsWidth(c, items[1..])
  }

  /** A read that produced something of width `w` took `w` felts, or ran out of input. */
  ghost predicate Took(felts: seq<Felt>, rest: seq<Felt>, w: nat) {
    |felts| <= |rest| + w && (rest != [] ==> |felts| == |rest| + w)
  }

  lemma {:induction false} ReadTakesWidth(c: ByteArrayCodec, t: Ty, v: Ty, felts: seq<Felt>)
    requires c.Lawful() && Fits(v, t)
    requires DeserializeTy(c, t, felts).status == Done && DeserializeTy(c, t, felts).value == v
    ensures Took(felts, DeserializeTy(c, t, felts).rest, Width(c, v))
    decreases v, 0
  {
    if felts != [] {
      match v
      case Prim(_) =>
      case Struct(_, cs) => FieldsTakeWidth(c, t.children, cs, felts);
      case Enum(_, o, cs) => ReadTakesWidth(c, t.options[o.value].ty, cs[o.value].ty, felts[1..]);
      case Tuple(xs) => ItemsTakeWidth(c, t.items, xs, felts);
      case Array(xs) =>
        var r := DeserializeCopies(c, t.items[0], felts[0], felts[1..]);
        assert t.items[..0] + r.value == r.value;
        CopiesTakeWidth(c, t.items[0], xs, felts[1..]);
      case ByteArray(_) =>
    }
  }

  lemma {:induction false} FieldsTakeWidth<K>(c: ByteArrayCodec, ds: seq<Named<K>>, cs: seq<Named<K>>, felts: seq<Felt>)
    requires c.Lawful() && FieldsFit(cs, ds)
    requires DeserializeFields(c, ds, felts).status == Done && DeserializeFields(c, ds, felts).value == cs
    ensures Took(felts, DeserializeFields(c, ds, felts).rest, FieldsWidth(c, cs))
    decreases cs, 0
  {
    if cs != [] {
      var r := DeserializeTy(c, ds[0].ty, felts);
      assert cs[0].ty == r.value && cs[1..] == DeserializeFields(c, ds[1..], r.rest).value;
      ReadTakesWidth(c, ds[0].ty, cs[0].ty, felts);
      FieldsTakeWidth(c, ds[1..], cs[1..], r.rest);
      FieldsLeaveSuffix(c, ds[1..], r.rest);
    }
  }

  lemma {:induction false} ItemsTakeWidth(c: ByteArrayCodec, ys: seq<Ty>, xs: seq<Ty>, felts: seq<Felt>)
    requires c.Lawful() && |xs| == |ys| && forall i :: 0 <= i < |xs| ==> Fits(xs[i], ys[i])
    requires DeserializeItems(c, ys, felts).status == Done && DeserializeItems(c, ys, felts).value == xs
    ensures Took(felts, DeserializeItems(c, ys, felts).rest, ItemsWidth(c, xs))
    decreases xs, 0
  {
    if xs != [] {
      var r := DeserializeTy(c, ys[0], felts);
      assert xs[0] == r.value && xs[1..] == DeserializeItems(c, ys[1..], r.rest).value;
      ReadTakesWidth(c, ys[0], xs[0], felts);
      ItemsTakeWidth(c, ys[1..], xs[1..], r.rest);
      ItemsLeaveSuffix(c, ys[1..], r.rest);
    }
  }

  lemma {:induction false} CopiesTakeWidth(c: ByteArrayCodec, item: Ty, xs: seq<Ty>, felts: seq<Felt>)
    requires c.Lawful() && forall i :: 0 <= i < |xs| ==> Fits(xs[i], item)
    requires DeserializeCopies(c, item, |xs|, felts).status == Done
    requires DeserializeCopies(c, item, |xs|, felts).value == xs
    ensures Took(felts, DeserializeCopies(c, item, |xs|, felts).rest, ItemsWidth(c, xs))
    decreases xs, 0
  {
    if xs != [] {
      var r := DeserializeTy(c, item, felts);
      assert xs[0] == r.value && xs[1..] == DeserializeCopies(c, item, |xs| - 1, r.rest).value;
      ReadTakesWidth(c, item, xs[0], felts);
      CopiesTakeWidth(c, item, xs[1..], r.rest);
      CopiesLeaveSuffix(c, item, |xs| - 1, r.rest);
    }
  }

  /** A value is written with at least its width, and with more unless only chosen options carry felts. */
  lemma {:induction false} SerializedWidth(c: ByteArrayCodec, t: Ty, v: Ty)
    requires c.Lawful() && Fits(v, t) && SerializeTy(c, v).Ok?
    ensures |SerializeTy(c, v).value| >= Width(c, v)
    ensures |SerializeTy(c, v).value| == Width(c, v) ==> SelectedOnly(v)
    decreases v, 0
  {
    match v
    case Prim(_) =>
    case Struct(_, cs) => FieldsSerializedWidth(c, t.children, cs);
    case Enum(_, o, cs) => EnumSerializedWidth(c, t.options, cs, o.value);
    case Tuple(xs) => ItemsSerializedWidth(c, t.items, xs);
    case Array(xs) => ItemsSerializedWidth(c, seq(|xs|, _ => t.items[0]), xs);
    case ByteArray(_) =>
  }

  lemma {:induction false} FieldsSerializedWidth<K>(c: ByteArrayCodec, ds: seq<Named<K>>, cs: seq<Named<K>>)
    requires c.Lawful() && FieldsFit(cs, ds) && SerializeFields(c, cs).Ok?
    ensures |SerializeFields(c, cs).value| >= FieldsWidth(c, cs)
    ensures |SerializeFields(c, cs).value| == FieldsWidth(c, cs) ==> FieldsSelectedOnly(cs)
    decreases cs, 0
  {
    if cs != [] {
      SerializedWidth(c, ds[0].ty, cs[0].ty);
      FieldsSerializedWidth(c, ds[1..], cs[1..]);
      assert cs == [cs[0]] + cs[1..];
    }
  }

  lemma {:induction false} ItemsSerializedWidth(c: ByteArrayCodec, ys: seq<Ty>, xs: seq<Ty>)
    requires c.Lawful() && |xs| == |ys| && (forall i :: 0 <= i < |xs| ==> Fits(xs[i], ys[i]))
    requires SerializeItems(c, xs).Ok?
    ensures |SerializeItems(c, xs).value| >= ItemsWidth(c, xs)
    ensures |SerializeItems(c, xs).value| == ItemsWidth(c, xs) ==> forall i :: 0 <= i < |xs| ==> SelectedOnly(xs[i])
    decreases xs, 0
  {
    if xs != [] {
      SerializedWidth(c, ys[0], xs[0]);
      ItemsSerializedWidth(c, ys[1..], xs[1..]);
      assert xs == [xs[0]] + xs[1..];
    }
  }

  lemma {:induction false} EnumSerializedWidth(c: ByteArrayCodec, ds: seq<EnumOption>, cs: seq<EnumOption>, o: nat)
    requires c.Lawful() && |cs| == |ds| && o < |cs| && Fits(cs[o].ty, ds[o].ty) && SerializeFields(c, cs).Ok?
    ensures |SerializeFields(c, cs).value| >= Width(c, cs[o].ty)
    ensures |SerializeFields(c, cs).value| == Width(c, cs[o].ty) ==>
              SelectedOnly(cs[o].ty) && forall i :: 0 <= i < |cs| && i != o ==> ZeroWidth(cs[i].ty)
    decreases cs, 0
  {
    assert cs == [cs[0]] + cs[1..];
    if o == 0 {
      SerializedWidth(c, ds[0].ty, cs[0].ty);
      ZeroWidthFieldsSerialize(c, cs[1..]);
    } else {
      ZeroWidthSerializes(c, cs[0].ty);
      EnumSerializedWidth(c, ds[1..], cs[1..], o - 1);
    }
  }

  /**
   The felt codec round trip holds if and only if, in every chosen branch of the value, the
   options that are not chosen are zero-width: `serialize` writes all options, `deserialize`
   reads one.
   */
  lemma FeltRoundTripIff(c: ByteArrayCodec, t: Ty, v: Ty, tail: seq<Felt>)
    requires c.Lawful() && Fits(v, t) && SerializeTy(c, v).Ok?
    ensures DeserializeTy(c, t, SerializeTy(c, v).value + tail) == Read(Done, v, tail) <==> SelectedOnly(v)
  {
    var felts := SerializeTy(c, v).value + tail;
    if SelectedOnly(v) {
      ReadsBack(c, t, v, tail);
    }
    if DeserializeTy(c, t, felts) == Read(Done, v, tail) {
      ReadTakesWidth(c, t, v, felts);
      SerializedWidth(c, t, v);
    }
  }

  function Byte8(v: Option<int>): (t: Ty)
    requires v.Some? ==> InRange(U8, v.value)
  {
    Prim(Primitive(U8, v))
  }

  /** An enum with two options that each carry a byte. */
  function TwoBytes(option: Option<Byte>, a: Option<int>, b: Option<int>): (t: Ty)
    requires (a.Some? ==> InRange(U8, a.value)) && (b.Some? ==> InRange(U8, b.value))
  {
    Enum("E", option, [Named("a", (), Byte8(a)), Named("b", (), Byte8(b))])
  }

  lemma TwoBytesWritten(c: ByteArrayCodec)
    ensures SerializeTy(c, TwoBytes(Some(0), Some(1), Some(7))) == Ok([0, 1, 7])
  {
    var options := [Named("a", (), Byte8(Some(1))), Named("b", (), Byte8(Some(7)))];
    SignedFelts.SmallFelt(1);
    SignedFelts.SmallFelt(7);
    assert options[1..] == [options[1]] && [options[1]][1..] == [];
    assert SerializeFields(c, [options[1]]) == Ok([7]) by { assert [7] + [] == [7]; }
    assert SerializeFields(c, options) == Ok([1] + [7]);
    assert [0] + ([1] + [7]) == [0, 1, 7];
  }

  lemma TwoBytesRead(c: ByteArrayCodec, tail: seq<Felt>)
    ensures DeserializeTy(c, TwoBytes(None, None, Some(7)), [0, 1, 7] + tail)
         == Read(Done, TwoBytes(Some(0), Some(1), Some(7)), [7] + tail)
  {
    var felts, rest := [0, 1, 7] + tail, [1, 7] + tail;
    assert felts[1..] == rest && rest[1..] == [7] + tail;
    assert Decode(U8, 1) == Some(1);
    assert DeserializeTy(c, Byte8(None), rest) == Read(Done, Byte8(Some(1)), [7] + tail);
    var before := [Named("a", (), Byte8(None)), Named("b", (), Byte8(Some(7)))];
    var after := [Named("a", (), Byte8(Some(1))), Named("b", (), Byte8(Some(7)))];
    assert before[0 := before[0].(ty := Byte8(Some(1)))] == after;
  }

  /** An enum whose other option carries a payload leaves that payload unread. */
  lemma OtherPayloadIsLeftOver(c: ByteArrayCodec, tail: seq<Felt>)
    ensures var t, v := TwoBytes(None, None, Some(7)), TwoBytes(Some(0), Some(1), Some(7));
            && Fits(v, t) && SerializeTy(c, v) == Ok([0, 1, 7])
            && DeserializeTy(c, t, [0, 1, 7] + tail) == Read(Done, v, [7] + tail)
  {
    TwoBytesWritten(c);
    TwoBytesRead(c, tail);
  }
}
