/** When writing what was read gives back the felts it was read from. */
module FeltCanonical {
  import opened Wrappers
  import opened Felts
  import opened Primitives
  import SignedFelts
  import opened Schema
  import opened FeltCodec
  import opened FeltRoundTrip
  import opened FeltReads
  import opened FeltComplete

  /** Booleans are 0 or 1, the halves of 256 bits are below 2^128, and byte arrays are as they would be encoded. */
  ghost predicate Canonical(c: ByteArrayCodec, t: Ty, felts: seq<Felt>)
    decreases t, 0, 0
  {
    felts == [] ||
    match t
    case Prim(p) => CanonicalPrimitive(p.kind, felts)
    case Struct(_, ds) => FieldsCanonical(c, ds, felts)
    case Enum(_, _, ds) =>
      felts[0] < |ds| && (ds[felts[0]].ty == Tuple([]) || Canonical(c, ds[felts[0]].ty, felts[1..]))
    case Tuple(ys) => ItemsCanonical(c, ys, felts)
    case Array(ys) => ys != [] && CopiesCanonical(c, ys[|ys| - 1], felts[0], felts[1..])
    case ByteArray(_) =>
      && c.decode(felts).Some? && c.decode(felts).value.text.Some? && c.decode(felts).value.size <= |felts|
      && c.encode(c.decode(felts).value.text.value) == Some(felts[..c.decode(felts).value.size])
  }

  ghost predicate CanonicalPrimitive(k: Kind, felts: seq<Felt>)
    requires felts != []
  {
    && (k == Bool ==> felts[0] < 2)
    && (k == U256 ==> |felts| >= 2 && felts[0] < TWO_128 && felts[1] < TWO_128)
  }

  ghost predicate FieldsCanonical<K>(c: ByteArrayCodec, ds: seq<Named<K>>, felts: seq<Felt>)
    decreases ds, 0, 0
  {
    ds == [] || (Canonical(c, ds[0].ty, felts) && FieldsCanonical(c, ds[1..], DeserializeTy(c, ds[0].ty, felts).rest))
  }

  ghost predicate ItemsCanonical(c: ByteArrayCodec, ys: seq<Ty>, felts: seq<Felt>)
    decreases ys, 0, 0
  {
    ys == [] || (Canonical(c, ys[0], felts) && ItemsCanonical(c, ys[1..], DeserializeTy(c, ys[0], felts).rest))
  }

  ghost predicate CopiesCanonical(c: ByteArrayCodec, item: Ty, n: nat, felts: seq<Felt>)
    decreases item, 1, n
  {
    n == 0 || (Canonical(c, item, felts) && CopiesCanonical(c, item, n - 1, DeserializeTy(c, item, felts).rest))
  }

  // ----- how long what is written is -----

  lemma SelectedOnlyWidth(c: ByteArrayCodec, t: Ty, v: Ty)
    requires c.Lawful() && Fits(v, t) && SelectedOnly(v) && SerializeTy(c, v).Ok?
    ensures |SerializeTy(c, v).value| == Width(c, v)
  {
    ReadsBack(c, t, v, [0]);
    ReadTakesWidth(c, t, v, SerializeTy(c, v).value + [0]);
  }

  /** The parts of `felts` before and after `w` are written exactly when the whole is. */
  lemma WritesBoth(a: Serialized, b: Serialized, felts: seq<Felt>, w: nat, w': nat)
    requires w + w' <= |felts| && (a.Ok? ==> |a.value| == w) && (b.Ok? ==> |b.value| == w')
    ensures Then(a, b) == Ok(felts[..w + w']) <==> a == Ok(felts[..w]) && b == Ok(felts[w..][..w'])
  {
    assert felts[..w + w'] == felts[..w] + felts[w..][..w'];
    if a.Ok? && b.Ok? {
      assert (a.value + b.value)[..w] == a.value && (a.value + b.value)[w..] == b.value;
      assert felts[..w + w'][..w] == felts[..w] && felts[..w + w'][w..] == felts[w..][..w'];
    }
  }

  ghost predicate Writes(c: ByteArrayCodec, v: Ty, felts: seq<Felt>) {
    Width(c, v) <= |felts| && SerializeTy(c, v) == Ok(felts[..Width(c, v)])
  }

  lemma PrimitiveWritesIff(c: ByteArrayCodec, t: Ty, felts: seq<Felt>)
    requires t.Prim? && felts != [] && DeserializeTy(c, t, felts).status == Done
    ensures Writes(c, DeserializeTy(c, t, felts).value, felts) <==> Canonical(c, t, felts)
  {
    var k := t.primitive.kind;
    var v := DeserializeTy(c, t, felts).value.primitive.value.value;
    if k == U256 {
      HalvesWriteIff(felts[0], felts[1]);
      assert felts[..2] == [felts[0], felts[1]];
    } else {
      DecodingIsExact(k, felts[0], v);
      if k == Bool {
        SignedFelts.SmallFelt(v);
      }
      assert felts[..1] == [felts[0]];
    }
  }

  lemma HalvesWriteIff(low: Felt, high: Felt)
    ensures var v := low % TWO_128 + TWO_128 * (high % TWO_128);
            [FeltOf(v % TWO_128), FeltOf(v / TWO_128)] == [low, high] <==> low < TWO_128 && high < TWO_128
  {
    var l, h := low % TWO_128, high % TWO_128;
    var v := l + TWO_128 * h;
    assert v % TWO_128 == l && v / TWO_128 == h;
    SignedFelts.SmallFelt(l);
    SignedFelts.SmallFelt(h);
    assert low < TWO_128 ==> l == low;
    assert high < TWO_128 ==> h == high;
    assert [l, h] == [low, high] <==> l == low && h == high;
  }

  lemma {:induction false} FieldsSelectedWidth<K>(c: ByteArrayCodec, ds: seq<Named<K>>, cs: seq<Named<K>>)
    requires c.Lawful() && FieldsFit(cs, ds) && FieldsSelectedOnly(cs) && SerializeFields(c, cs).Ok?
    ensures |SerializeFields(c, cs).value| == FieldsWidth(c, cs)
  {
    if cs != [] {
      assert cs == [cs[0]] + cs[1..] && ds == [ds[0]] + ds[1..];
      SelectedOnlyWidth(c, ds[0].ty, cs[0].ty);
      FieldsSelectedWidth(c, ds[1..], cs[1..]);
    }
  }

  ghost predicate ItemsSelectedOnly(xs: seq<Ty>) {
    forall i :: 0 <= i < |xs| ==> SelectedOnly(xs[i])
  }

  lemma {:induction false} ItemsSelectedWidth(c: ByteArrayCodec, ys: seq<Ty>, xs: seq<Ty>)
    requires c.Lawful() && ItemsFit(xs, ys) && ItemsSelectedOnly(xs) && SerializeItems(c, xs).Ok?
    ensures |SerializeItems(c, xs).value| == ItemsWidth(c, xs)
  {
    if xs != [] {
      SelectedOnlyWidth(c, ys[0], xs[0]);
      ItemsSelectedWidth(c, ys[1..], xs[1..]);
    }
  }

  lemma {:induction false} CopiesSelectedWidth(c: ByteArrayCodec, item: Ty, xs: seq<Ty>)
    requires c.Lawful() && CopiesFit(xs, item) && ItemsSelectedOnly(xs) && SerializeItems(c, xs).Ok?
    ensures |SerializeItems(c, xs).value| == ItemsWidth(c, xs)
  {
    if xs != [] {
      SelectedOnlyWidth(c, item, xs[0]);
      CopiesSelectedWidth(c, item, xs[1..]);
    }
  }

  /** What takes no felts is written as none. */
  lemma {:induction false} NoWidthIsZeroWidth(c: ByteArrayCodec, t: Ty)
    requires c.Lawful() && c.encode("").Some? && Unset(t) && Width(c, t) == 0
    ensures ZeroWidth(t)
  {
    UnreadTextLooksComplete(c);
    match t
    case Struct(_, cs) =>
      forall i | 0 <= i < |cs| ensures ZeroWidth(cs[i].ty) {
        FieldsNoWidth(c, cs, i);
        NoWidthIsZeroWidth(c, cs[i].ty);
      }
    case Tuple(xs) =>
      forall i | 0 <= i < |xs| ensures ZeroWidth(xs[i]) {
        ItemsNoWidth(c, xs, i);
        NoWidthIsZeroWidth(c, xs[i]);
      }
    case _ =>
  }

  lemma {:induction false} FieldsNoWidth<K>(c: ByteArrayCodec, cs: seq<Named<K>>, i: nat)
    requires FieldsWidth(c, cs) == 0 && i < |cs|
    ensures Width(c, cs[i].ty) == 0
  {
    if i > 0 {
      FieldsNoWidth(c, cs[1..], i - 1);
    }
  }

  lemma {:induction false} ItemsNoWidth(c: ByteArrayCodec, xs: seq<Ty>, i: nat)
    requires ItemsWidth(c, xs) == 0 && i < |xs|
    ensures Width(c, xs[i]) == 0
  {
    if i > 0 {
      ItemsNoWidth(c, xs[1..], i - 1);
    }
  }

  // ----- writing what was read -----

  /** The read was complete, and only chosen options carry felts. */
  ghost predicate ReadWhole(c: ByteArrayCodec, t: Ty, felts: seq<Felt>) {
    var r := DeserializeTy(c, t, felts);
    r.status == Done && Width(c, r.value) <= |felts| && SelectedOnly(r.value)
  }

  lemma {:induction false} WritesIff(c: ByteArrayCodec, t: Ty, felts: seq<Felt>)
    requires c.Lawful() && c.encode("").Some? && Unset(t) && ReadWhole(c, t, felts)
    ensures Writes(c, DeserializeTy(c, t, felts).value, felts) <==> Canonical(c, t, felts)
    decreases t, 0, 0
  {
    if felts == [] {
      NoWidthIsZeroWidth(c, t);
      ZeroWidthSerializes(c, t);
    } else {
      match t
      case Prim(_) => PrimitiveWritesIff(c, t, felts);
      case Struct(_, ds) => FieldsWriteIff(c, ds, felts);
      case Enum(_, _, ds) => EnumWritesIff(c, t, felts);
      case Tuple(ys) => ItemsWriteIff(c, ys, felts);
      case Array(ys) => ArrayWritesIff(c, t, felts);
      case ByteArray(_) => TextWritesIff(c, t, felts);
    }
  }

  lemma TextWritesIff(c: ByteArrayCodec, t: Ty, felts: seq<Felt>)
    requires c.Lawful() && t.ByteArray? && felts != [] && ReadWhole(c, t, felts)
    ensures Writes(c, DeserializeTy(c, t, felts).value, felts) <==> Canonical(c, t, felts)
  {
  }

  lemma {:induction false} EnumWritesIff(c: ByteArrayCodec, t: Ty, felts: seq<Felt>)
    requires c.Lawful() && c.encode("").Some? && Unset(t) && t.Enum? && felts != [] && ReadWhole(c, t, felts)
    ensures Writes(c, DeserializeTy(c, t, felts).value, felts) <==> Canonical(c, t, felts)
    decreases t.options, 1, 0
  {
    var ty := t.options[felts[0]].ty;
    var v := DeserializeTy(c, t, felts).value;
    var p := v.options[felts[0]].ty;
    OnlySelectedSerializes(c, v.options, felts[0]);
    if ty == Tuple([]) {
      assert SerializeTy(c, p) == Ok([]);
    } else {
      WritesIff(c, ty, felts[1..]);
      UnsetIsTemplate(ty);
      ReadTakesAll(c, ty, felts[1..]);
      if SerializeTy(c, p).Ok? {
        SelectedOnlyWidth(c, ty, p);
      }
    }
    OneThenWrites(c, v, p, felts);
  }

  /** The option is written first, then the payload. */
  lemma OneThenWrites(c: ByteArrayCodec, v: Ty, p: Ty, felts: seq<Felt>)
    requires felts != [] && 1 + Width(c, p) == Width(c, v) <= |felts| && felts[0] <= 255
    requires SerializeTy(c, v) == Then(Ok([felts[0]]), SerializeTy(c, p))
    requires SerializeTy(c, p).Ok? ==> |SerializeTy(c, p).value| == Width(c, p)
    ensures Writes(c, v, felts) <==> Writes(c, p, felts[1..])
  {
    WritesBoth(Ok([felts[0]]), SerializeTy(c, p), felts, 1, Width(c, p));
    assert felts[..1] == [felts[0]];
  }

  ghost predicate ItemsWrite(c: ByteArrayCodec, xs: seq<Ty>, felts: seq<Felt>) {
    ItemsWidth(c, xs) <= |felts| && SerializeItems(c, xs) == Ok(felts[..ItemsWidth(c, xs)])
  }

  /** A list is written exactly when its first item and the rest are, one after the other. */
  lemma WritesCons(c: ByteArrayCodec, x: Ty, xs: seq<Ty>, felts: seq<Felt>)
    requires Width(c, x) + ItemsWidth(c, xs) <= |felts|
    requires SerializeTy(c, x).Ok? ==> |SerializeTy(c, x).value| == Width(c, x)
    requires SerializeItems(c, xs).Ok? ==> |SerializeItems(c, xs).value| == ItemsWidth(c, xs)
    ensures ItemsWidth(c, [x] + xs) == Width(c, x) + ItemsWidth(c, xs)
    ensures ItemsWrite(c, [x] + xs, felts) <==> Writes(c, x, felts) && ItemsWrite(c, xs, felts[Width(c, x)..])
  {
    assert ([x] + xs)[1..] == xs;
    WritesBoth(SerializeTy(c, x), SerializeItems(c, xs), felts, Width(c, x), ItemsWidth(c, xs));
  }

  lemma {:induction false} ArrayWritesIff(c: ByteArrayCodec, t: Ty, felts: seq<Felt>)
    requires c.Lawful() && c.encode("").Some? && Unset(t) && t.Array? && felts != [] && ReadWhole(c, t, felts)
    ensures Writes(c, DeserializeTy(c, t, felts).value, felts) <==> Canonical(c, t, felts)
    decreases t.items, 2, 0
  {
    var item, n := t.items[0], felts[0];
    var r := DeserializeCopies(c, item, n, felts[1..]);
    UnsetIsTemplate(t);
    ArrayRead(c, t, felts, r);
    CopiesWriteIff(c, item, n, felts[1..], r.value, r.rest);
    LengthThenWrites(c, item, r.value, felts);
  }

  /** The length is written first, then the items. */
  lemma LengthThenWrites(c: ByteArrayCodec, item: Ty, xs: seq<Ty>, felts: seq<Felt>)
    requires c.Lawful() && felts != [] && |xs| == felts[0] < 0x1_0000_0000 && 1 + ItemsWidth(c, xs) <= |felts|
    requires CopiesFit(xs, item) && ItemsSelectedOnly(xs)
    ensures Writes(c, Array(xs), felts) <==> ItemsWrite(c, xs, felts[1..])
  {
    if SerializeItems(c, xs).Ok? {
      CopiesSelectedWidth(c, item, xs);
    }
    WritesBoth(Ok([felts[0]]), SerializeItems(c, xs), felts, 1, ItemsWidth(c, xs));
    assert felts[..1] == [felts[0]];
  }

  ghost predicate FieldsWrite<K>(c: ByteArrayCodec, cs: seq<Named<K>>, felts: seq<Felt>) {
    FieldsWidth(c, cs) <= |felts| && SerializeFields(c, cs) == Ok(felts[..FieldsWidth(c, cs)])
  }

  lemma FieldsWriteCons<K>(c: ByteArrayCodec, cs: seq<Named<K>>, felts: seq<Felt>)
    requires cs != [] && FieldsWidth(c, cs) <= |felts|
    requires SerializeTy(c, cs[0].ty).Ok? ==> |SerializeTy(c, cs[0].ty).value| == Width(c, cs[0].ty)
    requires SerializeFields(c, cs[1..]).Ok? ==> |SerializeFields(c, cs[1..]).value| == FieldsWidth(c, cs[1..])
    ensures FieldsWrite(c, cs, felts) <==>
            Writes(c, cs[0].ty, felts) && FieldsWrite(c, cs[1..], felts[Width(c, cs[0].ty)..])
  {
    WritesBoth(SerializeTy(c, cs[0].ty), SerializeFields(c, cs[1..]), felts,
               Width(c, cs[0].ty), FieldsWidth(c, cs[1..]));
  }

  lemma {:induction false} FieldsWriteIff<K>(c: ByteArrayCodec, ds: seq<Named<K>>, felts: seq<Felt>)
    requires c.Lawful() && c.encode("").Some? && (forall i :: 0 <= i < |ds| ==> Unset(ds[i].ty))
    requires var r := DeserializeFields(c, ds, felts);
             r.status == Done && FieldsWidth(c, r.value) <= |felts| && FieldsSelectedOnly(r.value)
    ensures FieldsWrite(c, DeserializeFields(c, ds, felts).value, felts) <==> FieldsCanonical(c, ds, felts)
    decreases ds, 0, 0
  {
    if ds != [] {
      var h := DeserializeTy(c, ds[0].ty, felts);
      var q := DeserializeFields(c, ds[1..], h.rest);
      var cs := DeserializeFields(c, ds, felts).value;
      assert cs[0] == ds[0].(ty := h.value) && cs[1..] == q.value && cs == [cs[0]] + cs[1..];
      forall i | 0 <= i < |ds| ensures Template(ds[i].ty) { UnsetIsTemplate(ds[i].ty); }
      ReadTakesAll(c, ds[0].ty, felts);
      FieldsTakeAll(c, ds[1..], h.rest);
      WritesIff(c, ds[0].ty, felts);
      FieldsWriteIff(c, ds[1..], h.rest);
      if SerializeTy(c, h.value).Ok? {
        SelectedOnlyWidth(c, ds[0].ty, h.value);
      }
      if SerializeFields(c, q.value).Ok? {
        FieldsSelectedWidth(c, ds[1..], q.value);
      }
      FieldsWriteCons(c, cs, felts);
    }
  }

  lemma {:induction false} ItemsWriteIff(c: ByteArrayCodec, ys: seq<Ty>, felts: seq<Felt>)
    requires c.Lawful() && c.encode("").Some? && (forall i :: 0 <= i < |ys| ==> Unset(ys[i]))
    requires var r := DeserializeItems(c, ys, felts);
             r.status == Done && ItemsWidth(c, r.value) <= |felts| && ItemsSelectedOnly(r.value)
    ensures ItemsWrite(c, DeserializeItems(c, ys, felts).value, felts) <==> ItemsCanonical(c, ys, felts)
    decreases ys, 0, 0
  {
    if ys != [] {
      var h := DeserializeTy(c, ys[0], felts);
      var q := DeserializeItems(c, ys[1..], h.rest);
      var xs := DeserializeItems(c, ys, felts).value;
      assert xs == [h.value] + q.value && xs[0] == h.value && xs[1..] == q.value;
      forall i | 0 <= i < |ys| ensures Template(ys[i]) { UnsetIsTemplate(ys[i]); }
      ReadTakesAll(c, ys[0], felts);
      ItemsTakeAll(c, ys[1..], h.rest);
      WritesIff(c, ys[0], felts);
      ItemsWriteIff(c, ys[1..], h.rest);
      if SerializeTy(c, h.value).Ok? {
        SelectedOnlyWidth(c, ys[0], h.value);
      }
      if SerializeItems(c, q.value).Ok? {
        ItemsSelectedWidth(c, ys[1..], q.value);
      }
      WritesCons(c, h.value, q.value, felts);
    }
  }

  lemma {:induction false} CopiesWriteIff(c: ByteArrayCodec, item: Ty, n: nat, felts: seq<Felt>, xs: seq<Ty>,
                                          rest: seq<Felt>)
    requires c.Lawful() && c.encode("").Some? && Unset(item) && CopiesRead(c, item, n, felts, xs, rest)
    requires ItemsWidth(c, xs) <= |felts| && ItemsSelectedOnly(xs)
    ensures CopiesFit(xs, item)
    ensures ItemsWrite(c, xs, felts) <==> CopiesCanonical(c, item, n, felts)
    decreases item, 1, n
  {
    if n > 0 {
      var x, middle, ys := CopiesReadSplit(c, item, n, felts, xs, rest);
      assert xs[0] == x && xs[1..] == ys;
      CopyTaken(c, item, felts);
      WritesIff(c, item, felts);
      CopiesWriteIff(c, item, n - 1, middle, ys, rest);
      WidthsWritten(c, item, x, ys);
      WritesCons(c, x, ys, felts);
      CopiesFitCons(xs, item);
    }
  }

  lemma CopyTaken(c: ByteArrayCodec, item: Ty, felts: seq<Felt>)
    requires c.Lawful() && Unset(item) && DeserializeTy(c, item, felts).status == Done
    ensures var r := DeserializeTy(c, item, felts);
            Width(c, r.value) <= |felts| ==> Fits(r.value, item) && r.rest == felts[Width(c, r.value)..]
  {
    UnsetIsTemplate(item);
    ReadTakesAll(c, item, felts);
  }

  lemma WidthsWritten(c: ByteArrayCodec, item: Ty, x: Ty, ys: seq<Ty>)
    requires c.Lawful() && Fits(x, item) && SelectedOnly(x) && CopiesFit(ys, item) && ItemsSelectedOnly(ys)
    ensures SerializeTy(c, x).Ok? ==> |SerializeTy(c, x).value| == Width(c, x)
    ensures SerializeItems(c, ys).Ok? ==> |SerializeItems(c, ys).value| == ItemsWidth(c, ys)
  {
    if SerializeTy(c, x).Ok? {
      SelectedOnlyWidth(c, item, x);
    }
    if SerializeItems(c, ys).Ok? {
      CopiesSelectedWidth(c, item, ys);
    }
  }

  /**
   * Writing what a complete read gave reproduces the felts it took, if and only if only chosen options carry felts
   * and the felts were canonical.
   */
  lemma RewriteIff(c: ByteArrayCodec, t: Ty, felts: seq<Felt>)
    requires c.Lawful() && c.encode("").Some? && Unset(t) && DeserializeTy(c, t, felts).status == Done
    requires Width(c, DeserializeTy(c, t, felts).value) <= |felts|
    ensures var v := DeserializeTy(c, t, felts).value;
            SerializeTy(c, v) == Ok(felts[..Width(c, v)]) <==> SelectedOnly(v) && Canonical(c, t, felts)
  {
    var v := DeserializeTy(c, t, felts).value;
    UnsetIsTemplate(t);
    ReadIsCompleteIff(c, t, felts);
    if SerializeTy(c, v) == Ok(felts[..Width(c, v)]) {
      SerializedWidth(c, t, v);
    }
    if SelectedOnly(v) {
      WritesIff(c, t, felts);
    }
  }
}
