/** Which felts `deserialize` reads as which value: the option byte and the chosen payload of an enum, and no other. */
module FeltSpelling {
  import opened Wrappers
  import opened Felts
  import opened Primitives
  import SignedFelts
  import opened Schema
  import opened FeltCodec
  import opened FeltRoundTrip
  import opened FeltReads
  import opened FeltComplete

  // ----- what spells a value -----

  /** A boolean is true for one; 256 bits are the low halves of two felts, low one first; else the felt is the image. */
  ghost predicate PrimitiveSpelled(k: Kind, v: int, felts: seq<Felt>) {
    match k
    case Bool => |felts| == 1 && v == if felts[0] == 1 then 1 else 0
    case U256 => |felts| == 2 && v == felts[0] % TWO_128 + TWO_128 * (felts[1] % TWO_128)
    case _ => |felts| == 1 && InRange(k, v) && felts[0] == FeltOf(v)
  }

  /** `felts`, with `rest` behind them, spell `v`. */
  ghost predicate Spells(c: ByteArrayCodec, v: Ty, felts: seq<Felt>, rest: seq<Felt>)
    decreases v, 0
  {
    match v
    case Prim(p) => p.value.Some? && PrimitiveSpelled(p.kind, p.value.value, felts)
    case Struct(_, cs) => FieldsSpell(c, cs, felts, rest)
    case Enum(_, o, cs) =>
      && o.Some? && o.value < |cs| && felts != [] && felts[0] == o.value
      && Spells(c, cs[o.value].ty, felts[1..], rest)
    case Tuple(xs) => ItemsSpell(c, xs, felts, rest)
    case Array(xs) => felts != [] && felts[0] == |xs| < 0x1_0000_0000 && ItemsSpell(c, xs, felts[1..], rest)
    case ByteArray(s) => c.decode(felts + rest) == Some(Text(Some(s), |felts|))
  }

  /** The felts are cut into pieces that spell the fields, in order. */
  ghost predicate FieldsSpell<K>(c: ByteArrayCodec, cs: seq<Named<K>>, felts: seq<Felt>, rest: seq<Felt>)
    decreases cs, 0
  {
    if cs == [] then felts == []
    else
      exists k: nat :: k <= |felts| && Spells(c, cs[0].ty, felts[..k], felts[k..] + rest)
                       && FieldsSpell(c, cs[1..], felts[k..], rest)
  }

  ghost predicate ItemsSpell(c: ByteArrayCodec, xs: seq<Ty>, felts: seq<Felt>, rest: seq<Felt>)
    decreases xs, 0
  {
    if xs == [] then felts == []
    else
      exists k: nat :: k <= |felts| && Spells(c, xs[0], felts[..k], felts[k..] + rest)
                       && ItemsSpell(c, xs[1..], felts[k..], rest)
  }

  // ----- as many felts as the value is wide -----

  lemma {:induction false} SpelledWidth(c: ByteArrayCodec, v: Ty, felts: seq<Felt>, rest: seq<Felt>)
    requires c.Lawful() && Spells(c, v, felts, rest)
    ensures |felts| == Width(c, v)
    decreases v, 0
  {
    match v
    case Struct(_, cs) => FieldsSpelledWidth(c, cs, felts, rest);
    case Enum(_, o, cs) => SpelledWidth(c, cs[o.value].ty, felts[1..], rest);
    case Tuple(xs) => ItemsSpelledWidth(c, xs, felts, rest);
    case Array(xs) => ItemsSpelledWidth(c, xs, felts[1..], rest);
    case _ =>
  }

  lemma {:induction false} FieldsSpelledWidth<K>(c: ByteArrayCodec, cs: seq<Named<K>>, felts: seq<Felt>,
                                                 rest: seq<Felt>)
    requires c.Lawful() && FieldsSpell(c, cs, felts, rest)
    ensures |felts| == FieldsWidth(c, cs)
    decreases cs, 0
  {
    if cs != [] {
      var k: nat :| k <= |felts| && Spells(c, cs[0].ty, felts[..k], felts[k..] + rest)
                    && FieldsSpell(c, cs[1..], felts[k..], rest);
      SpelledWidth(c, cs[0].ty, felts[..k], felts[k..] + rest);
      FieldsSpelledWidth(c, cs[1..], felts[k..], rest);
    }
  }

  lemma {:induction false} ItemsSpelledWidth(c: ByteArrayCodec, xs: seq<Ty>, felts: seq<Felt>, rest: seq<Felt>)
    requires c.Lawful() && ItemsSpell(c, xs, felts, rest)
    ensures |felts| == ItemsWidth(c, xs)
    decreases xs, 0
  {
    if xs != [] {
      var k: nat :| k <= |felts| && Spells(c, xs[0], felts[..k], felts[k..] + rest)
                    && ItemsSpell(c, xs[1..], felts[k..], rest);
      SpelledWidth(c, xs[0], felts[..k], felts[k..] + rest);
      ItemsSpelledWidth(c, xs[1..], felts[k..], rest);
    }
  }

  // ----- what is spelled is read -----

  lemma {:induction false} SpelledByNothing(c: ByteArrayCodec, t: Ty, v: Ty, rest: seq<Felt>)
    requires c.Lawful() && Fits(v, t) && Spells(c, v, [], rest)
    ensures v == t
    decreases v, 0
  {
    match v
    case Struct(_, cs) =>
      NoFieldsSpelled(c, t.children, cs, rest);
    case Tuple(xs) => NoItemsSpelled(c, t.items, xs, rest);
    case ByteArray(s) => SpelledWidth(c, v, [], rest);
    case _ =>
  }

  lemma {:induction false} NoFieldsSpelled<K>(c: ByteArrayCodec, ds: seq<Named<K>>, cs: seq<Named<K>>, rest: seq<Felt>)
    requires c.Lawful() && FieldsFit(cs, ds) && FieldsSpell(c, cs, [], rest)
    ensures cs == ds
    decreases cs, 0
  {
    if cs != [] {
      assert cs == [cs[0]] + cs[1..] && ds == [ds[0]] + ds[1..];
      var none: seq<Felt> := [];
      var k: nat :| k <= |none| && Spells(c, cs[0].ty, none[..k], none[k..] + rest)
                    && FieldsSpell(c, cs[1..], none[k..], rest);
      assert none[..k] == [] && none[k..] == [];
      SpelledByNothing(c, ds[0].ty, cs[0].ty, none[k..] + rest);
      NoFieldsSpelled(c, ds[1..], cs[1..], rest);
    }
  }

  lemma {:induction false} NoItemsSpelled(c: ByteArrayCodec, ys: seq<Ty>, xs: seq<Ty>, rest: seq<Felt>)
    requires c.Lawful() && ItemsFit(xs, ys) && ItemsSpell(c, xs, [], rest)
    ensures xs == ys
    decreases xs, 0
  {
    if xs != [] {
      assert xs == [xs[0]] + xs[1..] && ys == [ys[0]] + ys[1..];
      var none: seq<Felt> := [];
      var k: nat :| k <= |none| && Spells(c, xs[0], none[..k], none[k..] + rest)
                    && ItemsSpell(c, xs[1..], none[k..], rest);
      assert none[..k] == [] && none[k..] == [];
      SpelledByNothing(c, ys[0], xs[0], none[k..] + rest);
      NoItemsSpelled(c, ys[1..], xs[1..], rest);
    }
  }

  lemma PrimitiveSpelledReads(t: Primitive, p: Primitive, felts: seq<Felt>, rest: seq<Felt>)
    requires t.kind == p.kind && p.value.Some? && PrimitiveSpelled(p.kind, p.value.value, felts)
    ensures Primitives.Deserialize(t, felts + rest) == Read(Done, p, rest)
  {
    if p.kind == U256 {
      assert (felts + rest)[2..] == rest;
    } else {
      assert (felts + rest)[1..] == rest;
      DecodingIsExact(p.kind, felts[0], p.value.value);
    }
  }

  /** What spells a value of the schema is read as that value, and what is behind it is left. */
  lemma {:induction false} SpelledReads(c: ByteArrayCodec, t: Ty, v: Ty, felts: seq<Felt>, rest: seq<Felt>)
    requires c.Lawful() && Fits(v, t) && Spells(c, v, felts, rest)
    ensures DeserializeTy(c, t, felts + rest) == Read(Done, v, rest)
    decreases v, 0
  {
    if felts + rest == [] {
      SpelledByNothing(c, t, v, rest);
    } else {
      match v
      case Prim(p) => PrimitiveSpelledReads(t.primitive, p, felts, rest);
      case Struct(_, cs) => FieldsSpelledRead(c, t.children, cs, felts, rest);
      case Enum(_, _, _) => EnumSpelledReads(c, t, v, felts, rest);
      case Tuple(xs) => ItemsSpelledRead(c, t.items, xs, felts, rest);
      case Array(xs) =>
        assert (felts + rest)[1..] == felts[1..] + rest;
        CopiesSpelledRead(c, t.items[0], xs, felts[1..], rest);
        assert t.items[..0] + xs == xs;
      case ByteArray(_) => assert (felts + rest)[|felts|..] == rest;
    }
  }

  lemma {:induction false} EnumSpelledReads(c: ByteArrayCodec, t: Ty, v: Ty, felts: seq<Felt>, rest: seq<Felt>)
    requires v.Enum? && c.Lawful() && Fits(v, t) && Spells(c, v, felts, rest)
    ensures DeserializeTy(c, t, felts + rest) == Read(Done, v, rest)
    decreases v.options, 1
  {
    var o, cs, ds := v.option.value, v.options, t.options;
    assert (felts + rest)[1..] == felts[1..] + rest;
    SpelledReads(c, ds[o].ty, cs[o].ty, felts[1..], rest);
    assert cs[o].key == () == ds[o].key;
    assert ds[o := ds[o].(ty := cs[o].ty)] == cs;
    if ds[o].ty == Tuple([]) {
      assert cs[o].ty.items == [] && ds == cs;
    }
  }

  lemma {:induction false} FieldsSpelledRead<K>(c: ByteArrayCodec, ds: seq<Named<K>>, cs: seq<Named<K>>,
                                                felts: seq<Felt>, rest: seq<Felt>)
    requires c.Lawful() && FieldsFit(cs, ds) && FieldsSpell(c, cs, felts, rest)
    ensures DeserializeFields(c, ds, felts + rest) == Read(Done, cs, rest)
    decreases cs, 0
  {
    if cs != [] {
      var k: nat :| k <= |felts| && Spells(c, cs[0].ty, felts[..k], felts[k..] + rest)
                    && FieldsSpell(c, cs[1..], felts[k..], rest);
      assert cs == [ds[0].(ty := cs[0].ty)] + cs[1..];
      Reassemble(felts, k, rest);
      SpelledReads(c, ds[0].ty, cs[0].ty, felts[..k], felts[k..] + rest);
      FieldsSpelledRead(c, ds[1..], cs[1..], felts[k..], rest);
      FieldsStep(c, ds, felts + rest, cs[0].ty, felts[k..] + rest, cs[1..], rest);
    } else {
      assert [] + rest == rest;
    }
  }

  lemma Reassemble(felts: seq<Felt>, k: nat, rest: seq<Felt>)
    requires k <= |felts|
    ensures felts[..k] + (felts[k..] + rest) == felts + rest
  {
  }

  lemma {:induction false} ItemsSpelledRead(c: ByteArrayCodec, ys: seq<Ty>, xs: seq<Ty>, felts: seq<Felt>,
                                            rest: seq<Felt>)
    requires c.Lawful() && ItemsFit(xs, ys) && ItemsSpell(c, xs, felts, rest)
    ensures DeserializeItems(c, ys, felts + rest) == Read(Done, xs, rest)
    decreases xs, 0
  {
    if xs != [] {
      var k: nat :| k <= |felts| && Spells(c, xs[0], felts[..k], felts[k..] + rest)
                    && ItemsSpell(c, xs[1..], felts[k..], rest);
      assert xs == [xs[0]] + xs[1..] && ys == [ys[0]] + ys[1..];
      Reassemble(felts, k, rest);
      SpelledReads(c, ys[0], xs[0], felts[..k], felts[k..] + rest);
      ItemsSpelledRead(c, ys[1..], xs[1..], felts[k..], rest);
      ItemsStep(c, ys, felts + rest, xs[0], felts[k..] + rest, xs[1..], rest);
    } else {
      assert [] + rest == rest;
    }
  }

  lemma {:induction false} CopiesSpelledRead(c: ByteArrayCodec, item: Ty, xs: seq<Ty>, felts: seq<Felt>,
                                             rest: seq<Felt>)
    requires c.Lawful() && CopiesFit(xs, item) && ItemsSpell(c, xs, felts, rest)
    ensures DeserializeCopies(c, item, |xs|, felts + rest) == Read(Done, xs, rest)
    decreases xs, 0
  {
    if xs != [] {
      var k: nat :| k <= |felts| && Spells(c, xs[0], felts[..k], felts[k..] + rest)
                    && ItemsSpell(c, xs[1..], felts[k..], rest);
      assert xs == [xs[0]] + xs[1..];
      Reassemble(felts, k, rest);
      SpelledReads(c, item, xs[0], felts[..k], felts[k..] + rest);
      CopiesSpelledRead(c, item, xs[1..], felts[k..], rest);
      CopiesStep(c, item, |xs| - 1, felts + rest, xs[0], felts[k..] + rest, xs[1..], rest);
    } else {
      assert [] + rest == rest;
    }
  }

  // ----- the felts of a value -----

  /** The option of an enum, then the payload of that option alone. */
  ghost function Written(c: ByteArrayCodec, v: Ty): (r: Serialized)
    decreases v, 0
  {
    match v
    case Prim(p) => Primitives.Serialize(p)
    case Struct(_, cs) => FieldsWritten(c, cs)
    case Enum(_, o, cs) =>
      if o.None? || o.value >= |cs| then Err(MissingFieldElement) else Then(Ok([o.value]), Written(c, cs[o.value].ty))
    case Tuple(xs) => ItemsWritten(c, xs)
    case Array(xs) => if |xs| >= 0x1_0000_0000 then Panic else Then(Ok([|xs|]), ItemsWritten(c, xs))
    case ByteArray(s) => if c.encode(s).Some? then Ok(c.encode(s).value) else Err(CairoSerde)
  }

  ghost function FieldsWritten<K>(c: ByteArrayCodec, cs: seq<Named<K>>): (r: Serialized)
    decreases cs, 0
  {
    if cs == [] then Ok([]) else Then(Written(c, cs[0].ty), FieldsWritten(c, cs[1..]))
  }

  ghost function ItemsWritten(c: ByteArrayCodec, xs: seq<Ty>): (r: Serialized)
    decreases xs, 0
  {
    if xs == [] then Ok([]) else Then(Written(c, xs[0]), ItemsWritten(c, xs[1..]))
  }

  lemma PrimitiveWrittenSpells(p: Primitive)
    requires p.value.Some?
    ensures Primitives.Serialize(p).Ok? && PrimitiveSpelled(p.kind, p.value.value, Primitives.Serialize(p).value)
  {
    var v := p.value.value;
    if p.kind == U256 {
      SignedFelts.SmallFelt(v % TWO_128);
      SignedFelts.SmallFelt(v / TWO_128);
    } else if p.kind == Bool {
      SignedFelts.SmallFelt(v);
    }
  }

  lemma {:induction false} WrittenSpells(c: ByteArrayCodec, v: Ty, rest: seq<Felt>)
    requires c.Lawful() && Written(c, v).Ok?
    ensures Spells(c, v, Written(c, v).value, rest)
    decreases v, 0
  {
    match v
    case Prim(p) => PrimitiveWrittenSpells(p);
    case Struct(_, cs) => FieldsWrittenSpell(c, cs, rest);
    case Enum(_, o, cs) =>
      WrittenSpells(c, cs[o.value].ty, rest);
      assert Written(c, v).value[1..] == Written(c, cs[o.value].ty).value;
    case Tuple(xs) => ItemsWrittenSpell(c, xs, rest);
    case Array(xs) =>
      ItemsWrittenSpell(c, xs, rest);
      assert Written(c, v).value[1..] == ItemsWritten(c, xs).value;
    case ByteArray(_) =>
  }

  lemma {:induction false} FieldsWrittenSpell<K>(c: ByteArrayCodec, cs: seq<Named<K>>, rest: seq<Felt>)
    requires c.Lawful() && FieldsWritten(c, cs).Ok?
    ensures FieldsSpell(c, cs, FieldsWritten(c, cs).value, rest)
    decreases cs, 0
  {
    if cs != [] {
      var a, b := Written(c, cs[0].ty).value, FieldsWritten(c, cs[1..]).value;
      WrittenSpells(c, cs[0].ty, b + rest);
      FieldsWrittenSpell(c, cs[1..], rest);
      assert (a + b)[..|a|] == a && (a + b)[|a|..] == b;
    }
  }

  lemma {:induction false} ItemsWrittenSpell(c: ByteArrayCodec, xs: seq<Ty>, rest: seq<Felt>)
    requires c.Lawful() && ItemsWritten(c, xs).Ok?
    ensures ItemsSpell(c, xs, ItemsWritten(c, xs).value, rest)
    decreases xs, 0
  {
    if xs != [] {
      var a, b := Written(c, xs[0]).value, ItemsWritten(c, xs[1..]).value;
      WrittenSpells(c, xs[0], b + rest);
      ItemsWrittenSpell(c, xs[1..], rest);
      assert (a + b)[..|a|] == a && (a + b)[|a|..] == b;
    }
  }

  /**
   * The option and the chosen payload of every enum, and whatever else a value holds, are read back as the value, with
   * any tail left over and whatever the other options carry.
   */
  lemma WrittenReadsBack(c: ByteArrayCodec, t: Ty, v: Ty, tail: seq<Felt>)
    requires c.Lawful() && Fits(v, t) && Written(c, v).Ok?
    ensures DeserializeTy(c, t, Written(c, v).value + tail) == Read(Done, v, tail)
  {
    WrittenSpells(c, v, tail);
    SpelledReads(c, t, v, Written(c, v).value, tail);
  }

  // ----- what is read was spelled -----

  /** The texts a template holds have an encoding. */
  ghost predicate TextsEncode(c: ByteArrayCodec, t: Ty) {
    match t
    case Struct(_, cs) => forall i :: 0 <= i < |cs| ==> TextsEncode(c, cs[i].ty)
    case Enum(_, _, cs) => forall i :: 0 <= i < |cs| ==> TextsEncode(c, cs[i].ty)
    case Tuple(xs) => forall i :: 0 <= i < |xs| ==> TextsEncode(c, xs[i])
    case Array(xs) => forall i :: 0 <= i < |xs| ==> TextsEncode(c, xs[i])
    case ByteArray(s) => c.encode(s).Some?
    case _ => true
  }

  /** The schema can be read, and the read took all of its value's felts. */
  ghost predicate ReadInFull(c: ByteArrayCodec, t: Ty, felts: seq<Felt>) {
    && c.Lawful() && Template(t) && TextsEncode(c, t)
    && DeserializeTy(c, t, felts).status == Done && Width(c, DeserializeTy(c, t, felts).value) <= |felts|
  }

  /** The first felts, as many as the value is wide, spell it. */
  ghost predicate SpelledByFront(c: ByteArrayCodec, v: Ty, felts: seq<Felt>) {
    Width(c, v) <= |felts| && Spells(c, v, felts[..Width(c, v)], felts[Width(c, v)..])
  }

  lemma {:induction false} NothingSpells(c: ByteArrayCodec, t: Ty)
    requires c.Lawful() && Template(t) && TextsEncode(c, t) && Width(c, t) == 0
    ensures Spells(c, t, [], [])
    decreases t, 0
  {
    match t
    case Struct(_, cs) => NothingSpellsFields(c, cs);
    case Tuple(xs) => NothingSpellsItems(c, xs);
    case _ =>
  }

  lemma {:induction false} NothingSpellsFields<K>(c: ByteArrayCodec, cs: seq<Named<K>>)
    requires c.Lawful() && FieldsWidth(c, cs) == 0
    requires forall i :: 0 <= i < |cs| ==> Template(cs[i].ty) && TextsEncode(c, cs[i].ty)
    ensures FieldsSpell(c, cs, [], [])
    decreases cs, 0
  {
    if cs != [] {
      NothingSpells(c, cs[0].ty);
      NothingSpellsFields(c, cs[1..]);
      var none: seq<Felt> := [];
      assert none[..0] == none && none[0..] == none && none[0..] + none == none;
    }
  }

  lemma {:induction false} NothingSpellsItems(c: ByteArrayCodec, xs: seq<Ty>)
    requires c.Lawful() && ItemsWidth(c, xs) == 0
    requires forall i :: 0 <= i < |xs| ==> Template(xs[i]) && TextsEncode(c, xs[i])
    ensures ItemsSpell(c, xs, [], [])
    decreases xs, 0
  {
    if xs != [] {
      NothingSpells(c, xs[0]);
      NothingSpellsItems(c, xs[1..]);
      var none: seq<Felt> := [];
      assert none[..0] == none && none[0..] == none && none[0..] + none == none;
    }
  }

  lemma PrimitiveReadSpells(c: ByteArrayCodec, t: Ty, felts: seq<Felt>)
    requires t.Prim? && felts != [] && DeserializeTy(c, t, felts).status == Done
    ensures SpelledByFront(c, DeserializeTy(c, t, felts).value, felts)
  {
    var k, p := t.primitive.kind, DeserializeTy(c, t, felts).value.primitive;
    if k == U256 {
      assert felts[..2] == [felts[0], felts[1]];
    } else {
      assert felts[..1] == [felts[0]];
      DecodingIsExact(k, felts[0], p.value.value);
    }
  }

  lemma {:induction false} ReadSpells(c: ByteArrayCodec, t: Ty, felts: seq<Felt>)
    requires ReadInFull(c, t, felts)
    ensures SpelledByFront(c, DeserializeTy(c, t, felts).value, felts)
    decreases t, 0, 0
  {
    if felts == [] {
      NothingSpells(c, t);
      assert felts[..0] == [] && felts[0..] == [];
    } else {
      match t
      case Prim(_) => PrimitiveReadSpells(c, t, felts);
      case Struct(_, ds) => FieldsReadSpell(c, ds, felts);
      case Enum(_, _, _) => EnumReadSpells(c, t, felts);
      case Tuple(ys) => ItemsReadSpell(c, ys, felts);
      case Array(_) => ArrayReadSpells(c, t, felts);
      case ByteArray(_) =>
        var w := c.decode(felts).value.size;
        assert felts[..w] + felts[w..] == felts;
    }
  }

  lemma {:induction false} EnumReadSpells(c: ByteArrayCodec, t: Ty, felts: seq<Felt>)
    requires t.Enum? && felts != [] && ReadInFull(c, t, felts)
    ensures SpelledByFront(c, DeserializeTy(c, t, felts).value, felts)
    decreases t.options, 1, 0
  {
    var i := felts[0];
    var ty, v := t.options[i].ty, DeserializeTy(c, t, felts).value;
    var p := v.options[i].ty;
    var w := Width(c, p);
    if ty == Tuple([]) {
      assert p == ty && felts[1..][..w] == [];
    } else {
      ReadSpells(c, ty, felts[1..]);
    }
    assert felts[..1 + w][1..] == felts[1..][..w] && felts[1 + w..] == felts[1..][w..];
  }

  lemma {:induction false} ArrayReadSpells(c: ByteArrayCodec, t: Ty, felts: seq<Felt>)
    requires t.Array? && felts != [] && ReadInFull(c, t, felts)
    ensures SpelledByFront(c, DeserializeTy(c, t, felts).value, felts)
    decreases t.items, 2, 0
  {
    var r := DeserializeCopies(c, t.items[0], felts[0], felts[1..]);
    ArrayRead(c, t, felts, r);
    CopiesReadSpell(c, t.items[0], felts[0], felts[1..], r.value, r.rest);
    var w := ItemsWidth(c, r.value);
    assert felts[..1 + w][1..] == felts[1..][..w] && felts[1 + w..] == felts[1..][w..];
  }

  ghost predicate ItemsSpelledByFront(c: ByteArrayCodec, xs: seq<Ty>, felts: seq<Felt>) {
    && ItemsWidth(c, xs) <= |felts|
    && ItemsSpell(c, xs, felts[..ItemsWidth(c, xs)], felts[ItemsWidth(c, xs)..])
  }

  /** A value and the values behind it. */
  lemma ItemsSpelledCons(c: ByteArrayCodec, x: Ty, xs: seq<Ty>, felts: seq<Felt>)
    requires SpelledByFront(c, x, felts) && ItemsSpelledByFront(c, xs, felts[Width(c, x)..])
    ensures ItemsWidth(c, [x] + xs) == Width(c, x) + ItemsWidth(c, xs) && ItemsSpelledByFront(c, [x] + xs, felts)
  {
    var k, w := Width(c, x), ItemsWidth(c, xs);
    var all := [x] + xs;
    assert all[1..] == xs;
    CutTwice(felts, k, w);
  }

  lemma CutTwice(felts: seq<Felt>, k: nat, w: nat)
    requires k + w <= |felts|
    ensures felts[..k + w][..k] == felts[..k] && felts[..k + w][k..] == felts[k..][..w]
    ensures felts[k + w..] == felts[k..][w..] && felts[k..][..w] + felts[k + w..] == felts[k..]
  {
  }

  lemma {:induction false} ItemsReadSpell(c: ByteArrayCodec, ys: seq<Ty>, felts: seq<Felt>)
    requires c.Lawful() && (forall i :: 0 <= i < |ys| ==> Template(ys[i]) && TextsEncode(c, ys[i]))
    requires var r := DeserializeItems(c, ys, felts); r.status == Done && ItemsWidth(c, r.value) <= |felts|
    ensures ItemsSpelledByFront(c, DeserializeItems(c, ys, felts).value, felts)
    decreases ys, 0, 0
  {
    if ys == [] {
      assert felts[..0] == [];
    } else {
      var h, q := ItemsUnfold(c, ys, felts);
      assert ([h.value] + q.value)[1..] == q.value;
      ReadTakesAll(c, ys[0], felts);
      ItemsTakeAll(c, ys[1..], h.rest);
      ReadSpells(c, ys[0], felts);
      ItemsReadSpell(c, ys[1..], h.rest);
      ItemsSpelledCons(c, h.value, q.value, felts);
    }
  }

  lemma {:induction false} CopiesReadSpell(c: ByteArrayCodec, item: Ty, n: nat, felts: seq<Felt>, xs: seq<Ty>,
                                           rest: seq<Felt>)
    requires c.Lawful() && Template(item) && TextsEncode(c, item) && CopiesRead(c, item, n, felts, xs, rest)
    requires ItemsWidth(c, xs) <= |felts|
    ensures |xs| == n && ItemsSpelledByFront(c, xs, felts)
    decreases item, 1, n
  {
    if n == 0 {
      assert felts[..0] == [];
    } else {
      var x, middle, ys := CopiesReadSplit(c, item, n, felts, xs, rest);
      assert xs[1..] == ys;
      ReadTakesAll(c, item, felts);
      ReadSpells(c, item, felts);
      CopiesReadSpell(c, item, n - 1, middle, ys, rest);
      ItemsSpelledCons(c, x, ys, felts);
    }
  }

  ghost predicate FieldsSpelledByFront<K>(c: ByteArrayCodec, cs: seq<Named<K>>, felts: seq<Felt>) {
    && FieldsWidth(c, cs) <= |felts|
    && FieldsSpell(c, cs, felts[..FieldsWidth(c, cs)], felts[FieldsWidth(c, cs)..])
  }

  lemma FieldsSpelledCons<K>(c: ByteArrayCodec, cs: seq<Named<K>>, felts: seq<Felt>)
    requires cs != [] && SpelledByFront(c, cs[0].ty, felts)
    requires FieldsSpelledByFront(c, cs[1..], felts[Width(c, cs[0].ty)..])
    ensures FieldsSpelledByFront(c, cs, felts)
  {
    CutTwice(felts, Width(c, cs[0].ty), FieldsWidth(c, cs[1..]));
  }

  lemma {:induction false} FieldsReadSpell<K>(c: ByteArrayCodec, ds: seq<Named<K>>, felts: seq<Felt>)
    requires c.Lawful() && (forall i :: 0 <= i < |ds| ==> Template(ds[i].ty) && TextsEncode(c, ds[i].ty))
    requires var r := DeserializeFields(c, ds, felts); r.status == Done && FieldsWidth(c, r.value) <= |felts|
    ensures FieldsSpelledByFront(c, DeserializeFields(c, ds, felts).value, felts)
    decreases ds, 0, 0
  {
    if ds == [] {
      assert felts[..0] == [];
    } else {
      var h := DeserializeTy(c, ds[0].ty, felts);
      var q := DeserializeFields(c, ds[1..], h.rest);
      var cs := DeserializeFields(c, ds, felts).value;
      assert cs[0] == ds[0].(ty := h.value) && cs[1..] == q.value;
      ReadTakesAll(c, ds[0].ty, felts);
      FieldsTakeAll(c, ds[1..], h.rest);
      ReadSpells(c, ds[0].ty, felts);
      FieldsReadSpell(c, ds[1..], h.rest);
      FieldsSpelledCons(c, cs, felts);
    }
  }

  /**
   * A read gives `v`, having read it in full, and leaves `rest`, if and only if `v` is a value of the schema and the
   * felts before `rest` spell it.
   */
  lemma ReadIffSpelled(c: ByteArrayCodec, t: Ty, v: Ty, felts: seq<Felt>, rest: seq<Felt>)
    requires c.Lawful() && Template(t) && TextsEncode(c, t)
    ensures DeserializeTy(c, t, felts + rest) == Read(Done, v, rest) && Width(c, v) <= |felts + rest|
            <==> Fits(v, t) && Spells(c, v, felts, rest)
  {
    var all := felts + rest;
    if DeserializeTy(c, t, all) == Read(Done, v, rest) && Width(c, v) <= |all| {
      ReadIsCompleteIff(c, t, all);
      ReadSpells(c, t, all);
      assert |all[Width(c, v)..]| == |rest|;
      assert all[..Width(c, v)] == felts;
    }
    if Fits(v, t) && Spells(c, v, felts, rest) {
      SpelledReads(c, t, v, felts, rest);
      SpelledWidth(c, v, felts, rest);
    }
  }
}
