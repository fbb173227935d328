/** Everything `serialize` writes, leaf by leaf: all options of an enum, chosen or not. */
module FeltLeaves {
  import opened Wrappers
  import opened Felts
  import opened Primitives
  import opened Schema
  import opened FeltCodec
  import opened FeltRoundTrip

  /** The number of the option as a byte, if there is one. */
  function OptionLeaf(option: Option<Byte>): (t: Ty) {
    Prim(Primitive(U8, if option.Some? then Some(option.value as int) else None))
  }

  /** The number of items, where it is a 32-bit number. */
  function LengthLeaf(n: nat): (t: Ty) {
    Prim(Primitive(U32, if n < 0x1_0000_0000 then Some(n) else None))
  }

  /** The primitives and byte arrays of the type, in order, with option numbers and array lengths where they stand. */
  function Leaves(t: Ty): (r: seq<Ty>)
    decreases t, 0
  {
    match t
    case Prim(_) => [t]
    case Struct(_, children) => FieldsLeaves(children)
    case Enum(_, option, options) => [OptionLeaf(option)] + FieldsLeaves(options)
    case Tuple(items) => ItemsLeaves(items)
    case Array(items) => [LengthLeaf(|items|)] + ItemsLeaves(items)
    case ByteArray(_) => [t]
  }

  function FieldsLeaves<K>(fields: seq<Named<K>>): (r: seq<Ty>)
    decreases fields, 0
  {
    if fields == [] then [] else Leaves(fields[0].ty) + FieldsLeaves(fields[1..])
  }

  function ItemsLeaves(items: seq<Ty>): (r: seq<Ty>)
    decreases items, 0
  {
    if items == [] then [] else Leaves(items[0]) + ItemsLeaves(items[1..])
  }

  /** No array is too long for its length to be written. */
  ghost predicate Countable(t: Ty) {
    match t
    case Struct(_, cs) => forall i :: 0 <= i < |cs| ==> Countable(cs[i].ty)
    case Enum(_, _, cs) => forall i :: 0 <= i < |cs| ==> Countable(cs[i].ty)
    case Tuple(xs) => forall i :: 0 <= i < |xs| ==> Countable(xs[i])
    case Array(xs) => |xs| < 0x1_0000_0000 && forall i :: 0 <= i < |xs| ==> Countable(xs[i])
    case _ => true
  }

  /** The leaves, unset. */
  function Blank(leaves: seq<Ty>): (r: seq<Ty>)
    ensures |r| == |leaves|
  {
    seq(|leaves|, i requires 0 <= i < |leaves| =>
      match leaves[i]
      case Prim(p) => Prim(Primitive(p.kind, None))
      case ByteArray(_) => ByteArray("")
      case other => other)
  }

  ghost predicate IsLeaf(t: Ty) {
    t.Prim? || t.ByteArray?
  }

  // ----- the leaves are what is written -----

  lemma {:induction false} SerializeAppend(c: ByteArrayCodec, xs: seq<Ty>, ys: seq<Ty>)
    ensures SerializeItems(c, xs + ys) == Then(SerializeItems(c, xs), SerializeItems(c, ys))
    decreases |xs|
  {
    if xs == [] {
      assert xs + ys == ys;
      ThenUnit(SerializeItems(c, ys));
    } else {
      assert (xs + ys)[0] == xs[0] && (xs + ys)[1..] == xs[1..] + ys;
      SerializeAppend(c, xs[1..], ys);
      ThenAssociates(SerializeTy(c, xs[0]), SerializeItems(c, xs[1..]), SerializeItems(c, ys));
    }
  }

  lemma ThenUnit(s: Serialized)
    ensures Then(Ok([]), s) == s && Then(s, Ok([])) == s
  {
    if s.Ok? {
      assert [] + s.value == s.value && s.value + [] == s.value;
    }
  }

  lemma ThenAssociates(a: Serialized, b: Serialized, d: Serialized)
    ensures Then(a, Then(b, d)) == Then(Then(a, b), d)
  {
    if a.Ok? && b.Ok? && d.Ok? {
      assert a.value + (b.value + d.value) == a.value + b.value + d.value;
    }
  }

  lemma OneLeaf(c: ByteArrayCodec, t: Ty, more: seq<Ty>)
    ensures SerializeItems(c, [t] + more) == Then(SerializeTy(c, t), SerializeItems(c, more))
  {
    assert ([t] + more)[1..] == more;
  }

  lemma CountsAreLeaves(c: ByteArrayCodec, o: Option<Byte>, n: nat)
    ensures SerializeTy(c, OptionLeaf(o)) == if o.Some? then Ok([o.value]) else Err(MissingFieldElement)
    ensures n < 0x1_0000_0000 ==> SerializeTy(c, LengthLeaf(n)) == Ok([n])
  {
  }

  lemma {:induction false} WritesLeaves(c: ByteArrayCodec, t: Ty)
    requires Countable(t)
    ensures SerializeTy(c, t) == SerializeItems(c, Leaves(t))
    decreases t, 0
  {
    match t
    case Struct(_, cs) => FieldsWriteLeaves(c, cs);
    case Enum(_, o, cs) =>
      FieldsWriteLeaves(c, cs);
      CountsAreLeaves(c, o, 0);
      OneLeaf(c, OptionLeaf(o), FieldsLeaves(cs));
    case Tuple(xs) => ItemsWriteLeaves(c, xs);
    case Array(xs) =>
      ItemsWriteLeaves(c, xs);
      CountsAreLeaves(c, None, |xs|);
      OneLeaf(c, LengthLeaf(|xs|), ItemsLeaves(xs));
    case _ =>
      OneLeaf(c, t, []);
      assert [t] + [] == [t];
      ThenUnit(SerializeTy(c, t));
  }

  lemma {:induction false} FieldsWriteLeaves<K>(c: ByteArrayCodec, cs: seq<Named<K>>)
    requires forall i :: 0 <= i < |cs| ==> Countable(cs[i].ty)
    ensures SerializeFields(c, cs) == SerializeItems(c, FieldsLeaves(cs))
    decreases cs, 0
  {
    if cs != [] {
      WritesLeaves(c, cs[0].ty);
      FieldsWriteLeaves(c, cs[1..]);
      SerializeAppend(c, Leaves(cs[0].ty), FieldsLeaves(cs[1..]));
    }
  }

  lemma {:induction false} ItemsWriteLeaves(c: ByteArrayCodec, xs: seq<Ty>)
    requires forall i :: 0 <= i < |xs| ==> Countable(xs[i])
    ensures SerializeItems(c, xs) == SerializeItems(c, ItemsLeaves(xs))
    decreases xs, 0
  {
    if xs != [] {
      WritesLeaves(c, xs[0]);
      ItemsWriteLeaves(c, xs[1..]);
      SerializeAppend(c, Leaves(xs[0]), ItemsLeaves(xs[1..]));
    }
  }

  // ----- and are read back -----

  lemma {:induction false} AllAreLeaves(t: Ty)
    ensures forall x <- Leaves(t) :: IsLeaf(x)
    decreases t, 0
  {
    match t
    case Struct(_, cs) => FieldsAreLeaves(cs);
    case Enum(_, _, cs) => FieldsAreLeaves(cs);
    case Tuple(xs) => ItemsAreLeaves(xs);
    case Array(xs) => ItemsAreLeaves(xs);
    case _ =>
  }

  lemma {:induction false} FieldsAreLeaves<K>(cs: seq<Named<K>>)
    ensures forall x <- FieldsLeaves(cs) :: IsLeaf(x)
    decreases cs, 0
  {
    if cs != [] {
      AllAreLeaves(cs[0].ty);
      FieldsAreLeaves(cs[1..]);
    }
  }

  lemma {:induction false} ItemsAreLeaves(xs: seq<Ty>)
    ensures forall x <- ItemsLeaves(xs) :: IsLeaf(x)
    decreases xs, 0
  {
    if xs != [] {
      AllAreLeaves(xs[0]);
      ItemsAreLeaves(xs[1..]);
    }
  }

  lemma {:induction false} WrittenLeavesAreSet(c: ByteArrayCodec, xs: seq<Ty>, i: nat)
    requires SerializeItems(c, xs).Ok? && i < |xs|
    ensures SerializeTy(c, xs[i]).Ok?
    decreases |xs|
  {
    if i > 0 {
      WrittenLeavesAreSet(c, xs[1..], i - 1);
    }
  }

  /** Whatever `serialize` writes is read back leaf by leaf, every option's payload included. */
  lemma LeavesReadBack(c: ByteArrayCodec, t: Ty, tail: seq<Felt>)
    requires c.Lawful() && Countable(t) && SerializeTy(c, t).Ok?
    ensures DeserializeItems(c, Blank(Leaves(t)), SerializeTy(c, t).value + tail) == Read(Done, Leaves(t), tail)
  {
    var xs := Leaves(t);
    WritesLeaves(c, t);
    AllAreLeaves(t);
    forall i | 0 <= i < |xs| ensures Fits(xs[i], Blank(xs)[i]) && SelectedOnly(xs[i]) {
      assert xs[i] in xs;
      WrittenLeavesAreSet(c, xs, i);
    }
    ItemsReadBack(c, Blank(xs), xs, tail);
  }

  /** If something cannot be written, the first leaf that cannot decides how it fails. */
  lemma {:induction false} FirstLeafFails(c: ByteArrayCodec, xs: seq<Ty>, n: nat)
    requires n < |xs| && !SerializeTy(c, xs[n]).Ok? && forall i :: 0 <= i < n ==> SerializeTy(c, xs[i]).Ok?
    ensures SerializeItems(c, xs) == SerializeTy(c, xs[n])
    decreases n
  {
    if n > 0 {
      assert xs == [xs[0]] + xs[1..];
      FirstLeafFails(c, xs[1..], n - 1);
    }
  }

  /** A type is not written if its first leaf that cannot be written is unset, or is a text without an encoding. */
  lemma FirstLeafDecides(c: ByteArrayCodec, t: Ty, n: nat)
    requires Countable(t) && n < |Leaves(t)|
    requires !SerializeTy(c, Leaves(t)[n]).Ok? && forall i :: 0 <= i < n ==> SerializeTy(c, Leaves(t)[i]).Ok?
    ensures var leaf := Leaves(t)[n];
            && IsLeaf(leaf)
            && (leaf.Prim? ==> leaf.primitive.value.None? && SerializeTy(c, t) == Err(MissingFieldElement))
            && (leaf.ByteArray? ==> c.encode(leaf.bytes).None? && SerializeTy(c, t) == Err(CairoSerde))
  {
    WritesLeaves(c, t);
    AllAreLeaves(t);
    assert Leaves(t)[n] in Leaves(t);
    FirstLeafFails(c, Leaves(t), n);
  }
}
