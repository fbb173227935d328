/** Which schemas can make `deserialize` panic. */
module FeltPanics {
  import opened Wrappers
  import opened Felts
  import opened Primitives
  import SignedFelts
  import opened Schema
  import opened FeltCodec

  /** An enum that does not have an option for every byte, or an array without an item, is reached. */
  ghost predicate MayPanic(t: Ty) {
    match t
    case Struct(_, ds) => exists i :: 0 <= i < |ds| && MayPanic(ds[i].ty)
    case Enum(_, _, ds) => |ds| < 256 || exists i :: 0 <= i < 256 && MayPanic(ds[i].ty)
    case Tuple(ys) => exists i :: 0 <= i < |ys| && MayPanic(ys[i])
    case Array(ys) => ys == [] || MayPanic(ys[|ys| - 1])
    case _ => false
  }

  // ----- no input makes it panic -----

  lemma {:induction false} ReadIsSafe(c: ByteArrayCodec, t: Ty, felts: seq<Felt>)
    requires c.Bounded() && !MayPanic(t)
    ensures DeserializeTy(c, t, felts).status != Panicked
    decreases t, 0, 0
  {
    if felts != [] {
      match t
      case Struct(_, ds) => FieldsAreSafe(c, ds, felts);
      case Enum(_, _, ds) =>
        if felts[0] <= 255 {
          ReadIsSafe(c, ds[felts[0]].ty, felts[1..]);
        }
      case Tuple(ys) => ItemsAreSafe(c, ys, felts);
      case Array(ys) =>
        if felts[0] < 0x1_0000_0000 {
          CopiesAreSafe(c, ys[|ys| - 1], felts[0], felts[1..]);
        }
      case _ =>
    }
  }

  lemma {:induction false} FieldsAreSafe<K>(c: ByteArrayCodec, ds: seq<Named<K>>, felts: seq<Felt>)
    requires c.Bounded() && forall i :: 0 <= i < |ds| ==> !MayPanic(ds[i].ty)
    ensures DeserializeFields(c, ds, felts).status != Panicked
    decreases ds, 0, 0
  {
    if ds != [] {
      ReadIsSafe(c, ds[0].ty, felts);
      FieldsAreSafe(c, ds[1..], DeserializeTy(c, ds[0].ty, felts).rest);
    }
  }

  lemma {:induction false} ItemsAreSafe(c: ByteArrayCodec, ys: seq<Ty>, felts: seq<Felt>)
    requires c.Bounded() && forall i :: 0 <= i < |ys| ==> !MayPanic(ys[i])
    ensures DeserializeItems(c, ys, felts).status != Panicked
    decreases ys, 0, 0
  {
    if ys != [] {
      ReadIsSafe(c, ys[0], felts);
      ItemsAreSafe(c, ys[1..], DeserializeTy(c, ys[0], felts).rest);
    }
  }

  lemma {:induction false} CopiesAreSafe(c: ByteArrayCodec, item: Ty, n: nat, felts: seq<Felt>)
    requires c.Bounded() && !MayPanic(item)
    ensures DeserializeCopies(c, item, n, felts).status != Panicked
    decreases item, 1, n
  {
    if n > 0 {
      ReadIsSafe(c, item, felts);
      CopiesAreSafe(c, item, n - 1, DeserializeTy(c, item, felts).rest);
    }
  }

  // ----- some input makes it panic -----

  /** These felts are read, and nothing else is. */
  ghost predicate Quiet(c: ByteArrayCodec, t: Ty, felts: seq<Felt>) {
    forall tail: seq<Felt> ::
      DeserializeTy(c, t, felts + tail).status == Done && DeserializeTy(c, t, felts + tail).rest == tail
  }

  ghost predicate QuietFields<K>(c: ByteArrayCodec, ds: seq<Named<K>>, felts: seq<Felt>) {
    forall tail: seq<Felt> ::
      DeserializeFields(c, ds, felts + tail).status == Done && DeserializeFields(c, ds, felts + tail).rest == tail
  }

  ghost predicate QuietItems(c: ByteArrayCodec, ys: seq<Ty>, felts: seq<Felt>) {
    forall tail: seq<Felt> ::
      DeserializeItems(c, ys, felts + tail).status == Done && DeserializeItems(c, ys, felts + tail).rest == tail
  }

  /** These felts make the reader panic, whatever follows. */
  ghost predicate Loud(c: ByteArrayCodec, t: Ty, felts: seq<Felt>) {
    felts != [] && forall tail: seq<Felt> :: DeserializeTy(c, t, felts + tail).status == Panicked
  }

  ghost predicate LoudFields<K>(c: ByteArrayCodec, ds: seq<Named<K>>, felts: seq<Felt>) {
    felts != [] && forall tail: seq<Felt> :: DeserializeFields(c, ds, felts + tail).status == Panicked
  }

  ghost predicate LoudItems(c: ByteArrayCodec, ys: seq<Ty>, felts: seq<Felt>) {
    felts != [] && forall tail: seq<Felt> :: DeserializeItems(c, ys, felts + tail).status == Panicked
  }

  lemma ZeroInRange(k: Kind)
    ensures InRange(k, 0)
  {
    if IsSigned(k) {
      SignedFelts.HalfFacts(SignedSize(k));
    }
  }

  lemma QuietPrimitive(c: ByteArrayCodec, t: Ty) returns (felts: seq<Felt>)
    requires t.Prim?
    ensures Quiet(c, t, felts)
  {
    ZeroInRange(t.primitive.kind);
    var zero: Primitive := Primitive(t.primitive.kind, Some(0));
    felts := Primitives.Serialize(zero).value;
    forall tail: seq<Felt>
      ensures DeserializeTy(c, t, felts + tail).status == Done && DeserializeTy(c, t, felts + tail).rest == tail
    {
      Primitives.RoundTrip(t.primitive, zero, tail);
    }
  }

  lemma {:induction false} QuietFelts(c: ByteArrayCodec, t: Ty) returns (felts: seq<Felt>)
    requires c.Lawful() && c.encode("").Some? && !MayPanic(t)
    ensures Quiet(c, t, felts)
    decreases t, 0
  {
    match t
    case Prim(_) => felts := QuietPrimitive(c, t);
    case Struct(_, ds) =>
      felts := QuietFieldsFelts(c, ds);
      WrapStruct(c, t, felts);
    case Enum(_, _, ds) =>
      var payload := QuietFelts(c, ds[0].ty);
      felts := QuietEnum(c, t, payload);
    case Tuple(ys) =>
      felts := QuietItemsFelts(c, ys);
      WrapTuple(c, t, felts);
    case Array(ys) => felts := QuietArray(c, t);
    case ByteArray(_) => felts := QuietText(c, t);
  }

  lemma QuietText(c: ByteArrayCodec, t: Ty) returns (felts: seq<Felt>)
    requires c.Lawful() && c.encode("").Some? && t.ByteArray?
    ensures Quiet(c, t, felts)
  {
    felts := c.encode("").value;
    forall tail: seq<Felt>
      ensures DeserializeTy(c, t, felts + tail).status == Done && DeserializeTy(c, t, felts + tail).rest == tail
    {
      assert c.decode(felts + tail) == Some(Text(Some(""), |felts|));
      assert (felts + tail)[|felts|..] == tail;
    }
  }

  lemma QuietArray(c: ByteArrayCodec, t: Ty) returns (felts: seq<Felt>)
    requires t.Array? && t.items != []
    ensures Quiet(c, t, felts)
  {
    felts := [0];
    forall tail: seq<Felt>
      ensures DeserializeTy(c, t, felts + tail).status == Done && DeserializeTy(c, t, felts + tail).rest == tail
    {
      assert (felts + tail)[1..] == tail;
    }
  }

  lemma QuietEnum(c: ByteArrayCodec, t: Ty, payload: seq<Felt>) returns (felts: seq<Felt>)
    requires t.Enum? && |t.options| >= 256 && Quiet(c, t.options[0].ty, payload)
    ensures Quiet(c, t, felts)
  {
    var ty := t.options[0].ty;
    felts := if ty == Tuple([]) then [0] else [0] + payload;
    forall tail: seq<Felt>
      ensures DeserializeTy(c, t, felts + tail).status == Done && DeserializeTy(c, t, felts + tail).rest == tail
    {
      assert (felts + tail)[1..] == (if ty == Tuple([]) then tail else payload + tail);
    }
  }

  lemma WrapStruct(c: ByteArrayCodec, t: Ty, felts: seq<Felt>)
    requires t.Struct? && QuietFields(c, t.children, felts)
    ensures Quiet(c, t, felts)
  {
    forall tail: seq<Felt>
      ensures DeserializeTy(c, t, felts + tail).status == Done && DeserializeTy(c, t, felts + tail).rest == tail
    {
      assert DeserializeFields(c, t.children, felts + tail).status == Done;
    }
  }

  lemma WrapTuple(c: ByteArrayCodec, t: Ty, felts: seq<Felt>)
    requires t.Tuple? && QuietItems(c, t.items, felts)
    ensures Quiet(c, t, felts)
  {
    forall tail: seq<Felt>
      ensures DeserializeTy(c, t, felts + tail).status == Done && DeserializeTy(c, t, felts + tail).rest == tail
    {
      assert DeserializeItems(c, t.items, felts + tail).status == Done;
    }
  }

  lemma {:induction false} QuietFieldsFelts<K>(c: ByteArrayCodec, ds: seq<Named<K>>) returns (felts: seq<Felt>)
    requires c.Lawful() && c.encode("").Some? && forall i :: 0 <= i < |ds| ==> !MayPanic(ds[i].ty)
    ensures QuietFields(c, ds, felts)
    decreases ds, 0
  {
    felts := [];
    if ds != [] {
      var head := QuietFelts(c, ds[0].ty);
      var rest := QuietFieldsFelts(c, ds[1..]);
      felts := head + rest;
      QuietFieldsCons(c, ds, head, rest);
    } else {
      assert forall tail: seq<Felt> :: felts + tail == tail;
    }
  }

  lemma QuietFieldsCons<K>(c: ByteArrayCodec, ds: seq<Named<K>>, head: seq<Felt>, rest: seq<Felt>)
    requires ds != [] && Quiet(c, ds[0].ty, head) && QuietFields(c, ds[1..], rest)
    ensures QuietFields(c, ds, head + rest)
  {
    forall tail: seq<Felt>
      ensures DeserializeFields(c, ds, head + rest + tail).status == Done
      ensures DeserializeFields(c, ds, head + rest + tail).rest == tail
    {
      assert head + rest + tail == head + (rest + tail);
      assert DeserializeTy(c, ds[0].ty, head + (rest + tail)).rest == rest + tail;
    }
  }

  lemma {:induction false} QuietItemsFelts(c: ByteArrayCodec, ys: seq<Ty>) returns (felts: seq<Felt>)
    requires c.Lawful() && c.encode("").Some? && forall i :: 0 <= i < |ys| ==> !MayPanic(ys[i])
    ensures QuietItems(c, ys, felts)
    decreases ys, 0
  {
    felts := [];
    if ys != [] {
      var head := QuietFelts(c, ys[0]);
      var rest := QuietItemsFelts(c, ys[1..]);
      felts := head + rest;
      QuietItemsCons(c, ys, head, rest);
    } else {
      assert forall tail: seq<Felt> :: felts + tail == tail;
    }
  }

  lemma QuietItemsCons(c: ByteArrayCodec, ys: seq<Ty>, head: seq<Felt>, rest: seq<Felt>)
    requires ys != [] && Quiet(c, ys[0], head) && QuietItems(c, ys[1..], rest)
    ensures QuietItems(c, ys, head + rest)
  {
    forall tail: seq<Felt>
      ensures DeserializeItems(c, ys, head + rest + tail).status == Done
      ensures DeserializeItems(c, ys, head + rest + tail).rest == tail
    {
      assert head + rest + tail == head + (rest + tail);
      assert DeserializeTy(c, ys[0], head + (rest + tail)).rest == rest + tail;
    }
  }

  lemma {:induction false} LoudFelts(c: ByteArrayCodec, t: Ty) returns (felts: seq<Felt>)
    requires c.Lawful() && c.encode("").Some? && MayPanic(t)
    ensures Loud(c, t, felts)
    decreases t, 0
  {
    match t
    case Struct(_, ds) =>
      felts := LoudFieldsFelts(c, ds);
      forall tail: seq<Felt> ensures DeserializeTy(c, t, felts + tail).status == Panicked {
        assert DeserializeFields(c, ds, felts + tail).status == Panicked;
      }
    case Enum(_, _, ds) =>
      if |ds| < 256 {
        felts := [|ds|];
      } else {
        var i :| 0 <= i < 256 && MayPanic(ds[i].ty);
        var payload := LoudFelts(c, ds[i].ty);
        felts := LoudEnum(c, t, i, payload);
      }
    case Tuple(ys) =>
      felts := LoudItemsFelts(c, ys);
      forall tail: seq<Felt> ensures DeserializeTy(c, t, felts + tail).status == Panicked {
        assert DeserializeItems(c, ys, felts + tail).status == Panicked;
      }
    case Array(ys) =>
      if ys == [] {
        felts := [0];
      } else {
        var payload := LoudFelts(c, ys[|ys| - 1]);
        felts := LoudArray(c, t, payload);
      }
  }

  lemma LoudEnum(c: ByteArrayCodec, t: Ty, i: nat, payload: seq<Felt>) returns (felts: seq<Felt>)
    requires t.Enum? && i < 256 <= |t.options| && MayPanic(t.options[i].ty) && Loud(c, t.options[i].ty, payload)
    ensures Loud(c, t, felts)
  {
    felts := [i] + payload;
    forall tail: seq<Felt> ensures DeserializeTy(c, t, felts + tail).status == Panicked {
      assert (felts + tail)[1..] == payload + tail;
    }
  }

  lemma LoudArray(c: ByteArrayCodec, t: Ty, payload: seq<Felt>) returns (felts: seq<Felt>)
    requires t.Array? && t.items != [] && Loud(c, t.items[|t.items| - 1], payload)
    ensures Loud(c, t, felts)
  {
    felts := [1] + payload;
    forall tail: seq<Felt> ensures DeserializeTy(c, t, felts + tail).status == Panicked {
      assert (felts + tail)[1..] == payload + tail;
      assert DeserializeCopies(c, t.items[|t.items| - 1], 1, payload + tail).status == Panicked;
    }
  }

  lemma {:induction false} LoudFieldsFelts<K>(c: ByteArrayCodec, ds: seq<Named<K>>) returns (felts: seq<Felt>)
    requires c.Lawful() && c.encode("").Some? && exists i :: 0 <= i < |ds| && MayPanic(ds[i].ty)
    ensures LoudFields(c, ds, felts)
    decreases ds, 0
  {
    if MayPanic(ds[0].ty) {
      felts := LoudFelts(c, ds[0].ty);
    } else {
      var head := QuietFelts(c, ds[0].ty);
      var i :| 0 <= i < |ds| && MayPanic(ds[i].ty);
      assert MayPanic(ds[1..][i - 1].ty);
      var rest := LoudFieldsFelts(c, ds[1..]);
      felts := head + rest;
      LoudFieldsCons(c, ds, head, rest);
    }
  }

  lemma LoudFieldsCons<K>(c: ByteArrayCodec, ds: seq<Named<K>>, head: seq<Felt>, rest: seq<Felt>)
    requires ds != [] && Quiet(c, ds[0].ty, head) && LoudFields(c, ds[1..], rest)
    ensures LoudFields(c, ds, head + rest)
  {
    forall tail: seq<Felt> ensures DeserializeFields(c, ds, head + rest + tail).status == Panicked {
      assert head + rest + tail == head + (rest + tail);
      assert DeserializeTy(c, ds[0].ty, head + (rest + tail)).rest == rest + tail;
    }
  }

  lemma {:induction false} LoudItemsFelts(c: ByteArrayCodec, ys: seq<Ty>) returns (felts: seq<Felt>)
    requires c.Lawful() && c.encode("").Some? && exists i :: 0 <= i < |ys| && MayPanic(ys[i])
    ensures LoudItems(c, ys, felts)
    decreases ys, 0
  {
    if MayPanic(ys[0]) {
      felts := LoudFelts(c, ys[0]);
    } else {
      var head := QuietFelts(c, ys[0]);
      var i :| 0 <= i < |ys| && MayPanic(ys[i]);
      assert MayPanic(ys[1..][i - 1]);
      var rest := LoudItemsFelts(c, ys[1..]);
      felts := head + rest;
      LoudItemsCons(c, ys, head, rest);
    }
  }

  lemma LoudItemsCons(c: ByteArrayCodec, ys: seq<Ty>, head: seq<Felt>, rest: seq<Felt>)
    requires ys != [] && Quiet(c, ys[0], head) && LoudItems(c, ys[1..], rest)
    ensures LoudItems(c, ys, head + rest)
  {
    forall tail: seq<Felt> ensures DeserializeItems(c, ys, head + rest + tail).status == Panicked {
      assert head + rest + tail == head + (rest + tail);
      assert DeserializeTy(c, ys[0], head + (rest + tail)).rest == rest + tail;
    }
  }

  ghost predicate Panics(c: ByteArrayCodec, t: Ty, felts: seq<Felt>) {
    DeserializeTy(c, t, felts).status == Panicked
  }

  /**
   * Some input makes `deserialize` panic if and only if the schema holds an enum without an option for every byte,
   * or an array without an item, where a read can get to it.
   */
  lemma ReadCanPanicIff(c: ByteArrayCodec, t: Ty)
    requires c.Lawful() && c.Bounded() && c.encode("").Some?
    ensures (exists felts :: Panics(c, t, felts)) <==> MayPanic(t)
  {
    if MayPanic(t) {
      var felts := LoudFelts(c, t);
      assert Panics(c, t, felts + []);
    } else {
      forall felts ensures !Panics(c, t, felts) {
        ReadIsSafe(c, t, felts);
      }
    }
  }
}
