/** `serialize` and `deserialize` as they run: loops over children that grow or shrink a felt vector. */
module FeltCodecLoops {
  import opened Wrappers
  import opened Sequences
  import opened Felts
  import opened Primitives
  import opened Schema
  import opened FeltCodec

  /** `status` and `out` are what appending `s` to `felts` gives. */
  ghost predicate Appended(s: Serialized, felts: seq<Felt>, status: Status, out: seq<Felt>) {
    match s
    case Ok(more) => status == Done && out == felts + more
    case Err(e) => status == Failed(e)
    case Panic => status == Panicked
  }

  /** `serialize_inner`: the felts of `ty` are appended to `felts`. */
  method SerializeInner(c: ByteArrayCodec, ty: Ty, felts: seq<Felt>) returns (status: Status, out: seq<Felt>)
    ensures Appended(SerializeTy(c, ty), felts, status, out)
    decreases ty, 0
  {
    out := felts;
    match ty {
      case Prim(p) =>
        match Primitives.Serialize(p) {
          case Ok(more) => status, out := Done, out + more;
          case Err(e) => status := Failed(e);
          case Panic => status := Panicked;
        }
      case Struct(_, children) =>
        status, out := SerializeAllFields(c, children, out);
      case Enum(_, option, options) =>
        if option.None? {
          status := Failed(MissingFieldElement);
        } else {
          out := out + [option.value];
          status, out := SerializeAllFields(c, options, out);
        }
      case Tuple(items) =>
        status, out := SerializeAllItems(c, items, out);
      case Array(items) =>
        if |items| >= 0x1_0000_0000 {
          status := Panicked;
        } else {
          out := out + [|items|];
          status, out := SerializeAllItems(c, items, out);
        }
      case ByteArray(bytes) =>
        match c.encode(bytes) {
          case None => status := Failed(CairoSerde);
          case Some(more) => status, out := Done, out + more;
        }
    }
  }

  method SerializeAllFields<K>(c: ByteArrayCodec, fields: seq<Named<K>>, felts: seq<Felt>)
    returns (status: Status, out: seq<Felt>)
    ensures Appended(SerializeFields(c, fields), felts, status, out)
    decreases fields, 0
  {
    out := felts;
    ghost var done: seq<Felt> := [];
    assert fields[0..] == fields;
    ThenNothing(SerializeFields(c, fields));
    for i := 0 to |fields|
      invariant out == felts + done
      invariant SerializeFields(c, fields) == Then(Ok(done), SerializeFields(c, fields[i..]))
    {
      assert fields[i..][0] == fields[i] && fields[i..][1..] == fields[i + 1..];
      ghost var more := SerializeTy(c, fields[i].ty);
      status, out := SerializeInner(c, fields[i].ty, out);
      if status != Done {
        return;
      }
      ThenAssociative(done, more.value, SerializeFields(c, fields[i + 1..]));
      done := done + more.value;
    }
    status := Done;
    assert fields[|fields|..] == [] && done + [] == done;
  }

  method SerializeAllItems(c: ByteArrayCodec, items: seq<Ty>, felts: seq<Felt>)
    returns (status: Status, out: seq<Felt>)
    ensures Appended(SerializeItems(c, items), felts, status, out)
    decreases items, 0
  {
    out := felts;
    ghost var done: seq<Felt> := [];
    assert items[0..] == items;
    ThenNothing(SerializeItems(c, items));
    for i := 0 to |items|
      invariant out == felts + done
      invariant SerializeItems(c, items) == Then(Ok(done), SerializeItems(c, items[i..]))
    {
      assert items[i..][0] == items[i] && items[i..][1..] == items[i + 1..];
      ghost var more := SerializeTy(c, items[i]);
      status, out := SerializeInner(c, items[i], out);
      if status != Done {
        return;
      }
      ThenAssociative(done, more.value, SerializeItems(c, items[i + 1..]));
      done := done + more.value;
    }
    status := Done;
    assert items[|items|..] == [] && done + [] == done;
  }

  lemma ThenNothing(s: Serialized)
    ensures Then(Ok([]), s) == s
  {
    if s.Ok? {
      assert [] + s.value == s.value;
    }
  }

  lemma ThenAssociative(a: seq<Felt>, b: seq<Felt>, s: Serialized)
    ensures Then(Ok(a), Then(Ok(b), s)) == Then(Ok(a + b), s)
  {
    if s.Ok? {
      assert a + (b + s.value) == (a + b) + s.value;
    }
  }

  // ----- deserialize -----

  /** `deserialize`: the type is filled in from the front of the felts, which are removed. */
  method DeserializeInPlace(c: ByteArrayCodec, ty: Ty, felts: seq<Felt>)
    returns (status: Status, ty': Ty, rest: seq<Felt>)
    ensures Read(status, ty', rest) == DeserializeTy(c, ty, felts)
    decreases ty, 0, 0
  {
    status, ty', rest := Done, ty, felts;
    if felts == [] {
      return;
    }
    match ty {
      case Prim(p) =>
        var r := Primitives.Deserialize(p, rest);
        status, ty', rest := r.status, Prim(r.value), r.rest;
      case Struct(name, children) =>
        var cs;
        status, cs, rest := DeserializeAllFields(c, children, rest);
        ty' := Struct(name, cs);
      case Enum(name, _, options) =>
        var value := rest[0];
        rest := rest[1..];
        if value > 255 {
          status := Failed(ValueOutOfRange(value));
          return;
        }
        ty' := Enum(name, Some(value), options);
        if value >= |options| {
          status := Panicked;
        } else if options[value].ty != Tuple([]) {
          var chosen;
          status, chosen, rest := DeserializeInPlace(c, options[value].ty, rest);
          ty' := Enum(name, Some(value), options[value := options[value].(ty := chosen)]);
        }
      case Tuple(items) =>
        var xs;
        status, xs, rest := DeserializeAllItems(c, items, rest);
        ty' := Tuple(xs);
      case Array(items) =>
        var value := rest[0];
        rest := rest[1..];
        if value >= 0x1_0000_0000 {
          status := Failed(ValueOutOfRange(value));
        } else if items == [] {
          status := Panicked;
        } else {
          var xs;
          status, xs, rest := DeserializeAllCopies(c, items[|items| - 1], value, rest);
          ty' := Array(items[..|items| - 1] + xs);
        }
      case ByteArray(_) =>
        match c.decode(rest) {
          case None => status := Failed(CairoSerde);
          case Some(text) =>
            if text.size > |rest| {
              status := Panicked;
            } else {
              rest := rest[text.size..];
              match text.text {
                case None => status := Failed(CairoSerde);
                case Some(s) => ty' := ByteArray(s);
              }
            }
        }
    }
  }

  ghost function Prefixed<T>(done: seq<T>, q: Read<seq<T>>): (r: Read<seq<T>>) {
    Read(q.status, done + q.value, q.rest)
  }

  lemma PrefixedNone<T>(q: Read<seq<T>>)
    ensures Prefixed([], q) == q
  {
    assert [] + q.value == q.value;
  }

  lemma PrefixedCons<T>(done: seq<T>, x: T, q: Read<seq<T>>)
    ensures Prefixed(done, Read(q.status, [x] + q.value, q.rest)) == Prefixed(done + [x], q)
  {
    assert done + ([x] + q.value) == (done + [x]) + q.value;
  }

  method DeserializeAllFields<K>(c: ByteArrayCodec, fields: seq<Named<K>>, felts: seq<Felt>)
    returns (status: Status, fields': seq<Named<K>>, rest: seq<Felt>)
    ensures Read(status, fields', rest) == DeserializeFields(c, fields, felts)
    decreases fields, 0, 0
  {
    fields', rest := fields, felts;
    ghost var done: seq<Named<K>> := [];
    assert fields[0..] == fields && done + fields == fields;
    PrefixedNone(DeserializeFields(c, fields, felts));
    for i := 0 to |fields|
      invariant |done| == i && fields' == done + fields[i..]
      invariant DeserializeFields(c, fields, felts) == Prefixed(done, DeserializeFields(c, fields[i..], rest))
    {
      assert fields[i..][0] == fields[i] && fields[i..][1..] == fields[i + 1..];
      var ty;
      status, ty, rest := DeserializeInPlace(c, fields[i].ty, rest);
      UpdateNext(done, fields[i..], fields[i].(ty := ty));
      fields' := fields'[i := fields'[i].(ty := ty)];
      if status != Done {
        return;
      }
      PrefixedCons(done, fields[i].(ty := ty), DeserializeFields(c, fields[i + 1..], rest));
      done := done + [fields[i].(ty := ty)];
    }
    status := Done;
    assert fields[|fields|..] == [];
  }

  method DeserializeAllItems(c: ByteArrayCodec, items: seq<Ty>, felts: seq<Felt>)
    returns (status: Status, items': seq<Ty>, rest: seq<Felt>)
    ensures Read(status, items', rest) == DeserializeItems(c, items, felts)
    decreases items, 0, 0
  {
    items', rest := items, felts;
    ghost var done: seq<Ty> := [];
    assert items[0..] == items && done + items == items;
    PrefixedNone(DeserializeItems(c, items, felts));
    for i := 0 to |items|
      invariant |done| == i && items' == done + items[i..]
      invariant DeserializeItems(c, items, felts) == Prefixed(done, DeserializeItems(c, items[i..], rest))
    {
      assert items[i..][0] == items[i] && items[i..][1..] == items[i + 1..];
      var ty;
      status, ty, rest := DeserializeInPlace(c, items[i], rest);
      UpdateNext(done, items[i..], ty);
      items' := items'[i := ty];
      if status != Done {
        return;
      }
      PrefixedCons(done, ty, DeserializeItems(c, items[i + 1..], rest));
      done := done + [ty];
    }
    status := Done;
    assert items[|items|..] == [];
  }

  method DeserializeAllCopies(c: ByteArrayCodec, item: Ty, n: nat, felts: seq<Felt>)
    returns (status: Status, xs: seq<Ty>, rest: seq<Felt>)
    ensures Read(status, xs, rest) == DeserializeCopies(c, item, n, felts)
    decreases item, 1, n
  {
    xs, rest := [], felts;
    PrefixedNone(DeserializeCopies(c, item, n, felts));
    for i := 0 to n
      invariant DeserializeCopies(c, item, n, felts) == Prefixed(xs, DeserializeCopies(c, item, n - i, rest))
    {
      var ty;
      status, ty, rest := DeserializeInPlace(c, item, rest);
      if status != Done {
        assert xs + [] == xs;
        return;
      }
      PrefixedCons(xs, ty, DeserializeCopies(c, item, n - i - 1, rest));
      xs := xs + [ty];
    }
    status := Done;
    assert xs + [] == xs;
  }
}
