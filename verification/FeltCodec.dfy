/**
 The felt codec of Cairo types (crates/dojo/types/src/schema.rs, `serialize` and
 `deserialize`). A `&mut` argument is an in-out parameter: borrows do not alias.
 */
module FeltCodec {
  import opened Wrappers
  import opened Felts
  import opened Primitives
  import opened Schema

  /** What decoding a byte array gives: its text, if it is one, and the felts it takes. */
  datatype Text = Text(text: Option<string>, size: nat)

  /** The codec of byte arrays belongs to another library: it is a parameter. */
  datatype ByteArrayCodec = ByteArrayCodec(
    encode: string -> Option<seq<Felt>>,
    decode: seq<Felt> -> Option<Text>)
  {
    /** Decoding undoes encoding, and a decoded text takes the felts of its encoding. */
    ghost predicate Lawful() {
      && (forall s, tail :: encode(s).Some? ==>
            encode(s).value != [] &&
            decode(encode(s).value + tail) == Some(Text(Some(s), |encode(s).value|)))
      && (forall felts :: decode(felts).Some? && decode(felts).value.text.Some? ==>
            var s := decode(felts).value.text.value;
            encode(s).Some? && |encode(s).value| == decode(felts).value.size)
    }

    /** Decoding takes no more felts than there are. */
    ghost predicate Bounded() {
      forall felts :: decode(felts).Some? ==> decode(felts).value.size <= |felts|
    }

    /** Decoding looks at no felt beyond those it takes. */
    ghost predicate Local() {
      forall felts, tail :: decode(felts + tail).Some? && decode(felts + tail).value.size <= |felts| ==>
        decode(felts) == decode(felts + tail)
    }
  }

  // ----- serialize -----

  function Then(a: Serialized, b: Serialized): (r: Serialized) {
    if !a.Ok? then a else if !b.Ok? then b else Ok(a.value + b.value)
  }

  function SerializeTy(c: ByteArrayCodec, t: Ty): (r: Serialized)
    decreases t, 0
  {
    match t
    case Prim(p) => Primitives.Serialize(p)
    case Struct(_, children) => SerializeFields(c, children)
    case Enum(_, option, options) =>
      if option.None? then Err(MissingFieldElement)
      else Then(Ok([option.value]), SerializeFields(c, options))
    case Tuple(items) => SerializeItems(c, items)
    case Array(items) =>
      if |items| >= 0x1_0000_0000 then Panic else Then(Ok([|items|]), SerializeItems(c, items))
    case ByteArray(bytes) =>
      match c.encode(bytes) { case None => Err(CairoSerde) case Some(felts) => Ok(felts) }
  }

  function SerializeFields<K>(c: ByteArrayCodec, fields: seq<Named<K>>): (r: Serialized)
    decreases fields, 0
  {
    if fields == [] then Ok([])
    else Then(SerializeTy(c, fields[0].ty), SerializeFields(c, fields[1..]))
  }

  function SerializeItems(c: ByteArrayCodec, items: seq<Ty>): (r: Serialized)
    decreases items, 0
  {
    if items == [] then Ok([]) else Then(SerializeTy(c, items[0]), SerializeItems(c, items[1..]))
  }

  // ----- deserialize -----

  function DeserializeTy(c: ByteArrayCodec, t: Ty, felts: seq<Felt>): (r: Read<Ty>)
    decreases t, 0, 0
  {
    if felts == [] then Read(Done, t, felts)
    else
      match t
      case Prim(p) =>
        var r := Primitives.Deserialize(p, felts);
        Read(r.status, Prim(r.value), r.rest)
      case Struct(name, children) =>
        var r := DeserializeFields(c, children, felts);
        Read(r.status, Struct(name, r.value), r.rest)
      case Enum(name, _, options) =>
        if felts[0] > 255 then Read(Failed(ValueOutOfRange(felts[0])), t, felts[1..])
        else if felts[0] >= |options| then Read(Panicked, Enum(name, Some(felts[0]), options), felts[1..])
        else
          var i := felts[0];
          if options[i].ty == Tuple([]) then Read(Done, Enum(name, Some(i), options), felts[1..])
          else
            var r := DeserializeTy(c, options[i].ty, felts[1..]);
            Read(r.status, Enum(name, Some(i), options[i := options[i].(ty := r.value)]), r.rest)
      case Tuple(items) =>
        var r := DeserializeItems(c, items, felts);
        Read(r.status, Tuple(r.value), r.rest)
      case Array(items) =>
        if felts[0] >= 0x1_0000_0000 then Read(Failed(ValueOutOfRange(felts[0])), t, felts[1..])
        else if items == [] then Read(Panicked, t, felts[1..])
        else
          var r := DeserializeCopies(c, items[|items| - 1], felts[0], felts[1..]);
          Read(r.status, Array(items[..|items| - 1] + r.value), r.rest)
      case ByteArray(_) =>
        match c.decode(felts)
        case None => Read(Failed(CairoSerde), t, felts)
        case Some(text) =>
          if text.size > |felts| then Read(Panicked, t, felts)
          else if text.text.None? then Read(Failed(CairoSerde), t, felts[text.size..])
          else Read(Done, ByteArray(text.text.value), felts[text.size..])
  }

  function DeserializeFields<K>(c: ByteArrayCodec, fields: seq<Named<K>>, felts: seq<Felt>)
    : (r: Read<seq<Named<K>>>)
    ensures |r.value| == |fields|
    decreases fields, 0, 0
  {
    if fields == [] then Read(Done, fields, felts)
    else
      var r := DeserializeTy(c, fields[0].ty, felts);
      var head := [fields[0].(ty := r.value)];
      if r.status != Done then Read(r.status, head + fields[1..], r.rest)
      else
        var q := DeserializeFields(c, fields[1..], r.rest);
        Read(q.status, head + q.value, q.rest)
  }

  function DeserializeItems(c: ByteArrayCodec, items: seq<Ty>, felts: seq<Felt>): (r: Read<seq<Ty>>)
    ensures |r.value| == |items|
    decreases items, 0, 0
  {
    if items == [] then Read(Done, items, felts)
    else
      var r := DeserializeTy(c, items[0], felts);
      if r.status != Done then Read(r.status, [r.value] + items[1..], r.rest)
      else
        var q := DeserializeItems(c, items[1..], r.rest);
        Read(q.status, [r.value] + q.value, q.rest)
  }

  /** `n` copies of the item template, each read in turn; a copy that fails is not pushed. */
  function DeserializeCopies(c: ByteArrayCodec, item: Ty, n: nat, felts: seq<Felt>): (r: Read<seq<Ty>>)
    ensures r.status == Done ==> |r.value| == n
    decreases item, 1, n
  {
    if n == 0 then Read(Done, [], felts)
    else
      var r := DeserializeTy(c, item, felts);
      if r.status != Done then Read(r.status, [], r.rest)
      else
        var q := DeserializeCopies(c, item, n - 1, r.rest);
        Read(q.status, [r.value] + q.value, q.rest)
  }
}
