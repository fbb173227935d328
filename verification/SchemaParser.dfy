/** Raw schemas parsed into Cairo types (crates/dojo/types/src/packing.rs, `parse_ty`). */
module SchemaParser {
  import opened Wrappers
  import opened Felts
  import opened Primitives
  import opened Schema
  import opened FeltReads
  import opened ShortStrings

  const U32_LIMIT: nat := 0x1_0000_0000

  datatype ParseError = InvalidSchema | NotInRange(value: Felt) | BadShortString

  type Parsed<+T> = Outcome<T, ParseError>

  function ParseName(x: Felt): (r: Parsed<string>) {
    match TryFromSpec(x)
    case Ok(s) => Ok(s)
    case _ => Err(BadShortString)
  }

  function KindName(k: Kind): (s: string) {
    match k
    case I8 => "i8" case I16 => "i16" case I32 => "i32" case I64 => "i64" case I128 => "i128"
    case U8 => "u8" case U16 => "u16" case U32 => "u32" case U64 => "u64" case U128 => "u128" case U256 => "u256"
    case Bool => "bool" case Felt252 => "felt252"
    case ClassHash => "ClassHash" case ContractAddress => "ContractAddress" case EthAddress => "EthAddress"
  }

  /** `Primitive::from_str`. */
  function KindOfName(s: string): (k: Option<Kind>)
    ensures k.Some? ==> KindName(k.value) == s
  {
    if s == "i8" then Some(I8) else if s == "i16" then Some(I16) else if s == "i32" then Some(I32)
    else if s == "i64" then Some(I64) else if s == "i128" then Some(I128)
    else if s == "u8" then Some(U8) else if s == "u16" then Some(U16) else if s == "u32" then Some(U32)
    else if s == "u64" then Some(U64) else if s == "u128" then Some(U128) else if s == "u256" then Some(U256)
    else if s == "bool" then Some(Bool) else if s == "felt252" then Some(Felt252)
    else if s == "ClassHash" then Some(ClassHash) else if s == "ContractAddress" then Some(ContractAddress)
    else if s == "EthAddress" then Some(EthAddress) else None
  }

  /** The felt of the attribute `key`. */
  function KeyAttribute(): (x: Felt) {
    0x6b6579
  }

  lemma KeyAttributeSpelled()
    ensures KeyAttribute() == ToFelt("key")
  {
    assert Bytes("key") == [0x6b, 0x65, 0x79];
    assert [0x6b, 0x65, 0x79][..2] == [0x6b, 0x65] && [0x6b, 0x65][..1] == [0x6b] && [0x6b][..0] == [];
    assert FromBeBytes([0x6b]) == 0x6b && FromBeBytes([0x6b, 0x65]) == 0x6b65;
  }

  function ParseTy(data: seq<Felt>): (r: Parsed<Ty>)
    decreases |data|, 1
  {
    if data == [] then Err(InvalidSchema)
    else if data[0] > 255 then Err(NotInRange(data[0]))
    else if data[0] == 0 then ParseSimple(data[1..])
    else if data[0] == 1 then ParseStruct(data[1..])
    else if data[0] == 2 then ParseEnum(data[1..])
    else if data[0] == 3 then ParseTuple(data[1..])
    else if data[0] == 4 then ParseArray(data[1..])
    else if data[0] == 5 then Ok(ByteArray(""))
    else Err(InvalidSchema)
  }

  function ParseSimple(data: seq<Felt>): (r: Parsed<Ty>) {
    if data == [] then Panic
    else
      match ParseName(data[0])
      case Ok(name) =>
        (match KindOfName(name) case Some(k) => Ok(Prim(Primitive(k, None))) case None => Err(InvalidSchema))
      case Err(e) => Err(e)
      case Panic => Panic
  }

  /** The header shared by structs and enums: name, attributes, count; then the rest. */
  datatype Header = Header(name: string, count: nat, rest: seq<Felt>)

  function ParseHeader(data: seq<Felt>): (r: Parsed<Header>)
    ensures r.Ok? ==> |r.value.rest| < |data|
  {
    if |data| < 3 then Err(InvalidSchema)
    else
      match ParseName(data[0])
      case Err(e) => Err(e)
      case Panic => Panic
      case Ok(name) =>
        if data[1] >= U32_LIMIT then Err(NotInRange(data[1]))
        else
          var end := 2 + data[1];
          if end >= |data| then Panic
          else if data[end] >= U32_LIMIT then Err(NotInRange(data[end]))
          else Ok(Header(name, data[end], data[end + 1..]))
  }

  function ParseStruct(data: seq<Felt>): (r: Parsed<Ty>)
    decreases |data|, 1
  {
    match ParseHeader(data)
    case Err(e) => Err(e)
    case Panic => Panic
    case Ok(h) =>
      match ParseMembers(h.rest, h.count)
      case Err(e) => Err(e)
      case Panic => Panic
      case Ok(members) => Ok(Struct(h.name, members))
  }

  /** A slice cut off the front of the felts, and the felts after it. */
  datatype Cut = Cut(name: string, slice: seq<Felt>, rest: seq<Felt>)

  /** The length-prefixed slice of a struct member or tuple item. */
  function TakeSlice(data: seq<Felt>): (r: Parsed<Cut>)
    ensures r.Ok? ==> |r.value.slice| < |data| && |r.value.rest| < |data|
  {
    if data == [] then Panic
    else if data[0] >= U32_LIMIT then Err(NotInRange(data[0]))
    else if 1 + data[0] > |data| then Panic
    else Ok(Cut("", data[1..1 + data[0]], data[1 + data[0]..]))
  }

  function NextMember(data: seq<Felt>): (r: Parsed<(Member, seq<Felt>)>)
    ensures r.Ok? ==> |r.value.1| < |data|
    decreases |data|, 1
  {
    match TakeSlice(data)
    case Err(e) => Err(e)
    case Panic => Panic
    case Ok(cut) =>
      match ParseMember(cut.slice)
      case Ok(x) => Ok((x, cut.rest))
      case Err(e) => Err(e)
      case Panic => Panic
  }

  function ParseMembers(data: seq<Felt>, n: nat): (r: Parsed<seq<Member>>)
    decreases |data|, 2
  {
    if n == 0 then Ok([])
    else
      match NextMember(data)
      case Err(e) => Err(e)
      case Panic => Panic
      case Ok((x, rest)) =>
        match ParseMembers(rest, n - 1)
        case Ok(xs) => Ok([x] + xs)
        case other => other
  }

  function ParseMember(data: seq<Felt>): (r: Parsed<Member>)
    decreases |data|, 1
  {
    if |data| < 3 then Err(InvalidSchema)
    else
      match ParseName(data[0])
      case Err(e) => Err(e)
      case Panic => Panic
      case Ok(name) =>
        if data[1] >= U32_LIMIT then Err(NotInRange(data[1]))
        else if 2 + data[1] > |data| then Panic
        else
          var key := KeyAttribute() in data[2..2 + data[1]];
          match ParseTy(data[2 + data[1]..])
          case Ok(ty) => Ok(Named(name, key, ty))
          case Err(e) => Err(e)
          case Panic => Panic
  }

  function ParseEnum(data: seq<Felt>): (r: Parsed<Ty>)
    decreases |data|, 1
  {
    match ParseHeader(data)
    case Err(e) => Err(e)
    case Panic => Panic
    case Ok(h) =>
      match ParseOptions(h.rest, h.count)
      case Err(e) => Err(e)
      case Panic => Panic
      case Ok(options) => Ok(Enum(h.name, None, options))
  }

  /** The name and type slice of an enum option. The length is read one felt into the type itself. */
  function TakeOption(data: seq<Felt>): (r: Parsed<Cut>)
    ensures r.Ok? ==> |r.value.slice| < |data| && |r.value.rest| < |data|
  {
    if data == [] then Panic
    else
      match ParseName(data[0])
      case Err(e) => Err(e)
      case Panic => Panic
      case Ok(name) =>
        if |data| < 4 then Panic
        else if data[3] >= U32_LIMIT then Err(NotInRange(data[3]))
        else if data[3] + 1 == U32_LIMIT || 2 + data[3] + 1 > |data| then Panic
        else
          var len := data[3] + 1;
          Ok(Cut(name, data[2..2 + len], if len + 3 <= |data| then data[len + 3..] else []))
  }

  function NextOption(data: seq<Felt>): (r: Parsed<(EnumOption, seq<Felt>)>)
    ensures r.Ok? ==> |r.value.1| < |data|
    decreases |data|, 1
  {
    match TakeOption(data)
    case Err(e) => Err(e)
    case Panic => Panic
    case Ok(cut) =>
      match ParseTy(cut.slice)
      case Ok(x) => Ok((Named(cut.name, (), x), cut.rest))
      case Err(e) => Err(e)
      case Panic => Panic
  }

  function ParseOptions(data: seq<Felt>, n: nat): (r: Parsed<seq<EnumOption>>)
    decreases |data|, 2
  {
    if n == 0 then Ok([])
    else
      match NextOption(data)
      case Err(e) => Err(e)
      case Panic => Panic
      case Ok((x, rest)) =>
        match ParseOptions(rest, n - 1)
        case Ok(xs) => Ok([x] + xs)
        case other => other
  }

  function ParseTuple(data: seq<Felt>): (r: Parsed<Ty>)
    decreases |data|, 1
  {
    if data == [] then Ok(Tuple([]))
    else if data[0] >= U32_LIMIT then Err(NotInRange(data[0]))
    else
      match ParseItems(data[1..], data[0])
      case Ok(items) => Ok(Tuple(items))
      case Err(e) => Err(e)
      case Panic => Panic
  }

  function NextItem(data: seq<Felt>): (r: Parsed<(Ty, seq<Felt>)>)
    ensures r.Ok? ==> |r.value.1| < |data|
    decreases |data|, 1
  {
    match TakeSlice(data)
    case Err(e) => Err(e)
    case Panic => Panic
    case Ok(cut) =>
      match ParseTy(cut.slice)
      case Ok(x) => Ok((x, cut.rest))
      case Err(e) => Err(e)
      case Panic => Panic
  }

  function ParseItems(data: seq<Felt>, n: nat): (r: Parsed<seq<Ty>>)
    decreases |data|, 2
  {
    if n == 0 then Ok([])
    else
      match NextItem(data)
      case Err(e) => Err(e)
      case Panic => Panic
      case Ok((x, rest)) =>
        match ParseItems(rest, n - 1)
        case Ok(xs) => Ok([x] + xs)
        case other => other
  }

  function ParseArray(data: seq<Felt>): (r: Parsed<Ty>)
    decreases |data|, 0
  {
    if |data| != 2 then Err(InvalidSchema)
    else
      match ParseTy([data[1]])
      case Ok(item) => Ok(Array([item]))
      case Err(e) => Err(e)
      case Panic => Panic
  }

  // ----- what parsing can produce -----

  /** Whatever parses is a template for values: every array holds one item and nothing is set. */
  lemma {:induction false} ParsedIsUnset(data: seq<Felt>)
    requires ParseTy(data).Ok?
    ensures Unset(ParseTy(data).value)
    decreases |data|, 1
  {
    if data[0] == 1 {
      var h := ParseHeader(data[1..]).value;
      MembersAreUnset(h.rest, h.count);
    } else if data[0] == 2 {
      var h := ParseHeader(data[1..]).value;
      OptionsAreUnset(h.rest, h.count);
    } else if data[0] == 3 {
      if |data| > 1 {
        ItemsAreUnset(data[2..], data[1]);
      }
    } else if data[0] == 4 {
      ParsedIsUnset([data[2]]);
    }
  }

  ghost predicate AllUnset<K>(fs: seq<Named<K>>) {
    forall i :: 0 <= i < |fs| ==> Unset(fs[i].ty)
  }

  lemma AllUnsetCons<K>(f: Named<K>, fs: seq<Named<K>>, all: seq<Named<K>>)
    requires Unset(f.ty) && AllUnset(fs) && all == [f] + fs
    ensures AllUnset(all)
  {
  }

  lemma {:induction false} NextMemberIsUnset(data: seq<Felt>)
    requires NextMember(data).Ok?
    ensures Unset(NextMember(data).value.0.ty)
    decreases |data|, 1
  {
    var slice := TakeSlice(data).value.slice;
    ParsedIsUnset(slice[2 + slice[1]..]);
  }

  lemma {:induction false} MembersAreUnset(data: seq<Felt>, n: nat)
    requires ParseMembers(data, n).Ok?
    ensures AllUnset(ParseMembers(data, n).value)
    decreases |data|, 2
  {
    if n > 0 {
      NextMemberIsUnset(data);
      var (m, rest) := NextMember(data).value;
      MembersAreUnset(rest, n - 1);
      AllUnsetCons(m, ParseMembers(rest, n - 1).value, ParseMembers(data, n).value);
    }
  }

  lemma {:induction false} NextOptionIsUnset(data: seq<Felt>)
    requires NextOption(data).Ok?
    ensures Unset(NextOption(data).value.0.ty)
    decreases |data|, 1
  {
    ParsedIsUnset(TakeOption(data).value.slice);
  }

  lemma {:induction false} OptionsAreUnset(data: seq<Felt>, n: nat)
    requires ParseOptions(data, n).Ok?
    ensures AllUnset(ParseOptions(data, n).value)
    decreases |data|, 2
  {
    if n > 0 {
      var option, rest, os := OptionsSplit(data, n);
      NextOptionIsUnset(data);
      OptionsAreUnset(rest, n - 1);
      AllUnsetCons(option, os, [option] + os);
    }
  }

  lemma OptionsSplit(data: seq<Felt>, n: nat) returns (option: EnumOption, rest: seq<Felt>, os: seq<EnumOption>)
    requires n > 0 && ParseOptions(data, n).Ok?
    ensures NextOption(data) == Ok((option, rest)) && |rest| < |data|
    ensures ParseOptions(rest, n - 1) == Ok(os) && ParseOptions(data, n) == Ok([option] + os)
  {
    option, rest := NextOption(data).value.0, NextOption(data).value.1;
    os := ParseOptions(rest, n - 1).value;
  }

  lemma {:induction false} ItemsAreUnset(data: seq<Felt>, n: nat)
    requires ParseItems(data, n).Ok?
    ensures forall t <- ParseItems(data, n).value :: Unset(t)
    decreases |data|, 2
  {
    if n > 0 {
      ParsedIsUnset(TakeSlice(data).value.slice);
      ItemsAreUnset(NextItem(data).value.1, n - 1);
    }
  }

  /** An array schema is accepted only for items of one felt: the unit type and byte arrays. */
  lemma ParseArrayAccepts(data: seq<Felt>)
    ensures ParseArray(data).Ok? <==> |data| == 2 && (data[1] == 3 || data[1] == 5)
    ensures ParseArray(data).Ok? ==>
              ParseArray(data).value == Array([if data[1] == 3 then Tuple([]) else ByteArray("")])
  {
    if |data| == 2 {
      var item := [data[1]];
      assert item[1..] == [];
      assert ParseHeader([]) == Err(InvalidSchema);
      assert ParseStruct([]) == Err(InvalidSchema) && ParseEnum([]) == Err(InvalidSchema);
      assert ParseTuple([]) == Ok(Tuple([])) && ParseArray([]) == Err(InvalidSchema) && ParseSimple([]) == Panic;
    }
  }

  // ----- the encoding that parses -----

  /** An introspected type with the attributes the schema carries. */
  datatype Introspect =
    | Simple(kind: Kind)
    | StructOf(name: string, attributes: seq<Felt>, members: seq<IntrospectMember>)
    | EnumOf(name: string, attributes: seq<Felt>, options: seq<IntrospectOption>)
    | TupleOf(items: seq<Introspect>)
    | Unit
    | ArrayOfUnit(count: Felt)
    | ArrayOfBytes(count: Felt)
    | Bytes31

  datatype IntrospectMember = IntrospectMember(name: string, attributes: seq<Felt>, ty: Introspect)

  /** The parser ignores the felt before an option's type, and skips the one after it. */
  datatype IntrospectOption = IntrospectOption(name: string, ignored: Felt, ty: Introspect, skipped: Felt)

  predicate NameOk(s: string) {
    IsAscii(s) && |s| <= 31 && NulFree(s)
  }

  function NameFelt(s: string): (x: Felt)
    requires NameOk(s)
    ensures ParseName(x) == Ok(s)
  {
    assert TryFromSpec(ToFelt(s)) == Ok(s) by { ShortStringBijection(ToFelt(s), s); }
    ToFelt(s)
  }

  function Encode(s: Introspect): (r: Option<seq<Felt>>)
    decreases s, 0
  {
    match s
    case Simple(k) => if NameOk(KindName(k)) then Some([0, NameFelt(KindName(k))]) else None
    case StructOf(name, attributes, members) =>
      var body := EncodeMembers(members);
      if body.None? || !HeaderOk(name, attributes, |members|) then None
      else Some([1] + EncodeHeader(name, attributes, |members|, body.value))
    case EnumOf(name, attributes, options) =>
      var body := EncodeOptions(options);
      if body.None? || !HeaderOk(name, attributes, |options|) then None
      else Some([2] + EncodeHeader(name, attributes, |options|, body.value))
    case TupleOf(items) =>
      var body := EncodeItems(items);
      if body.None? || |items| >= U32_LIMIT then None else Some([3, |items|] + body.value)
    case Unit => Some([3])
    case ArrayOfUnit(count) => Some([4, count, 3])
    case ArrayOfBytes(count) => Some([4, count, 5])
    case Bytes31 => Some([5])
  }

  predicate HeaderOk(name: string, attributes: seq<Felt>, count: nat) {
    NameOk(name) && |attributes| < U32_LIMIT && count < U32_LIMIT
  }

  function EncodeHeader(name: string, attributes: seq<Felt>, count: nat, body: seq<Felt>): (r: seq<Felt>)
    requires HeaderOk(name, attributes, count)
  {
    [NameFelt(name), |attributes|] + (attributes + ([count] + body))
  }

  function EncodeMember(m: IntrospectMember): (r: Option<seq<Felt>>)
    decreases m, 0
  {
    var ty := Encode(m.ty);
    if ty.None? || !NameOk(m.name) || |m.attributes| >= U32_LIMIT then None
    else Some([NameFelt(m.name), |m.attributes|] + (m.attributes + ty.value))
  }

  function EncodeMembers(members: seq<IntrospectMember>): (r: Option<seq<Felt>>)
    decreases members, 0
  {
    if members == [] then Some([])
    else
      var m, rest := EncodeMember(members[0]), EncodeMembers(members[1..]);
      if m.None? || rest.None? || |m.value| >= U32_LIMIT then None
      else Some([|m.value|] + (m.value + rest.value))
  }

  function EncodeItems(items: seq<Introspect>): (r: Option<seq<Felt>>)
    decreases items, 0
  {
    if items == [] then Some([])
    else
      var t, rest := Encode(items[0]), EncodeItems(items[1..]);
      if t.None? || rest.None? || |t.value| >= U32_LIMIT then None
      else Some([|t.value|] + (t.value + rest.value))
  }

  /**
   * The parser takes the length of an option's type from the second felt of the type, or from the felt after it if
   * the type is one felt long: it must be the length less one.
   */
  predicate SaysItsLength(slice: seq<Felt>, skipped: Felt) {
    if |slice| == 1 then skipped == 0 else |slice| >= 2 && slice[1] == |slice| - 1 && |slice| < U32_LIMIT
  }

  function EncodeOptions(options: seq<IntrospectOption>): (r: Option<seq<Felt>>)
    decreases options, 0
  {
    if options == [] then Some([])
    else
      var o, ty, rest := options[0], Encode(options[0].ty), EncodeOptions(options[1..]);
      if ty.None? || rest.None? || !NameOk(o.name) || !SaysItsLength(ty.value, o.skipped) then None
      else Some(EncodeOption(o.name, o.ignored, ty.value, o.skipped, rest.value))
  }

  function EncodeOption(name: string, ignored: Felt, slice: seq<Felt>, skipped: Felt, rest: seq<Felt>): (r: seq<Felt>)
    requires NameOk(name)
  {
    [NameFelt(name), ignored] + (slice + ([skipped] + rest))
  }

  /** The type an introspected schema stands for. */
  function Erase(s: Introspect): (t: Ty)
    decreases s, 0
  {
    match s
    case Simple(k) => Prim(Primitive(k, None))
    case StructOf(name, _, members) => Struct(name, EraseMembers(members))
    case EnumOf(name, _, options) => Enum(name, None, EraseOptions(options))
    case TupleOf(items) => Tuple(EraseItems(items))
    case Unit => Tuple([])
    case ArrayOfUnit(_) => Array([Tuple([])])
    case ArrayOfBytes(_) => Array([ByteArray("")])
    case Bytes31 => ByteArray("")
  }

  function EraseMembers(members: seq<IntrospectMember>): (r: seq<Member>)
    decreases members, 0
  {
    if members == [] then []
    else
      var m := members[0];
      [Named(m.name, KeyAttribute() in m.attributes, Erase(m.ty))] + EraseMembers(members[1..])
  }

  function EraseOptions(options: seq<IntrospectOption>): (r: seq<EnumOption>)
    decreases options, 0
  {
    if options == [] then [] else [Named(options[0].name, (), Erase(options[0].ty))] + EraseOptions(options[1..])
  }

  function EraseItems(items: seq<Introspect>): (r: seq<Ty>)
    decreases items, 0
  {
    if items == [] then [] else [Erase(items[0])] + EraseItems(items[1..])
  }

  lemma HeaderParses(name: string, attributes: seq<Felt>, count: nat, body: seq<Felt>)
    requires HeaderOk(name, attributes, count)
    ensures ParseHeader(EncodeHeader(name, attributes, count, body)) == Ok(Header(name, count, body))
  {
    HeaderAt(NameFelt(name), attributes, count, body);
  }

  lemma HeaderAt(name: Felt, attributes: seq<Felt>, count: Felt, body: seq<Felt>)
    requires |attributes| < U32_LIMIT
    ensures var data, end := [name, |attributes|] + (attributes + ([count] + body)), 2 + |attributes|;
            && end < |data| && |data| >= 3 && data[0] == name && data[1] == |attributes|
            && data[end] == count && data[end + 1..] == body
  {
  }

  lemma KindNameOk(k: Kind)
    ensures NameOk(KindName(k))
  {
  }

  lemma KindNameParses(k: Kind)
    ensures KindOfName(KindName(k)) == Some(k)
  {
  }

  lemma SimpleParses(k: Kind)
    ensures NameOk(KindName(k)) && ParseTy([0, NameFelt(KindName(k))]) == Ok(Prim(Primitive(k, None)))
  {
    KindNameOk(k);
    KindNameParses(k);
    var x := NameFelt(KindName(k));
    assert [0, x][1..] == [x];
  }

  lemma StructParses(name: string, attributes: seq<Felt>, count: nat, body: seq<Felt>, members: seq<Member>)
    requires HeaderOk(name, attributes, count) && ParseMembers(body, count) == Ok(members)
    ensures ParseTy([1] + EncodeHeader(name, attributes, count, body)) == Ok(Struct(name, members))
  {
    var header := EncodeHeader(name, attributes, count, body);
    HeaderParses(name, attributes, count, body);
    assert ([1] + header)[1..] == header;
    assert ParseStruct(header) == Ok(Struct(name, members));
  }

  lemma EnumParses(name: string, attributes: seq<Felt>, count: nat, body: seq<Felt>, options: seq<EnumOption>)
    requires HeaderOk(name, attributes, count) && ParseOptions(body, count) == Ok(options)
    ensures ParseTy([2] + EncodeHeader(name, attributes, count, body)) == Ok(Enum(name, None, options))
  {
    var header := EncodeHeader(name, attributes, count, body);
    HeaderParses(name, attributes, count, body);
    assert ([2] + header)[1..] == header;
    assert ParseEnum(header) == Ok(Enum(name, None, options));
  }

  lemma TupleParses(count: nat, body: seq<Felt>, items: seq<Ty>)
    requires count < U32_LIMIT && ParseItems(body, count) == Ok(items)
    ensures ParseTy([3, count] + body) == Ok(Tuple(items))
  {
    var data := [3, count] + body;
    var tail := data[1..];
    assert tail[1..] == body;
  }

  lemma ArrayParses(count: Felt, item: Felt)
    requires item == 3 || item == 5
    ensures ParseTy([4, count, item]) == Ok(Array([if item == 3 then Tuple([]) else ByteArray("")]))
  {
    assert [4, count, item][1..] == [count, item];
    ParseArrayAccepts([count, item]);
  }

  /** Parsing an encoded schema gives the type it stands for, with the key flag of each member. */
  lemma {:induction false} ParseUndoesEncode(s: Introspect)
    requires Encode(s).Some?
    ensures ParseTy(Encode(s).value) == Ok(Erase(s))
    decreases s, 0
  {
    match s
    case Simple(k) => SimpleParses(k);
    case StructOf(name, attributes, members) =>
      MembersParse(members);
      StructParses(name, attributes, |members|, EncodeMembers(members).value, EraseMembers(members));
    case EnumOf(name, attributes, options) =>
      OptionsParse(options);
      EnumParses(name, attributes, |options|, EncodeOptions(options).value, EraseOptions(options));
    case TupleOf(items) =>
      ItemsParse(items);
      TupleParses(|items|, EncodeItems(items).value, EraseItems(items));
    case Unit => assert [3][1..] == [];
    case ArrayOfUnit(count) => ArrayParses(count, 3);
    case ArrayOfBytes(count) => ArrayParses(count, 5);
    case Bytes31 =>
  }

  lemma MemberStep(name: string, attributes: seq<Felt>, slice: seq<Felt>, ty: Ty)
    requires NameOk(name) && |attributes| < U32_LIMIT && ParseTy(slice) == Ok(ty)
    ensures ParseMember([NameFelt(name), |attributes|] + (attributes + slice))
         == Ok(Named(name, KeyAttribute() in attributes, ty))
  {
    var data := [NameFelt(name), |attributes|] + (attributes + slice);
    assert slice != [];
    assert data[2..2 + |attributes|] == attributes && data[2 + |attributes|..] == slice;
  }

  lemma SliceIsTaken(slice: seq<Felt>, rest: seq<Felt>)
    requires |slice| < U32_LIMIT
    ensures TakeSlice([|slice|] + (slice + rest)) == Ok(Cut("", slice, rest))
  {
    var data := [|slice|] + (slice + rest);
    assert data[1..1 + |slice|] == slice && data[1 + |slice|..] == rest;
  }

  /** Where the felts of an option stand. */
  lemma OptionAt(name: Felt, ignored: Felt, slice: seq<Felt>, skipped: Felt, rest: seq<Felt>)
    requires slice != []
    ensures var data, n := [name, ignored] + (slice + ([skipped] + rest)), |slice|;
            && |data| == n + 3 + |rest| && data[0] == name
            && data[3] == (if n == 1 then skipped else slice[1])
            && data[2..2 + n] == slice && data[n + 3..] == rest
  {
    var data, n := [name, ignored] + (slice + ([skipped] + rest)), |slice|;
    assert data[2..] == slice + ([skipped] + rest);
    assert data[2..2 + n] == data[2..][..n];
  }

  /** An option's type is taken whole if and only if it says its length. */
  lemma OptionIsTakenIff(name: string, ignored: Felt, slice: seq<Felt>, skipped: Felt, rest: seq<Felt>)
    requires NameOk(name) && slice != [] && |slice| < U32_LIMIT
    ensures TakeOption(EncodeOption(name, ignored, slice, skipped, rest)) == Ok(Cut(name, slice, rest))
            <==> SaysItsLength(slice, skipped)
  {
    OptionAt(NameFelt(name), ignored, slice, skipped, rest);
    TakenIff(EncodeOption(name, ignored, slice, skipped, rest), name, slice, rest);
  }

  lemma TakenIff(data: seq<Felt>, name: string, slice: seq<Felt>, rest: seq<Felt>)
    requires |data| == |slice| + 3 + |rest| && slice != [] && |slice| < U32_LIMIT && ParseName(data[0]) == Ok(name)
    requires data[2..2 + |slice|] == slice && data[|slice| + 3..] == rest
    ensures TakeOption(data) == Ok(Cut(name, slice, rest)) <==> data[3] == |slice| - 1
  {
    var r := TakeOption(data);
    if r.Ok? {
      assert |r.value.slice| == data[3] + 1;
    }
  }

  lemma {:induction false} MembersParse(members: seq<IntrospectMember>)
    requires EncodeMembers(members).Some?
    ensures ParseMembers(EncodeMembers(members).value, |members|) == Ok(EraseMembers(members))
    decreases members, 0
  {
    if members != [] {
      var m := members[0];
      var slice, rest := EncodeMember(m).value, EncodeMembers(members[1..]).value;
      ParseUndoesEncode(m.ty);
      MembersParse(members[1..]);
      MemberStep(m.name, m.attributes, Encode(m.ty).value, Erase(m.ty));
      SliceIsTaken(slice, rest);
    }
  }

  lemma {:induction false} ItemsParse(items: seq<Introspect>)
    requires EncodeItems(items).Some?
    ensures ParseItems(EncodeItems(items).value, |items|) == Ok(EraseItems(items))
    decreases items, 0
  {
    if items != [] {
      ParseUndoesEncode(items[0]);
      ItemsParse(items[1..]);
      SliceIsTaken(Encode(items[0]).value, EncodeItems(items[1..]).value);
    }
  }

  lemma {:induction false} OptionsParse(options: seq<IntrospectOption>)
    requires EncodeOptions(options).Some?
    ensures ParseOptions(EncodeOptions(options).value, |options|) == Ok(EraseOptions(options))
    decreases options, 0
  {
    if options != [] {
      var o := options[0];
      ParseUndoesEncode(o.ty);
      OptionsParse(options[1..]);
      OptionIsTakenIff(o.name, o.ignored, Encode(o.ty).value, o.skipped, EncodeOptions(options[1..]).value);
    }
  }
}
