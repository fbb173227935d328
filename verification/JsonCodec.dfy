/** The JSON codec of Cairo types (crates/dojo/types/src/schema.rs, `to_json_value` and `from_json_value`). */
module JsonCodec {
  import opened Wrappers
  import opened Felts
  import opened SignedFelts
  import opened Primitives
  import opened Schema
  import opened FieldLookup
  import opened Radix

  /** JSON values; numbers are integers, and an object lists its entries. */
  datatype Json =
    | Null
    | Boolean(b: bool)
    | Number(n: int)
    | String(s: string)
    | List(values: seq<Json>)
    | Object(entries: seq<(string, Json)>)

  type JsonResult = Outcome<Json, PrimitiveError>

  datatype Filled<+T> = Filled(status: Status, value: T)

  // ----- primitives -----

  function PrimitiveToJson(p: Primitive): (r: JsonResult) {
    if p.value.None? then Err(MissingFieldElement)
    else
      var v := p.value.value;
      match p.kind
      case Bool => Ok(Boolean(v == 1))
      case I8 => Ok(Number(v))
      case I16 => Ok(Number(v))
      case I32 => Ok(Number(v))
      case U8 => Ok(Number(v))
      case U16 => Ok(Number(v))
      case U32 => Ok(Number(v))
      case I64 => Ok(String(PrintSigned(v)))
      case I128 => Ok(String(PrintSigned(v)))
      case U64 => Ok(String(Print(v, 10)))
      case U128 => Ok(String(Print(v, 10)))
      case U256 => Ok(String("0x" + PrintHex(v, 64)))
      case Felt252 => Ok(String("0x" + Print(v, 16)))
      case ClassHash => Ok(String("0x" + Print(v, 16)))
      case ContractAddress => Ok(String("0x" + Print(v, 16)))
      case EthAddress => Ok(String("0x" + Print(v, 16)))
  }

  /** `n as iN` for a signed type of half-range `half`. */
  function WrapSigned(n: int, half: int): (v: int)
    requires half > 0
    ensures -half <= v < half
    ensures -half <= n < half ==> v == n
  {
    if -half <= n < half then n else (n + half) % (2 * half) - half
  }

  function WrapUnsigned(n: int, limit: int): (v: int)
    requires limit > 0
    ensures 0 <= v < limit
    ensures 0 <= n < limit ==> v == n
  {
    if 0 <= n < limit then n else n % limit
  }

  /** `trim_start_matches("0x")`. */
  function TrimHexPrefix(s: string): (r: string)
    ensures |r| <= |s|
  {
    if |s| >= 2 && s[0] == '0' && s[1] == 'x' then TrimHexPrefix(s[2..]) else s
  }

  /** `Felt::from_str` on a hexadecimal string with prefix or a decimal string. */
  function ParseFelt(s: string): (x: Option<int>)
    ensures x.Some? ==> 0 <= x.value < P
  {
    var n := if |s| > 2 && s[..2] == "0x" then ParseDigits(s[2..], 16)
             else if s == [] then None
             else ParseDigits(s, 10);
    if n.Some? && n.value < P then Some(n.value) else None
  }

  function PrimitiveFromJson(p: Primitive, j: Json): (r: Filled<Primitive>) {
    if p.kind == Bool then
      if j.Boolean? then Filled(Done, Primitive(Bool, Some(if j.b then 1 else 0))) else Filled(Done, p)
    else if p.kind == U256 then
      if j.String? then U256FromJson(p, j.s) else Filled(Done, p)
    else if p.kind in {I8, I16, I32} then
      if !j.Number? then Filled(Done, p)
      else if -0x8000_0000_0000_0000 <= j.n < 0x8000_0000_0000_0000 then
        Filled(Done, Primitive(p.kind, Some(WrapSigned(j.n, Half(SignedSize(p.kind))))))
      else Filled(Done, Primitive(p.kind, None))
    else if p.kind in {U8, U16, U32} then
      if !j.Number? then Filled(Done, p)
      else if 0 <= j.n < 0x1_0000_0000_0000_0000 then
        Filled(Done, Primitive(p.kind, Some(WrapUnsigned(j.n, Limit(p.kind)))))
      else Filled(Done, Primitive(p.kind, None))
    else if !j.String? then Filled(Done, p)
    else if IsSigned(p.kind) then Filled(Done, Primitive(p.kind, ParseSigned(j.s, Half(SignedSize(p.kind)))))
    else if p.kind in {U64, U128} then Filled(Done, Primitive(p.kind, ParseUnsigned(j.s, 10, Limit(p.kind))))
    else Filled(Done, Primitive(p.kind, ParseFelt(j.s)))
  }

  /** `U256::from_be_hex` accepts 64 digits and panics on anything else. */
  function U256FromJson(p: Primitive, s: string): (r: Filled<Primitive>) {
    var digits := TrimHexPrefix(s);
    var n := ParseDigits(digits, 16);
    if |digits| == 64 && n.Some? && n.value < TWO_128 * TWO_128 then
      Filled(Done, Primitive(U256, Some(n.value)))
    else
      Filled(Panicked, p)
  }

  lemma TrimDigits(s: string)
    requires |s| >= 2 ==> s[1] != 'x'
    ensures TrimHexPrefix("0x" + s) == s
  {
    assert ("0x" + s)[2..] == s;
  }

  /** A set primitive survives the JSON codec. */
  lemma PrimitiveRoundTrip(template: Primitive, p: Primitive)
    requires template.kind == p.kind && p.value.Some?
    ensures PrimitiveToJson(p).Ok?
    ensures PrimitiveFromJson(template, PrimitiveToJson(p).value) == Filled(Done, p)
  {
    if p.kind == U256 {
      U256JsonRoundTrip(template, p);
    } else if p.kind in {I64, I128, U64, U128} {
      DecimalRoundTrip(template, p);
    } else if p.kind in {Felt252, ClassHash, ContractAddress, EthAddress} {
      HexRoundTrip(template, p);
    } else {
      NumberRoundTrip(template, p);
    }
  }

  lemma DecimalRoundTrip(template: Primitive, p: Primitive)
    requires template.kind == p.kind && p.value.Some? && p.kind in {I64, I128, U64, U128}
    ensures PrimitiveFromJson(template, PrimitiveToJson(p).value) == Filled(Done, p)
  {
    if IsSigned(p.kind) {
      ParseSignedPrint(p.value.value, Half(SignedSize(p.kind)));
    } else {
      ParseUnsignedPrint(p.value.value, 10, Limit(p.kind));
    }
  }

  lemma HexRoundTrip(template: Primitive, p: Primitive)
    requires template.kind == p.kind && p.value.Some? && p.kind in {Felt252, ClassHash, ContractAddress, EthAddress}
    ensures PrimitiveFromJson(template, PrimitiveToJson(p).value) == Filled(Done, p)
  {
    ParsePrint(p.value.value, 16);
    HexFelt(Print(p.value.value, 16), p.value.value);
  }

  lemma HexFelt(digits: string, v: int)
    requires digits != [] && 0 <= v < P && ParseDigits(digits, 16) == Some(v)
    ensures ParseFelt("0x" + digits) == Some(v)
  {
    var s := "0x" + digits;
    assert s[2..] == digits && s[..2] == "0x";
  }

  lemma NumberRoundTrip(template: Primitive, p: Primitive)
    requires template.kind == p.kind && p.value.Some? && p.kind in {Bool, I8, I16, I32, U8, U16, U32}
    ensures PrimitiveFromJson(template, PrimitiveToJson(p).value) == Filled(Done, p)
  {
    if IsSigned(p.kind) {
      SmallHalf(p.kind);
    }
  }

  lemma SmallHalf(k: Kind)
    requires k in {I8, I16, I32}
    ensures Half(SignedSize(k)) <= 0x8000_0000
  {
    assert Pow(256, 3) == 256 * (256 * (256 * 1));
  }

  lemma U256JsonRoundTrip(template: Primitive, p: Primitive)
    requires template.kind == p.kind == U256 && p.value.Some?
    ensures PrimitiveFromJson(template, PrimitiveToJson(p).value) == Filled(Done, p)
  {
    var v := p.value.value;
    HexWidth(64);
    ParsePrintHex(v, 64);
    PrintedHexDigits(v, 64, 1);
    TrimDigits(PrintHex(v, 64));
  }

  lemma HexWidth(n: nat)
    requires n == 64
    ensures Pow(16, n) == TWO_128 * TWO_128
  {
    var k := 4;
    assert Pow(16, k) == 0x1_0000;
    PowSum(16, k, k);
    PowSum(16, 2 * k, 2 * k);
    PowSum(16, 4 * k, 4 * k);
    PowSum(16, 8 * k, 8 * k);
  }

  // ----- objects -----

  /** Insertion into a map that keeps its order and replaces an existing value. */
  function Insert(entries: seq<(string, Json)>, key: string, value: Json): (r: seq<(string, Json)>) {
    if entries == [] then [(key, value)]
    else if entries[0].0 == key then [(key, value)] + entries[1..]
    else [entries[0]] + Insert(entries[1..], key, value)
  }

  function Lookup(entries: seq<(string, Json)>, key: string): (r: Option<Json>)
    ensures r.Some? ==> exists i :: 0 <= i < |entries| && entries[i] == (key, r.value)
  {
    if entries == [] then None
    else if entries[0].0 == key then Some(entries[0].1)
    else
      var r := Lookup(entries[1..], key);
      assert r.Some? ==> exists i :: 0 <= i < |entries| && entries[i] == (key, r.value) by {
        if r.Some? {
          var i :| 0 <= i < |entries[1..]| && entries[1..][i] == (key, r.value);
          assert entries[i + 1] == (key, r.value);
        }
      }
      r
  }

  lemma {:induction false} LookupInsert(entries: seq<(string, Json)>, key: string, value: Json, k: string)
    ensures Lookup(Insert(entries, key, value), k) == if k == key then Some(value) else Lookup(entries, k)
  {
    if entries != [] && entries[0].0 != key {
      LookupInsert(entries[1..], key, value, k);
    }
  }

  // ----- to_json_value -----

  function ToJson(t: Ty): (r: JsonResult)
    decreases t, 0
  {
    match t
    case Prim(p) => PrimitiveToJson(p)
    case Struct(_, children) =>
      var r := FieldsToJson(children, []);
      (match r case Ok(entries) => Ok(Object(entries)) case Err(e) => Err(e) case Panic => Panic)
    case Enum(_, option, options) =>
      if option.None? || option.value >= |options| then Err(MissingFieldElement)
      else
        var chosen := options[option.value];
        (match ToJson(chosen.ty) case Ok(j) => Ok(Object([(chosen.name, j)])) case other => other)
    case Tuple(items) =>
      (match ItemsToJson(items) case Ok(js) => Ok(List(js)) case Err(e) => Err(e) case Panic => Panic)
    case Array(items) =>
      (match ItemsToJson(items) case Ok(js) => Ok(List(js)) case Err(e) => Err(e) case Panic => Panic)
    case ByteArray(bytes) => Ok(String(bytes))
  }

  function FieldsToJson(fields: seq<Member>, entries: seq<(string, Json)>)
    : (r: Outcome<seq<(string, Json)>, PrimitiveError>)
    decreases fields, 0
  {
    if fields == [] then Ok(entries)
    else
      match ToJson(fields[0].ty)
      case Ok(j) => FieldsToJson(fields[1..], Insert(entries, fields[0].name, j))
      case Err(e) => Err(e)
      case Panic => Panic
  }

  function ItemsToJson(items: seq<Ty>): (r: Outcome<seq<Json>, PrimitiveError>)
    decreases items, 0
  {
    if items == [] then Ok([])
    else
      match ToJson(items[0])
      case Ok(j) => (match ItemsToJson(items[1..]) case Ok(js) => Ok([j] + js) case other => other)
      case Err(e) => Err(e)
      case Panic => Panic
  }

  // ----- from_json_value -----

  function FromJson(t: Ty, j: Json): (r: Filled<Ty>)
    decreases t, 0
  {
    match (t, j)
    case (Prim(p), _) =>
      var r := PrimitiveFromJson(p, j);
      Filled(r.status, Prim(r.value))
    case (Struct(name, children), Object(entries)) =>
      var r := FieldsFromJson(children, entries);
      Filled(r.status, Struct(name, r.value))
    case (Enum(name, _, options), Object(entries)) =>
      if entries == [] then Filled(Done, t)
      else
        var at := Find(options, entries[0].0);
        if at.None? then Filled(Failed(TypeMismatch), t)
        else
          var o := at.value % 256;
          var r := FromJson(options[o].ty, entries[0].1);
          Filled(r.status, Enum(name, Some(o), options[o := options[o].(ty := r.value)]))
    case (Array(items), List(values)) =>
      if items == [] then Filled(Panicked, t)
      else
        var r := CopiesFromJson(items[0], values);
        Filled(r.status, Array(r.value))
    case (Tuple(items), List(values)) =>
      if |items| != |values| then Filled(Failed(TypeMismatch), t)
      else
        var r := ItemsFromJson(items, values);
        Filled(r.status, Tuple(r.value))
    case (ByteArray(_), String(s)) => Filled(Done, ByteArray(s))
    case _ => Filled(Failed(TypeMismatch), t)
  }

  function FieldsFromJson(fields: seq<Member>, entries: seq<(string, Json)>): (r: Filled<seq<Member>>)
    ensures |r.value| == |fields|
    decreases fields, 0
  {
    if fields == [] then Filled(Done, fields)
    else
      var found := Lookup(entries, fields[0].name);
      var r := if found.Some? then FromJson(fields[0].ty, found.value) else Filled(Done, fields[0].ty);
      var head := [fields[0].(ty := r.value)];
      if r.status != Done then Filled(r.status, head + fields[1..])
      else
        var q := FieldsFromJson(fields[1..], entries);
        Filled(q.status, head + q.value)
  }

  function ItemsFromJson(items: seq<Ty>, values: seq<Json>): (r: Filled<seq<Ty>>)
    requires |items| == |values|
    ensures |r.value| == |items|
    decreases items, 0
  {
    if items == [] then Filled(Done, items)
    else
      var r := FromJson(items[0], values[0]);
      if r.status != Done then Filled(r.status, [r.value] + items[1..])
      else
        var q := ItemsFromJson(items[1..], values[1..]);
        Filled(q.status, [r.value] + q.value)
  }

  function CopiesFromJson(item: Ty, values: seq<Json>): (r: Filled<seq<Ty>>)
    decreases item, 1, |values|
  {
    if values == [] then Filled(Done, [])
    else
      var r := FromJson(item, values[0]);
      if r.status != Done then Filled(r.status, [])
      else
        var q := CopiesFromJson(item, values[1..]);
        Filled(q.status, [r.value] + q.value)
  }

  // ----- round trip -----

  /** Namesake members of one struct have the same value, and no option before the chosen one has its name. */
  ghost predicate NamesAgree(v: Ty) {
    match v
    case Struct(_, cs) =>
      && (forall i, j :: 0 <= i < j < |cs| && cs[i].name == cs[j].name ==> cs[i].ty == cs[j].ty)
      && (forall i :: 0 <= i < |cs| ==> NamesAgree(cs[i].ty))
    case Enum(_, o, cs) =>
      o.Some? && o.value < |cs| && NamesAgree(cs[o.value].ty) &&
      forall i :: 0 <= i < o.value ==> cs[i].name != cs[o.value].name
    case Tuple(xs) => forall i :: 0 <= i < |xs| ==> NamesAgree(xs[i])
    case Array(xs) => forall i :: 0 <= i < |xs| ==> NamesAgree(xs[i])
    case _ => true
  }

  /** Namesake members of one struct have the same template. */
  ghost predicate NamesakesShare(t: Ty) {
    match t
    case Struct(_, ds) =>
      && (forall i, j :: 0 <= i < j < |ds| && ds[i].name == ds[j].name ==> ds[i].ty == ds[j].ty)
      && (forall i :: 0 <= i < |ds| ==> NamesakesShare(ds[i].ty))
    case Enum(_, _, ds) => forall i :: 0 <= i < |ds| ==> NamesakesShare(ds[i].ty)
    case Tuple(ys) => forall i :: 0 <= i < |ys| ==> NamesakesShare(ys[i])
    case Array(ys) => forall i :: 0 <= i < |ys| ==> NamesakesShare(ys[i])
    case _ => true
  }

  /** The value's JSON, loaded into the template, gives the value. */
  ghost predicate LoadsBack(t: Ty, v: Ty) {
    ToJson(v).Ok? && FromJson(t, ToJson(v).value) == Filled(Done, v)
  }

  /** A value of a template has a JSON. */
  lemma {:induction false} HasJson(t: Ty, v: Ty)
    requires Fits(v, t)
    ensures ToJson(v).Ok?
    decreases v, 0
  {
    match v
    case Struct(_, cs) =>
      forall i | 0 <= i < |cs| ensures ToJson(cs[i].ty).Ok? { HasJson(t.children[i].ty, cs[i].ty); }
      FieldsHaveJson(cs, []);
    case Enum(_, o, cs) => HasJson(t.options[o.value].ty, cs[o.value].ty);
    case Tuple(xs) =>
      forall i | 0 <= i < |xs| ensures ToJson(xs[i]).Ok? { HasJson(t.items[i], xs[i]); }
      ItemsHaveJson(xs);
    case Array(xs) =>
      forall i | 0 <= i < |xs| ensures ToJson(xs[i]).Ok? { HasJson(t.items[0], xs[i]); }
      ItemsHaveJson(xs);
    case _ =>
  }

  lemma {:induction false} FieldsHaveJson(cs: seq<Member>, entries: seq<(string, Json)>)
    requires forall i :: 0 <= i < |cs| ==> ToJson(cs[i].ty).Ok?
    ensures FieldsToJson(cs, entries).Ok?
    decreases |cs|
  {
    if cs != [] {
      FieldsHaveJson(cs[1..], Insert(entries, cs[0].name, ToJson(cs[0].ty).value));
    }
  }

  lemma {:induction false} ItemsHaveJson(xs: seq<Ty>)
    requires forall i :: 0 <= i < |xs| ==> ToJson(xs[i]).Ok?
    ensures ItemsToJson(xs).Ok? && |ItemsToJson(xs).value| == |xs|
    ensures forall i :: 0 <= i < |xs| ==> ItemsToJson(xs).value[i] == ToJson(xs[i]).value
    decreases |xs|
  {
    if xs != [] {
      ItemsHaveJson(xs[1..]);
    }
  }

  /** Loading the JSON of a value into its template gives back the value. */
  lemma {:induction false} JsonRoundTrip(t: Ty, v: Ty)
    requires Fits(v, t) && NamesAgree(v)
    ensures LoadsBack(t, v)
    decreases v, 0
  {
    match v
    case Prim(p) => PrimitiveRoundTrip(t.primitive, p);
    case Struct(_, cs) =>
      forall i | 0 <= i < |cs| ensures LoadsBack(t.children[i].ty, cs[i].ty) {
        JsonRoundTrip(t.children[i].ty, cs[i].ty);
      }
      StructLoads(v.name, t.children, cs);
    case Enum(_, o, cs) =>
      JsonRoundTrip(t.options[o.value].ty, cs[o.value].ty);
      EnumLoads(v.name, t.option, t.options, cs, o.value);
    case Tuple(xs) =>
      forall i | 0 <= i < |xs| ensures LoadsBack(t.items[i], xs[i]) { JsonRoundTrip(t.items[i], xs[i]); }
      ItemsLoad(t.items, xs);
    case Array(xs) =>
      forall i | 0 <= i < |xs| ensures LoadsBack(t.items[0], xs[i]) { JsonRoundTrip(t.items[0], xs[i]); }
      CopiesLoad(t.items[0], xs);
    case ByteArray(_) =>
  }

  lemma StructLoads(name: string, ds: seq<Member>, cs: seq<Member>)
    requires |cs| == |ds| && (forall i :: 0 <= i < |cs| ==> cs[i].name == ds[i].name && cs[i].key == ds[i].key)
    requires forall i, j :: 0 <= i < j < |cs| && cs[i].name == cs[j].name ==> cs[i].ty == cs[j].ty
    requires forall i :: 0 <= i < |cs| ==> LoadsBack(ds[i].ty, cs[i].ty)
    ensures LoadsBack(Struct(name, ds), Struct(name, cs))
  {
    FieldsHaveJson(cs, []);
    forall i | 0 <= i < |cs| ensures EntryLoads(ds[i], cs[i], FieldsToJson(cs, []).value) {
      LookupIsLast(cs, [], cs[i].name);
    }
    FieldsLoad(ds, cs, FieldsToJson(cs, []).value);
  }

  /** An option's JSON is loaded into the first option of that name. */
  lemma OptionLoads(name: string, was: Option<Byte>, ds: seq<EnumOption>, o: Byte, j: Json)
    requires o < |ds| && Find(ds, ds[o].name) == Some(o)
    ensures var r := FromJson(ds[o].ty, j);
            FromJson(Enum(name, was, ds), Object([(ds[o].name, j)])) ==
            Filled(r.status, Enum(name, Some(o), ds[o := ds[o].(ty := r.value)]))
  {
  }

  lemma EnumLoads(name: string, was: Option<Byte>, ds: seq<EnumOption>, cs: seq<EnumOption>, o: Byte)
    requires |cs| == |ds| && o < |cs| && cs[o].name == ds[o].name
    requires forall i :: 0 <= i < |cs| && i != o ==> cs[i] == ds[i]
    requires forall i :: 0 <= i < o ==> cs[i].name != cs[o].name
    requires LoadsBack(ds[o].ty, cs[o].ty)
    ensures LoadsBack(Enum(name, was, ds), Enum(name, Some(o), cs))
  {
    var j := ToJson(cs[o].ty).value;
    assert ToJson(Enum(name, Some(o), cs)) == Ok(Object([(cs[o].name, j)]));
    assert Find(ds, ds[o].name) == Some(o);
    OptionLoads(name, was, ds, o, j);
    assert ds[o].key == () == cs[o].key;
    assert ds[o := ds[o].(ty := cs[o].ty)] == cs;
  }

  /** The condition on option names is needed: an earlier namesake is loaded instead. */
  lemma EarlierNamesakeIsLoaded(t: Ty, v: Ty, i: nat)
    requires v.Enum? && Fits(v, t) && ToJson(v).Ok?
    requires i < v.option.value && v.options[i].name == v.options[v.option.value].name
    ensures FromJson(t, ToJson(v).value).value.option != v.option
  {
    var o, cs, ds := v.option.value, v.options, t.options;
    assert ToJson(v) == Ok(Object([(cs[o].name, ToJson(cs[o].ty).value)]));
    assert ds[i].name == cs[i].name == cs[o].name;
    var at := Find(ds, cs[o].name);
    assert at.Some? && at.value <= i < o < 256;
  }

  /** The condition on member names is needed: namesakes share the last value. */
  lemma NamesakeMembersCollide(unset: Member, one: Member, two: Member)
    requires unset == Named("a", false, Prim(Primitive(U8, None)))
    requires one == Named("a", false, Prim(Primitive(U8, Some(1))))
    requires two == Named("a", false, Prim(Primitive(U8, Some(2))))
    ensures ToJson(Struct("S", [one, two])) == Ok(Object([("a", Number(2))]))
    ensures FromJson(Struct("S", [unset, unset]), Object([("a", Number(2))])) == Filled(Done, Struct("S", [two, two]))
  {
    var cs: seq<Member> := [one, two];
    assert cs[1..] == [two] && [two][1..] == [];
    assert Insert([("a", Number(1))], "a", Number(2)) == [("a", Number(2))];
    assert FieldsToJson(cs, []) == FieldsToJson([two], [("a", Number(1))]) == FieldsToJson([], [("a", Number(2))]);
    var ds: seq<Member> := [unset, unset];
    var last: seq<Member> := [unset];
    assert ds[1..] == last && last[1..] == [];
    var entries := [("a", Number(2))];
    assert Lookup(entries, "a") == Some(Number(2));
    assert FromJson(unset.ty, Number(2)) == Filled(Done, two.ty);
    assert unset.(ty := two.ty) == two;
    assert FieldsFromJson([], entries) == Filled(Done, []);
    assert [two] + [] == [two] && [two] + [two] == [two, two];
    assert FieldsFromJson(last, entries) == Filled(Done, [two] + []);
    assert FieldsFromJson(ds, entries) == Filled(Done, [two] + [two]);
  }

  /** The last member of that name. */
  function LastNamed(cs: seq<Member>, name: string): (r: Option<nat>)
    ensures r.Some? ==> r.value < |cs| && cs[r.value].name == name
    ensures r.Some? ==> forall i :: r.value < i < |cs| ==> cs[i].name != name
    ensures r.None? ==> forall i :: 0 <= i < |cs| ==> cs[i].name != name
  {
    if cs == [] then None
    else
      match LastNamed(cs[1..], name)
      case Some(i) => Some(i + 1)
      case None => if cs[0].name == name then Some(0) else None
  }

  /** The object of a struct holds, under each name, the JSON of the last member of that name. */
  lemma {:induction false} LookupIsLast(cs: seq<Member>, entries: seq<(string, Json)>, name: string)
    requires forall i :: 0 <= i < |cs| ==> ToJson(cs[i].ty).Ok?
    ensures FieldsToJson(cs, entries).Ok?
    ensures var last := LastNamed(cs, name);
            Lookup(FieldsToJson(cs, entries).value, name) ==
            if last.Some? then Some(ToJson(cs[last.value].ty).value) else Lookup(entries, name)
    decreases |cs|
  {
    if cs != [] {
      var j := ToJson(cs[0].ty).value;
      LookupIsLast(cs[1..], Insert(entries, cs[0].name, j), name);
      LookupInsert(entries, cs[0].name, j, name);
    }
  }

  /** The entry under the member's name loads into the template as the member's value. */
  ghost predicate EntryLoads(d: Member, c: Member, entries: seq<(string, Json)>) {
    && c.name == d.name && c.key == d.key
    && Lookup(entries, c.name).Some? && FromJson(d.ty, Lookup(entries, c.name).value) == Filled(Done, c.ty)
  }

  lemma {:induction false} FieldsLoad(ds: seq<Member>, cs: seq<Member>, entries: seq<(string, Json)>)
    requires |cs| == |ds| && forall i :: 0 <= i < |cs| ==> EntryLoads(ds[i], cs[i], entries)
    ensures FieldsFromJson(ds, entries) == Filled(Done, cs)
    decreases |cs|
  {
    if cs != [] {
      FieldsLoad(ds[1..], cs[1..], entries);
      assert cs == [cs[0]] + cs[1..] && ds[0].(ty := cs[0].ty) == cs[0];
    }
  }

  lemma {:induction false} ItemsLoad(ys: seq<Ty>, xs: seq<Ty>)
    requires |xs| == |ys|
    requires forall i :: 0 <= i < |xs| ==> LoadsBack(ys[i], xs[i])
    ensures ItemsToJson(xs).Ok? && |ItemsToJson(xs).value| == |xs|
    ensures ItemsFromJson(ys, ItemsToJson(xs).value) == Filled(Done, xs)
    decreases |xs|
  {
    if xs != [] {
      ItemsLoad(ys[1..], xs[1..]);
      assert xs == [xs[0]] + xs[1..];
      assert ItemsToJson(xs).value[1..] == ItemsToJson(xs[1..]).value;
    }
  }

  lemma {:induction false} CopiesLoad(item: Ty, xs: seq<Ty>)
    requires forall i :: 0 <= i < |xs| ==> LoadsBack(item, xs[i])
    ensures ItemsToJson(xs).Ok? && CopiesFromJson(item, ItemsToJson(xs).value) == Filled(Done, xs)
    decreases |xs|
  {
    if xs != [] {
      CopiesLoad(item, xs[1..]);
      var j, js := ToJson(xs[0]).value, ItemsToJson(xs[1..]).value;
      assert ItemsToJson(xs) == Ok([j] + js);
      OneMoreCopy(item, xs[0], xs[1..], xs, j, js);
    }
  }

  lemma OneMoreCopy(item: Ty, x: Ty, xs: seq<Ty>, all: seq<Ty>, j: Json, js: seq<Json>)
    requires FromJson(item, j) == Filled(Done, x) && CopiesFromJson(item, js) == Filled(Done, xs) && all == [x] + xs
    ensures CopiesFromJson(item, [j] + js) == Filled(Done, all)
  {
    assert ([j] + js)[1..] == js;
  }

  // ----- and only then -----

  lemma {:induction false} FieldsLoadedEach(ds: seq<Member>, cs: seq<Member>, entries: seq<(string, Json)>, i: nat)
    requires |cs| == |ds| && i < |cs| && FieldsFromJson(ds, entries) == Filled(Done, cs)
    ensures Lookup(entries, ds[i].name).Some? ==>
              FromJson(ds[i].ty, Lookup(entries, ds[i].name).value) == Filled(Done, cs[i].ty)
    decreases |cs|
  {
    var q := FieldsFromJson(ds[1..], entries);
    assert cs[1..] == q.value;
    if i > 0 {
      FieldsLoadedEach(ds[1..], cs[1..], entries, i - 1);
    }
  }

  lemma {:induction false} ItemsLoadedEach(ys: seq<Ty>, xs: seq<Ty>, js: seq<Json>, i: nat)
    requires |xs| == |ys| == |js| && i < |xs| && ItemsFromJson(ys, js) == Filled(Done, xs)
    ensures FromJson(ys[i], js[i]) == Filled(Done, xs[i])
    decreases |xs|
  {
    var q := ItemsFromJson(ys[1..], js[1..]);
    assert xs[1..] == q.value;
    if i > 0 {
      ItemsLoadedEach(ys[1..], xs[1..], js[1..], i - 1);
    }
  }

  lemma {:induction false} CopiesLoadedEach(item: Ty, xs: seq<Ty>, js: seq<Json>, i: nat)
    requires |xs| == |js| && i < |xs| && CopiesFromJson(item, js) == Filled(Done, xs)
    ensures FromJson(item, js[i]) == Filled(Done, xs[i])
    decreases |xs|
  {
    var q := CopiesFromJson(item, js[1..]);
    assert xs[1..] == q.value;
    if i > 0 {
      CopiesLoadedEach(item, xs[1..], js[1..], i - 1);
    }
  }

  lemma StructUnfold(name: string, ds: seq<Member>, cs: seq<Member>)
    requires LoadsBack(Struct(name, ds), Struct(name, cs))
    ensures FieldsToJson(cs, []).Ok? && FieldsFromJson(ds, FieldsToJson(cs, []).value) == Filled(Done, cs)
  {
  }

  /** Namesakes are all loaded from the last one's JSON, so that they come back only if they are equal. */
  lemma StructLoadsBackOnly(t: Ty, v: Ty, i: nat)
    requires v.Struct? && Fits(v, t) && NamesakesShare(t) && LoadsBack(t, v) && i < |v.children|
    ensures LoadsBack(t.children[i].ty, v.children[i].ty)
    ensures v.children[i].ty == v.children[LastNamed(v.children, v.children[i].name).value].ty
  {
    var cs, ds := v.children, t.children;
    forall k | 0 <= k < |cs| ensures ToJson(cs[k].ty).Ok? { HasJson(ds[k].ty, cs[k].ty); }
    StructUnfold(v.name, ds, cs);
    var l := LastNamed(cs, cs[i].name).value;
    assert ds[i].name == ds[l].name == cs[i].name;
    assert ds[i].ty == ds[l].ty;
    NamesakesLoad(ds, cs, i, l);
  }

  lemma NamesakesLoad(ds: seq<Member>, cs: seq<Member>, i: nat, l: nat)
    requires |cs| == |ds| && i < |cs| && l < |cs| && (forall k :: 0 <= k < |cs| ==> ToJson(cs[k].ty).Ok?)
    requires FieldsToJson(cs, []).Ok? && FieldsFromJson(ds, FieldsToJson(cs, []).value) == Filled(Done, cs)
    requires LastNamed(cs, ds[i].name) == Some(l) && ds[i].name == ds[l].name && ds[i].ty == ds[l].ty
    ensures cs[i].ty == cs[l].ty && LoadsBack(ds[i].ty, cs[i].ty)
  {
    var entries := FieldsToJson(cs, []).value;
    LookupIsLast(cs, [], ds[i].name);
    FieldsLoadedEach(ds, cs, entries, i);
    FieldsLoadedEach(ds, cs, entries, l);
  }

  lemma {:induction false} LoadsBackOnly(t: Ty, v: Ty)
    requires Fits(v, t) && NamesakesShare(t) && LoadsBack(t, v)
    ensures NamesAgree(v)
    decreases v, 0
  {
    match v
    case Struct(_, cs) =>
      forall i | 0 <= i < |cs|
        ensures NamesAgree(cs[i].ty) && cs[i].ty == cs[LastNamed(cs, cs[i].name).value].ty
      {
        StructLoadsBackOnly(t, v, i);
        LoadsBackOnly(t.children[i].ty, cs[i].ty);
      }
    case Enum(_, o, cs) => EnumLoadsBackOnly(t, v);
    case Tuple(xs) =>
      forall i | 0 <= i < |xs| ensures NamesAgree(xs[i]) {
        TupleLoadsBackOnly(t, v, i);
        LoadsBackOnly(t.items[i], xs[i]);
      }
    case Array(xs) =>
      forall i | 0 <= i < |xs| ensures NamesAgree(xs[i]) {
        ArrayLoadsBackOnly(t, v, i);
        LoadsBackOnly(t.items[0], xs[i]);
      }
    case _ =>
  }

  /** An enum loads back exactly when its payload does and no earlier option has the chosen name. */
  lemma EnumLoadsIff(t: Ty, v: Ty)
    requires v.Enum? && Fits(v, t)
    ensures var o, cs := v.option.value, v.options;
            LoadsBack(t, v) <==>
            LoadsBack(t.options[o].ty, cs[o].ty) && forall i :: 0 <= i < o ==> cs[i].name != cs[o].name
  {
    var o, cs, ds := v.option.value, v.options, t.options;
    HasJson(ds[o].ty, cs[o].ty);
    if i :| 0 <= i < o && cs[i].name == cs[o].name {
      EarlierNamesakeIsLoaded(t, v, i);
    } else {
      assert Find(ds, cs[o].name) == Some(o);
      if LoadsBack(ds[o].ty, cs[o].ty) {
        EnumLoads(v.name, t.option, ds, cs, o);
      } else {
        var r := FromJson(ds[o].ty, ToJson(cs[o].ty).value);
        assert ds[o := ds[o].(ty := r.value)][o].ty == r.value;
      }
    }
  }

  lemma {:induction false} EnumLoadsBackOnly(t: Ty, v: Ty)
    requires v.Enum? && Fits(v, t) && NamesakesShare(t) && LoadsBack(t, v)
    ensures NamesAgree(v)
    decreases v.options, 1
  {
    EnumLoadsIff(t, v);
    LoadsBackOnly(t.options[v.option.value].ty, v.options[v.option.value].ty);
  }

  lemma TupleLoadsBackOnly(t: Ty, v: Ty, i: nat)
    requires v.Tuple? && Fits(v, t) && LoadsBack(t, v) && i < |v.items|
    ensures LoadsBack(t.items[i], v.items[i])
  {
    forall k | 0 <= k < |v.items| ensures ToJson(v.items[k]).Ok? { HasJson(t.items[k], v.items[k]); }
    ItemsHaveJson(v.items);
    ItemsLoadedEach(t.items, v.items, ItemsToJson(v.items).value, i);
  }

  lemma ArrayLoadsBackOnly(t: Ty, v: Ty, i: nat)
    requires v.Array? && Fits(v, t) && LoadsBack(t, v) && i < |v.items|
    ensures LoadsBack(t.items[0], v.items[i])
  {
    forall k | 0 <= k < |v.items| ensures ToJson(v.items[k]).Ok? { HasJson(t.items[0], v.items[k]); }
    ItemsHaveJson(v.items);
    CopiesLoadedEach(t.items[0], v.items, ItemsToJson(v.items).value, i);
  }

  /**
   * Where namesake members share a template, a value comes back from its JSON if and only if its namesake members
   * have equal values and no chosen option has an earlier namesake.
   */
  lemma SharedTemplatesIff(t: Ty, v: Ty)
    requires Fits(v, t) && NamesakesShare(t)
    ensures LoadsBack(t, v) <==> NamesAgree(v)
  {
    if NamesAgree(v) {
      JsonRoundTrip(t, v);
    }
    if LoadsBack(t, v) {
      LoadsBackOnly(t, v);
    }
  }

  // ----- whatever the names -----

  /** The `i`th member's value is what the JSON of the last member of its name loads as into its template. */
  ghost predicate LoadsFromLast(ds: seq<Member>, cs: seq<Member>, i: nat)
    requires i < |cs| == |ds|
  {
    var last := cs[LastNamed(cs, cs[i].name).value].ty;
    ToJson(last).Ok? && FromJson(ds[i].ty, ToJson(last).value) == Filled(Done, cs[i].ty)
  }

  /** Members load from the last of their name, which loads itself; no chosen option has an earlier namesake. */
  ghost predicate LoadsByName(t: Ty, v: Ty)
    requires Fits(v, t)
    decreases v
  {
    match v
    case Struct(_, cs) =>
      forall i :: 0 <= i < |cs| ==>
        if LastNamed(cs, cs[i].name) == Some(i) then LoadsByName(t.children[i].ty, cs[i].ty)
        else LoadsFromLast(t.children, cs, i)
    case Enum(_, o, cs) =>
      && (forall i :: 0 <= i < o.value ==> cs[i].name != cs[o.value].name)
      && LoadsByName(t.options[o.value].ty, cs[o.value].ty)
    case Tuple(xs) => forall i :: 0 <= i < |xs| ==> LoadsByName(t.items[i], xs[i])
    case Array(xs) => forall i :: 0 <= i < |xs| ==> LoadsByName(t.items[0], xs[i])
    case _ => true
  }

  lemma EntryLoadsIff(ds: seq<Member>, cs: seq<Member>, i: nat)
    requires i < |cs| == |ds| && cs[i].name == ds[i].name && cs[i].key == ds[i].key
    requires forall k :: 0 <= k < |cs| ==> ToJson(cs[k].ty).Ok?
    ensures FieldsToJson(cs, []).Ok?
    ensures LoadsFromLast(ds, cs, i) <==> EntryLoads(ds[i], cs[i], FieldsToJson(cs, []).value)
  {
    LookupIsLast(cs, [], cs[i].name);
  }

  lemma StructEntriesLoad(t: Ty, v: Ty, i: nat)
    requires v.Struct? && Fits(v, t) && LoadsBack(t, v) && i < |v.children|
    ensures LoadsFromLast(t.children, v.children, i)
  {
    var cs, ds := v.children, t.children;
    forall k | 0 <= k < |cs| ensures ToJson(cs[k].ty).Ok? { HasJson(ds[k].ty, cs[k].ty); }
    StructUnfold(v.name, ds, cs);
    LookupIsLast(cs, [], cs[i].name);
    FieldsLoadedEach(ds, cs, FieldsToJson(cs, []).value, i);
  }

  lemma StructLoadsByEntries(name: string, ds: seq<Member>, cs: seq<Member>)
    requires |cs| == |ds| && FieldsToJson(cs, []).Ok?
    requires forall i :: 0 <= i < |cs| ==> EntryLoads(ds[i], cs[i], FieldsToJson(cs, []).value)
    ensures LoadsBack(Struct(name, ds), Struct(name, cs))
  {
    FieldsLoad(ds, cs, FieldsToJson(cs, []).value);
  }

  lemma StructLoadsIff(t: Ty, v: Ty)
    requires v.Struct? && Fits(v, t)
    ensures LoadsBack(t, v) <==> forall i :: 0 <= i < |v.children| ==> LoadsFromLast(t.children, v.children, i)
  {
    var cs, ds := v.children, t.children;
    if LoadsBack(t, v) {
      forall i | 0 <= i < |cs| ensures LoadsFromLast(ds, cs, i) { StructEntriesLoad(t, v, i); }
    }
    if forall i :: 0 <= i < |cs| ==> LoadsFromLast(ds, cs, i) {
      forall k | 0 <= k < |cs| ensures ToJson(cs[k].ty).Ok? { HasJson(ds[k].ty, cs[k].ty); }
      FieldsHaveJson(cs, []);
      forall i | 0 <= i < |cs| ensures EntryLoads(ds[i], cs[i], FieldsToJson(cs, []).value) {
        EntryLoadsIff(ds, cs, i);
      }
      StructLoadsByEntries(v.name, ds, cs);
    }
  }

  lemma {:induction false} LoadsByNameIff(t: Ty, v: Ty)
    requires Fits(v, t)
    ensures LoadsBack(t, v) <==> LoadsByName(t, v)
    decreases v
  {
    match v
    case Prim(p) => PrimitiveRoundTrip(t.primitive, p);
    case Struct(_, cs) =>
      StructLoadsIff(t, v);
      var ds := t.children;
      forall i | 0 <= i < |cs| ensures LoadsBack(ds[i].ty, cs[i].ty) <==> LoadsByName(ds[i].ty, cs[i].ty) {
        LoadsByNameIff(ds[i].ty, cs[i].ty);
      }
    case Enum(_, o, cs) =>
      EnumLoadsIff(t, v);
      LoadsByNameIff(t.options[o.value].ty, cs[o.value].ty);
    case Tuple(xs) =>
      forall i | 0 <= i < |xs| ensures LoadsBack(t.items[i], xs[i]) <==> LoadsByName(t.items[i], xs[i]) {
        LoadsByNameIff(t.items[i], xs[i]);
      }
      TupleLoadsIff(t, v);
    case Array(xs) =>
      forall i | 0 <= i < |xs| ensures LoadsBack(t.items[0], xs[i]) <==> LoadsByName(t.items[0], xs[i]) {
        LoadsByNameIff(t.items[0], xs[i]);
      }
      ArrayLoadsIff(t, v);
    case ByteArray(_) =>
  }

  lemma TupleLoadsIff(t: Ty, v: Ty)
    requires v.Tuple? && Fits(v, t)
    ensures LoadsBack(t, v) <==> forall i :: 0 <= i < |v.items| ==> LoadsBack(t.items[i], v.items[i])
  {
    if forall i :: 0 <= i < |v.items| ==> LoadsBack(t.items[i], v.items[i]) {
      ItemsLoad(t.items, v.items);
    }
    if LoadsBack(t, v) {
      forall i | 0 <= i < |v.items| ensures LoadsBack(t.items[i], v.items[i]) { TupleLoadsBackOnly(t, v, i); }
    }
  }

  lemma ArrayLoadsIff(t: Ty, v: Ty)
    requires v.Array? && Fits(v, t)
    ensures LoadsBack(t, v) <==> forall i :: 0 <= i < |v.items| ==> LoadsBack(t.items[0], v.items[i])
  {
    if forall i :: 0 <= i < |v.items| ==> LoadsBack(t.items[0], v.items[i]) {
      CopiesLoad(t.items[0], v.items);
    }
    if LoadsBack(t, v) {
      forall i | 0 <= i < |v.items| ensures LoadsBack(t.items[0], v.items[i]) { ArrayLoadsBackOnly(t, v, i); }
    }
  }

  /**
   * Every value has a JSON. It comes back from it if and only if no chosen option has an earlier namesake and each
   * member that is not the last of its name is what the last one's JSON loads as into its own template.
   */
  lemma JsonRoundTripIff(t: Ty, v: Ty)
    requires Fits(v, t)
    ensures ToJson(v).Ok?
    ensures FromJson(t, ToJson(v).value) == Filled(Done, v) <==> LoadsByName(t, v)
  {
    HasJson(t, v);
    LoadsByNameIff(t, v);
  }
}
