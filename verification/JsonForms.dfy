/** What the JSON of a value looks like, and what the loader makes of any JSON (crates/dojo/types/src/schema.rs). */
module JsonForms {
  import opened Wrappers
  import opened Felts
  import opened Primitives
  import opened Schema
  import opened FieldLookup
  import opened Radix
  import opened JsonCodec

  // ----- what is written -----

  /** "0x" and hexadecimal digits. */
  ghost predicate HexText(s: string, v: int) {
    |s| >= 2 && s[..2] == "0x" && v >= 0 && Denotes(s[2..], 16, v)
  }

  /** The JSON of a primitive value. */
  ghost predicate Shown(k: Kind, v: int, j: Json) {
    match k
    case Bool => j == Boolean(v == 1)
    case I8 => j == Number(v)
    case I16 => j == Number(v)
    case I32 => j == Number(v)
    case U8 => j == Number(v)
    case U16 => j == Number(v)
    case U32 => j == Number(v)
    case I64 => j.String? && ShortestDecimal(j.s, v)
    case I128 => j.String? && ShortestDecimal(j.s, v)
    case U64 => j.String? && ShortestDecimal(j.s, v)
    case U128 => j.String? && ShortestDecimal(j.s, v)
    case U256 => j.String? && HexText(j.s, v) && LowerCase(j.s[2..]) && |j.s| == 66
    case Felt252 => j.String? && HexText(j.s, v) && Shortest(j.s[2..])
    case ClassHash => j.String? && HexText(j.s, v) && Shortest(j.s[2..])
    case ContractAddress => j.String? && HexText(j.s, v) && Shortest(j.s[2..])
    case EthAddress => j.String? && HexText(j.s, v) && Shortest(j.s[2..])
  }

  /** A minus sign if it is needed, and the shortest decimal digits. */
  ghost predicate ShortestDecimal(s: string, v: int) {
    if v < 0 then s != [] && s[0] == '-' && Shortest(s[1..]) && Denotes(s[1..], 10, -v)
    else Shortest(s) && Denotes(s, 10, v)
  }

  lemma PrimitiveIsShown(p: Primitive)
    ensures p.value.None? ==> PrimitiveToJson(p) == Err(MissingFieldElement)
    ensures p.value.Some? ==> PrimitiveToJson(p).Ok? && Shown(p.kind, p.value.value, PrimitiveToJson(p).value)
  {
    if p.value.Some? {
      var v := p.value.value;
      if p.kind in {I64, I128, U64, U128} {
        DecimalIsShortest(v);
      } else if p.kind == U256 {
        HexWidth(64);
        ParsePrintHex(v, 64);
        ParsesIffDenotes(PrintHex(v, 64), 16, v);
        PrintHexIsLower(v, 64);
        HexPrefix(PrintHex(v, 64));
      } else if p.kind in {Felt252, ClassHash, ContractAddress, EthAddress} {
        PrintIsShortest(v, 16);
        HexPrefix(Print(v, 16));
      }
    }
  }

  lemma DecimalIsShortest(v: int)
    ensures ShortestDecimal(PrintSigned(v), v) && (v >= 0 ==> PrintSigned(v) == Print(v, 10))
  {
    if v < 0 {
      PrintIsShortest(-v, 10);
      assert PrintSigned(v)[1..] == Print(-v, 10);
    } else {
      PrintIsShortest(v, 10);
    }
  }

  lemma HexPrefix(digits: string)
    ensures ("0x" + digits)[..2] == "0x" && ("0x" + digits)[2..] == digits
  {
  }

  ghost predicate LastOfName(cs: seq<Member>, i: nat)
    requires i < |cs|
  {
    forall k :: i < k < |cs| ==> cs[k].name != cs[i].name
  }

  ghost predicate OneEntryPerName(entries: seq<(string, Json)>) {
    forall i, k :: 0 <= i < k < |entries| ==> entries[i].0 != entries[k].0
  }

  ghost predicate HasEntry(entries: seq<(string, Json)>, name: string) {
    exists k :: 0 <= k < |entries| && entries[k].0 == name
  }

  /**
   * `j` is the JSON of `v`: an object with one entry per member name, for the last member of the name; an object with
   * one entry for the chosen option; a list with one element per item.
   */
  ghost predicate Depicts(v: Ty, j: Json)
    decreases v
  {
    match (v, j)
    case (Prim(p), _) => p.value.Some? && Shown(p.kind, p.value.value, j)
    case (Struct(_, cs), Object(entries)) =>
      && OneEntryPerName(entries) && (forall c <- cs :: HasEntry(entries, c.name))
      && forall k :: 0 <= k < |entries| ==>
           exists i :: 0 <= i < |cs| && cs[i].name == entries[k].0 && LastOfName(cs, i)
                       && Depicts(cs[i].ty, entries[k].1)
    case (Enum(_, o, cs), Object(entries)) =>
      && o.Some? && o.value < |cs| && |entries| == 1
      && entries[0].0 == cs[o.value].name && Depicts(cs[o.value].ty, entries[0].1)
    case (Tuple(xs), List(js)) => |js| == |xs| && forall i :: 0 <= i < |xs| ==> Depicts(xs[i], js[i])
    case (Array(xs), List(js)) => |js| == |xs| && forall i :: 0 <= i < |xs| ==> Depicts(xs[i], js[i])
    case (ByteArray(bytes), String(s)) => s == bytes
    case _ => false
  }

  /** Every primitive and enum that is written is set. */
  ghost predicate IsSet(v: Ty) {
    match v
    case Prim(p) => p.value.Some?
    case Struct(_, cs) => forall i :: 0 <= i < |cs| ==> IsSet(cs[i].ty)
    case Enum(_, o, cs) => o.Some? && o.value < |cs| && IsSet(cs[o.value].ty)
    case Tuple(xs) => forall i :: 0 <= i < |xs| ==> IsSet(xs[i])
    case Array(xs) => forall i :: 0 <= i < |xs| ==> IsSet(xs[i])
    case ByteArray(_) => true
  }

  /** What is set has a JSON, and that is the one it should be; for anything else the error says a value is missing. */
  lemma {:induction false} JsonShows(v: Ty)
    ensures IsSet(v) ==> ToJson(v).Ok? && Depicts(v, ToJson(v).value)
    ensures !IsSet(v) ==> ToJson(v) == Err(MissingFieldElement)
    decreases v
  {
    match v
    case Prim(p) => PrimitiveIsShown(p);
    case Struct(_, cs) =>
      forall i | 0 <= i < |cs|
        ensures IsSet(cs[i].ty) ==> ToJson(cs[i].ty).Ok? && Depicts(cs[i].ty, ToJson(cs[i].ty).value)
        ensures !IsSet(cs[i].ty) ==> ToJson(cs[i].ty) == Err(MissingFieldElement)
      {
        JsonShows(cs[i].ty);
      }
      if IsSet(v) {
        StructShows(v.name, cs);
      } else {
        FieldsMissing(cs, []);
      }
    case Enum(_, o, cs) =>
      if o.Some? && o.value < |cs| {
        JsonShows(cs[o.value].ty);
      }
    case Tuple(xs) => ItemsShow(xs, v);
    case Array(xs) => ItemsShow(xs, v);
    case ByteArray(_) =>
  }

  lemma {:induction false} ItemsShow(xs: seq<Ty>, v: Ty)
    requires v == Tuple(xs) || v == Array(xs)
    ensures IsSet(v) ==> ToJson(v).Ok? && Depicts(v, ToJson(v).value)
    ensures !IsSet(v) ==> ToJson(v) == Err(MissingFieldElement)
    decreases xs, 0
  {
    forall i | 0 <= i < |xs|
      ensures IsSet(xs[i]) ==> ToJson(xs[i]).Ok? && Depicts(xs[i], ToJson(xs[i]).value)
      ensures !IsSet(xs[i]) ==> ToJson(xs[i]) == Err(MissingFieldElement)
    {
      JsonShows(xs[i]);
    }
    if IsSet(v) {
      ItemsHaveJson(xs);
    } else {
      ItemsMissing(xs);
    }
  }

  lemma {:induction false} ItemsMissing(xs: seq<Ty>)
    requires forall i :: 0 <= i < |xs| ==> ToJson(xs[i]).Ok? || ToJson(xs[i]) == Err(MissingFieldElement)
    requires exists i :: 0 <= i < |xs| && !ToJson(xs[i]).Ok?
    ensures ItemsToJson(xs) == Err(MissingFieldElement)
    decreases |xs|
  {
    if ToJson(xs[0]).Ok? {
      var i :| 0 <= i < |xs| && !ToJson(xs[i]).Ok?;
      assert xs[1..][i - 1] == xs[i];
      ItemsMissing(xs[1..]);
    }
  }

  lemma {:induction false} FieldsMissing(cs: seq<Member>, entries: seq<(string, Json)>)
    requires forall i :: 0 <= i < |cs| ==> ToJson(cs[i].ty).Ok? || ToJson(cs[i].ty) == Err(MissingFieldElement)
    requires exists i :: 0 <= i < |cs| && !ToJson(cs[i].ty).Ok?
    ensures FieldsToJson(cs, entries) == Err(MissingFieldElement)
    decreases |cs|
  {
    if ToJson(cs[0].ty).Ok? {
      var i :| 0 <= i < |cs| && !ToJson(cs[i].ty).Ok?;
      assert cs[1..][i - 1] == cs[i];
      FieldsMissing(cs[1..], Insert(entries, cs[0].name, ToJson(cs[0].ty).value));
    }
  }

  lemma {:induction false} InsertedKeys(entries: seq<(string, Json)>, key: string, value: Json, k: nat)
    requires k < |Insert(entries, key, value)|
    ensures Insert(entries, key, value)[k].0 == key || HasEntry(entries, Insert(entries, key, value)[k].0)
    decreases |entries|
  {
    var r := Insert(entries, key, value);
    if entries != [] {
      if k == 0 {
        assert entries[0].0 == r[0].0;
      } else if entries[0].0 == key {
        assert entries[k] == r[k];
      } else {
        InsertedKeys(entries[1..], key, value, k - 1);
        if HasEntry(entries[1..], r[k].0) {
          var i :| 0 <= i < |entries[1..]| && entries[1..][i].0 == r[k].0;
          assert entries[i + 1].0 == r[k].0;
        }
      }
    }
  }

  lemma {:induction false} InsertKeepsOne(entries: seq<(string, Json)>, key: string, value: Json)
    requires OneEntryPerName(entries)
    ensures OneEntryPerName(Insert(entries, key, value))
    decreases |entries|
  {
    if entries != [] && entries[0].0 != key {
      var more := Insert(entries[1..], key, value);
      InsertKeepsOne(entries[1..], key, value);
      forall k | 0 <= k < |more| ensures more[k].0 != entries[0].0 {
        InsertedKeys(entries[1..], key, value, k);
      }
    }
  }

  lemma {:induction false} FieldsKeepOne(cs: seq<Member>, entries: seq<(string, Json)>)
    requires OneEntryPerName(entries) && FieldsToJson(cs, entries).Ok?
    ensures OneEntryPerName(FieldsToJson(cs, entries).value)
    decreases |cs|
  {
    if cs != [] {
      var j := ToJson(cs[0].ty).value;
      InsertKeepsOne(entries, cs[0].name, j);
      FieldsKeepOne(cs[1..], Insert(entries, cs[0].name, j));
    }
  }

  lemma {:induction false} LookupAt(entries: seq<(string, Json)>, k: nat)
    requires OneEntryPerName(entries) && k < |entries|
    ensures Lookup(entries, entries[k].0) == Some(entries[k].1)
    decreases k
  {
    if k > 0 {
      LookupAt(entries[1..], k - 1);
    }
  }

  lemma StructShows(name: string, cs: seq<Member>)
    requires forall i :: 0 <= i < |cs| ==> ToJson(cs[i].ty).Ok? && Depicts(cs[i].ty, ToJson(cs[i].ty).value)
    ensures ToJson(Struct(name, cs)).Ok? && Depicts(Struct(name, cs), ToJson(Struct(name, cs)).value)
  {
    FieldsHaveJson(cs, []);
    FieldsKeepOne(cs, []);
    var entries := FieldsToJson(cs, []).value;
    forall c <- cs ensures HasEntry(entries, c.name) {
      LookupIsLast(cs, [], c.name);
    }
    forall k | 0 <= k < |entries|
      ensures exists i :: 0 <= i < |cs| && cs[i].name == entries[k].0 && LastOfName(cs, i)
                          && Depicts(cs[i].ty, entries[k].1)
    {
      LookupIsLast(cs, [], entries[k].0);
      LookupAt(entries, k);
      var i := LastNamed(cs, entries[k].0).value;
      assert LastOfName(cs, i);
    }
  }
}
