/** What `from_json_value` makes of any JSON (crates/dojo/types/src/schema.rs). */
module JsonLoads {
  import opened Wrappers
  import opened Felts
  import opened SignedFelts
  import opened Primitives
  import opened Schema
  import opened FieldLookup
  import opened Radix
  import opened JsonCodec

  // ----- primitives -----

  /** `v` is `n` cut down to the range of the kind. */
  ghost predicate Wraps(k: Kind, n: int, v: int) {
    InRange(k, v) && (n - v) % Span(k) == 0
  }

  /** How many values the kind has. */
  ghost function Span(k: Kind): (d: int)
    ensures d > 0
  {
    if IsSigned(k) then 2 * Half(SignedSize(k)) else Limit(k)
  }

  /** The text of a felt: hexadecimal digits after a prefix, or decimal digits. */
  ghost predicate FeltText(s: string, v: int) {
    0 <= v < P && if |s| > 2 && s[..2] == "0x" then Denotes(s[2..], 16, v) else s != [] && Denotes(s, 10, v)
  }

  /** The text denotes `v`, and `v` is in range. */
  ghost predicate TextOf(k: Kind, s: string, v: int) {
    InRange(k, v) &&
    if k in {I64, I128} then SignedText(s, v)
    else if k in {U64, U128} then v >= 0 && UnsignedText(s, 10, v)
    else FeltText(s, v)
  }

  /** What follows any number of prefixes. */
  ghost predicate Trimmed(s: string, r: string) {
    && |r| <= |s| && (|s| - |r|) % 2 == 0 && s[|s| - |r|..] == r
    && (forall i :: 0 <= i < |s| - |r| ==> s[i] == "0x"[i % 2])
    && !(|r| >= 2 && r[..2] == "0x")
  }

  /** 64 hexadecimal digits after any number of prefixes. */
  ghost predicate BigText(s: string, v: int) {
    exists r :: Trimmed(s, r) && |r| == 64 && v >= 0 && Denotes(r, 16, v)
  }

  /** A primitive of kind `k` that held `was` holds `now` after loading `j`. A JSON of another sort changes nothing. */
  ghost predicate Takes(k: Kind, j: Json, was: Option<int>, now: Option<int>) {
    if k == Bool then
      now == if j.Boolean? then Some(if j.b then 1 else 0) else was
    else if k in {I8, I16, I32} then
      if !j.Number? then now == was
      else if -0x8000_0000_0000_0000 <= j.n < 0x8000_0000_0000_0000 then now.Some? && Wraps(k, j.n, now.value)
      else now == None
    else if k in {U8, U16, U32} then
      if !j.Number? then now == was
      else if 0 <= j.n < 0x1_0000_0000_0000_0000 then now.Some? && Wraps(k, j.n, now.value)
      else now == None
    else if !j.String? then now == was
    else if k == U256 then now.Some? && BigText(j.s, now.value)
    else if now.Some? then TextOf(k, j.s, now.value)
    else forall v :: !TextOf(k, j.s, v)
  }

  /** The one load of a primitive that panics. */
  ghost predicate Refuses(k: Kind, j: Json) {
    k == U256 && j.String? && forall v :: !BigText(j.s, v)
  }

  lemma SignedWraps(k: Kind, n: int)
    requires IsSigned(k)
    ensures Wraps(k, n, WrapSigned(n, Half(SignedSize(k))))
  {
    var half, d := Half(SignedSize(k)), Span(k);
    var v := WrapSigned(n, half);
    if -half <= n < half {
      WrapsInPlace(n, d);
    } else {
      WrapIsRemainder(n, half, d);
      WrapsAround(n, half, d, v);
    }
    assert (n - v) % d == 0;
  }

  lemma WrapsAround(n: int, half: int, d: int, v: int)
    requires d > 0 && v == (n + half) % d - half
    ensures (n - v) % d == 0
  {
    var w := n + half;
    ModLess(w, d);
    assert n - v == w - w % d;
  }

  lemma WrapsInPlace(n: int, d: int)
    requires d > 0
    ensures (n - n) % d == 0
  {
  }

  lemma WrapIsRemainder(n: int, half: int, d: int)
    requires half > 0 && d == 2 * half && !(-half <= n < half)
    ensures WrapSigned(n, half) == (n + half) % d - half
  {
  }

  lemma UnsignedWraps(k: Kind, n: int)
    requires !IsSigned(k)
    ensures Wraps(k, n, WrapUnsigned(n, Limit(k)))
  {
    var d := Span(k);
    if 0 <= n < d {
      WrapsInPlace(n, d);
    } else {
      ModLess(n, d);
    }
  }

  lemma ModLess(n: int, d: int)
    requires d > 0
    ensures (n - n % d) % d == 0
  {
    assert n - n % d == (n / d) * d;
    MultipleMod(n / d, d);
  }

  lemma MultipleMod(q: int, d: int)
    requires d > 0
    ensures (q * d) % d == 0
  {
    var r := (q * d) % d;
    assert q * d == ((q * d) / d) * d + r;
    assert r == (q - (q * d) / d) * d;
    if r != 0 {
      NoSmallMultiple(q - (q * d) / d, d);
    }
  }

  lemma NoSmallMultiple(k: int, d: int)
    requires d > 0
    ensures !(0 < k * d < d)
  {
  }

  lemma {:induction false} TrimIsTrimmed(s: string)
    ensures Trimmed(s, TrimHexPrefix(s))
    decreases |s|
  {
    if |s| >= 2 && s[0] == '0' && s[1] == 'x' {
      var r := TrimHexPrefix(s[2..]);
      TrimIsTrimmed(s[2..]);
      assert s[|s| - |r|..] == s[2..][|s[2..]| - |r|..];
      forall i | 0 <= i < |s| - |r| ensures s[i] == "0x"[i % 2] {
        if i >= 2 {
          assert s[i] == s[2..][i - 2] && i % 2 == (i - 2) % 2;
        }
      }
    }
  }

  lemma TrimmedOnce(s: string, r: string, q: string)
    requires Trimmed(s, r) && Trimmed(s, q)
    ensures r == q
  {
    if |r| < |q| {
      LongerStartsWithPrefix(s, r, q);
    }
    if |q| < |r| {
      LongerStartsWithPrefix(s, q, r);
    }
  }

  lemma LongerStartsWithPrefix(s: string, r: string, q: string)
    requires Trimmed(s, r) && |r| < |q| <= |s| && (|s| - |q|) % 2 == 0 && q == s[|s| - |q|..]
    ensures |q| >= 2 && q[..2] == "0x"
  {
    var at := |s| - |q|;
    assert q[0] == s[at] == "0x"[0] && q[1] == s[at + 1] == "0x"[1];
  }

  lemma BigTextIff(s: string, v: int)
    ensures BigText(s, v) <==> |TrimHexPrefix(s)| == 64 && v >= 0 && ParseDigits(TrimHexPrefix(s), 16) == Some(v)
  {
    var r := TrimHexPrefix(s);
    TrimIsTrimmed(s);
    if v >= 0 {
      ParsesIffDenotes(r, 16, v);
    }
    if BigText(s, v) {
      var q :| Trimmed(s, q) && |q| == 64 && Denotes(q, 16, v);
      TrimmedOnce(s, r, q);
    }
  }

  lemma FeltTextIff(s: string, v: int)
    ensures FeltText(s, v) <==> ParseFelt(s) == Some(v)
  {
    if v >= 0 {
      ParsesIffDenotes(s, 10, v);
      if |s| >= 2 {
        ParsesIffDenotes(s[2..], 16, v);
      }
    }
  }

  lemma TextLoads(p: Primitive, s: string)
    requires p.kind in {I64, I128, U64, U128, Felt252, ClassHash, ContractAddress, EthAddress}
    ensures var r := PrimitiveFromJson(p, String(s));
            && r.status == Done && r.value.kind == p.kind
            && forall v :: r.value.value == Some(v) <==> TextOf(p.kind, s, v)
  {
    var r := PrimitiveFromJson(p, String(s));
    forall v ensures r.value.value == Some(v) <==> TextOf(p.kind, s, v) {
      if IsSigned(p.kind) {
        ParseSignedIff(s, Half(SignedSize(p.kind)), v);
      } else if p.kind in {U64, U128} {
        if v >= 0 {
          ParseUnsignedIff(s, 10, Limit(p.kind), v);
        }
      } else {
        FeltTextIff(s, v);
      }
    }
  }

  lemma BigLoads(p: Primitive, s: string)
    requires p.kind == U256
    ensures var r := PrimitiveFromJson(p, String(s));
            && (Refuses(U256, String(s)) <==> r.status == Panicked) && (r.status == Done || r == Filled(Panicked, p))
            && (r.status == Done ==> r.value.kind == U256 && Takes(U256, String(s), p.value, r.value.value))
  {
    var digits := TrimHexPrefix(s);
    forall v ensures BigText(s, v) <==> |digits| == 64 && v >= 0 && ParseDigits(digits, 16) == Some(v) {
      BigTextIff(s, v);
    }
    if |digits| == 64 && ParseDigits(digits, 16).Some? {
      BigFits(digits);
    }
  }

  lemma BigFits(digits: string)
    requires |digits| == 64 && ParseDigits(digits, 16).Some?
    ensures ParseDigits(digits, 16).value < TWO_128 * TWO_128
  {
    HexWidth(64);
    DigitsBound(digits);
  }

  lemma {:induction false} DigitsBound(s: string)
    requires ParseDigits(s, 16).Some?
    ensures ParseDigits(s, 16).value < Pow(16, |s|)
  {
    if s != [] {
      DigitsBound(s[..|s| - 1]);
      assert Pow(16, |s|) == 16 * Pow(16, |s| - 1);
    }
  }

  /** Every JSON for a primitive either panics or leaves what it should. */
  lemma PrimitiveLoads(p: Primitive, j: Json)
    ensures var r := PrimitiveFromJson(p, j);
            && (Refuses(p.kind, j) <==> r.status == Panicked) && (r.status == Done || r == Filled(Panicked, p))
            && (r.status == Done ==> r.value.kind == p.kind && Takes(p.kind, j, p.value, r.value.value))
  {
    if j.String? && p.kind == U256 {
      BigLoads(p, j.s);
    } else if j.String? && p.kind in {I64, I128, U64, U128, Felt252, ClassHash, ContractAddress, EthAddress} {
      TextLoads(p, j.s);
    } else if j.Number? && p.kind in {I8, I16, I32} {
      SignedWraps(p.kind, j.n);
    } else if j.Number? && p.kind in {U8, U16, U32} {
      UnsignedWraps(p.kind, j.n);
    }
  }

  // ----- types -----

  /** The `k`th entry is the first under that name. */
  ghost predicate EntryFor(entries: seq<(string, Json)>, name: string, k: nat) {
    k < |entries| && entries[k].0 == name && forall i :: 0 <= i < k ==> entries[i].0 != name
  }

  ghost predicate NoEntryFor(entries: seq<(string, Json)>, name: string) {
    forall k :: 0 <= k < |entries| ==> entries[k].0 != name
  }

  /** The `o`th option is the first of that name. */
  ghost predicate OptionFor(options: seq<EnumOption>, name: string, o: nat) {
    o < |options| && options[o].name == name && forall i :: 0 <= i < o ==> options[i].name != name
  }

  /**
   * Loading `j` into `t` succeeds and leaves `r`: each member is loaded from the entry of its name, if there is one;
   * the option the first entry names is chosen, its number cut to a byte, and loaded; an array has one item per
   * element, loaded into a copy of its first; a tuple is loaded item by item.
   */
  ghost predicate LoadedAs(t: Ty, j: Json, r: Ty)
    decreases t
  {
    match (t, j)
    case (Prim(p), _) =>
      r.Prim? && r.primitive.kind == p.kind && !Refuses(p.kind, j) && Takes(p.kind, j, p.value, r.primitive.value)
    case (Struct(n, ds), Object(entries)) =>
      r.Struct? && r.name == n && |r.children| == |ds| &&
      forall i :: 0 <= i < |ds| ==>
        && r.children[i].name == ds[i].name && r.children[i].key == ds[i].key
        && (NoEntryFor(entries, ds[i].name) ==> r.children[i].ty == ds[i].ty)
        && (forall k: nat :: EntryFor(entries, ds[i].name, k) ==> LoadedAs(ds[i].ty, entries[k].1, r.children[i].ty))
    case (Enum(n, _, ds), Object(entries)) =>
      if entries == [] then r == t
      else
        exists o: nat :: OptionFor(ds, entries[0].0, o) && OptionLoadedAs(t, o % 256, entries[0].1, r)
    case (Array(items), List(js)) =>
      items != [] && r.Array? && |r.items| == |js| &&
      forall i :: 0 <= i < |js| ==> LoadedAs(items[0], js[i], r.items[i])
    case (Tuple(items), List(js)) =>
      |items| == |js| && r.Tuple? && |r.items| == |js| &&
      forall i :: 0 <= i < |js| ==> LoadedAs(items[i], js[i], r.items[i])
    case (ByteArray(_), String(text)) => r == ByteArray(text)
    case _ => false
  }

  /** Option `b` is chosen, its payload is loaded, and the other options are as they were. */
  ghost predicate OptionLoadedAs(t: Ty, b: nat, j: Json, r: Ty)
    requires t.Enum?
    decreases t, 0
  {
    && b < 256 && b < |t.options|
    && r.Enum? && r.name == t.name && r.option == Some(b) && |r.options| == |t.options|
    && r.options[b].name == t.options[b].name
    && (forall i :: 0 <= i < |t.options| && i != b ==> r.options[i] == t.options[i])
    && LoadedAs(t.options[b].ty, j, r.options[b].ty)
  }

  // ----- the loader does exactly that -----

  lemma WrapsOnce(k: Kind, n: int, v: int, w: int)
    requires Wraps(k, n, v) && Wraps(k, n, w)
    ensures v == w
  {
    var d := Span(k);
    RangeWithinSpan(k, v, w);
    SameRemainder(n, v, w, d);
  }

  lemma RangeWithinSpan(k: Kind, v: int, w: int)
    requires InRange(k, v) && InRange(k, w)
    ensures -Span(k) < v - w < Span(k)
  {
  }

  lemma SameRemainder(n: int, v: int, w: int, d: int)
    requires d > 0 && (n - v) % d == 0 && (n - w) % d == 0 && -d < v - w < d
    ensures v == w
  {
    var a, b := (n - v) / d, (n - w) / d;
    assert n - v == a * d && n - w == b * d;
    Distribute(a, b, d);
    NoSmallMultiple(b - a, d);
    NoSmallMultiple(a - b, d);
  }

  lemma Distribute(a: int, b: int, d: int)
    ensures (b - a) * d == b * d - a * d && (a - b) * d == a * d - b * d
  {
  }

  lemma TextOnce(k: Kind, s: string, v: int, w: int)
    requires k in {I64, I128, U64, U128, Felt252, ClassHash, ContractAddress, EthAddress}
    requires TextOf(k, s, v) && TextOf(k, s, w)
    ensures v == w
  {
    TextLoads(Primitive(k, None), s);
  }

  lemma TakesOnce(k: Kind, j: Json, was: Option<int>, now: Option<int>, now': Option<int>)
    requires Takes(k, j, was, now) && Takes(k, j, was, now')
    ensures now == now'
  {
    if j.Number? && k in {I8, I16, I32, U8, U16, U32} {
      if now.Some? && now'.Some? {
        WrapsOnce(k, j.n, now.value, now'.value);
      }
    } else if j.String? && k == U256 {
      BigTextIff(j.s, now.value);
      BigTextIff(j.s, now'.value);
    } else if j.String? && k in {I64, I128, U64, U128, Felt252, ClassHash, ContractAddress, EthAddress} {
      if now.Some? && now'.Some? {
        TextOnce(k, j.s, now.value, now'.value);
      }
    }
  }

  lemma PrimitiveLoadedIff(p: Primitive, j: Json, r: Ty)
    ensures FromJson(Prim(p), j) == Filled(Done, r) <==> LoadedAs(Prim(p), j, r)
  {
    PrimitiveLoads(p, j);
    var q := PrimitiveFromJson(p, j);
    if LoadedAs(Prim(p), j, r) {
      TakesOnce(p.kind, j, p.value, q.value.value, r.primitive.value);
    }
  }

  lemma {:induction false} LookupFinds(entries: seq<(string, Json)>, name: string) returns (k: nat)
    ensures Lookup(entries, name).None? ==> NoEntryFor(entries, name)
    ensures Lookup(entries, name).Some? ==> EntryFor(entries, name, k) && Lookup(entries, name).value == entries[k].1
    decreases |entries|
  {
    k := 0;
    if entries != [] && entries[0].0 != name {
      k := LookupFinds(entries[1..], name);
      assert entries == [entries[0]] + entries[1..];
      k := k + 1;
    }
  }

  /** The member is loaded from its entry, or left. */
  ghost predicate MemberDone(d: Member, entries: seq<(string, Json)>, c: Member) {
    && c.name == d.name && c.key == d.key
    && match Lookup(entries, d.name)
       case Some(j) => FromJson(d.ty, j) == Filled(Done, c.ty)
       case None => c.ty == d.ty
  }

  lemma {:induction false} FieldsDoneIff(ds: seq<Member>, entries: seq<(string, Json)>, cs: seq<Member>)
    ensures FieldsFromJson(ds, entries) == Filled(Done, cs) <==>
            |cs| == |ds| && forall i :: 0 <= i < |ds| ==> MemberDone(ds[i], entries, cs[i])
    decreases |ds|
  {
    if ds != [] && |cs| == |ds| {
      FieldsDoneIff(ds[1..], entries, cs[1..]);
      assert cs == [cs[0]] + cs[1..] && ds == [ds[0]] + ds[1..];
      FieldsDoneCons(ds, entries, cs);
    }
  }

  lemma FieldsDoneCons(ds: seq<Member>, entries: seq<(string, Json)>, cs: seq<Member>)
    requires ds != [] && |cs| == |ds|
    ensures FieldsFromJson(ds, entries) == Filled(Done, cs) <==>
            MemberDone(ds[0], entries, cs[0]) && FieldsFromJson(ds[1..], entries) == Filled(Done, cs[1..])
  {
    var found := Lookup(entries, ds[0].name);
    var r := if found.Some? then FromJson(ds[0].ty, found.value) else Filled(Done, ds[0].ty);
    var q := FieldsFromJson(ds[1..], entries);
    assert cs == [cs[0]] + cs[1..];
    if r.status == Done {
      assert FieldsFromJson(ds, entries) == Filled(q.status, [ds[0].(ty := r.value)] + q.value);
      assert ([ds[0].(ty := r.value)] + q.value)[1..] == q.value;
    }
  }

  lemma {:induction false} ItemsDoneIff(ys: seq<Ty>, js: seq<Json>, xs: seq<Ty>)
    requires |ys| == |js|
    ensures ItemsFromJson(ys, js) == Filled(Done, xs) <==>
            |xs| == |ys| && forall i :: 0 <= i < |ys| ==> FromJson(ys[i], js[i]) == Filled(Done, xs[i])
    decreases |ys|
  {
    if ys != [] && |xs| == |ys| {
      ItemsDoneIff(ys[1..], js[1..], xs[1..]);
      var q := ItemsFromJson(ys[1..], js[1..]);
      assert xs == [xs[0]] + xs[1..];
      assert forall i :: 1 <= i < |ys| ==> ys[i] == ys[1..][i - 1] && js[i] == js[1..][i - 1];
      assert forall i :: 1 <= i < |ys| ==> xs[i] == xs[1..][i - 1];
      var r := FromJson(ys[0], js[0]);
      assert ([r.value] + q.value)[1..] == q.value;
    }
  }

  lemma {:induction false} CopiesDoneIff(item: Ty, js: seq<Json>, xs: seq<Ty>)
    ensures CopiesFromJson(item, js) == Filled(Done, xs) <==>
            |xs| == |js| && forall i :: 0 <= i < |js| ==> FromJson(item, js[i]) == Filled(Done, xs[i])
    decreases |js|
  {
    if js != [] {
      var r, q := FromJson(item, js[0]), CopiesFromJson(item, js[1..]);
      if xs != [] {
        CopiesDoneIff(item, js[1..], xs[1..]);
        assert xs == [xs[0]] + xs[1..];
        assert forall i :: 1 <= i < |js| ==> js[i] == js[1..][i - 1];
        assert ([r.value] + q.value)[1..] == q.value;
      }
    }
  }

  /** A load succeeds, and leaves `r`, exactly as described. */
  lemma {:induction false} LoadedIff(t: Ty, j: Json, r: Ty)
    ensures FromJson(t, j) == Filled(Done, r) <==> LoadedAs(t, j, r)
    decreases t
  {
    match (t, j)
    case (Prim(p), _) => PrimitiveLoadedIff(p, j, r);
    case (Struct(_, ds), Object(entries)) => StructLoadedIff(t, entries, r);
    case (Enum(_, _, ds), Object(entries)) => EnumLoadedIff(t, entries, r);
    case (Array(items), List(js)) =>
      if items != [] && r.Array? {
        CopiesDoneIff(items[0], js, r.items);
        if |r.items| == |js| {
          forall i | 0 <= i < |js|
            ensures FromJson(items[0], js[i]) == Filled(Done, r.items[i]) <==> LoadedAs(items[0], js[i], r.items[i])
          {
            LoadedIff(items[0], js[i], r.items[i]);
          }
        }
      }
    case (Tuple(items), List(js)) =>
      if |items| == |js| && r.Tuple? {
        ItemsDoneIff(items, js, r.items);
        if |r.items| == |js| {
          forall i | 0 <= i < |js|
            ensures FromJson(items[i], js[i]) == Filled(Done, r.items[i]) <==> LoadedAs(items[i], js[i], r.items[i])
          {
            LoadedIff(items[i], js[i], r.items[i]);
          }
        }
      }
    case _ =>
  }

  lemma {:induction false} StructLoadedIff(t: Ty, entries: seq<(string, Json)>, r: Ty)
    requires t.Struct?
    ensures FromJson(t, Object(entries)) == Filled(Done, r) <==> LoadedAs(t, Object(entries), r)
    decreases t.children, 0
  {
    if r.Struct? && r.name == t.name && |r.children| == |t.children| {
      var ds, cs := t.children, r.children;
      FieldsDoneIff(ds, entries, cs);
      forall i | 0 <= i < |ds| ensures MemberDone(ds[i], entries, cs[i]) <==> MemberLoadedAs(ds[i], entries, cs[i]) {
        var k := LookupFinds(entries, ds[i].name);
        if Lookup(entries, ds[i].name).Some? {
          LoadedIff(ds[i].ty, entries[k].1, cs[i].ty);
          assert forall l: nat :: EntryFor(entries, ds[i].name, l) ==> l == k;
        }
      }
      assert LoadedAs(t, Object(entries), r) <==> forall i :: 0 <= i < |ds| ==> MemberLoadedAs(ds[i], entries, cs[i]);
    }
  }

  ghost predicate MemberLoadedAs(d: Member, entries: seq<(string, Json)>, c: Member) {
    && c.name == d.name && c.key == d.key
    && (NoEntryFor(entries, d.name) ==> c.ty == d.ty)
    && (forall k: nat :: EntryFor(entries, d.name, k) ==> LoadedAs(d.ty, entries[k].1, c.ty))
  }

  lemma {:induction false} EnumLoadedIff(t: Ty, entries: seq<(string, Json)>, r: Ty)
    requires t.Enum?
    ensures FromJson(t, Object(entries)) == Filled(Done, r) <==> LoadedAs(t, Object(entries), r)
    decreases t.options, 0
  {
    var ds := t.options;
    if entries != [] {
      var at := Find(ds, entries[0].0);
      if at.Some? {
        var b := at.value % 256;
        assert OptionFor(ds, entries[0].0, at.value);
        assert forall o: nat :: OptionFor(ds, entries[0].0, o) ==> o == at.value;
        if r.Enum? && b < |r.options| {
          LoadedIff(ds[b].ty, entries[0].1, r.options[b].ty);
        }
        OptionDoneIff(t, b, entries[0].1, r);
      }
    }
  }

  lemma OptionDoneIff(t: Ty, b: nat, j: Json, r: Ty)
    requires t.Enum? && b < 256 && b < |t.options|
    requires r.Enum? && b < |r.options| ==>
               (FromJson(t.options[b].ty, j) == Filled(Done, r.options[b].ty)
                <==> LoadedAs(t.options[b].ty, j, r.options[b].ty))
    ensures var q := FromJson(t.options[b].ty, j);
            Filled(q.status, Enum(t.name, Some(b), t.options[b := t.options[b].(ty := q.value)])) == Filled(Done, r)
            <==> OptionLoadedAs(t, b, j, r)
  {
    var q := FromJson(t.options[b].ty, j);
    var made := t.options[b := t.options[b].(ty := q.value)];
    if OptionLoadedAs(t, b, j, r) {
      assert r.options[b].key == () == t.options[b].key;
      assert r.options == made;
    }
  }

  // ----- and stops where it should -----

  ghost predicate Loads(t: Ty, j: Json) {
    exists r :: LoadedAs(t, j, r)
  }

  lemma LoadsIff(t: Ty, j: Json)
    ensures Loads(t, j) <==> FromJson(t, j).status == Done
  {
    if FromJson(t, j).status == Done {
      LoadedIff(t, j, FromJson(t, j).value);
    }
    if r :| LoadedAs(t, j, r) {
      LoadedIff(t, j, r);
    }
  }

  /** An entry of the member's name, if there is one, loads. */
  ghost predicate Passes(d: Member, entries: seq<(string, Json)>) {
    forall k: nat :: EntryFor(entries, d.name, k) ==> Loads(d.ty, entries[k].1)
  }

  /**
   * Loading `j` into `t` does not succeed and stops as `st` says, at the first part that does not load: a 256-bit
   * integer or an array without an item panics, a JSON of the wrong sort, length or option is a mismatch.
   */
  ghost predicate StopsAs(t: Ty, j: Json, st: Status)
    decreases t
  {
    match (t, j)
    case (Prim(p), _) => st == Panicked && Refuses(p.kind, j)
    case (Struct(_, ds), Object(entries)) =>
      exists i :: 0 <= i < |ds| && (forall k :: 0 <= k < i ==> Passes(ds[k], entries))
                  && MemberStops(ds[i], entries, st)
    case (Enum(_, _, ds), Object(entries)) =>
      entries != [] &&
      if forall o :: 0 <= o < |ds| ==> ds[o].name != entries[0].0 then st == Failed(TypeMismatch)
      else
        exists o: nat :: OptionFor(ds, entries[0].0, o) && o % 256 < |ds| && StopsAs(ds[o % 256].ty, entries[0].1, st)
    case (Array(items), List(js)) =>
      if items == [] then st == Panicked
      else
        exists i :: 0 <= i < |js| && (forall k :: 0 <= k < i ==> Loads(items[0], js[k]))
                    && StopsAs(items[0], js[i], st)
    case (Tuple(items), List(js)) =>
      if |items| != |js| then st == Failed(TypeMismatch)
      else
        exists i :: 0 <= i < |js| && (forall k :: 0 <= k < i ==> Loads(items[k], js[k]))
                    && StopsAs(items[i], js[i], st)
    case (ByteArray(_), String(_)) => false
    case _ => st == Failed(TypeMismatch)
  }

  /** The entry of the member's name stops as `st` says. */
  ghost predicate MemberStops(d: Member, entries: seq<(string, Json)>, st: Status)
    decreases d
  {
    exists k: nat :: EntryFor(entries, d.name, k) && StopsAs(d.ty, entries[k].1, st)
  }

  ghost function MemberStatus(d: Member, entries: seq<(string, Json)>): (st: Status) {
    match Lookup(entries, d.name)
    case Some(j) => FromJson(d.ty, j).status
    case None => Done
  }

  lemma {:induction false} FieldsStopFirst(ds: seq<Member>, entries: seq<(string, Json)>) returns (n: nat)
    ensures n <= |ds| && forall k :: 0 <= k < n ==> MemberStatus(ds[k], entries) == Done
    ensures n < |ds| ==> MemberStatus(ds[n], entries) == FieldsFromJson(ds, entries).status != Done
    ensures n == |ds| ==> FieldsFromJson(ds, entries).status == Done
  {
    n := 0;
    if ds != [] && MemberStatus(ds[0], entries) == Done {
      n := FieldsStopFirst(ds[1..], entries);
      assert ds == [ds[0]] + ds[1..];
      n := n + 1;
    }
  }

  lemma {:induction false} ItemsStopFirst(ys: seq<Ty>, js: seq<Json>) returns (n: nat)
    requires |ys| == |js|
    ensures n <= |ys| && forall k :: 0 <= k < n ==> FromJson(ys[k], js[k]).status == Done
    ensures n < |ys| ==> FromJson(ys[n], js[n]).status == ItemsFromJson(ys, js).status != Done
    ensures n == |ys| ==> ItemsFromJson(ys, js).status == Done
  {
    n := 0;
    if ys != [] && FromJson(ys[0], js[0]).status == Done {
      n := ItemsStopFirst(ys[1..], js[1..]);
      assert ys == [ys[0]] + ys[1..] && js == [js[0]] + js[1..];
      n := n + 1;
    }
  }

  lemma {:induction false} CopiesStopFirst(item: Ty, js: seq<Json>) returns (n: nat)
    ensures n <= |js| && forall k :: 0 <= k < n ==> FromJson(item, js[k]).status == Done
    ensures n < |js| ==> FromJson(item, js[n]).status == CopiesFromJson(item, js).status != Done
    ensures n == |js| ==> CopiesFromJson(item, js).status == Done
  {
    n := 0;
    if js != [] && FromJson(item, js[0]).status == Done {
      n := CopiesStopFirst(item, js[1..]);
      assert js == [js[0]] + js[1..];
      n := n + 1;
    }
  }

  lemma MemberPassesIff(d: Member, entries: seq<(string, Json)>)
    ensures Passes(d, entries) <==> MemberStatus(d, entries) == Done
  {
    var k := LookupFinds(entries, d.name);
    if Lookup(entries, d.name).Some? {
      LoadsIff(d.ty, entries[k].1);
      assert forall l: nat :: EntryFor(entries, d.name, l) ==> l == k;
    }
  }

  /** A load that does not succeed stops exactly as described. */
  lemma {:induction false} StopsIff(t: Ty, j: Json, st: Status)
    requires st != Done
    ensures FromJson(t, j).status == st <==> StopsAs(t, j, st)
    decreases t
  {
    match (t, j)
    case (Prim(p), _) => PrimitiveLoads(p, j);
    case (Struct(_, ds), Object(entries)) => StructStopsIff(t, entries, st);
    case (Enum(_, _, ds), Object(entries)) =>
      if entries != [] {
        var at := Find(ds, entries[0].0);
        if at.Some? {
          assert OptionFor(ds, entries[0].0, at.value);
          assert forall o: nat :: OptionFor(ds, entries[0].0, o) ==> o == at.value;
          StopsIff(ds[at.value % 256].ty, entries[0].1, st);
        }
      }
    case (Array(items), List(js)) =>
      if items != [] {
        ArrayStopsIff(items, js, st);
      }
    case (Tuple(items), List(js)) =>
      if |items| == |js| {
        TupleStopsIff(items, js, st);
      }
    case _ =>
  }

  lemma ArrayStatus(items: seq<Ty>, js: seq<Json>)
    requires items != []
    ensures FromJson(Array(items), List(js)).status == CopiesFromJson(items[0], js).status
  {
  }

  lemma {:induction false} ArrayStopsIff(items: seq<Ty>, js: seq<Json>, st: Status)
    requires items != [] && st != Done
    ensures FromJson(Array(items), List(js)).status == st <==> StopsAs(Array(items), List(js), st)
    decreases items, 0
  {
    var n := CopiesStopFirst(items[0], js);
    ArrayStatus(items, js);
    forall k | 0 <= k < |js|
      ensures Loads(items[0], js[k]) <==> FromJson(items[0], js[k]).status == Done
      ensures FromJson(items[0], js[k]).status == st <==> StopsAs(items[0], js[k], st)
    {
      LoadsIff(items[0], js[k]);
      StopsIff(items[0], js[k], st);
    }
  }

  lemma {:induction false} TupleStopsIff(items: seq<Ty>, js: seq<Json>, st: Status)
    requires |items| == |js| && st != Done
    ensures FromJson(Tuple(items), List(js)).status == st <==> StopsAs(Tuple(items), List(js), st)
    decreases items, 0
  {
    var n := ItemsStopFirst(items, js);
    forall k | 0 <= k < |js|
      ensures Loads(items[k], js[k]) <==> FromJson(items[k], js[k]).status == Done
      ensures FromJson(items[k], js[k]).status == st <==> StopsAs(items[k], js[k], st)
    {
      LoadsIff(items[k], js[k]);
      StopsIff(items[k], js[k], st);
    }
  }

  lemma {:induction false} StructStopsIff(t: Ty, entries: seq<(string, Json)>, st: Status)
    requires t.Struct? && st != Done
    ensures FromJson(t, Object(entries)).status == st <==> StopsAs(t, Object(entries), st)
    decreases t.children, 0
  {
    var ds := t.children;
    var n := FieldsStopFirst(ds, entries);
    forall i | 0 <= i < |ds|
      ensures Passes(ds[i], entries) <==> MemberStatus(ds[i], entries) == Done
      ensures MemberStops(ds[i], entries, st) <==> MemberStatus(ds[i], entries) == st
    {
      MemberPassesIff(ds[i], entries);
      MemberStopsIff(ds[i], entries, st);
    }
  }

  lemma {:induction false} MemberStopsIff(d: Member, entries: seq<(string, Json)>, st: Status)
    requires st != Done
    ensures MemberStops(d, entries, st) <==> MemberStatus(d, entries) == st
    decreases d
  {
    var k := LookupFinds(entries, d.name);
    if Lookup(entries, d.name).Some? {
      StopsIff(d.ty, entries[k].1, st);
      assert forall l: nat :: EntryFor(entries, d.name, l) ==> l == k;
    }
  }
}
