/** Which felts describe which type, and how the parser fails on all others (crates/dojo/types/src/packing.rs). */
module SchemaGrammar {
  import opened Wrappers
  import opened Felts
  import opened Primitives
  import opened Schema
  import opened ShortStrings
  import opened SchemaParser

  // ----- what describes a type -----

  /** The felt of a short string. */
  ghost predicate Names(x: Felt, s: string) {
    NameOk(s) && x == ToFelt(s)
  }

  /** A name, a number of attributes and the attributes, and a count; what the header is for starts at `at`. */
  ghost predicate HeaderOf(data: seq<Felt>, name: string, count: nat, at: nat) {
    && |data| >= 3 && Names(data[0], name) && data[1] < U32_LIMIT
    && at == 3 + data[1] <= |data| && data[at - 1] == count < U32_LIMIT
  }

  /**
   * The felts describe the type: a tag, and what that kind of type needs. Felts left over are ignored, except in an
   * array.
   */
  ghost predicate Describes(data: seq<Felt>, t: Ty)
    decreases |data|, 1
  {
    data != [] &&
    match t
    case Prim(p) => p.value.None? && |data| >= 2 && data[0] == 0 && Names(data[1], KindName(p.kind))
    case Struct(name, ms) =>
      data[0] == 1 &&
      exists at: nat :: HeaderOf(data[1..], name, |ms|, at) && MembersDescribed(data[1..][at..], ms)
    case Enum(name, o, os) =>
      data[0] == 2 && o.None? &&
      exists at: nat :: HeaderOf(data[1..], name, |os|, at) && OptionsDescribed(data[1..][at..], os)
    case Tuple(xs) =>
      data[0] == 3 &&
      if |data| == 1 then xs == [] else data[1] == |xs| < U32_LIMIT && ItemsDescribed(data[2..], xs)
    case Array(xs) =>
      |data| == 3 && data[0] == 4 && |xs| == 1
      && ((data[2] == 3 && xs[0] == Tuple([])) || (data[2] == 5 && xs[0] == ByteArray("")))
    case ByteArray(s) => data[0] == 5 && s == ""
  }

  /** Each member has a slice of its own, behind the length of the slice. */
  ghost predicate MembersDescribed(data: seq<Felt>, ms: seq<Member>)
    decreases |data|, 2
  {
    ms != [] ==>
      && data != [] && data[0] < U32_LIMIT && 1 + data[0] <= |data|
      && MemberDescribed(data[1..1 + data[0]], ms[0]) && MembersDescribed(data[1 + data[0]..], ms[1..])
  }

  /** The name, the attributes, among which `key` makes the member a key, and the type. */
  ghost predicate MemberDescribed(slice: seq<Felt>, m: Member)
    decreases |slice|, 1
  {
    && |slice| >= 3 && Names(slice[0], m.name) && slice[1] < U32_LIMIT && 2 + slice[1] <= |slice|
    && (m.key <==> ToFelt("key") in slice[2..2 + slice[1]])
    && Describes(slice[2 + slice[1]..], m.ty)
  }

  /** The name, a felt that is ignored, the type, whose length stands one felt into it, and a felt that is skipped. */
  ghost predicate OptionsDescribed(data: seq<Felt>, os: seq<EnumOption>)
    decreases |data|, 2
  {
    os != [] ==>
      && |data| >= 4 && Names(data[0], os[0].name) && data[3] < U32_LIMIT - 1 && 3 + data[3] <= |data|
      && Describes(data[2..3 + data[3]], os[0].ty)
      && OptionsDescribed(if 4 + data[3] <= |data| then data[4 + data[3]..] else [], os[1..])
  }

  /** Each item has a slice of its own, behind the length of the slice. */
  ghost predicate ItemsDescribed(data: seq<Felt>, xs: seq<Ty>)
    decreases |data|, 2
  {
    xs != [] ==>
      && data != [] && data[0] < U32_LIMIT && 1 + data[0] <= |data|
      && Describes(data[1..1 + data[0]], xs[0]) && ItemsDescribed(data[1 + data[0]..], xs[1..])
  }

  // ----- what is described is parsed, and nothing else -----

  lemma NamesIff(x: Felt, s: string)
    ensures ParseName(x) == Ok(s) <==> Names(x, s)
  {
    ShortStringBijection(x, s);
  }

  lemma KindNamed(s: string, k: Kind)
    ensures KindOfName(s) == Some(k) <==> s == KindName(k)
  {
    KindNameParses(k);
  }

  lemma SimpleIff(data: seq<Felt>, t: Ty)
    requires data != [] && data[0] == 0
    ensures ParseTy(data) == Ok(t) <==> Describes(data, t)
  {
    if |data| >= 2 {
      var name := ParseName(data[1]);
      if name.Ok? {
        NamesIff(data[1], name.value);
      }
      if t.Prim? {
        NamesIff(data[1], KindName(t.primitive.kind));
        KindNamed(KindName(t.primitive.kind), t.primitive.kind);
      }
    }
  }

  lemma HeaderIff(data: seq<Felt>, name: string, count: nat, at: nat)
    ensures HeaderOf(data, name, count, at) <==>
            at <= |data| && ParseHeader(data) == Ok(Header(name, count, data[at..])) && |data| >= 3 && at == 3 + data[1]
  {
    if data != [] {
      NamesIff(data[0], name);
    }
  }

  /** The parser gives a type exactly for the felts that describe it. */
  lemma {:induction false} ParsesIffDescribed(data: seq<Felt>, t: Ty)
    ensures ParseTy(data) == Ok(t) <==> Describes(data, t)
    decreases |data|, 1
  {
    if data != [] {
      if data[0] == 0 {
        SimpleIff(data, t);
      } else if data[0] == 1 {
        StructIff(data, t);
      } else if data[0] == 2 {
        EnumIff(data, t);
      } else if data[0] == 3 {
        TupleIff(data, t);
      } else if data[0] == 4 {
        ArrayIff(data, t);
      }
    }
  }

  lemma StructUnfolds(data: seq<Felt>, t: Ty)
    requires data != [] && data[0] == 1
    ensures var h := ParseHeader(data[1..]);
            ParseTy(data) == Ok(t) <==>
            && h.Ok? && t.Struct? && t.name == h.value.name
            && ParseMembers(h.value.rest, h.value.count) == Ok(t.children)
  {
    assert ParseTy(data) == ParseStruct(data[1..]);
  }

  lemma EnumUnfolds(data: seq<Felt>, t: Ty)
    requires data != [] && data[0] == 2
    ensures var h := ParseHeader(data[1..]);
            ParseTy(data) == Ok(t) <==>
            && h.Ok? && t.Enum? && t.name == h.value.name && t.option.None?
            && ParseOptions(h.value.rest, h.value.count) == Ok(t.options)
  {
    assert ParseTy(data) == ParseEnum(data[1..]);
  }

  lemma {:induction false} StructIff(data: seq<Felt>, t: Ty)
    requires data != [] && data[0] == 1
    ensures ParseTy(data) == Ok(t) <==> Describes(data, t)
    decreases |data|, 0
  {
    var rest := data[1..];
    StructUnfolds(data, t);
    if t.Struct? {
      if ParseTy(data) == Ok(t) {
        var h := ParseHeader(rest).value;
        MembersIff(h.rest, h.count, t.children);
        HeaderIff(rest, h.name, h.count, 3 + rest[1]);
        assert HeaderOf(rest, t.name, |t.children|, 3 + rest[1]);
      }
      forall at: nat | HeaderOf(rest, t.name, |t.children|, at)
        ensures ParseTy(data) == Ok(t) <==> MembersDescribed(rest[at..], t.children)
      {
        HeaderIff(rest, t.name, |t.children|, at);
        MembersIff(rest[at..], |t.children|, t.children);
      }
    }
  }

  lemma {:induction false} EnumIff(data: seq<Felt>, t: Ty)
    requires data != [] && data[0] == 2
    ensures ParseTy(data) == Ok(t) <==> Describes(data, t)
    decreases |data|, 0
  {
    var rest := data[1..];
    EnumUnfolds(data, t);
    if t.Enum? {
      if ParseTy(data) == Ok(t) {
        var h := ParseHeader(rest).value;
        OptionsIff(h.rest, h.count, t.options);
        HeaderIff(rest, h.name, h.count, 3 + rest[1]);
        assert HeaderOf(rest, t.name, |t.options|, 3 + rest[1]);
      }
      forall at: nat | HeaderOf(rest, t.name, |t.options|, at) && t.option.None?
        ensures ParseTy(data) == Ok(t) <==> OptionsDescribed(rest[at..], t.options)
      {
        HeaderIff(rest, t.name, |t.options|, at);
        OptionsIff(rest[at..], |t.options|, t.options);
      }
    }
  }

  lemma ArrayIff(data: seq<Felt>, t: Ty)
    requires data != [] && data[0] == 4
    ensures ParseTy(data) == Ok(t) <==> Describes(data, t)
  {
    assert ParseTy(data) == ParseArray(data[1..]);
    ParseArrayAccepts(data[1..]);
    if t.Array? && |t.items| == 1 {
      assert t.items == [t.items[0]];
    }
  }

  lemma {:induction false} TupleIff(data: seq<Felt>, t: Ty)
    requires data != [] && data[0] == 3
    ensures ParseTy(data) == Ok(t) <==> Describes(data, t)
    decreases |data|, 0
  {
    if |data| > 1 && t.Tuple? {
      assert data[1..][1..] == data[2..];
      ItemsIff(data[2..], data[1], t.items);
    }
  }

  lemma {:induction false} MemberIff(slice: seq<Felt>, m: Member)
    ensures ParseMember(slice) == Ok(m) <==> MemberDescribed(slice, m)
    decreases |slice|, 1
  {
    KeyAttributeSpelled();
    if |slice| >= 3 {
      NamesIff(slice[0], m.name);
      if slice[1] < U32_LIMIT && 2 + slice[1] <= |slice| {
        ParsesIffDescribed(slice[2 + slice[1]..], m.ty);
      }
    }
  }

  lemma {:induction false} MembersIff(data: seq<Felt>, n: nat, ms: seq<Member>)
    ensures ParseMembers(data, n) == Ok(ms) <==> |ms| == n && MembersDescribed(data, ms)
    decreases |data|, 2
  {
    if n == 0 || ms == [] {
      NoMembersIff(data, n, ms);
    } else if TakeSlice(data).Ok? {
      var cut := TakeSlice(data).value;
      MemberIff(cut.slice, ms[0]);
      MembersIff(cut.rest, n - 1, ms[1..]);
      MembersIffCons(data, n, ms, cut);
    } else {
      NoSliceNoMember(data, n, ms);
    }
  }

  lemma NoMembersIff(data: seq<Felt>, n: nat, ms: seq<Member>)
    requires n == 0 || ms == []
    ensures ParseMembers(data, n) == Ok(ms) <==> |ms| == n && MembersDescribed(data, ms)
  {
  }

  lemma MembersIffCons(data: seq<Felt>, n: nat, ms: seq<Member>, cut: Cut)
    requires n > 0 && ms != [] && TakeSlice(data) == Ok(cut)
    requires ParseMember(cut.slice) == Ok(ms[0]) <==> MemberDescribed(cut.slice, ms[0])
    requires ParseMembers(cut.rest, n - 1) == Ok(ms[1..]) <==> |ms| == n && MembersDescribed(cut.rest, ms[1..])
    ensures ParseMembers(data, n) == Ok(ms) <==> |ms| == n && MembersDescribed(data, ms)
  {
    MembersCons(data, n, ms);
    assert MembersDescribed(data, ms) <==> MemberDescribed(cut.slice, ms[0]) && MembersDescribed(cut.rest, ms[1..]);
  }

  lemma NoSliceNoMember(data: seq<Felt>, n: nat, ms: seq<Member>)
    requires n > 0 && ms != [] && !TakeSlice(data).Ok?
    ensures !ParseMembers(data, n).Ok? && !MembersDescribed(data, ms)
  {
  }

  lemma MembersCons(data: seq<Felt>, n: nat, ms: seq<Member>)
    requires n > 0 && ms != [] && TakeSlice(data).Ok?
    ensures var cut := TakeSlice(data).value;
            ParseMembers(data, n) == Ok(ms) <==>
            ParseMember(cut.slice) == Ok(ms[0]) && ParseMembers(cut.rest, n - 1) == Ok(ms[1..])
  {
    var cut := TakeSlice(data).value;
    assert ms == [ms[0]] + ms[1..];
    if ParseMember(cut.slice).Ok? && ParseMembers(cut.rest, n - 1).Ok? {
      var x, xs := ParseMember(cut.slice).value, ParseMembers(cut.rest, n - 1).value;
      assert ([x] + xs)[1..] == xs;
    }
  }

  lemma {:induction false} ItemsIff(data: seq<Felt>, n: nat, xs: seq<Ty>)
    ensures ParseItems(data, n) == Ok(xs) <==> |xs| == n && ItemsDescribed(data, xs)
    decreases |data|, 2
  {
    if n > 0 && xs != [] && data != [] && data[0] < U32_LIMIT && 1 + data[0] <= |data| {
      ItemsCons(data, n, xs);
      ParsesIffDescribed(data[1..1 + data[0]], xs[0]);
      ItemsIff(data[1 + data[0]..], n - 1, xs[1..]);
    }
  }

  lemma ItemsCons(data: seq<Felt>, n: nat, xs: seq<Ty>)
    requires n > 0 && xs != [] && TakeSlice(data).Ok?
    ensures var cut := TakeSlice(data).value;
            ParseItems(data, n) == Ok(xs) <==>
            ParseTy(cut.slice) == Ok(xs[0]) && ParseItems(cut.rest, n - 1) == Ok(xs[1..])
  {
    var cut := TakeSlice(data).value;
    assert xs == [xs[0]] + xs[1..];
    if ParseTy(cut.slice).Ok? && ParseItems(cut.rest, n - 1).Ok? {
      var y, ys := ParseTy(cut.slice).value, ParseItems(cut.rest, n - 1).value;
      assert ([y] + ys)[1..] == ys;
    }
  }

  lemma {:induction false} OptionsIff(data: seq<Felt>, n: nat, os: seq<EnumOption>)
    ensures ParseOptions(data, n) == Ok(os) <==> |os| == n && OptionsDescribed(data, os)
    decreases |data|, 2
  {
    if n > 0 && os != [] && |data| >= 4 {
      NamesIff(data[0], os[0].name);
      if data[3] < U32_LIMIT - 1 && 3 + data[3] <= |data| {
        ParsesIffDescribed(data[2..3 + data[3]], os[0].ty);
        OptionsIff(if 4 + data[3] <= |data| then data[4 + data[3]..] else [], n - 1, os[1..]);
        if ParseName(data[0]).Ok? {
          OptionsCons(data, n, os);
        }
      }
    }
  }

  lemma OptionsCons(data: seq<Felt>, n: nat, os: seq<EnumOption>)
    requires n > 0 && os != [] && TakeOption(data).Ok?
    ensures var cut := TakeOption(data).value;
            ParseOptions(data, n) == Ok(os) <==>
            && cut.name == os[0].name && ParseTy(cut.slice) == Ok(os[0].ty)
            && ParseOptions(cut.rest, n - 1) == Ok(os[1..])
  {
    var cut := TakeOption(data).value;
    assert os == [os[0]] + os[1..] && os[0].key == ();
    if ParseTy(cut.slice).Ok? && ParseOptions(cut.rest, n - 1).Ok? {
      var y, ys := Named(cut.name, (), ParseTy(cut.slice).value), ParseOptions(cut.rest, n - 1).value;
      assert ([y] + ys)[1..] == ys;
    }
  }

  // ----- how the parser fails -----

  datatype Stop = Error(error: ParseError) | Crash

  ghost predicate Fails<T>(r: Parsed<T>, o: Stop) {
    match o
    case Error(e) => r == Err(e)
    case Crash => r == Panic
  }

  /** Too few felts, a bad name, a length out of range, or attributes that leave no felt for the count. */
  ghost predicate HeaderStops(data: seq<Felt>, o: Stop) {
    if |data| < 3 then o == Error(InvalidSchema)
    else if !ParseName(data[0]).Ok? then o == Error(BadShortString)
    else if data[1] >= U32_LIMIT then o == Error(NotInRange(data[1]))
    else if |data| <= 2 + data[1] then o == Crash
    else data[2 + data[1]] >= U32_LIMIT && o == Error(NotInRange(data[2 + data[1]]))
  }

  /** No felt for the length of a slice, a length out of range, or a slice that reaches past the felts. */
  ghost predicate SliceStops(data: seq<Felt>, o: Stop) {
    if data == [] then o == Crash
    else if data[0] >= U32_LIMIT then o == Error(NotInRange(data[0]))
    else |data| < 1 + data[0] && o == Crash
  }

  /** The same for an option, whose length stands one felt into its type. */
  ghost predicate OptionStops(data: seq<Felt>, o: Stop) {
    if data == [] then o == Crash
    else if !ParseName(data[0]).Ok? then o == Error(BadShortString)
    else if |data| < 4 then o == Crash
    else if data[3] >= U32_LIMIT then o == Error(NotInRange(data[3]))
    else (data[3] == U32_LIMIT - 1 || |data| < 3 + data[3]) && o == Crash
  }

  /** A type fails as `o` says: the first thing wrong with its felts decides. */
  ghost predicate Stops(data: seq<Felt>, o: Stop)
    decreases |data|, 1
  {
    if data == [] then o == Error(InvalidSchema)
    else if data[0] > 255 then o == Error(NotInRange(data[0]))
    else if data[0] == 0 then SimpleStops(data[1..], o)
    else if data[0] == 1 then
      var h := ParseHeader(data[1..]);
      HeaderStops(data[1..], o) || (h.Ok? && MembersStop(h.value.rest, h.value.count, o))
    else if data[0] == 2 then
      var h := ParseHeader(data[1..]);
      HeaderStops(data[1..], o) || (h.Ok? && OptionsStop(h.value.rest, h.value.count, o))
    else if data[0] == 3 then
      |data| > 1 &&
      if data[1] >= U32_LIMIT then o == Error(NotInRange(data[1])) else ItemsStop(data[2..], data[1], o)
    else if data[0] == 4 then ArrayStops(data[1..], o)
    else data[0] != 5 && o == Error(InvalidSchema)
  }

  /** No felt for the name of a primitive, a bad name, or the name of no primitive. */
  ghost predicate SimpleStops(data: seq<Felt>, o: Stop) {
    if data == [] then o == Crash
    else if !ParseName(data[0]).Ok? then o == Error(BadShortString)
    else (forall k :: !Names(data[0], KindName(k))) && o == Error(InvalidSchema)
  }

  /** The wrong number of felts, or an item that is more than a tag: a primitive without its name panics. */
  ghost predicate ArrayStops(data: seq<Felt>, o: Stop) {
    if |data| != 2 then o == Error(InvalidSchema)
    else if data[1] > 255 then o == Error(NotInRange(data[1]))
    else if data[1] == 0 then o == Crash
    else data[1] != 3 && data[1] != 5 && o == Error(InvalidSchema)
  }

  ghost predicate MemberStops(data: seq<Felt>, o: Stop)
    decreases |data|, 1
  {
    if |data| < 3 then o == Error(InvalidSchema)
    else if !ParseName(data[0]).Ok? then o == Error(BadShortString)
    else if data[1] >= U32_LIMIT then o == Error(NotInRange(data[1]))
    else if |data| < 2 + data[1] then o == Crash
    else Stops(data[2 + data[1]..], o)
  }

  /** Some member's slice fails, or what is in it, after the ones before were parsed. */
  ghost predicate MembersStop(data: seq<Felt>, n: nat, o: Stop)
    decreases |data|, 2
  {
    n > 0 &&
    (SliceStops(data, o) ||
     (TakeSlice(data).Ok? &&
      (MemberStops(TakeSlice(data).value.slice, o) ||
       (NextMember(data).Ok? && MembersStop(NextMember(data).value.1, n - 1, o)))))
  }

  ghost predicate OptionsStop(data: seq<Felt>, n: nat, o: Stop)
    decreases |data|, 2
  {
    n > 0 &&
    (OptionStops(data, o) ||
     (TakeOption(data).Ok? &&
      (Stops(TakeOption(data).value.slice, o) ||
       (NextOption(data).Ok? && OptionsStop(NextOption(data).value.1, n - 1, o)))))
  }

  ghost predicate ItemsStop(data: seq<Felt>, n: nat, o: Stop)
    decreases |data|, 2
  {
    n > 0 &&
    (SliceStops(data, o) ||
     (TakeSlice(data).Ok? &&
      (Stops(TakeSlice(data).value.slice, o) ||
       (NextItem(data).Ok? && ItemsStop(NextItem(data).value.1, n - 1, o)))))
  }

  lemma NamesFail(x: Felt)
    ensures ParseName(x).Ok? || ParseName(x) == Err(BadShortString)
  {
  }

  lemma CutsFailIff(data: seq<Felt>, o: Stop)
    ensures Fails(ParseHeader(data), o) <==> HeaderStops(data, o)
    ensures Fails(TakeSlice(data), o) <==> SliceStops(data, o)
    ensures Fails(TakeOption(data), o) <==> OptionStops(data, o)
  {
    if data != [] {
      NamesFail(data[0]);
    }
  }

  lemma SimpleFailsIff(data: seq<Felt>, o: Stop)
    ensures Fails(ParseSimple(data), o) <==> SimpleStops(data, o)
  {
    if data != [] && ParseName(data[0]).Ok? {
      var s := ParseName(data[0]).value;
      NamesIff(data[0], s);
      forall k ensures Names(data[0], KindName(k)) <==> KindOfName(s) == Some(k) {
        NamesIff(data[0], KindName(k));
        KindNamed(s, k);
      }
      if KindOfName(s).Some? {
        assert Names(data[0], KindName(KindOfName(s).value));
      }
    }
  }

  /** The parser fails exactly as described: with that error, or in a panic. */
  lemma {:induction false} FailsIff(data: seq<Felt>, o: Stop)
    ensures Fails(ParseTy(data), o) <==> Stops(data, o)
    decreases |data|, 1
  {
    if data != [] {
      var rest := data[1..];
      CutsFailIff(rest, o);
      if data[0] == 0 {
        SimpleFailsIff(rest, o);
      } else if data[0] == 1 && ParseHeader(rest).Ok? {
        MembersFailIff(ParseHeader(rest).value.rest, ParseHeader(rest).value.count, o);
      } else if data[0] == 2 && ParseHeader(rest).Ok? {
        OptionsFailIff(ParseHeader(rest).value.rest, ParseHeader(rest).value.count, o);
      } else if data[0] == 3 && rest != [] && rest[0] < U32_LIMIT {
        assert rest[1..] == data[2..];
        ItemsFailIff(rest[1..], rest[0], o);
      } else if data[0] == 4 {
        ArrayFailsIff(rest, o);
      }
    }
  }

  lemma ArrayFailsIff(data: seq<Felt>, o: Stop)
    ensures Fails(ParseArray(data), o) <==> ArrayStops(data, o)
  {
    if |data| == 2 {
      var item := [data[1]];
      assert item[1..] == [];
      assert ParseStruct([]) == Err(InvalidSchema) && ParseEnum([]) == Err(InvalidSchema);
      assert ParseTuple([]) == Ok(Tuple([])) && ParseArray([]) == Err(InvalidSchema) && ParseSimple([]) == Panic;
    }
  }

  lemma {:induction false} NextMemberFailsIff(data: seq<Felt>, o: Stop)
    requires TakeSlice(data).Ok?
    ensures Fails(NextMember(data), o) <==> MemberStops(TakeSlice(data).value.slice, o)
    decreases |data|, 1
  {
    var slice := TakeSlice(data).value.slice;
    if |slice| >= 3 {
      NamesFail(slice[0]);
      if slice[1] < U32_LIMIT && 2 + slice[1] <= |slice| {
        FailsIff(slice[2 + slice[1]..], o);
      }
    }
  }

  lemma {:induction false} MembersFailIff(data: seq<Felt>, n: nat, o: Stop)
    ensures Fails(ParseMembers(data, n), o) <==> MembersStop(data, n, o)
    decreases |data|, 2
  {
    CutsFailIff(data, o);
    if n > 0 && TakeSlice(data).Ok? {
      NextMemberFailsIff(data, o);
      if NextMember(data).Ok? {
        MembersFailIff(NextMember(data).value.1, n - 1, o);
      }
    }
  }

  lemma {:induction false} NextOptionFailsIff(data: seq<Felt>, o: Stop)
    requires TakeOption(data).Ok?
    ensures Fails(NextOption(data), o) <==> Stops(TakeOption(data).value.slice, o)
    decreases |data|, 1
  {
    FailsIff(TakeOption(data).value.slice, o);
  }

  lemma {:induction false} OptionsFailIff(data: seq<Felt>, n: nat, o: Stop)
    ensures Fails(ParseOptions(data, n), o) <==> OptionsStop(data, n, o)
    decreases |data|, 2
  {
    CutsFailIff(data, o);
    if n > 0 && TakeOption(data).Ok? {
      NextOptionFailsIff(data, o);
      if NextOption(data).Ok? {
        OptionsFailIff(NextOption(data).value.1, n - 1, o);
      }
    }
  }

  lemma {:induction false} NextItemFailsIff(data: seq<Felt>, o: Stop)
    requires TakeSlice(data).Ok?
    ensures Fails(NextItem(data), o) <==> Stops(TakeSlice(data).value.slice, o)
    decreases |data|, 1
  {
    FailsIff(TakeSlice(data).value.slice, o);
  }

  lemma {:induction false} ItemsFailIff(data: seq<Felt>, n: nat, o: Stop)
    ensures Fails(ParseItems(data, n), o) <==> ItemsStop(data, n, o)
    decreases |data|, 2
  {
    CutsFailIff(data, o);
    if n > 0 && TakeSlice(data).Ok? {
      NextItemFailsIff(data, o);
      if NextItem(data).Ok? {
        ItemsFailIff(NextItem(data).value.1, n - 1, o);
      }
    }
  }

  /** The parser can panic on every tag it knows but that of byte arrays, and on no other. */
  lemma ParseCanPanicIff(tag: Felt)
    ensures (exists rest :: ParsePanics(tag, rest)) <==> tag <= 4
  {
    assert ([0] + [])[1..] == [] && ([3] + [1])[1..] == [1] && [1][1..] == [] && ([4] + [0, 0])[1..] == [0, 0];
    assert ([1] + [0, 1, 0])[1..] == [0, 1, 0] && ([2] + [0, 1, 0])[1..] == [0, 1, 0] && [0][1..] == [];
    if tag == 0 {
      assert ParsePanics(tag, []);
    } else if tag == 1 || tag == 2 {
      assert ParseHeader([0, 1, 0]) == Panic;
      assert ParsePanics(tag, [0, 1, 0]);
    } else if tag == 3 {
      assert ParseItems([], 1) == Panic;
      assert ParsePanics(tag, [1]);
    } else if tag == 4 {
      assert ParseTy([0]) == Panic;
      assert ParsePanics(tag, [0, 0]);
    }
  }

  ghost predicate ParsePanics(tag: Felt, rest: seq<Felt>) {
    ParseTy([tag] + rest) == Panic
  }

  // ----- the primitives by their felts -----

  /** The felt of each primitive's name in a schema. */
  function KindFelt(k: Kind): (x: Felt) {
    match k
    case I8 => 0x6938
    case I16 => 0x693136
    case I32 => 0x693332
    case I64 => 0x693634
    case I128 => 0x69313238
    case U8 => 0x7538
    case U16 => 0x753136
    case U32 => 0x753332
    case U64 => 0x753634
    case U128 => 0x75313238
    case U256 => 0x75323536
    case Bool => 0x626f6f6c
    case Felt252 => 0x66656c74323532
    case ClassHash => 0x436c61737348617368
    case ContractAddress => 0x436f6e747261637441646472657373
    case EthAddress => 0x45746841646472657373
  }

  lemma SignedKindsSpelled(k: Kind)
    requires k in {I8, I16, I32, I64, I128}
    ensures ToFelt(KindName(k)) == KindFelt(k)
  {
    match k
    case I8 => Spelled("i8", [0x69, 0x6938]);
    case I16 => Spelled("i16", [0x69, 0x6931, 0x693136]);
    case I32 => Spelled("i32", [0x69, 0x6933, 0x693332]);
    case I64 => Spelled("i64", [0x69, 0x6936, 0x693634]);
    case I128 => Spelled("i128", [0x69, 0x6931, 0x693132, 0x69313238]);
  }

  lemma UnsignedKindsSpelled(k: Kind)
    requires k in {U8, U16, U32, U64, U128, U256}
    ensures ToFelt(KindName(k)) == KindFelt(k)
  {
    match k
    case U8 => Spelled("u8", [0x75, 0x7538]);
    case U16 => Spelled("u16", [0x75, 0x7531, 0x753136]);
    case U32 => Spelled("u32", [0x75, 0x7533, 0x753332]);
    case U64 => Spelled("u64", [0x75, 0x7536, 0x753634]);
    case U128 => Spelled("u128", [0x75, 0x7531, 0x753132, 0x75313238]);
    case U256 => Spelled("u256", [0x75, 0x7532, 0x753235, 0x75323536]);
  }

  lemma Felt252Spelled()
    ensures ToFelt(KindName(Felt252)) == KindFelt(Felt252)
  {
    var words: seq<nat> := [
      0x66, 0x6665, 0x66656c, 0x66656c74, 0x66656c7432, 0x66656c743235, 0x66656c74323532];
    Spelled("felt252", words);
  }

  lemma ClassHashSpelled()
    ensures ToFelt(KindName(ClassHash)) == KindFelt(ClassHash)
  {
    var words: seq<nat> := [
      0x43, 0x436c, 0x436c61, 0x436c6173, 0x436c617373, 0x436c61737348, 0x436c6173734861, 0x436c617373486173,
      0x436c61737348617368];
    Spelled("ClassHash", words);
  }

  lemma ContractAddressSpelled()
    ensures ToFelt(KindName(ContractAddress)) == KindFelt(ContractAddress)
  {
    var words: seq<nat> := [
      0x43, 0x436f, 0x436f6e, 0x436f6e74, 0x436f6e7472, 0x436f6e747261, 0x436f6e74726163, 0x436f6e7472616374,
      0x436f6e747261637441, 0x436f6e74726163744164, 0x436f6e7472616374416464, 0x436f6e747261637441646472,
      0x436f6e74726163744164647265, 0x436f6e7472616374416464726573, 0x436f6e747261637441646472657373];
    Spelled("ContractAddress", words);
  }

  lemma EthAddressSpelled()
    ensures ToFelt(KindName(EthAddress)) == KindFelt(EthAddress)
  {
    var words: seq<nat> := [
      0x45, 0x4574, 0x457468, 0x45746841, 0x4574684164, 0x457468416464, 0x45746841646472, 0x4574684164647265,
      0x457468416464726573, 0x45746841646472657373];
    Spelled("EthAddress", words);
  }

  lemma KindFeltsSpelled(k: Kind)
    ensures ToFelt(KindName(k)) == KindFelt(k)
  {
    if IsSigned(k) {
      SignedKindsSpelled(k);
    } else if k in {U8, U16, U32, U64, U128, U256} {
      UnsignedKindsSpelled(k);
    } else if k == Bool {
      Spelled("bool", [0x62, 0x626f, 0x626f6f, 0x626f6f6c]);
    } else {
      Felt252Spelled();
      ClassHashSpelled();
      ContractAddressSpelled();
      EthAddressSpelled();
    }
  }

  /** A simple type is parsed exactly from the felt of a primitive's name, whatever follows. */
  lemma PrimitivesBySpelling(x: Felt, more: seq<Felt>, t: Ty)
    ensures ParseTy([0, x] + more) == Ok(t) <==> exists k :: x == KindFelt(k) && t == Prim(Primitive(k, None))
  {
    var data := [0, x] + more;
    SimpleIff(data, t);
    if t.Prim? {
      KindFeltsSpelled(t.primitive.kind);
      KindNameOk(t.primitive.kind);
    }
  }
}
