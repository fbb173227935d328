/** The schema parser's loops over an index and an offset into one slice (crates/dojo/types/src/packing.rs). */
module SchemaParserLoops {
  import opened Wrappers
  import opened Felts
  import opened Schema
  import opened SchemaParser
  import opened Sequences

  /** A failure passed on with `?`, or a panic. */
  function Failed<T, U>(r: Parsed<T>): (f: Parsed<U>)
    requires !r.Ok?
  {
    if r.Err? then Err(r.error) else Panic
  }

  /** What is left when reading goes on at `start`, which may lie past the end. */
  function After(data: seq<Felt>, start: nat): (r: seq<Felt>) {
    if start <= |data| then data[start..] else []
  }

  /** `data[start + 1..start + 1 + len]` with the length at `start`. */
  method SliceAt(data: seq<Felt>, start: nat) returns (r: Parsed<Cut>)
    ensures r == TakeSlice(After(data, start))
    ensures r.Ok? ==> |r.value.slice| < |data| && r.value.rest == After(data, start + 1 + |r.value.slice|)
  {
    if start >= |data| {
      return Panic;
    }
    if data[start] >= U32_LIMIT {
      return Err(NotInRange(data[start]));
    }
    var end := start + 1 + data[start];
    if end > |data| {
      return Panic;
    }
    r := Ok(Cut("", data[start + 1..end], data[end..]));
    DropThenSlice(data, start, 1, 1 + data[start]);
  }

  /** The option at `start`: its name, and its type from `start + 2` with the length at `start + 3`. */
  method NamedSliceAt(data: seq<Felt>, start: nat) returns (r: Parsed<Cut>)
    ensures r == TakeOption(After(data, start))
    ensures r.Ok? ==> |r.value.slice| < |data| && r.value.rest == After(data, start + |r.value.slice| + 3)
  {
    if start >= |data| {
      return Panic;
    }
    var name := ParseName(data[start]);
    if name.Err? {
      return Err(name.error);
    }
    if name.Panic? || start + 3 >= |data| {
      return Panic;
    }
    if data[start + 3] >= U32_LIMIT {
      return Err(NotInRange(data[start + 3]));
    }
    var len := data[start + 3] + 1;
    if len == U32_LIMIT || start + 2 + len > |data| {
      return Panic;
    }
    r := Ok(Cut(name.value, data[start + 2..start + 2 + len], After(data, start + len + 3)));
    TakeOptionAt(data, start, name.value);
  }

  lemma DropThenSlice(data: seq<Felt>, start: nat, lo: nat, hi: nat)
    requires lo <= hi && start + hi <= |data|
    ensures data[start..][lo..hi] == data[start + lo..start + hi]
    ensures data[start..][hi..] == data[start + hi..]
  {
  }

  lemma TakeOptionAt(data: seq<Felt>, start: nat, name: string)
    requires start + 3 < |data| && data[start + 3] + 1 < U32_LIMIT && start + 2 + data[start + 3] + 1 <= |data|
    requires ParseName(data[start]) == Ok(name)
    ensures var len := data[start + 3] + 1;
            var slice := data[start + 2..start + 2 + len];
            TakeOption(After(data, start)) == Ok(Cut(name, slice, After(data, start + len + 3)))
  {
    var len := data[start + 3] + 1;
    DropThenSlice(data, start, 2, 2 + len);
    if start + len + 3 <= |data| {
      DropThenSlice(data, start, 0, len + 3);
    }
  }

  method ParseTypeOf(data: seq<Felt>) returns (r: Parsed<Ty>)
    ensures r == ParseTy(data)
    decreases |data|, 1
  {
    if data == [] {
      return Err(InvalidSchema);
    }
    if data[0] > 255 {
      return Err(NotInRange(data[0]));
    }
    if data[0] == 0 {
      r := ParseSimple(data[1..]);
    } else if data[0] == 1 {
      r := ParseStructFrom(data[1..]);
    } else if data[0] == 2 {
      r := ParseEnumFrom(data[1..]);
    } else if data[0] == 3 {
      r := ParseTupleFrom(data[1..]);
    } else if data[0] == 4 {
      r := ParseArrayFrom(data[1..]);
    } else if data[0] == 5 {
      r := Ok(ByteArray(""));
    } else {
      r := Err(InvalidSchema);
    }
  }

  /** The beginning that structs and enums share: name, attributes, count. */
  method ReadHeader(data: seq<Felt>) returns (r: Parsed<Header>)
    ensures r == ParseHeader(data)
  {
    if |data| < 3 {
      return Err(InvalidSchema);
    }
    var name := ParseName(data[0]);
    if !name.Ok? {
      return Failed(name);
    }
    if data[1] >= U32_LIMIT {
      return Err(NotInRange(data[1]));
    }
    var start := 2;
    var end := start + data[1];
    if end >= |data| {
      return Panic;
    }
    if data[end] >= U32_LIMIT {
      return Err(NotInRange(data[end]));
    }
    return Ok(Header(name.value, data[end], data[end + 1..]));
  }

  method ParseStructFrom(data: seq<Felt>) returns (r: Parsed<Ty>)
    ensures r == ParseStruct(data)
    decreases |data|, 3
  {
    var header := ReadHeader(data);
    if !header.Ok? {
      return Failed(header);
    }
    var members := ParseMembersFrom(data, 2 + data[1] + 1, header.value.count);
    r := if members.Ok? then Ok(Struct(header.value.name, members.value)) else Failed(members);
  }

  method ParseMembersFrom(data: seq<Felt>, first: nat, count: nat) returns (r: Parsed<seq<Member>>)
    ensures r == ParseMembers(After(data, first), count)
    decreases |data|, 2
  {
    var children: seq<Member> := [];
    var offset: nat := first;
    ghost var all := MembersStart(data, first, count);
    ghost var at, left := first, count;
    for i := 0 to count
      invariant at == i + offset && left == count - i
      invariant MembersLeft(all, children, data, at, left)
    {
      var next, len := NextMemberAt(data, i + offset, all, children, left);
      if !next.Ok? {
        return Failed(next);
      }
      children := children + [next.value];
      offset := offset + len;
      at, left := at + 1 + len, left - 1;
    }
    MembersEnd(all, children, data, at);
    return Ok(children);
  }

  /** `done` is parsed, and `n` are left from `start` on. */
  ghost predicate MembersLeft(all: Parsed<seq<Member>>, done: seq<Member>, data: seq<Felt>, start: nat, n: nat) {
    all == Prepend(done, ParseMembers(After(data, start), n))
  }

  lemma MembersStart(data: seq<Felt>, first: nat, n: nat) returns (all: Parsed<seq<Member>>)
    ensures all == ParseMembers(After(data, first), n) && MembersLeft(all, [], data, first, n)
  {
    all := ParseMembers(After(data, first), n);
    PrependNone(all);
  }

  lemma MembersEnd(all: Parsed<seq<Member>>, done: seq<Member>, data: seq<Felt>, start: nat)
    requires MembersLeft(all, done, data, start, 0)
    ensures all == Ok(done)
  {
    PrependAll(done, ParseMembers(After(data, start), 0));
  }

  lemma MembersStep(all: Parsed<seq<Member>>, done: seq<Member>, data: seq<Felt>, start: nat, n: nat,
                    next: Parsed<Member>, len: nat)
    requires n > 0 && MembersLeft(all, done, data, start, n) && IsNextMember(data, start, next, len)
    ensures next.Ok? ==> MembersLeft(all, done + [next.value], data, start + 1 + len, n - 1)
    ensures !next.Ok? ==> all == Failed(next)
  {
    if next.Ok? {
      var more := ParseMembers(After(data, start + 1 + len), n - 1);
      assert ParseMembers(After(data, start), n) == Prepend([next.value], more);
      PrependCons(done, next.value, more);
    }
  }

  ghost predicate IsNextMember(data: seq<Felt>, start: nat, r: Parsed<Member>, len: nat) {
    match r
    case Ok(x) => NextMember(After(data, start)) == Ok((x, After(data, start + 1 + len)))
    case _ => NextMember(After(data, start)) == Failed(r)
  }

  lemma NextMemberIs(data: seq<Felt>, start: nat, cut: Cut, item: Parsed<Member>, len: nat)
    requires TakeSlice(After(data, start)) == Ok(cut) && cut.rest == After(data, start + 1 + len)
    requires ParseMember(cut.slice) == item
    ensures IsNextMember(data, start, if item.Ok? then Ok(item.value) else Failed(item), len)
  {
  }

  /** The member whose length-prefixed slice begins at `start`; the offset then grows by its length. */
  method NextMemberAt(data: seq<Felt>, start: nat, ghost all: Parsed<seq<Member>>, ghost done: seq<Member>,
                      ghost left: nat)
    returns (r: Parsed<Member>, len: nat)
    requires left > 0 && MembersLeft(all, done, data, start, left)
    ensures r.Ok? ==> MembersLeft(all, done + [r.value], data, start + 1 + len, left - 1)
    ensures !r.Ok? ==> all == Failed(r)
    decreases |data|, 1
  {
    var cut := SliceAt(data, start);
    if !cut.Ok? {
      r, len := Failed(cut), 0;
    } else {
      var item := ParseMemberFrom(cut.value.slice);
      len := |cut.value.slice|;
      NextMemberIs(data, start, cut.value, item, len);
      r := if item.Ok? then Ok(item.value) else Failed(item);
    }
    MembersStep(all, done, data, start, left, r, len);
  }

  method ParseMemberFrom(data: seq<Felt>) returns (r: Parsed<Member>)
    ensures r == ParseMember(data)
    decreases |data|, 1
  {
    if |data| < 3 {
      return Err(InvalidSchema);
    }
    var name := ParseName(data[0]);
    if name.Err? {
      return Err(name.error);
    }
    if name.Panic? {
      return Panic;
    }
    if data[1] >= U32_LIMIT {
      return Err(NotInRange(data[1]));
    }
    var end := 2 + data[1];
    if end > |data| {
      return Panic;
    }
    var key := KeyAttribute() in data[2..end];
    var ty := ParseTypeOf(data[end..]);
    r := if ty.Ok? then Ok(Named(name.value, key, ty.value)) else Failed(ty);
  }

  method ParseEnumFrom(data: seq<Felt>) returns (r: Parsed<Ty>)
    ensures r == ParseEnum(data)
    decreases |data|, 3
  {
    var header := ReadHeader(data);
    if !header.Ok? {
      return Failed(header);
    }
    var options := ParseOptionsFrom(data, 2 + data[1] + 1, header.value.count);
    r := if options.Ok? then Ok(Enum(header.value.name, None, options.value)) else Failed(options);
  }

  method ParseOptionsFrom(data: seq<Felt>, first: nat, count: nat) returns (r: Parsed<seq<EnumOption>>)
    ensures r == ParseOptions(After(data, first), count)
    decreases |data|, 2
  {
    var values: seq<EnumOption> := [];
    var offset: nat := first;
    ghost var all := OptionsStart(data, first, count);
    ghost var at, left := first, count;
    for i := 0 to count
      invariant at == i + offset && left == count - i
      invariant OptionsLeft(all, values, data, at, left)
    {
      var next, len := NextOptionAt(data, i + offset, all, values, left);
      if !next.Ok? {
        return Failed(next);
      }
      values := values + [next.value];
      offset := offset + len;
      at, left := at + 1 + len, left - 1;
    }
    OptionsEnd(all, values, data, at);
    return Ok(values);
  }

  /** `done` is parsed, and `n` are left from `start` on. */
  ghost predicate OptionsLeft(all: Parsed<seq<EnumOption>>, done: seq<EnumOption>, data: seq<Felt>, start: nat,
                              n: nat) {
    all == Prepend(done, ParseOptions(After(data, start), n))
  }

  lemma OptionsStart(data: seq<Felt>, first: nat, n: nat) returns (all: Parsed<seq<EnumOption>>)
    ensures all == ParseOptions(After(data, first), n) && OptionsLeft(all, [], data, first, n)
  {
    all := ParseOptions(After(data, first), n);
    PrependNone(all);
  }

  lemma OptionsEnd(all: Parsed<seq<EnumOption>>, done: seq<EnumOption>, data: seq<Felt>, start: nat)
    requires OptionsLeft(all, done, data, start, 0)
    ensures all == Ok(done)
  {
    PrependAll(done, ParseOptions(After(data, start), 0));
  }

  lemma OptionsStep(all: Parsed<seq<EnumOption>>, done: seq<EnumOption>, data: seq<Felt>, start: nat, n: nat,
                    next: Parsed<EnumOption>, len: nat)
    requires n > 0 && OptionsLeft(all, done, data, start, n) && IsNextOption(data, start, next, len)
    ensures next.Ok? ==> OptionsLeft(all, done + [next.value], data, start + 1 + len, n - 1)
    ensures !next.Ok? ==> all == Failed(next)
  {
    if next.Ok? {
      var more := ParseOptions(After(data, start + 1 + len), n - 1);
      assert ParseOptions(After(data, start), n) == Prepend([next.value], more);
      PrependCons(done, next.value, more);
    }
  }

  ghost predicate IsNextOption(data: seq<Felt>, start: nat, r: Parsed<EnumOption>, len: nat) {
    match r
    case Ok(x) => NextOption(After(data, start)) == Ok((x, After(data, start + 1 + len)))
    case _ => NextOption(After(data, start)) == Failed(r)
  }

  lemma NextOptionIs(data: seq<Felt>, start: nat, cut: Cut, item: Parsed<Ty>, len: nat)
    requires TakeOption(After(data, start)) == Ok(cut) && cut.rest == After(data, start + 1 + len)
    requires ParseTy(cut.slice) == item
    ensures IsNextOption(data, start, if item.Ok? then Ok(Named(cut.name, (), item.value)) else Failed(item), len)
  {
  }

  /** The option at `start`; the offset then grows by the length of its type and two. */
  method NextOptionAt(data: seq<Felt>, start: nat, ghost all: Parsed<seq<EnumOption>>, ghost done: seq<EnumOption>,
                      ghost left: nat)
    returns (r: Parsed<EnumOption>, len: nat)
    requires left > 0 && OptionsLeft(all, done, data, start, left)
    ensures r.Ok? ==> OptionsLeft(all, done + [r.value], data, start + 1 + len, left - 1)
    ensures !r.Ok? ==> all == Failed(r)
    decreases |data|, 1
  {
    var cut := NamedSliceAt(data, start);
    if !cut.Ok? {
      r, len := Failed(cut), 0;
    } else {
      var item := ParseTypeOf(cut.value.slice);
      len := |cut.value.slice| + 2;
      NextOptionIs(data, start, cut.value, item, len);
      r := if item.Ok? then Ok(Named(cut.value.name, (), item.value)) else Failed(item);
    }
    OptionsStep(all, done, data, start, left, r, len);
  }

  method ParseTupleFrom(data: seq<Felt>) returns (r: Parsed<Ty>)
    ensures r == ParseTuple(data)
    decreases |data|, 3
  {
    if data == [] {
      return Ok(Tuple([]));
    }
    if data[0] >= U32_LIMIT {
      return Err(NotInRange(data[0]));
    }
    var items := ParseItemsFrom(data, 1, data[0]);
    r := if items.Ok? then Ok(Tuple(items.value)) else Failed(items);
  }

  method ParseItemsFrom(data: seq<Felt>, first: nat, count: nat) returns (r: Parsed<seq<Ty>>)
    ensures r == ParseItems(After(data, first), count)
    decreases |data|, 2
  {
    var children: seq<Ty> := [];
    var offset: nat := first;
    ghost var all := ItemsStart(data, first, count);
    ghost var at, left := first, count;
    for i := 0 to count
      invariant at == i + offset && left == count - i
      invariant ItemsLeft(all, children, data, at, left)
    {
      var next, len := NextItemAt(data, i + offset, all, children, left);
      if !next.Ok? {
        return Failed(next);
      }
      children := children + [next.value];
      offset := offset + len;
      at, left := at + 1 + len, left - 1;
    }
    ItemsEnd(all, children, data, at);
    return Ok(children);
  }

  /** `done` is parsed, and `n` are left from `start` on. */
  ghost predicate ItemsLeft(all: Parsed<seq<Ty>>, done: seq<Ty>, data: seq<Felt>, start: nat, n: nat) {
    all == Prepend(done, ParseItems(After(data, start), n))
  }

  lemma ItemsStart(data: seq<Felt>, first: nat, n: nat) returns (all: Parsed<seq<Ty>>)
    ensures all == ParseItems(After(data, first), n) && ItemsLeft(all, [], data, first, n)
  {
    all := ParseItems(After(data, first), n);
    PrependNone(all);
  }

  lemma ItemsEnd(all: Parsed<seq<Ty>>, done: seq<Ty>, data: seq<Felt>, start: nat)
    requires ItemsLeft(all, done, data, start, 0)
    ensures all == Ok(done)
  {
    PrependAll(done, ParseItems(After(data, start), 0));
  }

  lemma ItemsStep(all: Parsed<seq<Ty>>, done: seq<Ty>, data: seq<Felt>, start: nat, n: nat, next: Parsed<Ty>, len: nat)
    requires n > 0 && ItemsLeft(all, done, data, start, n) && IsNextItem(data, start, next, len)
    ensures next.Ok? ==> ItemsLeft(all, done + [next.value], data, start + 1 + len, n - 1)
    ensures !next.Ok? ==> all == Failed(next)
  {
    if next.Ok? {
      var more := ParseItems(After(data, start + 1 + len), n - 1);
      assert ParseItems(After(data, start), n) == Prepend([next.value], more);
      PrependCons(done, next.value, more);
    }
  }

  ghost predicate IsNextItem(data: seq<Felt>, start: nat, r: Parsed<Ty>, len: nat) {
    match r
    case Ok(x) => NextItem(After(data, start)) == Ok((x, After(data, start + 1 + len)))
    case _ => NextItem(After(data, start)) == Failed(r)
  }

  lemma NextItemIs(data: seq<Felt>, start: nat, cut: Cut, item: Parsed<Ty>, len: nat)
    requires TakeSlice(After(data, start)) == Ok(cut) && cut.rest == After(data, start + 1 + len)
    requires ParseTy(cut.slice) == item
    ensures IsNextItem(data, start, if item.Ok? then Ok(item.value) else Failed(item), len)
  {
  }

  /** The tuple item whose length-prefixed slice begins at `start`. */
  method NextItemAt(data: seq<Felt>, start: nat, ghost all: Parsed<seq<Ty>>, ghost done: seq<Ty>, ghost left: nat)
    returns (r: Parsed<Ty>, len: nat)
    requires left > 0 && ItemsLeft(all, done, data, start, left)
    ensures r.Ok? ==> ItemsLeft(all, done + [r.value], data, start + 1 + len, left - 1)
    ensures !r.Ok? ==> all == Failed(r)
    decreases |data|, 1
  {
    var cut := SliceAt(data, start);
    if !cut.Ok? {
      r, len := Failed(cut), 0;
    } else {
      var item := ParseTypeOf(cut.value.slice);
      len := |cut.value.slice|;
      NextItemIs(data, start, cut.value, item, len);
      r := if item.Ok? then Ok(item.value) else Failed(item);
    }
    ItemsStep(all, done, data, start, left, r, len);
  }

  method ParseArrayFrom(data: seq<Felt>) returns (r: Parsed<Ty>)
    ensures r == ParseArray(data)
    decreases |data|, 0
  {
    if |data| != 2 {
      return Err(InvalidSchema);
    }
    var v := data[1..];
    assert v == [data[1]];
    var item := ParseTypeOf(v);
    r := if item.Ok? then Ok(Array([item.value])) else Failed(item);
  }
}
