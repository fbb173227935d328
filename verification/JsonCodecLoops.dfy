/** `from_json_value` as it runs: loops that fill the children of a type in place. */
module JsonCodecLoops {
  import opened Wrappers
  import opened Sequences
  import opened Primitives
  import opened Schema
  import opened FieldLookup
  import opened JsonCodec

  method FillFromJson(ty: Ty, j: Json) returns (status: Status, ty': Ty)
    ensures Filled(status, ty') == FromJson(ty, j)
    decreases ty, 0
  {
    status, ty' := Done, ty;
    match ty {
      case Prim(p) =>
        var r := PrimitiveFromJson(p, j);
        status, ty' := r.status, Prim(r.value);
      case Struct(name, children) =>
        if j.Object? {
          var cs;
          status, cs := FillFields(children, j.entries);
          ty' := Struct(name, cs);
        } else {
          status := Failed(TypeMismatch);
        }
      case Enum(name, _, options) =>
        if !j.Object? {
          status := Failed(TypeMismatch);
        } else if j.entries != [] {
          var at := Find(options, j.entries[0].0);
          if at.None? {
            status := Failed(TypeMismatch);
          } else {
            var o := at.value % 256;
            var chosen;
            status, chosen := FillFromJson(options[o].ty, j.entries[0].1);
            ty' := Enum(name, Some(o), options[o := options[o].(ty := chosen)]);
          }
        }
      case Tuple(items) =>
        if !j.List? || |items| != |j.values| {
          status := Failed(TypeMismatch);
        } else {
          var xs;
          status, xs := FillItems(items, j.values);
          ty' := Tuple(xs);
        }
      case Array(items) =>
        if !j.List? {
          status := Failed(TypeMismatch);
        } else if items == [] {
          status := Panicked;
        } else {
          var xs;
          status, xs := FillCopies(items[0], j.values);
          ty' := Array(xs);
        }
      case ByteArray(_) =>
        if j.String? {
          ty' := ByteArray(j.s);
        } else {
          status := Failed(TypeMismatch);
        }
    }
  }

  ghost function Prefixed<T>(done: seq<T>, q: Filled<seq<T>>): (r: Filled<seq<T>>) {
    Filled(q.status, done + q.value)
  }

  lemma PrefixedNone<T>(q: Filled<seq<T>>)
    ensures Prefixed([], q) == q
  {
    assert [] + q.value == q.value;
  }

  lemma PrefixedCons<T>(done: seq<T>, x: T, q: Filled<seq<T>>)
    ensures Prefixed(done, Filled(q.status, [x] + q.value)) == Prefixed(done + [x], q)
  {
    assert done + ([x] + q.value) == (done + [x]) + q.value;
  }

  /** What a member becomes: loaded from its entry, or left alone without one. */
  function FieldFromJson(field: Member, entries: seq<(string, Json)>): (r: Filled<Ty>) {
    var found := Lookup(entries, field.name);
    if found.Some? then FromJson(field.ty, found.value) else Filled(Done, field.ty)
  }

  ghost predicate FieldsLeft(all: Filled<seq<Member>>, done: seq<Member>, fields: seq<Member>,
                             entries: seq<(string, Json)>, i: nat)
    requires i <= |fields|
  {
    all == Prefixed(done, FieldsFromJson(fields[i..], entries))
  }

  lemma FieldsStart(fields: seq<Member>, entries: seq<(string, Json)>)
    ensures FieldsLeft(FieldsFromJson(fields, entries), [], fields, entries, 0)
  {
    assert fields[0..] == fields;
    PrefixedNone(FieldsFromJson(fields, entries));
  }

  lemma FieldsStep(all: Filled<seq<Member>>, done: seq<Member>, fields: seq<Member>, entries: seq<(string, Json)>,
                   i: nat, r: Filled<Ty>)
    requires i < |fields| && FieldsLeft(all, done, fields, entries, i) && r == FieldFromJson(fields[i], entries)
    ensures r.status == Done ==> FieldsLeft(all, done + [fields[i].(ty := r.value)], fields, entries, i + 1)
    ensures r.status != Done ==> all == Filled(r.status, done + ([fields[i].(ty := r.value)] + fields[i + 1..]))
  {
    assert fields[i..][1..] == fields[i + 1..];
    PrefixedCons(done, fields[i].(ty := r.value), FieldsFromJson(fields[i + 1..], entries));
  }

  method FillFields(fields: seq<Member>, entries: seq<(string, Json)>) returns (status: Status, fields': seq<Member>)
    ensures Filled(status, fields') == FieldsFromJson(fields, entries)
    decreases fields, 0
  {
    fields' := fields;
    ghost var all, done := FieldsFromJson(fields, entries), [];
    FieldsStart(fields, entries);
    assert fields[0..] == fields && done + fields == fields;
    for i := 0 to |fields|
      invariant |done| == i && fields' == done + fields[i..]
      invariant FieldsLeft(all, done, fields, entries, i)
    {
      status := Done;
      var ty := fields[i].ty;
      var found := Lookup(entries, fields[i].name);
      if found.Some? {
        status, ty := FillFromJson(ty, found.value);
      }
      FieldsStep(all, done, fields, entries, i, Filled(status, ty));
      UpdateNext(done, fields[i..], fields[i].(ty := ty));
      assert fields[i..][1..] == fields[i + 1..];
      fields' := fields'[i := fields'[i].(ty := ty)];
      if status != Done {
        return;
      }
      done := done + [fields[i].(ty := ty)];
    }
    status := Done;
    assert fields[|fields|..] == [];
  }

  /** `done` is loaded, and the items from `i` on are still to be. */
  ghost predicate ItemsLeft(all: Filled<seq<Ty>>, done: seq<Ty>, items: seq<Ty>, values: seq<Json>, i: nat)
    requires i <= |items| == |values|
  {
    all == Prefixed(done, ItemsFromJson(items[i..], values[i..]))
  }

  lemma ItemsStart(items: seq<Ty>, values: seq<Json>)
    requires |items| == |values|
    ensures ItemsLeft(ItemsFromJson(items, values), [], items, values, 0)
  {
    assert items[0..] == items && values[0..] == values;
    PrefixedNone(ItemsFromJson(items, values));
  }

  lemma ItemsStep(all: Filled<seq<Ty>>, done: seq<Ty>, items: seq<Ty>, values: seq<Json>, i: nat, r: Filled<Ty>)
    requires i < |items| == |values| && ItemsLeft(all, done, items, values, i) && r == FromJson(items[i], values[i])
    ensures r.status == Done ==> ItemsLeft(all, done + [r.value], items, values, i + 1)
    ensures r.status != Done ==> all == Filled(r.status, done + ([r.value] + items[i + 1..]))
  {
    assert items[i..][1..] == items[i + 1..] && values[i..][1..] == values[i + 1..];
    PrefixedCons(done, r.value, ItemsFromJson(items[i + 1..], values[i + 1..]));
  }

  method FillItems(items: seq<Ty>, values: seq<Json>) returns (status: Status, items': seq<Ty>)
    requires |items| == |values|
    ensures Filled(status, items') == ItemsFromJson(items, values)
    decreases items, 0
  {
    items' := items;
    ghost var all, done := ItemsFromJson(items, values), [];
    ItemsStart(items, values);
    assert items[0..] == items && done + items == items;
    for i := 0 to |items|
      invariant |done| == i && items' == done + items[i..]
      invariant ItemsLeft(all, done, items, values, i)
    {
      var ty;
      status, ty := FillFromJson(items[i], values[i]);
      ItemsStep(all, done, items, values, i, Filled(status, ty));
      UpdateNext(done, items[i..], ty);
      assert items[i..][1..] == items[i + 1..];
      items' := items'[i := ty];
      if status != Done {
        return;
      }
      done := done + [ty];
    }
    status := Done;
    assert items[|items|..] == [];
  }

  method FillCopies(item: Ty, values: seq<Json>) returns (status: Status, xs: seq<Ty>)
    ensures Filled(status, xs) == CopiesFromJson(item, values)
    decreases item, 1
  {
    xs := [];
    assert values[0..] == values;
    PrefixedNone(CopiesFromJson(item, values));
    for i := 0 to |values|
      invariant CopiesFromJson(item, values) == Prefixed(xs, CopiesFromJson(item, values[i..]))
    {
      assert values[i..][0] == values[i] && values[i..][1..] == values[i + 1..];
      var ty;
      status, ty := FillFromJson(item, values[i]);
      if status != Done {
        assert xs + [] == xs;
        return;
      }
      PrefixedCons(xs, ty, CopiesFromJson(item, values[i + 1..]));
      xs := xs + [ty];
    }
    status := Done;
    assert xs + [] == xs;
  }
}
