/** Which schemas can make `from_json_value` panic. */
module JsonPanics {
  import opened Wrappers
  import opened Felts
  import opened Primitives
  import opened Schema
  import opened FieldLookup
  import opened Radix
  import opened JsonCodec

  /** No field before the `i`th has its name. */
  ghost predicate FirstOfName<K>(ds: seq<Named<K>>, i: nat)
    requires i < |ds|
  {
    forall k :: 0 <= k < i ==> ds[k].name != ds[i].name
  }

  /**
   * A 256-bit integer, or an array without an item, is reached. An option is loaded if its index, cut to a byte, is
   * that of the first option of some name. Namesake members are loaded from one entry, each before the next.
   */
  ghost predicate MayPanic(t: Ty) {
    match t
    case Prim(p) => p.kind == U256
    case Struct(_, ds) =>
      exists i :: 0 <= i < |ds| && if FirstOfName(ds, i) then MayPanic(ds[i].ty) else NamesakePanics(ds, i)
    case Enum(_, _, ds) => exists i :: 0 <= i < |ds| && FirstOfName(ds, i) && MayPanic(ds[i % 256].ty)
    case Tuple(ys) => exists i :: 0 <= i < |ys| && MayPanic(ys[i])
    case Array(ys) => ys == [] || MayPanic(ys[0])
    case ByteArray(_) => false
  }

  /** Some JSON that the earlier members of its name take makes the `i`th panic. */
  ghost predicate NamesakePanics(ds: seq<Member>, i: nat)
    requires i < |ds|
  {
    exists j :: Panics(ds[i].ty, j) && NamesakesTake(ds, i, j)
  }

  ghost predicate NamesakesTake(ds: seq<Member>, i: nat, j: Json)
    requires i < |ds|
  {
    forall k :: 0 <= k < i && ds[k].name == ds[i].name ==> FromJson(ds[k].ty, j).status == Done
  }

  ghost predicate Panics(t: Ty, j: Json) {
    FromJson(t, j).status == Panicked
  }

  // ----- the leaf -----

  lemma {:induction false} ParsesIffDigits(s: string)
    ensures ParseDigits(s, 16).Some? <==> forall c <- s :: DigitValue(c, 16).Some?
    ensures ParseDigits(s, 16).Some? ==> ParseDigits(s, 16).value < Pow(16, |s|)
  {
    if s != [] {
      var last := |s| - 1;
      assert s == s[..last] + [s[last]];
      ParsesIffDigits(s[..last]);
      var high, low := ParseDigits(s[..last], 16), DigitValue(s[last], 16);
      if high.Some? && low.Some? {
        assert Pow(16, |s|) == 16 * Pow(16, last);
      }
    }
  }

  /** A string for a 256-bit integer makes the loader panic unless it is 64 hexadecimal digits after its prefixes. */
  lemma U256PanicsIff(p: Primitive, s: string)
    requires p.kind == U256
    ensures Panics(Prim(p), String(s)) <==>
            !(|TrimHexPrefix(s)| == 64 && forall c <- TrimHexPrefix(s) :: DigitValue(c, 16).Some?)
  {
    var digits := TrimHexPrefix(s);
    ParsesIffDigits(digits);
    HexWidth(64);
    assert Panics(Prim(p), String(s)) <==> U256FromJson(p, s).status == Panicked;
  }

  // ----- no JSON makes it panic -----

  lemma {:induction false} LoadIsSafe(t: Ty, j: Json)
    requires !MayPanic(t)
    ensures !Panics(t, j)
    decreases t, 0, 0
  {
    match (t, j)
    case (Struct(_, ds), Object(entries)) => StructIsSafe(t, entries);
    case (Enum(_, _, ds), Object(entries)) =>
      if entries != [] {
        var at := Find(ds, entries[0].0);
        if at.Some? {
          LoadIsSafe(ds[at.value % 256].ty, entries[0].1);
        }
      }
    case (Tuple(ys), List(values)) =>
      if |ys| == |values| {
        ItemsAreSafe(ys, values);
      }
    case (Array(ys), List(values)) => CopiesAreSafe(ys[0], values);
    case _ =>
  }

  lemma {:induction false} StructIsSafe(t: Ty, entries: seq<(string, Json)>)
    requires t.Struct? && !MayPanic(t)
    ensures FieldsFromJson(t.children, entries).status != Panicked
    decreases t.children, 1, 0
  {
    var ds := t.children;
    if FieldsFromJson(ds, entries).status == Panicked {
      var i := FirstPanic(ds, entries);
      var j := Lookup(entries, ds[i].name).value;
      if FirstOfName(ds, i) {
        LoadIsSafe(ds[i].ty, j);
      } else {
        assert NamesakesTake(ds, i, j);
      }
    }
  }

  /** The members before the one that panics take their entries. */
  lemma {:induction false} FirstPanic(ds: seq<Member>, entries: seq<(string, Json)>) returns (i: nat)
    requires FieldsFromJson(ds, entries).status == Panicked
    ensures i < |ds| && Lookup(entries, ds[i].name).Some? && Panics(ds[i].ty, Lookup(entries, ds[i].name).value)
    ensures forall k :: 0 <= k < i && Lookup(entries, ds[k].name).Some? ==>
              FromJson(ds[k].ty, Lookup(entries, ds[k].name).value).status == Done
    decreases |ds|
  {
    i := 0;
    var found := Lookup(entries, ds[0].name);
    if found.None? || !Panics(ds[0].ty, found.value) {
      var later := FirstPanic(ds[1..], entries);
      i := later + 1;
    }
  }

  lemma {:induction false} ItemsAreSafe(ys: seq<Ty>, values: seq<Json>)
    requires |ys| == |values| && forall i :: 0 <= i < |ys| ==> !MayPanic(ys[i])
    ensures ItemsFromJson(ys, values).status != Panicked
    decreases ys, 0, 0
  {
    if ys != [] {
      LoadIsSafe(ys[0], values[0]);
      ItemsAreSafe(ys[1..], values[1..]);
    }
  }

  lemma {:induction false} CopiesAreSafe(item: Ty, values: seq<Json>)
    requires !MayPanic(item)
    ensures CopiesFromJson(item, values).status != Panicked
    decreases item, 1, |values|
  {
    if values != [] {
      LoadIsSafe(item, values[0]);
      CopiesAreSafe(item, values[1..]);
    }
  }

  // ----- some JSON makes it panic -----

  /** What cannot panic loads something. */
  lemma {:induction false} QuietJson(t: Ty) returns (j: Json)
    requires !MayPanic(t)
    ensures FromJson(t, j).status == Done
    decreases t, 0
  {
    match t
    case Prim(_) => j := Null;
    case Struct(_, ds) =>
      j := Object([]);
      FieldsWithoutEntries(ds);
    case Enum(_, _, _) => j := Object([]);
    case Tuple(ys) =>
      var values := QuietItems(ys);
      j := List(values);
    case Array(ys) => j := List([]);
    case ByteArray(_) => j := String("");
  }

  lemma {:induction false} FieldsWithoutEntries(ds: seq<Member>)
    ensures FieldsFromJson(ds, []).status == Done
  {
    if ds != [] {
      FieldsWithoutEntries(ds[1..]);
    }
  }

  lemma {:induction false} QuietItems(ys: seq<Ty>) returns (values: seq<Json>)
    requires forall i :: 0 <= i < |ys| ==> !MayPanic(ys[i])
    ensures |values| == |ys| && ItemsFromJson(ys, values).status == Done
    decreases ys, 0
  {
    values := [];
    if ys != [] {
      var j := QuietJson(ys[0]);
      var rest := QuietItems(ys[1..]);
      values := [j] + rest;
      assert values[1..] == rest;
    }
  }

  lemma {:induction false} LoudJson(t: Ty) returns (j: Json)
    requires MayPanic(t)
    ensures Panics(t, j)
    decreases t, 0
  {
    match t
    case Prim(p) =>
      j := String("");
      U256PanicsIff(p, "");
    case Struct(_, ds) =>
      var i :| 0 <= i < |ds| && if FirstOfName(ds, i) then MayPanic(ds[i].ty) else NamesakePanics(ds, i);
      var inner: Json;
      if FirstOfName(ds, i) {
        inner := LoudJson(ds[i].ty);
      } else {
        inner :| Panics(ds[i].ty, inner) && NamesakesTake(ds, i, inner);
      }
      j := Object([(ds[i].name, inner)]);
      OneEntryPanics(ds, i, inner);
    case Enum(_, _, ds) =>
      var i :| 0 <= i < |ds| && FirstOfName(ds, i) && MayPanic(ds[i % 256].ty);
      var inner := LoudJson(ds[i % 256].ty);
      j := Object([(ds[i].name, inner)]);
      OneOptionPanics(t, i, inner);
    case Tuple(ys) =>
      var values := LoudItems(ys);
      j := List(values);
    case Array(ys) =>
      j := List([]);
      if ys != [] {
        var inner := LoudJson(ys[0]);
        j := List([inner]);
        OneItemPanics(t, inner);
      }
  }

  lemma OneOptionPanics(t: Ty, i: nat, inner: Json)
    requires t.Enum? && i < |t.options| && FirstOfName(t.options, i) && Panics(t.options[i % 256].ty, inner)
    ensures Panics(t, Object([(t.options[i].name, inner)]))
  {
    assert Find(t.options, t.options[i].name) == Some(i);
  }

  lemma OneItemPanics(t: Ty, inner: Json)
    requires t.Array? && t.items != [] && Panics(t.items[0], inner)
    ensures Panics(t, List([inner]))
  {
    assert CopiesFromJson(t.items[0], [inner]).status == Panicked;
  }

  /** Members without an entry are left alone, until the one that panics. */
  lemma {:induction false} OneEntryPanics(ds: seq<Member>, i: nat, j: Json)
    requires i < |ds| && Panics(ds[i].ty, j) && NamesakesTake(ds, i, j)
    ensures FieldsFromJson(ds, [(ds[i].name, j)]).status == Panicked
    decreases i
  {
    if i > 0 {
      assert ds[0].name == ds[i].name ==> FromJson(ds[0].ty, j).status == Done;
      OneEntryPanics(ds[1..], i - 1, j);
    }
  }

  lemma {:induction false} LoudItems(ys: seq<Ty>) returns (values: seq<Json>)
    requires exists i :: 0 <= i < |ys| && MayPanic(ys[i])
    ensures |values| == |ys| && ItemsFromJson(ys, values).status == Panicked
    decreases ys, 0
  {
    if MayPanic(ys[0]) {
      var j := LoudJson(ys[0]);
      values := seq(|ys|, i => j);
    } else {
      var i :| 0 <= i < |ys| && MayPanic(ys[i]);
      assert MayPanic(ys[1..][i - 1]);
      var j := QuietJson(ys[0]);
      var rest := LoudItems(ys[1..]);
      values := [j] + rest;
      assert values[1..] == rest;
    }
  }

  /**
   * Some JSON makes `from_json_value` panic if and only if the schema holds a 256-bit integer, or an array without an
   * item, where a load can get to it.
   */
  lemma LoadCanPanicIff(t: Ty)
    ensures (exists j :: Panics(t, j)) <==> MayPanic(t)
  {
    if MayPanic(t) {
      var j := LoudJson(t);
    } else {
      forall j ensures !Panics(t, j) {
        LoadIsSafe(t, j);
      }
    }
  }
}
