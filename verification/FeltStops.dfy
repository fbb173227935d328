/** How `deserialize` fails: with which error or panic, on which felt, and with which felts left. */
module FeltStops {
  import opened Wrappers
  import opened Felts
  import opened Primitives
  import opened Schema
  import opened FeltCodec
  import opened FeltRoundTrip
  import opened FeltReads

  /** The felt is no value of the kind. */
  ghost predicate NoValue(k: Kind, x: Felt) {
    k != Bool && k != U256 && forall v :: InRange(k, v) ==> FeltOf(v) != x
  }

  /**
   * Reading `t` stops as `st` says and leaves `rest`: at the first part, in order, whose felt is out of range, whose
   * option or item does not exist, whose second half is missing, or whose byte array cannot be read.
   */
  ghost predicate Stops(c: ByteArrayCodec, t: Ty, felts: seq<Felt>, st: Status, rest: seq<Felt>)
    decreases t, 0
  {
    felts != [] &&
    match t
    case Prim(p) =>
      if p.kind == U256 then |felts| == 1 && st == Failed(NotEnoughFieldElements) && rest == felts
      else NoValue(p.kind, felts[0]) && st == Failed(ValueOutOfRange(felts[0])) && rest == felts[1..]
    case Struct(_, ds) =>
      exists i :: 0 <= i < |ds| && FieldsPass(c, ds[..i], felts)
                  && Stops(c, ds[i].ty, AfterFields(c, ds[..i], felts), st, rest)
    case Enum(_, _, ds) =>
      if felts[0] > 255 then st == Failed(ValueOutOfRange(felts[0])) && rest == felts[1..]
      else if felts[0] >= |ds| then st == Panicked && rest == felts[1..]
      else Stops(c, ds[felts[0]].ty, felts[1..], st, rest)
    case Tuple(ys) =>
      exists i :: 0 <= i < |ys| && ItemsPass(c, ys[..i], felts)
                  && Stops(c, ys[i], AfterItems(c, ys[..i], felts), st, rest)
    case Array(ys) =>
      if felts[0] >= 0x1_0000_0000 then st == Failed(ValueOutOfRange(felts[0])) && rest == felts[1..]
      else if ys == [] then st == Panicked && rest == felts[1..]
      else
        var item := ys[|ys| - 1];
        exists i: nat :: i < felts[0] && ItemsPass(c, Copies(item, i), felts[1..])
                         && Stops(c, item, AfterItems(c, Copies(item, i), felts[1..]), st, rest)
    case ByteArray(_) =>
      match c.decode(felts)
      case None => st == Failed(CairoSerde) && rest == felts
      case Some(text) =>
        if text.size > |felts| then st == Panicked && rest == felts
        else text.text.None? && st == Failed(CairoSerde) && rest == felts[text.size..]
  }

  ghost predicate FieldsPass<K>(c: ByteArrayCodec, ds: seq<Named<K>>, felts: seq<Felt>) {
    DeserializeFields(c, ds, felts).status == Done
  }

  ghost function AfterFields<K>(c: ByteArrayCodec, ds: seq<Named<K>>, felts: seq<Felt>): (rest: seq<Felt>) {
    DeserializeFields(c, ds, felts).rest
  }

  ghost predicate ItemsPass(c: ByteArrayCodec, ys: seq<Ty>, felts: seq<Felt>) {
    DeserializeItems(c, ys, felts).status == Done
  }

  ghost function AfterItems(c: ByteArrayCodec, ys: seq<Ty>, felts: seq<Felt>): (rest: seq<Felt>) {
    DeserializeItems(c, ys, felts).rest
  }

  // ----- the first field or item that does not pass -----

  lemma {:induction false} FieldsStopFirst<K>(c: ByteArrayCodec, ds: seq<Named<K>>, felts: seq<Felt>) returns (n: nat)
    ensures n <= |ds| && FieldsPass(c, ds[..n], felts)
    ensures n == |ds| ==> DeserializeFields(c, ds, felts).status == Done
    ensures n < |ds| ==>
              var r, all := DeserializeTy(c, ds[n].ty, AfterFields(c, ds[..n], felts)), DeserializeFields(c, ds, felts);
              r.status == all.status != Done && r.rest == all.rest
  {
    n := 0;
    if ds != [] {
      var h := DeserializeTy(c, ds[0].ty, felts);
      if h.status == Done {
        n := FieldsStopFirst(c, ds[1..], h.rest);
        assert ds[..n + 1][0] == ds[0] && ds[..n + 1][1..] == ds[1..][..n];
        n := n + 1;
      }
    }
  }

  lemma {:induction false} FieldsStopThere<K>(c: ByteArrayCodec, ds: seq<Named<K>>, felts: seq<Felt>, i: nat)
    requires i < |ds| && FieldsPass(c, ds[..i], felts)
    requires DeserializeTy(c, ds[i].ty, AfterFields(c, ds[..i], felts)).status != Done
    ensures var r, all := DeserializeTy(c, ds[i].ty, AfterFields(c, ds[..i], felts)), DeserializeFields(c, ds, felts);
            r.status == all.status && r.rest == all.rest
  {
    if i > 0 {
      assert ds[..i][0] == ds[0] && ds[..i][1..] == ds[1..][..i - 1];
      FieldsStopThere(c, ds[1..], DeserializeTy(c, ds[0].ty, felts).rest, i - 1);
    }
  }

  lemma {:induction false} ItemsStopFirst(c: ByteArrayCodec, ys: seq<Ty>, felts: seq<Felt>) returns (n: nat)
    ensures n <= |ys| && ItemsPass(c, ys[..n], felts)
    ensures n == |ys| ==> DeserializeItems(c, ys, felts).status == Done
    ensures n < |ys| ==>
              var r, all := DeserializeTy(c, ys[n], AfterItems(c, ys[..n], felts)), DeserializeItems(c, ys, felts);
              r.status == all.status != Done && r.rest == all.rest
  {
    n := 0;
    if ys != [] {
      var h := DeserializeTy(c, ys[0], felts);
      if h.status == Done {
        n := ItemsStopFirst(c, ys[1..], h.rest);
        assert ys[..n + 1][0] == ys[0] && ys[..n + 1][1..] == ys[1..][..n];
        n := n + 1;
      }
    }
  }

  lemma {:induction false} ItemsStopThere(c: ByteArrayCodec, ys: seq<Ty>, felts: seq<Felt>, i: nat)
    requires i < |ys| && ItemsPass(c, ys[..i], felts)
    requires DeserializeTy(c, ys[i], AfterItems(c, ys[..i], felts)).status != Done
    ensures var r, all := DeserializeTy(c, ys[i], AfterItems(c, ys[..i], felts)), DeserializeItems(c, ys, felts);
            r.status == all.status && r.rest == all.rest
  {
    if i > 0 {
      assert ys[..i][0] == ys[0] && ys[..i][1..] == ys[1..][..i - 1];
      ItemsStopThere(c, ys[1..], DeserializeTy(c, ys[0], felts).rest, i - 1);
    }
  }

  lemma {:induction false} FewerCopies(item: Ty, n: nat, i: nat)
    requires i <= n
    ensures Copies(item, n)[..i] == Copies(item, i) && (i < n ==> Copies(item, n)[i] == item)
  {
    if i > 0 {
      FewerCopies(item, n - 1, i - 1);
      assert Copies(item, n)[..i] == [item] + Copies(item, n - 1)[..i - 1];
    } else if n > 0 {
      assert Copies(item, n)[0] == item;
    }
  }

  // ----- a read stops exactly there -----

  ghost predicate StopsReading(c: ByteArrayCodec, t: Ty, felts: seq<Felt>, st: Status, rest: seq<Felt>) {
    DeserializeTy(c, t, felts).status == st && DeserializeTy(c, t, felts).rest == rest
  }

  lemma PrimitiveStopsIff(c: ByteArrayCodec, t: Ty, felts: seq<Felt>, st: Status, rest: seq<Felt>)
    requires t.Prim? && st != Done
    ensures StopsReading(c, t, felts, st, rest) <==> Stops(c, t, felts, st, rest)
  {
    var k := t.primitive.kind;
    if felts != [] && k != U256 {
      forall v ensures k != Bool ==> (Decode(k, felts[0]) == Some(v) <==> InRange(k, v) && felts[0] == FeltOf(v)) {
        DecodingIsExact(k, felts[0], v);
      }
      assert k != Bool && Decode(k, felts[0]).Some? ==> !NoValue(k, felts[0]);
    }
  }

  /** A read that does not succeed stops exactly as described. */
  lemma {:induction false} StopsIff(c: ByteArrayCodec, t: Ty, felts: seq<Felt>, st: Status, rest: seq<Felt>)
    requires st != Done
    ensures StopsReading(c, t, felts, st, rest) <==> Stops(c, t, felts, st, rest)
    decreases t, 0
  {
    if felts != [] {
      match t
      case Prim(_) => PrimitiveStopsIff(c, t, felts, st, rest);
      case Struct(_, _) => StructStopsIff(c, t, felts, st, rest);
      case Enum(_, _, ds) =>
        if felts[0] <= 255 && felts[0] < |ds| {
          StopsIff(c, ds[felts[0]].ty, felts[1..], st, rest);
        }
      case Tuple(_) => TupleStopsIff(c, t, felts, st, rest);
      case Array(ys) =>
        if felts[0] < 0x1_0000_0000 && ys != [] {
          ArrayStopsIff(c, t, felts, st, rest);
        }
      case ByteArray(_) =>
    }
  }

  lemma {:induction false} StructStopsIff(c: ByteArrayCodec, t: Ty, felts: seq<Felt>, st: Status, rest: seq<Felt>)
    requires t.Struct? && felts != [] && st != Done
    ensures StopsReading(c, t, felts, st, rest) <==> Stops(c, t, felts, st, rest)
    decreases t.children, 0
  {
    var ds := t.children;
    if StopsReading(c, t, felts, st, rest) {
      var n := FieldsStopFirst(c, ds, felts);
      StopsIff(c, ds[n].ty, AfterFields(c, ds[..n], felts), st, rest);
    }
    if Stops(c, t, felts, st, rest) {
      var i :| 0 <= i < |ds| && FieldsPass(c, ds[..i], felts)
               && Stops(c, ds[i].ty, AfterFields(c, ds[..i], felts), st, rest);
      StopsIff(c, ds[i].ty, AfterFields(c, ds[..i], felts), st, rest);
      FieldsStopThere(c, ds, felts, i);
    }
  }

  lemma {:induction false} TupleStopsIff(c: ByteArrayCodec, t: Ty, felts: seq<Felt>, st: Status, rest: seq<Felt>)
    requires t.Tuple? && felts != [] && st != Done
    ensures StopsReading(c, t, felts, st, rest) <==> Stops(c, t, felts, st, rest)
    decreases t.items, 0
  {
    var ys := t.items;
    if StopsReading(c, t, felts, st, rest) {
      var n := ItemsStopFirst(c, ys, felts);
      StopsIff(c, ys[n], AfterItems(c, ys[..n], felts), st, rest);
    }
    if Stops(c, t, felts, st, rest) {
      var i :| 0 <= i < |ys| && ItemsPass(c, ys[..i], felts)
               && Stops(c, ys[i], AfterItems(c, ys[..i], felts), st, rest);
      StopsIff(c, ys[i], AfterItems(c, ys[..i], felts), st, rest);
      ItemsStopThere(c, ys, felts, i);
    }
  }

  lemma {:induction false} ArrayStopsIff(c: ByteArrayCodec, t: Ty, felts: seq<Felt>, st: Status, rest: seq<Felt>)
    requires t.Array? && t.items != [] && felts != [] && felts[0] < 0x1_0000_0000 && st != Done
    ensures StopsReading(c, t, felts, st, rest) <==> Stops(c, t, felts, st, rest)
    decreases t.items, 0
  {
    var ys, more := t.items, felts[1..];
    var item := ys[|ys| - 1];
    var all := Copies(item, felts[0]);
    CopiesAreItems(c, item, felts[0], more);
    if StopsReading(c, t, felts, st, rest) {
      var n := ItemsStopFirst(c, all, more);
      FewerCopies(item, felts[0], n);
      StopsIff(c, item, AfterItems(c, Copies(item, n), more), st, rest);
    }
    if Stops(c, t, felts, st, rest) {
      var i: nat :| i < felts[0] && ItemsPass(c, Copies(item, i), more)
                    && Stops(c, item, AfterItems(c, Copies(item, i), more), st, rest);
      StopsIff(c, item, AfterItems(c, Copies(item, i), more), st, rest);
      FewerCopies(item, felts[0], i);
      ItemsStopThere(c, all, more, i);
    }
  }
}
