/**
 Bit-packed storage words: the packer and unpacker that run on chain
 (crates/dojo/core/src/storage/packing.cairo) and the off-chain unpacker
 (crates/dojo/types/src/packing.rs).
 */
module Packing {
  import opened Wrappers
  import opened Felts
  import opened Bits
  import opened Sequences

  const MAX_BITS: nat := 251

  datatype PackingError = UnpackingEntityError | ValueOutOfRange(value: Felt)

  type Unpacked = Outcome<seq<Felt>, PackingError>

  // ----- off-chain unpacker -----

  /** A field read from a felt is a felt. */
  function ReadField(word: Felt, offset: nat, size: nat): (r: Felt)
    ensures r == Field(word, offset, size)
  {
    assert Field(word, offset, size) <= word by {
      var w, a, b := word as nat, Pow2(offset), Pow2(size);
      ModAtMost(w / a, b);
      DivAtMost(w, a);
    }
    Field(word, offset, size)
  }

  lemma ModAtMost(x: nat, m: nat)
    requires m > 0
    ensures x % m <= x
  {
    assert x == m * (x / m) + x % m && m * (x / m) >= 0;
  }

  lemma DivAtMost(x: nat, m: nat)
    requires m > 0
    ensures x / m <= x
  {
    assert x == m * (x / m) + x % m;
    MulAtLeast(m, x / m);
  }

  lemma MulAtLeast(m: nat, q: nat)
    requires m > 0
    ensures q <= m * q
  {
  }

  /** The unpacker's loop: `offset` bits of `word` are consumed, `words` are still to come. */
  function UnpackFrom(word: Felt, offset: nat, words: seq<Felt>, layout: seq<Felt>): (r: Unpacked)
    decreases |layout|
  {
    if layout == [] then Ok([])
    else if layout[0] > 255 then Err(ValueOutOfRange(layout[0]))
    else if offset > MAX_BITS then Panic // 251 - offset underflows
    else if MAX_BITS - offset < layout[0] then
      if words == [] then Err(UnpackingEntityError)
      else Prepend([ReadField(words[0], 0, layout[0])], UnpackFrom(words[0], layout[0], words[1..], layout[1..]))
    else
      Prepend([ReadField(word, offset, layout[0])], UnpackFrom(word, offset + layout[0], words, layout[1..]))
  }

  function UnpackSpec(packed: seq<Felt>, layout: seq<Felt>): (r: Unpacked) {
    if packed == [] then Err(UnpackingEntityError) else UnpackFrom(packed[0], 0, packed[1..], layout)
  }

  /** The mask built bit by bit in 256-bit arithmetic is 2^size - 1. */
  method BuildMask(size: nat) returns (mask: nat)
    requires size <= 255
    ensures mask == Pow2(size) - 1
  {
    mask := 0;
    for i := 0 to size
      invariant mask == Pow2(i) - 1
    {
      Pow2Of256(256);
      Pow2Monotone(i + 1, 256);
      assert Pow2(i + 1) == 2 * Pow2(i);
      mask := (2 * mask) % U256_MODULUS + 1;
    }
  }

  /** `mask & (unpacking >> offset)`. */
  method Extract(unpacking: Felt, offset: nat, size: nat) returns (result: Felt)
    requires size <= 255
    ensures result == Field(unpacking, offset, size)
  {
    var mask := BuildMask(size);
    AndMask(size, unpacking / Pow2(offset));
    assert And(mask, unpacking / Pow2(offset)) == ReadField(unpacking, offset, size);
    result := And(mask, unpacking / Pow2(offset));
  }

  /** `unpack`: the words are reversed once and popped from the back. */
  method Unpack(packed: seq<Felt>, layout: seq<Felt>) returns (r: Unpacked)
    ensures r == UnpackSpec(packed, layout)
  {
    var stack := Reverse(packed);
    ReverseTwice(packed);
    if stack == [] {
      return Err(UnpackingEntityError);
    }
    ReverseLast(stack);
    var unpacking: Felt := stack[|stack| - 1];
    stack := stack[..|stack| - 1];
    assert Reverse(stack) == packed[1..] && layout[0..] == layout;
    var unpacked: seq<Felt> := [];
    var offset: nat := 0;
    PrependNone(UnpackFrom(unpacking, 0, packed[1..], layout));
    for i := 0 to |layout|
      invariant UnpackSpec(packed, layout)
             == Prepend(unpacked, UnpackFrom(unpacking, offset, Reverse(stack), layout[i..]))
    {
      var size := layout[i];
      assert layout[i..][0] == size && layout[i..][1..] == layout[i + 1..];
      if size > 255 {
        return Err(ValueOutOfRange(size));
      }
      if offset > MAX_BITS {
        return Panic;
      }
      if MAX_BITS - offset < size {
        if stack == [] {
          return Err(UnpackingEntityError);
        }
        ReverseLast(stack);
        unpacking := stack[|stack| - 1];
        stack := stack[..|stack| - 1];
        offset := 0;
      }
      var result := Extract(unpacking, offset, size);
      PrependCons(unpacked, result, UnpackFrom(unpacking, offset + size, Reverse(stack), layout[i + 1..]));
      unpacked := unpacked + [result];
      offset := offset + size;
    }
    assert layout[|layout|..] == [] && unpacked + [] == unpacked;
    return Ok(unpacked);
  }

  // ----- on-chain packer and unpacker -----

  /** `pack`: the current word is `packing`, filled up to bit `offset`. */
  function PackFrom(packing: Felt, offset: nat, layout: seq<Felt>, values: seq<Felt>): (r: Unpacked)
    requires |layout| <= |values|
    decreases |layout|
  {
    if layout == [] then Ok([packing])
    else if offset > MAX_BITS || layout[0] > MAX_BITS then Panic
    else if MAX_BITS - offset < layout[0] then
      Prepend([packing], PackFrom(values[0], layout[0], layout[1..], values[1..]))
    else
      var shifted := values[0] * Pow2(offset);
      if shifted >= U256_MODULUS || Or(packing, shifted) >= P then Panic
      else PackFrom(Or(packing, shifted), offset + layout[0], layout[1..], values[1..])
  }

  function Pack(layout: seq<Felt>, values: seq<Felt>): (r: Unpacked) {
    if |values| < |layout| then Panic else PackFrom(0, 0, layout, values)
  }

  /** `calculate_packed_size` after `partial` bits of the current word. */
  function WordsAfter(partial: nat, layout: seq<Felt>): (n: nat)
    decreases |layout|
  {
    if layout == [] then 0
    else if partial + layout[0] > MAX_BITS then 1 + WordsAfter(layout[0], layout[1..])
    else WordsAfter(partial + layout[0], layout[1..])
  }

  function PackedSize(layout: seq<Felt>): (n: nat) {
    1 + WordsAfter(0, layout)
  }

  /** On-chain `unpack`: a field of 251 bits takes the whole word, unmasked. */
  function ChainUnpackFrom(word: Felt, offset: nat, words: seq<Felt>, layout: seq<Felt>): (r: Unpacked)
    decreases |layout|
  {
    if layout == [] then Ok([])
    else if offset > MAX_BITS || layout[0] > 255 then Panic
    else if MAX_BITS - offset < layout[0] then
      if words == [] then Panic
      else
        var field := if layout[0] == MAX_BITS then words[0] else ReadField(words[0], 0, layout[0]);
        Prepend([field], ChainUnpackFrom(words[0], layout[0], words[1..], layout[1..]))
    else
      Prepend([ReadField(word, offset, layout[0])], ChainUnpackFrom(word, offset + layout[0], words, layout[1..]))
  }

  function ChainUnpack(words: seq<Felt>, layout: seq<Felt>): (r: Unpacked) {
    ChainUnpackFrom(0, MAX_BITS, words, layout)
  }

  // ----- theorems -----

  predicate Layout(layout: seq<Felt>) {
    forall i :: 0 <= i < |layout| ==> layout[i] <= MAX_BITS
  }

  /** The value fits its field; a 251-bit field takes any felt, as it does on chain. */
  predicate Storable(size: nat, value: Felt) {
    size == MAX_BITS || value < Pow2(size)
  }

  predicate AllStorable(layout: seq<Felt>, values: seq<Felt>) {
    && |values| == |layout|
    && Layout(layout)
    && forall i :: 0 <= i < |layout| ==> Storable(layout[i], values[i])
  }

  function Truncated(layout: seq<Felt>, values: seq<Felt>): (r: seq<Felt>)
    requires |values| == |layout|
    ensures |r| == |values|
    ensures forall i :: 0 <= i < |r| ==> r[i] == values[i] % Pow2(layout[i])
  {
    if layout == [] then []
    else
      assert values[0] % Pow2(layout[0]) <= values[0] by { ModAtMost(values[0], Pow2(layout[0])); }
      [values[0] % Pow2(layout[0])] + Truncated(layout[1..], values[1..])
  }

  /** `packing` holds nothing above `offset`, or is one whole felt. */
  predicate Partial(packing: Felt, offset: nat) {
    offset <= MAX_BITS && (packing < Pow2(offset) || offset == MAX_BITS)
  }

  /** The finished word `w` keeps what was in `packing`. */
  predicate Extends(w: Felt, packing: Felt, offset: nat) {
    if offset == MAX_BITS then w == packing else w % Pow2(offset) == packing
  }

  /** One packing step into the current word. */
  lemma PackStep(packing: Felt, offset: nat, size: nat, v: Felt)
    requires Partial(packing, offset) && offset + size <= MAX_BITS && Storable(size, v)
    ensures var shifted := v * Pow2(offset);
            && shifted < U256_MODULUS && Or(packing, shifted) < P
            && Partial(Or(packing, shifted), offset + size)
            && Or(packing, shifted) == packing + shifted
  {
    Pow2Of251(MAX_BITS);
    assert Pow2(0) == 1;
    if offset == MAX_BITS {
      assert v * Pow2(offset) == 0;
      assert Or(packing, 0) == packing;
    } else {
      OrDisjoint(packing, v, offset);
      if size < MAX_BITS {
        ExtensionBound(packing, offset, v, size);
        Pow2Monotone(offset + size, MAX_BITS);
      }
    }
  }

  /** Reading back the field written by one packing step from any word that extends it. */
  lemma ReadBack(w: Felt, packing: Felt, offset: nat, size: nat, v: Felt)
    requires Partial(packing, offset) && offset + size <= MAX_BITS && Storable(size, v)
    requires packing + v * Pow2(offset) < P && Extends(w, packing + v * Pow2(offset), offset + size)
    ensures Extends(w, packing, offset)
    ensures Field(w, offset, size) == v % Pow2(size)
    ensures v < Pow2(size) ==> v % Pow2(size) == v
  {
    var z: nat := 0;
    assert Pow2(z) == 1;
    if v < Pow2(size) {
      RemainderUnique(v, Pow2(size), 0, v);
    }
    if offset == MAX_BITS {
      assert size == z && v * Pow2(offset) == 0;
    } else if size == MAX_BITS {
      assert offset == z && packing == 0 && v * Pow2(offset) == v && w == v;
      assert w as int / 1 == w;
    } else {
      ReadBackInside(w, packing, offset, size, v);
    }
  }

  lemma ReadBackInside(w: Felt, packing: Felt, offset: nat, size: nat, v: Felt)
    requires packing < Pow2(offset) && v < Pow2(size)
    requires packing + v * Pow2(offset) < P && Extends(w, packing + v * Pow2(offset), offset + size)
    ensures w % Pow2(offset) == packing && Field(w, offset, size) == v
  {
    var sum := packing + v * Pow2(offset);
    ExtensionBound(packing, offset, v, size);
    if offset + size == MAX_BITS {
      RemainderUnique(w, Pow2(offset + size), 0, sum);
    }
    FieldOfExtension(w, packing, offset, v, size);
  }

  /** What the unpacker reads back from the words the packer goes on to write. */
  ghost predicate Recovered(packing: Felt, offset: nat, layout: seq<Felt>, values: seq<Felt>)
    requires |values| == |layout|
  {
    var r := PackFrom(packing, offset, layout, values);
    && r.Ok? && |r.value| == 1 + WordsAfter(offset, layout)
    && Extends(r.value[0], packing, offset)
    && UnpackFrom(r.value[0], offset, r.value[1..], layout) == Ok(Truncated(layout, values))
  }

  /** The off-chain unpacker gives back each packed value modulo the size of its field. */
  lemma {:induction false} UnpackAfterPackFrom(packing: Felt, offset: nat, layout: seq<Felt>, values: seq<Felt>)
    requires Partial(packing, offset) && AllStorable(layout, values)
    ensures Recovered(packing, offset, layout, values)
    decreases |layout|
  {
    if layout == [] {
      Small(packing, offset);
    } else {
      var size, v := layout[0], values[0];
      AllStorableTail(layout, values);
      if MAX_BITS - offset < size {
        UnpackAfterPackFrom(v, size, layout[1..], values[1..]);
        RecoveredNextWord(packing, offset, layout, values);
      } else {
        PackStep(packing, offset, size, v);
        UnpackAfterPackFrom(Or(packing, v * Pow2(offset)), offset + size, layout[1..], values[1..]);
        RecoveredSameWord(packing, offset, layout, values);
      }
    }
  }

  lemma AllStorableTail(layout: seq<Felt>, values: seq<Felt>)
    requires layout != [] && AllStorable(layout, values)
    ensures Storable(layout[0], values[0]) && AllStorable(layout[1..], values[1..])
    ensures Partial(values[0], layout[0])
  {
    assert forall i :: 0 <= i < |layout| - 1 ==> Storable(layout[1..][i], values[1..][i]);
  }

  lemma RecoveredNextWord(packing: Felt, offset: nat, layout: seq<Felt>, values: seq<Felt>)
    requires layout != [] && |values| == |layout|
    requires Partial(packing, offset) && layout[0] <= MAX_BITS && MAX_BITS - offset < layout[0]
    requires Storable(layout[0], values[0]) && Recovered(values[0], layout[0], layout[1..], values[1..])
    ensures Recovered(packing, offset, layout, values)
  {
    var size, v := layout[0], values[0];
    var words := PackFrom(v, size, layout[1..], values[1..]).value;
    Small(packing, offset);
    assert ([packing] + words)[1..] == words;
    var z: nat := 0;
    assert Pow2(z) == 1 && v * Pow2(z) == v;
    ReadBack(words[0], 0, z, size, v);
  }

  lemma RecoveredSameWord(packing: Felt, offset: nat, layout: seq<Felt>, values: seq<Felt>)
    requires layout != [] && |values| == |layout|
    requires Partial(packing, offset) && offset + layout[0] <= MAX_BITS && Storable(layout[0], values[0])
    requires var shifted := values[0] * Pow2(offset);
             && shifted < U256_MODULUS && Or(packing, shifted) == packing + shifted < P
             && Recovered(packing + shifted, offset + layout[0], layout[1..], values[1..])
    ensures Recovered(packing, offset, layout, values)
  {
    var size, v := layout[0], values[0];
    var words := PackFrom(packing + v * Pow2(offset), offset + size, layout[1..], values[1..]).value;
    ReadBack(words[0], packing, offset, size, v);
  }

  lemma Small(packing: Felt, offset: nat)
    requires Partial(packing, offset)
    ensures Extends(packing, packing, offset)
  {
  }

  lemma AllTrue(layout: seq<Felt>, values: seq<Felt>)
    requires |values| == |layout|
    ensures Truncated(layout, values) == values <==> forall i :: 0 <= i < |layout| ==> values[i] < Pow2(layout[i])
  {
    var t := Truncated(layout, values);
    if forall i :: 0 <= i < |layout| ==> values[i] < Pow2(layout[i]) {
      forall i | 0 <= i < |layout| ensures t[i] == values[i] {
        RemainderUnique(values[i], Pow2(layout[i]), 0, values[i]);
      }
    } else {
      var i :| 0 <= i < |layout| && values[i] >= Pow2(layout[i]);
      assert t[i] < Pow2(layout[i]);
    }
  }

  /**
   The off-chain unpacker undoes the on-chain packer if and only if every value is below
   2^size. A full felt of 2^251 or more, which the chain stores in a 251-bit field, comes
   back without its top bit.
   */
  lemma UnpackInvertsPack(layout: seq<Felt>, values: seq<Felt>)
    requires AllStorable(layout, values)
    ensures var packed := Pack(layout, values);
            && packed.Ok? && |packed.value| == PackedSize(layout)
            && UnpackSpec(packed.value, layout) == Ok(Truncated(layout, values))
            && (UnpackSpec(packed.value, layout) == Ok(values) <==>
                forall i :: 0 <= i < |layout| ==> values[i] < Pow2(layout[i]))
  {
    UnpackAfterPackFrom(0, 0, layout, values);
    AllTrue(layout, values);
  }

  /** The largest felt in a 251-bit field: the chain gives it back, the off-chain unpacker does not. */
  lemma FullFeltIsTruncated()
    ensures Pack([251], [P - 1]) == Ok([P - 1])
    ensures ChainUnpack([P - 1], [251]) == Ok([P - 1])
    ensures UnpackSpec([P - 1], [251]) != Ok([P - 1])
  {
    Pow2Of251(MAX_BITS);
    AllTrue([251], [P - 1]);
    UnpackAfterPackFrom(0, 0, [251], [P - 1]);
    ChainUnpackInvertsPack([251], [P - 1]);
    PackStep(0, 0, 251, P - 1);
    assert Pow2(0) == 1;
    assert PackFrom(P - 1, 251, [], []) == Ok([P - 1]);
    assert Or(0, P - 1) == P - 1;
  }

  ghost predicate ChainRecovered(packing: Felt, offset: nat, layout: seq<Felt>, values: seq<Felt>)
    requires |values| == |layout|
  {
    var r := PackFrom(packing, offset, layout, values);
    && r.Ok? && |r.value| > 0
    && Extends(r.value[0], packing, offset)
    && ChainUnpackFrom(r.value[0], offset, r.value[1..], layout) == Ok(values)
  }

  /** In step with the packer, the on-chain unpacker gives back the values themselves. */
  lemma {:induction false} ChainUnpackAfterPackFrom(packing: Felt, offset: nat, layout: seq<Felt>, values: seq<Felt>)
    requires Partial(packing, offset) && offset > 0 && AllStorable(layout, values)
    ensures ChainRecovered(packing, offset, layout, values)
    decreases |layout|
  {
    if layout == [] {
      Small(packing, offset);
    } else {
      var size, v := layout[0], values[0];
      AllStorableTail(layout, values);
      if MAX_BITS - offset < size {
        ChainUnpackAfterPackFrom(v, size, layout[1..], values[1..]);
        ChainRecoveredNextWord(packing, offset, layout, values);
      } else {
        PackStep(packing, offset, size, v);
        ChainUnpackAfterPackFrom(Or(packing, v * Pow2(offset)), offset + size, layout[1..], values[1..]);
        ChainRecoveredSameWord(packing, offset, layout, values);
      }
    }
  }

  lemma ChainRecoveredNextWord(packing: Felt, offset: nat, layout: seq<Felt>, values: seq<Felt>)
    requires layout != [] && |values| == |layout|
    requires Partial(packing, offset) && layout[0] <= MAX_BITS && MAX_BITS - offset < layout[0]
    requires Storable(layout[0], values[0]) && ChainRecovered(values[0], layout[0], layout[1..], values[1..])
    ensures ChainRecovered(packing, offset, layout, values)
  {
    var size, v := layout[0], values[0];
    var words := PackFrom(v, size, layout[1..], values[1..]).value;
    Small(packing, offset);
    assert ([packing] + words)[1..] == words && values == [v] + values[1..];
    var z: nat := 0;
    assert Pow2(z) == 1 && v * Pow2(z) == v;
    ReadBack(words[0], 0, z, size, v);
  }

  lemma ChainRecoveredSameWord(packing: Felt, offset: nat, layout: seq<Felt>, values: seq<Felt>)
    requires layout != [] && |values| == |layout|
    requires Partial(packing, offset) && 0 < offset && offset + layout[0] <= MAX_BITS
    requires Storable(layout[0], values[0])
    requires var shifted := values[0] * Pow2(offset);
             && shifted < U256_MODULUS && Or(packing, shifted) == packing + shifted < P
             && ChainRecovered(packing + shifted, offset + layout[0], layout[1..], values[1..])
    ensures ChainRecovered(packing, offset, layout, values)
  {
    var size, v := layout[0], values[0];
    var words := PackFrom(packing + v * Pow2(offset), offset + size, layout[1..], values[1..]).value;
    assert values == [v] + values[1..];
    ReadBack(words[0], packing, offset, size, v);
  }

  /** The on-chain unpacker undoes the packer on every storable value. */
  lemma {:induction false} ChainUnpackInvertsPack(layout: seq<Felt>, values: seq<Felt>)
    requires AllStorable(layout, values)
    ensures Pack(layout, values).Ok?
    ensures ChainUnpack(Pack(layout, values).value, layout) == Ok(values)
    decreases |layout|
  {
    UnpackAfterPackFrom(0, 0, layout, values);
    if layout != [] {
      var size, v := layout[0], values[0];
      assert values == [v] + values[1..];
      AllStorableTail(layout, values);
      var z: nat := 0;
      assert Pow2(z) == 1 && v * Pow2(z) == v && Or(0, v) == v;
      PackStep(0, z, size, v);
      if size == 0 {
        ChainUnpackInvertsPack(layout[1..], values[1..]);
        assert Field(0, MAX_BITS, z) == 0;
      } else {
        ChainUnpackAfterPackFrom(v, size, layout[1..], values[1..]);
        ReadBack(Pack(layout, values).value[0], 0, z, size, v);
      }
    }
  }

  /** Unpacking fails exactly when the words run out, and needs one word even for no field. */
  lemma {:induction false} UnpackFromFailure(word: Felt, offset: nat, words: seq<Felt>, layout: seq<Felt>)
    requires offset <= MAX_BITS && Layout(layout)
    ensures var r := UnpackFrom(word, offset, words, layout);
            if |words| >= WordsAfter(offset, layout) then r.Ok? && |r.value| == |layout|
            else r == Err(UnpackingEntityError)
    decreases |layout|
  {
    if layout != [] {
      assert Layout(layout[1..]);
      if MAX_BITS - offset < layout[0] {
        if words != [] {
          UnpackFromFailure(words[0], layout[0], words[1..], layout[1..]);
        }
      } else {
        UnpackFromFailure(word, offset + layout[0], words, layout[1..]);
      }
    }
  }

  lemma UnpackFailsIffWordsRunOut(packed: seq<Felt>, layout: seq<Felt>)
    requires Layout(layout)
    ensures var r := UnpackSpec(packed, layout);
            && (r.Ok? <==> |packed| >= PackedSize(layout))
            && (!r.Ok? ==> r == Err(UnpackingEntityError))
  {
    if packed != [] {
      UnpackFromFailure(packed[0], 0, packed[1..], layout);
    }
  }

  /**
   A first size past 251, after fields whose words are there: past 255 it is out of range; otherwise it takes a word
   of its own, and a field behind it panics, or is itself out of range.
   */
  lemma {:induction false} UnpackWide(word: Felt, offset: nat, words: seq<Felt>, fields: seq<Felt>, size: Felt,
                                      more: seq<Felt>)
    requires offset <= MAX_BITS && Layout(fields) && size > MAX_BITS
    ensures var r := UnpackFrom(word, offset, words, fields + [size] + more);
            var needed := WordsAfter(offset, fields);
            if |words| < needed then r == Err(UnpackingEntityError)
            else if size > 255 then r == Err(ValueOutOfRange(size))
            else if |words| == needed then r == Err(UnpackingEntityError)
            else if more == [] then r.Ok? && |r.value| == |fields| + 1
            else if more[0] > 255 then r == Err(ValueOutOfRange(more[0]))
            else r == Panic
    decreases |fields|
  {
    var layout := fields + [size] + more;
    if fields == [] {
      assert layout[1..] == more;
    } else {
      assert layout[1..] == fields[1..] + [size] + more && Layout(fields[1..]);
      if MAX_BITS - offset < fields[0] {
        if words != [] {
          UnpackWide(words[0], fields[0], words[1..], fields[1..], size, more);
        }
      } else {
        UnpackWide(word, offset + fields[0], words, fields[1..], size, more);
      }
    }
  }

  /** Where a field lives: its word and its lowest bit. */
  datatype Slot = Slot(word: nat, low: nat)

  function Slots(word: nat, offset: nat, layout: seq<Felt>): (slots: seq<Slot>)
    ensures |slots| == |layout|
    decreases |layout|
  {
    if layout == [] then []
    else if offset + layout[0] > MAX_BITS then [Slot(word + 1, 0)] + Slots(word + 1, layout[0], layout[1..])
    else [Slot(word, offset)] + Slots(word, offset + layout[0], layout[1..])
  }

  /** `a` ends before `b` begins. */
  predicate Before(a: Slot, size: nat, b: Slot) {
    a.word < b.word || (a.word == b.word && a.low + size <= b.low)
  }

  lemma {:induction false} SlotsStayInWords(word: nat, offset: nat, layout: seq<Felt>, i: nat)
    requires offset <= MAX_BITS && Layout(layout) && i < |layout|
    ensures var s := Slots(word, offset, layout)[i];
            && s.low + layout[i] <= MAX_BITS
            && s.word <= word + WordsAfter(offset, layout)
            && Before(Slot(word, 0), offset, s)
    decreases |layout|
  {
    assert Layout(layout[1..]);
    if i > 0 {
      if offset + layout[0] > MAX_BITS {
        SlotsStayInWords(word + 1, layout[0], layout[1..], i - 1);
      } else {
        SlotsStayInWords(word, offset + layout[0], layout[1..], i - 1);
      }
    }
  }

  /** Fields never straddle a word and occupy disjoint, increasing bit ranges. */
  lemma {:induction false} SlotsAreDisjoint(word: nat, offset: nat, layout: seq<Felt>, i: nat, j: nat)
    requires offset <= MAX_BITS && Layout(layout) && i < j < |layout|
    ensures var s := Slots(word, offset, layout);
            s[i].low + layout[i] <= MAX_BITS && s[j].low + layout[j] <= MAX_BITS && Before(s[i], layout[i], s[j])
    decreases |layout|
  {
    assert Layout(layout[1..]);
    SlotsStayInWords(word, offset, layout, i);
    SlotsStayInWords(word, offset, layout, j);
    if offset + layout[0] > MAX_BITS {
      if i == 0 {
        SlotsStayInWords(word + 1, layout[0], layout[1..], j - 1);
      } else {
        SlotsAreDisjoint(word + 1, layout[0], layout[1..], i - 1, j - 1);
      }
    } else if i == 0 {
      SlotsStayInWords(word, offset + layout[0], layout[1..], j - 1);
    } else {
      SlotsAreDisjoint(word, offset + layout[0], layout[1..], i - 1, j - 1);
    }
  }

  /** Each value is the content of its slot. */
  ghost predicate Reads(values: seq<Felt>, all: seq<Felt>, slots: seq<Slot>, layout: seq<Felt>) {
    && |values| == |slots| == |layout|
    && forall i :: 0 <= i < |slots| ==>
         slots[i].word < |all| && values[i] == Field(all[slots[i].word], slots[i].low, layout[i])
  }

  lemma ReadsCons(x: Felt, values: seq<Felt>, all: seq<Felt>, slot: Slot, slots: seq<Slot>, layout: seq<Felt>)
    requires layout != [] && Reads(values, all, slots, layout[1..])
    requires slot.word < |all| && x == Field(all[slot.word], slot.low, layout[0])
    ensures Reads([x] + values, all, [slot] + slots, layout)
  {
  }

  /** Each unpacked value is the content of its slot. */
  lemma {:induction false} UnpackReadsSlots(before: seq<Felt>, word: Felt, offset: nat, words: seq<Felt>,
                                            layout: seq<Felt>)
    requires offset <= MAX_BITS && Layout(layout)
    requires UnpackFrom(word, offset, words, layout).Ok?
    ensures Reads(UnpackFrom(word, offset, words, layout).value, before + [word] + words,
                  Slots(|before|, offset, layout), layout)
    decreases |layout|
  {
    if layout != [] {
      var all, rest := before + [word] + words, layout[1..];
      assert Layout(rest);
      if MAX_BITS - offset < layout[0] {
        UnpackReadsSlots(before + [word], words[0], layout[0], words[1..], rest);
        assert before + [word] + [words[0]] + words[1..] == all;
        ReadsCons(ReadField(words[0], 0, layout[0]), UnpackFrom(words[0], layout[0], words[1..], rest).value, all,
                  Slot(|before| + 1, 0), Slots(|before| + 1, layout[0], rest), layout);
      } else {
        UnpackReadsSlots(before, word, offset + layout[0], words, rest);
        ReadsCons(ReadField(word, offset, layout[0]), UnpackFrom(word, offset + layout[0], words, rest).value, all,
                  Slot(|before|, offset), Slots(|before|, offset + layout[0], rest), layout);
      }
    }
  }

  /** The first field starts the first word; each next one follows at once, or starts a new word if it does not fit. */
  lemma {:induction false} SlotsAreTight(word: nat, offset: nat, layout: seq<Felt>, i: nat)
    requires offset <= MAX_BITS && Layout(layout) && i < |layout|
    ensures var s := Slots(word, offset, layout);
            if i == 0 then s[0] == if offset + layout[0] <= MAX_BITS then Slot(word, offset) else Slot(word + 1, 0)
            else
              var end := s[i - 1].low + layout[i - 1];
              s[i] == if end + layout[i] <= MAX_BITS then Slot(s[i - 1].word, end) else Slot(s[i - 1].word + 1, 0)
    decreases |layout|
  {
    assert Layout(layout[1..]);
    if i > 0 {
      if offset + layout[0] > MAX_BITS {
        SlotsAreTight(word + 1, layout[0], layout[1..], i - 1);
      } else {
        SlotsAreTight(word, offset + layout[0], layout[1..], i - 1);
      }
    }
  }

  /** As many words are needed as the fields reach. */
  lemma {:induction false} LastSlotIsInLastWord(word: nat, offset: nat, layout: seq<Felt>)
    requires offset <= MAX_BITS && Layout(layout) && layout != []
    ensures Slots(word, offset, layout)[|layout| - 1].word == word + WordsAfter(offset, layout)
    decreases |layout|
  {
    assert Layout(layout[1..]);
    if |layout| > 1 {
      if offset + layout[0] > MAX_BITS {
        LastSlotIsInLastWord(word + 1, layout[0], layout[1..]);
      } else {
        LastSlotIsInLastWord(word, offset + layout[0], layout[1..]);
      }
    }
  }
}
