/** Primitive Cairo values and their felt codec (crates/dojo/types/src/primitive.rs). */
module Primitives {
  import opened Wrappers
  import opened Felts
  import opened SignedFelts

  const TWO_128: nat := 0x1_0000_0000_0000_0000_0000_0000_0000_0000

  datatype Kind =
    | I8 | I16 | I32 | I64 | I128
    | U8 | U16 | U32 | U64 | U128 | U256
    | Bool | Felt252 | ClassHash | ContractAddress | EthAddress

  predicate IsSigned(k: Kind) {
    k in {I8, I16, I32, I64, I128}
  }

  /** Size in bytes of a signed kind. */
  function SignedSize(k: Kind): (size: nat)
    requires IsSigned(k)
    ensures 1 <= size <= 16
  {
    match k
    case I8 => 1
    case I16 => 2
    case I32 => 4
    case I64 => 8
    case I128 => 16
  }

  /** One past the largest value of an unsigned kind; a boolean is 0 or 1. */
  function Limit(k: Kind): (limit: int)
    requires !IsSigned(k)
  {
    match k
    case U8 => 0x100
    case U16 => 0x1_0000
    case U32 => 0x1_0000_0000
    case U64 => 0x1_0000_0000_0000_0000
    case U128 => TWO_128
    case U256 => TWO_128 * TWO_128
    case Bool => 2
    case _ => P
  }

  predicate InRange(k: Kind, v: int) {
    if IsSigned(k) then -Half(SignedSize(k)) <= v < Half(SignedSize(k)) else 0 <= v < Limit(k)
  }

  /** A primitive type, with its value once it is known. */
  datatype RawPrimitive = Primitive(kind: Kind, value: Option<int>)

  type Primitive = p: RawPrimitive | p.value.Some? ==> InRange(p.kind, p.value.value)
    witness Primitive(Bool, None)

  datatype PrimitiveError =
    | MissingFieldElement
    | NotEnoughFieldElements
    | ValueOutOfRange(value: Felt)
    | TypeMismatch
    | CairoSerde

  type Serialized = Outcome<seq<Felt>, PrimitiveError>

  datatype Status = Done | Failed(error: PrimitiveError) | Panicked

  /** What a call that takes `&mut self` and `&mut Vec<Felt>` leaves behind. */
  datatype Read<+T> = Read(status: Status, value: T, rest: seq<Felt>)

  function Serialize(p: Primitive): (r: Serialized) {
    if p.value.None? then Err(MissingFieldElement)
    else if p.kind == U256 then Ok([FeltOf(p.value.value % TWO_128), FeltOf(p.value.value / TWO_128)])
    else Ok([FeltOf(p.value.value)])
  }

  /** The number a felt denotes for a one-felt kind; `None` when it is out of range. */
  function Decode(k: Kind, x: Felt): (v: Option<int>)
    requires k != U256
    ensures v.Some? ==> InRange(k, v.value)
  {
    if IsSigned(k) then
      var v := TryFromFelt(SignedSize(k), x);
      assert v.Some? ==> InRange(k, v.value) by {
        if v.Some? {
          SignedDecodingIsExact(SignedSize(k), x, v.value);
        }
      }
      v
    else if k == Bool then
      Some(if x == 1 then 1 else 0)
    else if x < Limit(k) then
      Some(x)
    else
      None
  }

  function Deserialize(p: Primitive, felts: seq<Felt>): (r: Read<Primitive>) {
    if felts == [] then Read(Failed(MissingFieldElement), p, felts)
    else if p.kind == U256 then
      if |felts| < 2 then Read(Failed(NotEnoughFieldElements), p, felts)
      else
        var low, high := felts[0] % TWO_128, felts[1] % TWO_128;
        assert InRange(U256, low + TWO_128 * high) by { HighLowBound(low, high); }
        Read(Done, Primitive(U256, Some(low + TWO_128 * high)), felts[2..])
    else
      match Decode(p.kind, felts[0])
      case None => Read(Failed(ValueOutOfRange(felts[0])), p, felts[1..])
      case Some(v) => Read(Done, Primitive(p.kind, Some(v)), felts[1..])
  }

  lemma HighLowBound(low: int, high: int)
    requires 0 <= low < TWO_128 && 0 <= high < TWO_128
    ensures 0 <= low + TWO_128 * high < TWO_128 * TWO_128
  {
  }

  /** A set primitive survives the felt codec, whatever follows it. */
  lemma RoundTrip(template: Primitive, p: Primitive, tail: seq<Felt>)
    requires template.kind == p.kind && p.value.Some?
    ensures Serialize(p).Ok?
    ensures Deserialize(template, Serialize(p).value + tail) == Read(Done, p, tail)
  {
    var v := p.value.value;
    if p.kind == U256 {
      U256RoundTrip(template, p, tail);
    } else {
      assert (Serialize(p).value + tail)[1..] == tail;
      if IsSigned(p.kind) {
        SignedDecodingIsExact(SignedSize(p.kind), FeltOf(v), v);
      } else {
        SmallFelt(v);
      }
    }
  }

  lemma U256RoundTrip(template: Primitive, p: Primitive, tail: seq<Felt>)
    requires template.kind == p.kind == U256 && p.value.Some?
    ensures Deserialize(template, Serialize(p).value + tail) == Read(Done, p, tail)
  {
    var v := p.value.value;
    var low, high := v % TWO_128, v / TWO_128;
    assert 0 <= high < TWO_128;
    SmallFelt(low);
    SmallFelt(high);
    var felts := [FeltOf(low), FeltOf(high)] + tail;
    assert felts[2..] == tail;
    assert low % TWO_128 == low && high % TWO_128 == high;
  }

  /** A felt is decoded to `v` exactly when `v` is in range and the felt is its image; a boolean takes any felt. */
  lemma DecodingIsExact(k: Kind, x: Felt, v: int)
    requires k != U256
    ensures k != Bool ==> (Decode(k, x) == Some(v) <==> InRange(k, v) && x == FeltOf(v))
    ensures k == Bool ==> (Decode(k, x) == Some(v) <==> v == if x == 1 then 1 else 0)
  {
    if IsSigned(k) {
      SignedKindDecodes(k, x, v);
    } else if k != Bool {
      UnsignedDecodingIsExact(k, x, v);
    }
  }

  lemma SignedKindDecodes(k: Kind, x: Felt, v: int)
    requires IsSigned(k)
    ensures Decode(k, x) == Some(v) <==> InRange(k, v) && x == FeltOf(v)
  {
    DecodesAsSigned(k, x);
    SignedRange(k, x, v);
    SignedDecodingIsExact(SignedSize(k), x, v);
  }

  lemma DecodesAsSigned(k: Kind, x: Felt)
    requires IsSigned(k)
    ensures Decode(k, x) == TryFromFelt(SignedSize(k), x)
  {
  }

  lemma SignedRange(k: Kind, x: Felt, v: int)
    requires IsSigned(k)
    ensures Represents(SignedSize(k), x, v) <==> InRange(k, v) && x == FeltOf(v)
  {
  }

  lemma UnsignedDecodingIsExact(k: Kind, x: Felt, v: int)
    requires !IsSigned(k) && k != U256 && k != Bool
    ensures Decode(k, x) == Some(v) <==> InRange(k, v) && x == FeltOf(v)
  {
    SmallFelt(x);
    if InRange(k, v) {
      LimitBelowPrime(k);
      SmallFelt(v);
    }
  }

  lemma LimitBelowPrime(k: Kind)
    requires !IsSigned(k) && k != U256
    ensures Limit(k) <= P
  {
  }

  /** How many bytes a kind of integers has. */
  function BytesOf(k: Kind): (n: nat)
    requires k !in {Bool, Felt252, ClassHash, ContractAddress, EthAddress}
    ensures n > 0
  {
    match k
    case I8 => 1
    case I16 => 2
    case I32 => 4
    case I64 => 8
    case I128 => 16
    case U8 => 1
    case U16 => 2
    case U32 => 4
    case U64 => 8
    case U128 => 16
    case U256 => 32
  }

  /** The values of a kind: integers of so many bytes, in two's complement or unsigned; zero and one; or the field. */
  lemma RangesSpelled(k: Kind, v: int)
    ensures IsSigned(k) ==> (InRange(k, v) <==> -(Pow(256, BytesOf(k)) as int) <= 2 * v < Pow(256, BytesOf(k)))
    ensures k in {U8, U16, U32, U64, U128, U256} ==> (InRange(k, v) <==> 0 <= v < Pow(256, BytesOf(k)))
    ensures k == Bool ==> (InRange(k, v) <==> v == 0 || v == 1)
    ensures k in {Felt252, ClassHash, ContractAddress, EthAddress} ==> (InRange(k, v) <==> 0 <= v < P)
  {
    if IsSigned(k) {
      assert Pow(256, BytesOf(k)) == 2 * Half(BytesOf(k));
    } else if k in {U8, U16, U32, U64, U128, U256} {
      LimitSpelled(k, BytesOf(k));
    }
  }

  lemma LimitSpelled(k: Kind, n: nat)
    requires k in {U8, U16, U32, U64, U128, U256} && n == BytesOf(k)
    ensures Limit(k) == Pow(256, n)
  {
    var b := 1;
    assert Pow(256, b) == 256 && Pow(256, 2 * b) == 0x1_0000;
    PowSum(256, 2 * b, 2 * b);
    PowSum(256, 4 * b, 4 * b);
    PowSum(256, 8 * b, 8 * b);
    PowSum(256, 16 * b, 16 * b);
  }
}
