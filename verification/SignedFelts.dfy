/**
 Decoding signed integers from felts by their byte patterns
 (crates/dojo/types/src/primitive_conversion.rs).
 */
module SignedFelts {
  import opened Wrappers
  import opened Felts

  /** The little-endian bytes of P - 2. */
  const MINUS_TWO_BYTES_REPR: seq<Byte> := [
    255, 255, 255, 255, 255, 255, 255, 255, 255, 255, 255, 255, 255, 255, 255, 255, 255, 255, 255,
    255, 255, 255, 255, 255, 16, 0, 0, 0, 0, 0, 0, 8]

  /** 2^(8 * size - 1): one past the largest signed integer of `size` bytes. */
  function Half(size: nat): (h: int)
    requires size > 0
    ensures h > 0
  {
    128 * Pow(256, size - 1)
  }

  /** Two's complement reading of `bytes`. */
  function FromLeBytesSigned(bytes: seq<Byte>): (v: int)
    requires bytes != []
  {
    var n := FromLeBytes(bytes);
    if bytes[|bytes| - 1] >= 0x80 then n - Pow(256, |bytes|) else n
  }

  /** `try_from_felt` at an integer type of `size` bytes; `None` is `PrimitiveFromFeltError`. */
  function TryFromFelt(size: nat, x: Felt): (r: Option<int>)
    requires 1 <= size <= 16
  {
    TryFromBytes(size, ToLeBytes(x, 32), MINUS_TWO_BYTES_REPR)
  }

  function TryFromBytes(size: nat, bytes: seq<Byte>, minusTwo: seq<Byte>): (r: Option<int>)
    requires 1 <= size <= 16 && |bytes| == |minusTwo| == 32
  {
    if (forall i :: size <= i < 32 ==> bytes[i] == 0) && bytes[size - 1] <= 0x7F then
      Some(FromLeBytesSigned(bytes[..size]))
    else if bytes[size..] == minusTwo[size..] && bytes[size - 1] >= 0x80 then
      var offsetted := FromLeBytesSigned(bytes[..size]);
      // checked_sub(1)
      if offsetted == -Half(size) then None else Some(offsetted - 1)
    else if bytes[24..] == [17, 0, 0, 0, 0, 0, 0, 8] then
      Some(-1)
    else
      None
  }

  /** v is an integer of `size` bytes and `x` is its image in the field. */
  predicate Represents(size: nat, x: Felt, v: int)
    requires size > 0
  {
    -Half(size) <= v < Half(size) && x == FeltOf(v)
  }

  /** Decoding accepts exactly the images of the representable integers, and inverts `Felt::from`. */
  lemma SignedDecodingIsExact(size: nat, x: Felt, v: int)
    requires 1 <= size <= 16
    ensures TryFromFelt(size, x) == Some(v) <==> Represents(size, x, v)
  {
    MinusTwoValue();
    DecodingIsExact(size, x, MINUS_TWO_BYTES_REPR, v);
  }

  lemma DecodingIsExact(size: nat, x: Felt, m: seq<Byte>, v: int)
    requires 1 <= size <= 16 && IsMinusTwo(m)
    ensures TryFromBytes(size, ToLeBytes(x, 32), m) == Some(v) <==> Represents(size, x, v)
  {
    var bytes := ToLeBytes(x, 32);
    var low, high := FromLeBytes(bytes[..size]), FromLeBytes(bytes[size..]);
    BytesOfFelt(size, x);
    HalfFacts(size);
    HighGap(m, size, high, low, x);
    BranchArithmetic(Half(size), x, low, high, Pow(256, size) * high, v);
    BranchesAsArithmetic(size, x, m);
    if -Half(size) <= v < Half(size) {
      SmallFelt(v);
    }
  }

  /** The three byte patterns, read as tests on the low part and the quotient. */
  lemma BranchesAsArithmetic(size: nat, x: Felt, m: seq<Byte>)
    requires 1 <= size <= 16 && IsMinusTwo(m)
    ensures var bytes := ToLeBytes(x, 32);
            var k, h := Pow(256, size), Half(size);
            var low, high := FromLeBytes(bytes[..size]), FromLeBytes(bytes[size..]);
            TryFromBytes(size, bytes, m) ==
              if high == 0 && low < h then Some(low)
              else if k * high == P - 1 - k && low >= h then
                if low == h then None else Some(low - k - 1)
              else if x == P - 1 then Some(-1) else None
  {
    var bytes := ToLeBytes(x, 32);
    HalfFacts(size);
    TopByte(bytes[..size]);
    HighBytesZero(bytes, size);
    HighBytesMinusTwo(bytes, m, size);
    MinusOnePattern(x);
  }

  lemma HighBytesZero(bytes: seq<Byte>, size: nat)
    requires |bytes| == 32 && size <= 32
    ensures (forall i :: size <= i < 32 ==> bytes[i] == 0) <==> FromLeBytes(bytes[size..]) == 0
  {
    FromLeBytesZeros(bytes[size..]);
    if forall i :: 0 <= i < 32 - size ==> bytes[size..][i] == 0 {
      forall i | size <= i < 32 ensures bytes[i] == 0 {
        assert bytes[size..][i - size] == 0;
      }
    }
  }

  /** What the decoder needs of the bytes of P - 2: 24 ones, then the top of the prime. */
  ghost predicate IsMinusTwo(m: seq<Byte>) {
    && |m| == 32
    && (forall i :: 0 <= i < 24 ==> m[i] == 255)
    && FromLeBytes(m) == P - 2
  }

  lemma HighBytesMinusTwo(bytes: seq<Byte>, m: seq<Byte>, size: nat)
    requires |bytes| == 32 && IsMinusTwo(m) && 1 <= size <= 16
    ensures bytes[size..] == m[size..] <==>
            Pow(256, size) * FromLeBytes(bytes[size..]) == P - 1 - Pow(256, size)
  {
    MinusTwoQuotient(m, size);
    var k, a, b := Pow(256, size), FromLeBytes(bytes[size..]), FromLeBytes(m[size..]);
    MulCancel(k, a, b);
    if a == b {
      FromLeBytesInjective(bytes[size..], m[size..]);
    }
  }

  /** P - 1 is a multiple of 256^size, so the quotients near it are the only ones of interest. */
  lemma HighGap(m: seq<Byte>, size: nat, high: nat, low: nat, x: Felt)
    requires 1 <= size <= 16 && IsMinusTwo(m)
    requires x == low + Pow(256, size) * high
    ensures var k := Pow(256, size);
            && (high == 0 ==> k * high == 0) && (high > 0 ==> k * high >= k)
            && (k * high <= P - 1 - 2 * k || k * high == P - 1 - k || k * high == P - 1)
  {
    MinusTwoQuotient(m, size);
    QuotientGap(Pow(256, size), FromLeBytes(m[size..]), high);
  }

  lemma QuotientGap(k: int, q: int, high: int)
    requires k > 0 && q >= 0 && high >= 0 && k * q == P - 1 - k && k * high < P
    ensures (high == 0 ==> k * high == 0) && (high > 0 ==> k * high >= k)
    ensures k * high <= P - 1 - 2 * k || k * high == P - 1 - k || k * high == P - 1
  {
    var d := high - (q + 1);
    assert k * high == k * q + k + k * d;
    assert d >= 1 ==> k * d >= k;
    assert d <= -2 ==> k * d <= -2 * k;
  }

  lemma MulCancel(k: int, a: int, b: int)
    requires k > 0
    ensures k * a == k * b <==> a == b
  {
  }

  lemma HalfFacts(size: nat)
    requires 1 <= size <= 16
    ensures 2 * Half(size) == Pow(256, size) <= 0x1_0000_0000_0000_0000_0000_0000_0000_0000
  {
    PowValues();
    PowSum(256, size, 16 - size);
    var a, b := Pow(256, size), Pow(256, 16 - size);
    assert a <= a * b;
  }

  lemma PowValues()
    ensures Pow(256, 6) == 0x1_0000_0000_0000
    ensures Pow(256, 8) == 0x1_0000_0000_0000_0000
    ensures Pow(256, 16) == 0x1_0000_0000_0000_0000_0000_0000_0000_0000
    ensures Pow(256, 24) == 0x1_0000_0000_0000_0000_0000_0000_0000_0000_0000_0000_0000_0000
    ensures Pow(256, 32) > P
  {
    PowSum(256, 2, 2);
    PowSum(256, 2, 4);
    PowSum(256, 4, 4);
    PowSum(256, 8, 8);
    PowSum(256, 8, 16);
    PowSum(256, 16, 16);
  }

  lemma BytesOfFelt(size: nat, x: Felt)
    requires 1 <= size <= 24
    ensures var bytes := ToLeBytes(x, 32);
            && FromLeBytes(bytes[..size]) < Pow(256, size)
            && x == FromLeBytes(bytes[..size]) + Pow(256, size) * FromLeBytes(bytes[size..])
  {
    var bytes := ToLeBytes(x, 32);
    PowValues();
    LeBytesRoundTrip(x, 32);
    FromLeBytesSplit(bytes, size);
    FromLeBytesBound(bytes[..size]);
  }

  /** The last byte carries the sign bit. */
  lemma TopByte(bytes: seq<Byte>)
    requires bytes != []
    ensures bytes[|bytes| - 1] >= 0x80 <==> FromLeBytes(bytes) >= Half(|bytes|)
  {
    var n := |bytes| - 1;
    var p, top := Pow(256, n), bytes[n];
    FromLeBytesSplit(bytes, n);
    FromLeBytesBound(bytes[..n]);
    SingleByte(bytes[n..], top);
    TopDigit(p, FromLeBytes(bytes[..n]), top);
  }

  lemma TopDigit(p: int, low: int, top: Byte)
    requires 0 <= low < p
    ensures top >= 128 <==> low + p * top >= 128 * p
  {
    if top >= 128 {
      assert p * top >= p * 128;
    } else {
      assert p * top <= p * 127;
    }
  }

  lemma SingleByte(bytes: seq<Byte>, b: Byte)
    requires bytes == [b]
    ensures FromLeBytes(bytes) == b
  {
    assert FromLeBytes(bytes[1..]) == 0;
  }

  lemma MinusTwoQuotient(m: seq<Byte>, size: nat)
    requires 1 <= size <= 24 && IsMinusTwo(m)
    ensures Pow(256, size) * FromLeBytes(m[size..]) == P - 1 - Pow(256, size)
  {
    FromLeBytesOnes(m[..size]);
    FromLeBytesSplit(m, size);
  }

  lemma MinusTwoValue()
    ensures IsMinusTwo(MINUS_TWO_BYTES_REPR)
  {
    MinusTwoBytes();
    SplitValue(MINUS_TWO_BYTES_REPR);
  }

  lemma MinusTwoBytes()
    ensures |MINUS_TWO_BYTES_REPR| == 32
    ensures forall i :: 0 <= i < 24 ==> MINUS_TWO_BYTES_REPR[i] == 255
    ensures MINUS_TWO_BYTES_REPR[24..] == [16, 0, 0, 0, 0, 0, 0, 8]
  {
  }

  lemma SplitValue(m: seq<Byte>)
    requires |m| == 32 && forall i :: 0 <= i < 24 ==> m[i] == 255
    requires m[24..] == [16, 0, 0, 0, 0, 0, 0, 8]
    ensures FromLeBytes(m) == P - 2
  {
    PowValues();
    HighQuotient(m[24..], 16);
    FromLeBytesOnes(m[..24]);
    FromLeBytesSplit(m, 24);
  }

  /** Eight bytes [b, 0, 0, 0, 0, 0, 0, 8] read as 2^59 + b. */
  lemma HighQuotient(bytes: seq<Byte>, b: Byte)
    requires bytes == [b, 0, 0, 0, 0, 0, 0, 8]
    ensures FromLeBytes(bytes) == 0x0800_0000_0000_0000 + b
  {
    var tail := bytes[1..];
    FromLeBytesSplit(tail, 6);
    FromLeBytesZeros(tail[..6]);
    SingleByte(tail[6..], 8);
    PowValues();
  }

  lemma MinusOnePattern(x: Felt)
    ensures ToLeBytes(x, 32)[24..] == [17, 0, 0, 0, 0, 0, 0, 8] <==> x == P - 1
  {
    var bytes := ToLeBytes(x, 32);
    var pattern: seq<Byte> := [17, 0, 0, 0, 0, 0, 0, 8];
    BytesOfFelt(24, x);
    PowValues();
    HighQuotient(pattern, 17);
    if x == P - 1 {
      FromLeBytesInjective(bytes[24..], pattern);
    }
  }

  /** The image of a small integer in the field. */
  lemma SmallFelt(v: int)
    requires -P <= v < P
    ensures FeltOf(v) == if v < 0 then v + P else v
  {
    if v < 0 {
      assert (v + P) % P == v % P;
    }
  }

  /** The case analysis once the byte tests are read as arithmetic on x = low + m. */
  lemma BranchArithmetic(h: int, x: Felt, low: int, high: int, m: int, v: int)
    requires 0 < h <= 0x8000_0000_0000_0000_0000_0000_0000_0000
    requires 0 <= low < 2 * h && 0 <= high && x == low + m
    requires (high == 0 ==> m == 0) && (high > 0 ==> m >= 2 * h)
    requires m <= P - 1 - 4 * h || m == P - 1 - 2 * h || m == P - 1
    ensures (-h <= v < h && x == if v < 0 then v + P else v) <==>
              if high == 0 && low < h then v == low
              else if m == P - 1 - 2 * h && low >= h then low != h && v == low - 2 * h - 1
              else x == P - 1 && v == -1
  {
  }
}
