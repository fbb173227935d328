/**
 Elements of the Starknet field and their little-endian bytes.
 */
module Felts {

  /** The Starknet prime, 2^251 + 17 * 2^192 + 1. */
  const P: int := 0x0800000000000011000000000000000000000000000000000000000000000001

  type Felt = x: int | 0 <= x < P

  type Byte = x: int | 0 <= x < 256

  /** `Felt::from` on an integer: reduction modulo the prime. */
  function FeltOf(v: int): (x: Felt) {
    v % P
  }

  function Pow(base: nat, exponent: nat): (r: nat)
    ensures base > 0 ==> r > 0
  {
    if exponent == 0 then 1 else base * Pow(base, exponent - 1)
  }

  /** The number whose little-endian digits in base 256 are `bytes`. */
  function FromLeBytes(bytes: seq<Byte>): (n: nat) {
    if bytes == [] then 0 else bytes[0] + 256 * FromLeBytes(bytes[1..])
  }

  /** The `size` low bytes of `n`, least significant first. */
  function ToLeBytes(n: nat, size: nat): (bytes: seq<Byte>)
    ensures |bytes| == size
  {
    if size == 0 then [] else [n % 256] + ToLeBytes(n / 256, size - 1)
  }

  lemma {:induction false} PowSum(base: nat, a: nat, b: nat)
    ensures Pow(base, a + b) == Pow(base, a) * Pow(base, b)
  {
    if a == 0 {
      assert Pow(base, b) == 1 * Pow(base, b);
    } else {
      PowSum(base, a - 1, b);
      assert a + b - 1 == (a - 1) + b;
      assert base * (Pow(base, a - 1) * Pow(base, b)) == (base * Pow(base, a - 1)) * Pow(base, b);
    }
  }

  lemma {:induction false} LeBytesRoundTrip(n: nat, size: nat)
    requires n < Pow(256, size)
    ensures FromLeBytes(ToLeBytes(n, size)) == n
  {
    if size > 0 {
      assert Pow(256, size) == 256 * Pow(256, size - 1);
      LeBytesRoundTrip(n / 256, size - 1);
      assert ToLeBytes(n, size)[1..] == ToLeBytes(n / 256, size - 1);
    }
  }

  lemma {:induction false} FromLeBytesBound(bytes: seq<Byte>)
    ensures FromLeBytes(bytes) < Pow(256, |bytes|)
  {
    if bytes != [] {
      FromLeBytesBound(bytes[1..]);
    }
  }

  /** A byte string splits into a low part and a quotient. */
  lemma {:induction false} FromLeBytesSplit(bytes: seq<Byte>, k: nat)
    requires k <= |bytes|
    ensures FromLeBytes(bytes) == FromLeBytes(bytes[..k]) + Pow(256, k) * FromLeBytes(bytes[k..])
  {
    if k == 0 {
      assert bytes[0..] == bytes;
    } else {
      FromLeBytesSplit(bytes[1..], k - 1);
      assert bytes[1..][..k - 1] == bytes[..k][1..];
      assert bytes[1..][k - 1..] == bytes[k..];
      var q := FromLeBytes(bytes[k..]);
      assert 256 * (Pow(256, k - 1) * q) == Pow(256, k) * q;
    }
  }

  lemma {:induction false} FromLeBytesInjective(a: seq<Byte>, b: seq<Byte>)
    requires |a| == |b| && FromLeBytes(a) == FromLeBytes(b)
    ensures a == b
  {
    if a != [] {
      FromLeBytesInjective(a[1..], b[1..]);
      assert a == [a[0]] + a[1..] && b == [b[0]] + b[1..];
    }
  }

  lemma {:induction false} FromLeBytesZeros(bytes: seq<Byte>)
    ensures (forall i :: 0 <= i < |bytes| ==> bytes[i] == 0) <==> FromLeBytes(bytes) == 0
  {
    if bytes != [] {
      FromLeBytesZeros(bytes[1..]);
      assert bytes == [bytes[0]] + bytes[1..];
    }
  }

  lemma {:induction false} FromLeBytesOnes(bytes: seq<Byte>)
    requires forall i :: 0 <= i < |bytes| ==> bytes[i] == 255
    ensures FromLeBytes(bytes) == Pow(256, |bytes|) - 1
  {
    if bytes != [] {
      FromLeBytesOnes(bytes[1..]);
    }
  }
}
