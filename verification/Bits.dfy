/** Shifts and bitwise operations on naturals, as used on `U256` words. */
module Bits {
  import opened Felts

  function Pow2(k: nat): (r: nat)
    ensures r > 0
  {
    Pow(2, k)
  }

  const U256_MODULUS: nat :=
    0x1_0000_0000_0000_0000_0000_0000_0000_0000_0000_0000_0000_0000_0000_0000_0000_0000

  /** Bitwise and. */
  function And(a: nat, b: nat): (r: nat) {
    if a == 0 || b == 0 then 0 else (a % 2) * (b % 2) + 2 * And(a / 2, b / 2)
  }

  /** Bitwise or. */
  function Or(a: nat, b: nat): (r: nat) {
    if a == 0 then b
    else if b == 0 then a
    else (if a % 2 == 1 then 1 else b % 2) + 2 * Or(a / 2, b / 2)
  }

  /** The `size` bits of `word` that start at bit `offset`. */
  function Field(word: nat, offset: nat, size: nat): (r: nat)
    ensures r < Pow2(size)
  {
    (word / Pow2(offset)) % Pow2(size)
  }

  lemma {:induction false} AndMask(k: nat, x: nat)
    ensures And(Pow2(k) - 1, x) == x % Pow2(k)
  {
    if k > 0 {
      var m := Pow2(k - 1);
      assert Pow2(k) - 1 == 2 * (m - 1) + 1;
      AndMask(k - 1, x / 2);
      ModDouble(x, m);
    }
  }

  lemma ModDouble(x: nat, m: nat)
    requires m > 0
    ensures x % (2 * m) == x % 2 + 2 * ((x / 2) % m)
  {
    var q, r := (x / 2) / m, (x / 2) % m;
    assert x == x % 2 + 2 * (m * q + r);
    assert 2 * (m * q) == (2 * m) * q;
    RemainderUnique(x, 2 * m, q, x % 2 + 2 * r);
  }

  lemma RemainderUnique(x: int, m: int, q: int, r: int)
    requires 0 <= r < m && x == m * q + r
    ensures x / m == q && x % m == r
  {
    var d := x / m - q;
    assert m * d == r - x % m;
    assert d >= 1 ==> m * d >= m;
    assert d <= -1 ==> m * d <= -m;
  }

  lemma {:induction false} OrDisjoint(a: nat, b: nat, k: nat)
    requires a < Pow2(k)
    ensures Or(a, b * Pow2(k)) == a + b * Pow2(k)
  {
    if k > 0 {
      var m := b * Pow2(k - 1);
      assert b * Pow2(k) == 2 * m;
      OrDisjoint(a / 2, b, k - 1);
      assert (2 * m) / 2 == m && (2 * m) % 2 == 0;
    }
  }

  /** A word that extends `a + v * 2^i` above bit i + j still holds `a` and `v` in place. */
  lemma FieldOfExtension(w: nat, a: nat, i: nat, v: nat, j: nat)
    requires a < Pow2(i) && v < Pow2(j)
    requires w % Pow2(i + j) == a + v * Pow2(i)
    ensures w % Pow2(i) == a && Field(w, i, j) == v
  {
    PowSum(2, i, j);
    DigitsInPlace(w, Pow2(i), Pow2(j), a, v);
  }

  lemma DigitsInPlace(w: nat, m: nat, n: nat, a: nat, v: nat)
    requires a < m && v < n && m * n > 0
    requires w % (m * n) == a + v * m
    ensures w % m == a && (w / m) % n == v
  {
    var q := w / (m * n);
    assert w == m * (n * q + v) + a by {
      assert w == (m * n) * q + a + v * m;
      assert (m * n) * q == m * (n * q);
      assert m * (n * q + v) == m * (n * q) + m * v;
    }
    RemainderUnique(w, m, n * q + v, a);
    RemainderUnique(n * q + v, n, q, v);
  }

  lemma ExtensionBound(a: nat, i: nat, v: nat, j: nat)
    requires a < Pow2(i) && v < Pow2(j)
    ensures a + v * Pow2(i) < Pow2(i + j)
  {
    PowSum(2, i, j);
    DigitsBound(Pow2(i), Pow2(j), a, v);
  }

  lemma DigitsBound(m: nat, n: nat, a: nat, v: nat)
    requires a < m && v < n
    ensures a + v * m < m * n
  {
    var d := n - v - 1;
    assert m * n == m * v + m + m * d;
    assert m * d >= 0;
  }

  lemma Pow2Monotone(i: nat, j: nat)
    requires i <= j
    ensures Pow2(i) <= Pow2(j)
  {
    PowSum(2, i, j - i);
    assert Pow2(i) <= Pow2(i) * Pow2(j - i);
  }

  lemma Pow2Double(k: nat, v: nat)
    requires Pow2(k) == v
    ensures Pow2(2 * k) == v * v
  {
    PowSum(2, k, k);
  }

  lemma Pow2Of128(n: nat)
    requires n == 128
    ensures Pow2(n) == 0x1_0000_0000_0000_0000_0000_0000_0000_0000
  {
    var k := 8;
    assert Pow2(k) == 0x100;
    Pow2Double(k, 0x100);
    Pow2Double(2 * k, 0x1_0000);
    Pow2Double(4 * k, 0x1_0000_0000);
    Pow2Double(8 * k, 0x1_0000_0000_0000_0000);
  }

  lemma Pow2Of256(n: nat)
    requires n == 256
    ensures Pow2(n) == U256_MODULUS
  {
    var k := 128;
    Pow2Of128(k);
    PowSum(2, k, k);
  }

  lemma Pow2Of251(n: nat)
    requires n == 251
    ensures Pow2(n) == 0x0800_0000_0000_0000_0000_0000_0000_0000_0000_0000_0000_0000_0000_0000_0000_0000
  {
    var k := 5;
    assert Pow(2, k) == 32;
    Pow2Of256(n + k);
    PowSum(2, n, k);
  }

  lemma Pow2Of192(n: nat)
    requires n == 192
    ensures Pow2(n) == 0x1_0000_0000_0000_0000_0000_0000_0000_0000_0000_0000_0000_0000
  {
    var k := 64;
    Pow2Of256(n + k);
    Pow2Of128(2 * k);
    PowSum(2, k, k);
    PowSum(2, 2 * k, k);
    Pow2Of64(k);
  }

  lemma Pow2Of64(n: nat)
    requires n == 64
    ensures Pow2(n) == 0x1_0000_0000_0000_0000
  {
    var k := 8;
    assert Pow2(k) == 0x100;
    Pow2Double(k, 0x100);
    Pow2Double(2 * k, 0x1_0000);
    Pow2Double(4 * k, 0x1_0000_0000);
  }

  /** The prime is 2^251 + 17 * 2^192 + 1. */
  lemma PrimeSpelled(n: nat, m: nat)
    requires n == 251 && m == 192
    ensures P == Pow2(n) + 17 * Pow2(m) + 1
  {
    Pow2Of251(n);
    Pow2Of192(m);
  }
}
