/** Cairo short strings as felts (crates/katana/primitives/src/cairo.rs). */
module ShortStrings {
  import opened Wrappers
  import opened Felts

  datatype FromStrError = StringTooLong | InvalidAsciiString

  datatype FromFeltError = UnexpectedNullTerminator | FeltTooLong | NonAsciiCharacter

  predicate IsAscii(s: string) {
    forall i :: 0 <= i < |s| ==> s[i] as int < 128
  }

  predicate NulFree(s: string) {
    forall i :: 0 <= i < |s| ==> s[i] != '\0'
  }

  /** A `ShortString`: at most 31 ASCII characters. */
  type ShortString = s: string | IsAscii(s) && |s| <= 31 witness ""

  function FromStr(s: string): (r: Outcome<ShortString, FromStrError>)
    ensures r.Ok? <==> IsAscii(s) && |s| <= 31
    ensures r.Ok? ==> r.value == s
    ensures r == Err(InvalidAsciiString) <==> !IsAscii(s)
    ensures r == Err(StringTooLong) <==> IsAscii(s) && |s| > 31
  {
    if !IsAscii(s) then Err(InvalidAsciiString)
    else if |s| > 31 then Err(StringTooLong)
    else Ok(s)
  }

  // ----- big-endian bytes -----

  function FromBeBytes(bytes: seq<Byte>): (n: nat) {
    if bytes == [] then 0 else FromBeBytes(bytes[..|bytes| - 1]) * 256 + bytes[|bytes| - 1]
  }

  function ToBeBytes(n: nat, size: nat): (bytes: seq<Byte>)
    ensures |bytes| == size
  {
    if size == 0 then [] else ToBeBytes(n / 256, size - 1) + [n % 256]
  }

  function Zeros(k: nat): (z: seq<Byte>)
    ensures |z| == k && forall i :: 0 <= i < k ==> z[i] == 0
  {
    seq(k, i => 0)
  }

  lemma {:induction false} BeBound(bytes: seq<Byte>)
    ensures FromBeBytes(bytes) < Pow(256, |bytes|)
  {
    if bytes != [] {
      BeBound(bytes[..|bytes| - 1]);
    }
  }

  lemma {:induction false} BeRoundTrip(n: nat, size: nat)
    requires n < Pow(256, size)
    ensures FromBeBytes(ToBeBytes(n, size)) == n
  {
    if size > 0 {
      BeRoundTrip(n / 256, size - 1);
      assert ToBeBytes(n, size)[..size - 1] == ToBeBytes(n / 256, size - 1);
    }
  }

  lemma {:induction false} BeUnique(bytes: seq<Byte>)
    ensures ToBeBytes(FromBeBytes(bytes), |bytes|) == bytes
  {
    if bytes != [] {
      var init := bytes[..|bytes| - 1];
      BeUnique(init);
      assert bytes == init + [bytes[|bytes| - 1]];
    }
  }

  lemma {:induction false} BeLeadingZeros(k: nat, bytes: seq<Byte>)
    ensures FromBeBytes(Zeros(k) + bytes) == FromBeBytes(bytes)
    decreases |bytes|, k
  {
    var all := Zeros(k) + bytes;
    if bytes != [] {
      assert all[..|all| - 1] == Zeros(k) + bytes[..|bytes| - 1];
      BeLeadingZeros(k, bytes[..|bytes| - 1]);
    } else if k > 0 {
      assert all[..|all| - 1] == Zeros(k - 1) + [];
      BeLeadingZeros(k - 1, []);
    }
  }

  lemma {:induction false} BeZeroIff(bytes: seq<Byte>)
    ensures FromBeBytes(bytes) == 0 <==> bytes == Zeros(|bytes|)
  {
    if bytes != [] {
      var init := bytes[..|bytes| - 1];
      BeZeroIff(init);
      assert bytes == init + [bytes[|bytes| - 1]];
      assert Zeros(|bytes|) == Zeros(|init|) + [0];
    }
  }

  // ----- conversions -----

  function Bytes(s: string): (bytes: seq<Byte>)
    requires IsAscii(s)
    ensures |bytes| == |s| && forall i :: 0 <= i < |s| ==> bytes[i] == s[i] as int
  {
    seq(|s|, i requires 0 <= i < |s| => s[i] as int)
  }

  /** `Felt::from(&ShortString)`. */
  function ToFelt(s: ShortString): (x: Felt) {
    FeltOf(FromBeBytes(Bytes(s)))
  }

  /** The loop over the 32 big-endian bytes, after the characters `acc`. */
  function Scan(bytes: seq<Byte>, acc: string): (r: Outcome<string, FromFeltError>)
    decreases |bytes|
  {
    if bytes == [] then Ok(acc)
    else if bytes[0] == 0 then
      if acc != [] then Err(UnexpectedNullTerminator) else Scan(bytes[1..], acc)
    else if bytes[0] < 128 then Scan(bytes[1..], acc + [bytes[0] as char])
    else Err(NonAsciiCharacter)
  }

  /** `ShortString::try_from(felt)`. */
  method TryFrom(value: Felt) returns (r: Outcome<string, FromFeltError>)
    ensures r == TryFromSpec(value)
  {
    if value == 0 {
      return Ok("");
    }
    var bytes := ToBeBytes(value, 32);
    if bytes[0] > 0 {
      return Err(FeltTooLong);
    }
    var text := "";
    assert bytes[0..] == bytes;
    for i := 0 to 32
      invariant Scan(bytes, "") == Scan(bytes[i..], text)
    {
      assert bytes[i..][0] == bytes[i] && bytes[i..][1..] == bytes[i + 1..];
      if bytes[i] == 0 {
        if text != [] {
          return Err(UnexpectedNullTerminator);
        }
      } else if bytes[i] < 128 {
        text := text + [bytes[i] as char];
      } else {
        return Err(NonAsciiCharacter);
      }
    }
    return Ok(text);
  }

  function TryFromSpec(value: Felt): (r: Outcome<string, FromFeltError>) {
    if value == 0 then Ok("")
    else
      var bytes := ToBeBytes(value, 32);
      if bytes[0] > 0 then Err(FeltTooLong) else Scan(bytes, "")
  }

  /** The scan accepts leading zeros followed by the bytes of a NUL-free ASCII string, and nothing else. */
  lemma {:induction false} ScanTail(bytes: seq<Byte>, acc: string, s: string)
    requires acc != []
    ensures Scan(bytes, acc) == Ok(s) <==>
            |s| == |acc| + |bytes| && s[..|acc|] == acc &&
            (forall i :: 0 <= i < |bytes| ==> 0 < bytes[i] < 128 && s[|acc| + i] as int == bytes[i])
    decreases |bytes|
  {
    if bytes == [] {
      assert |s| == |acc| ==> s[..|acc|] == s;
    } else if 0 < bytes[0] < 128 {
      var acc' := acc + [bytes[0] as char];
      ScanTail(bytes[1..], acc', s);
      assert forall i :: 1 <= i < |bytes| ==> bytes[i] == bytes[1..][i - 1];
      if |s| == |acc| + |bytes| {
        assert s[..|acc'|] == s[..|acc|] + [s[|acc|]];
        if s[..|acc'|] == acc' {
          assert s[..|acc'|][..|acc|] == s[..|acc|] && acc'[..|acc|] == acc && s[..|acc'|][|acc|] == s[|acc|];
        }
      }
    }
  }

  lemma {:induction false} ScanAccepts(k: nat, s: string)
    requires IsAscii(s) && NulFree(s)
    ensures Scan(Zeros(k) + Bytes(s), "") == Ok(s)
    decreases k
  {
    var bytes := Zeros(k) + Bytes(s);
    if k > 0 {
      assert bytes[1..] == Zeros(k - 1) + Bytes(s);
      ScanAccepts(k - 1, s);
    } else if s != [] {
      assert bytes == Bytes(s);
      ScanTail(bytes[1..], [s[0]], s);
      assert "" + [s[0]] == [s[0]] && s[..1] == [s[0]];
    }
  }

  lemma OneZeroMore(k: nat, bytes: seq<Byte>)
    ensures Zeros(k + 1) + bytes == [0] + (Zeros(k) + bytes)
  {
  }

  lemma {:induction false} ScanRejects(bytes: seq<Byte>, s: string)
    requires Scan(bytes, "") == Ok(s)
    ensures IsAscii(s) && NulFree(s) && |s| <= |bytes|
    ensures bytes == Zeros(|bytes| - |s|) + Bytes(s)
    decreases |bytes|
  {
    if bytes != [] {
      if bytes[0] == 0 {
        ScanRejects(bytes[1..], s);
        var k := |bytes| - 1 - |s|;
        OneZeroMore(k, Bytes(s));
        assert bytes == [0] + bytes[1..];
      } else {
        assert "" + [bytes[0] as char] == [bytes[0] as char];
        ScanTail(bytes[1..], [bytes[0] as char], s);
        assert s[0] == s[..1][0] == bytes[0] as char;
        assert forall i :: 1 <= i < |bytes| ==> bytes[i] == bytes[1..][i - 1] == s[i] as int;
        assert bytes == Zeros(0) + Bytes(s);
      }
    }
  }

  lemma ShortFelt(s: ShortString)
    ensures ToFelt(s) == FromBeBytes(Bytes(s)) < Pow(256, 31) < P
  {
    BeBound(Bytes(s));
    PowMonotone(|s|, 31);
    Pow256Of31(31);
    FeltOfSmall(FromBeBytes(Bytes(s)));
  }

  lemma FeltOfSmall(n: nat)
    requires n < P
    ensures FeltOf(n) == n
  {
  }

  lemma PowMonotone(a: nat, b: nat)
    requires a <= b
    ensures Pow(256, a) <= Pow(256, b)
  {
    PowSum(256, a, b - a);
    var p, q := Pow(256, a), Pow(256, b - a);
    assert p <= p * q;
  }

  lemma Pow256Of31(n: nat)
    requires n == 31
    ensures Pow(256, n) < P < Pow(256, n + 1)
  {
    var k := 4;
    assert Pow(256, k) == 0x1_0000_0000;
    PowSum(256, k, k);
    PowSum(256, 2 * k, 2 * k);
    PowSum(256, 4 * k, 4 * k);
    assert Pow(256, n + 1) == 256 * Pow(256, n);
  }

  /**
   The felts that convert to a short string are exactly the images of the NUL-free ASCII
   strings of at most 31 characters, and the two conversions undo each other there.
   */
  lemma ShortStringBijection(x: Felt, s: string)
    ensures TryFromSpec(x) == Ok(s) <==> IsAscii(s) && |s| <= 31 && NulFree(s) && x == ToFelt(s)
  {
    var bytes := ToBeBytes(x, 32);
    Pow256Of31(31);
    BeRoundTrip(x, 32);
    if TryFromSpec(x) == Ok(s) {
      if x != 0 {
        ScanRejects(bytes, s);
        assert s != "" ==> bytes[32 - |s|] == s[0] as int;
        BeLeadingZeros(32 - |s|, Bytes(s));
        ShortFelt(s);
      }
    }
    if IsAscii(s) && |s| <= 31 && NulFree(s) && x == ToFelt(s) {
      ShortFelt(s);
      BeLeadingZeros(32 - |s|, Bytes(s));
      BeUnique(Zeros(32 - |s|) + Bytes(s));
      ScanAccepts(32 - |s|, s);
      assert s != "" ==> Bytes(s)[0] != 0;
      BeZeroIff(Bytes(s));
    }
  }

  /** Each word is the one before it, shifted by a byte, and the next byte; the last is the whole. */
  lemma {:induction false} BytesAddUp(bytes: seq<Byte>, words: seq<nat>, n: nat)
    requires 0 < n <= |bytes| == |words| && words[0] == bytes[0]
    requires forall i :: 1 <= i < |words| ==> words[i] == words[i - 1] * 256 + bytes[i]
    ensures FromBeBytes(bytes[..n]) == words[n - 1]
  {
    assert bytes[..n][..n - 1] == bytes[..n - 1];
    if n > 1 {
      BytesAddUp(bytes, words, n - 1);
    } else {
      assert FromBeBytes(bytes[..0]) == 0;
    }
  }

  /** The felt of a text, spelled out byte by byte. */
  lemma Spelled(s: ShortString, words: seq<nat>)
    requires s != "" && |words| == |s| && words[0] == s[0] as int
    requires forall i :: 1 <= i < |words| ==> words[i] == words[i - 1] * 256 + s[i] as int
    ensures ToFelt(s) == words[|s| - 1]
  {
    BytesAddUp(Bytes(s), words, |s|);
    assert Bytes(s)[..|s|] == Bytes(s);
    ShortFelt(s);
  }

  // ----- which error -----

  /** A byte that stops the scan: not ASCII, or a NUL after a character. */
  ghost predicate Stops(bytes: seq<Byte>, acc: string, i: nat)
    requires i < |bytes|
  {
    bytes[i] >= 128 || (bytes[i] == 0 && (acc != [] || exists j :: 0 <= j < i && bytes[j] != 0))
  }

  ghost predicate FirstStop(bytes: seq<Byte>, acc: string, i: nat)
    requires i < |bytes|
  {
    Stops(bytes, acc, i) && forall j :: 0 <= j < i ==> !Stops(bytes, acc, j)
  }

  /** The characters after one more byte. */
  function Seen(byte: Byte, acc: string): (r: string) {
    if byte == 0 then acc else acc + [byte as char]
  }

  lemma StopsLater(bytes: seq<Byte>, acc: string, i: nat)
    requires 0 < i < |bytes|
    ensures Stops(bytes, acc, i) <==> Stops(bytes[1..], Seen(bytes[0], acc), i - 1)
  {
    if j :| 0 <= j < i && bytes[j] != 0 {
      assert j == 0 || bytes[1..][j - 1] != 0;
    }
    if j :| 0 <= j < i - 1 && bytes[1..][j] != 0 {
      assert bytes[j + 1] != 0;
    }
  }

  lemma {:induction false} ScanStops(bytes: seq<Byte>, acc: string, i: nat)
    requires i < |bytes| && FirstStop(bytes, acc, i)
    ensures Scan(bytes, acc) == Err(if bytes[i] == 0 then UnexpectedNullTerminator else NonAsciiCharacter)
    decreases |bytes|
  {
    if i > 0 {
      var acc' := Seen(bytes[0], acc);
      StopsLater(bytes, acc, i);
      assert !Stops(bytes, acc, 0);
      forall j | 0 <= j < i - 1 ensures !Stops(bytes[1..], acc', j) {
        StopsLater(bytes, acc, j + 1);
      }
      ScanStops(bytes[1..], acc', i - 1);
    }
  }

  lemma {:induction false} ScanPasses(bytes: seq<Byte>, acc: string)
    requires forall i :: 0 <= i < |bytes| ==> !Stops(bytes, acc, i)
    ensures Scan(bytes, acc).Ok?
    decreases |bytes|
  {
    if bytes != [] {
      var acc' := Seen(bytes[0], acc);
      assert !Stops(bytes, acc, 0);
      forall j | 0 <= j < |bytes| - 1 ensures !Stops(bytes[1..], acc', j) {
        StopsLater(bytes, acc, j + 1);
      }
      ScanPasses(bytes[1..], acc');
    }
  }

  lemma {:induction false} BeTop(bytes: seq<Byte>)
    requires bytes != []
    ensures FromBeBytes(bytes) >= Pow(256, |bytes| - 1) <==> bytes[0] > 0
  {
    var init := bytes[..|bytes| - 1];
    if init == [] {
      assert FromBeBytes(init) == 0;
    } else {
      BeTop(init);
    }
  }

  /** A felt is too long from 2^248 on; below, the first byte that stops the scan decides, and without one it passes. */
  lemma TryFromErrors(x: Felt, bytes: seq<Byte>)
    requires |bytes| == 32 && FromBeBytes(bytes) == x
    ensures x >= Pow(256, 31) ==> TryFromSpec(x) == Err(FeltTooLong)
    ensures x < Pow(256, 31) ==>
              forall i :: 0 <= i < 32 && FirstStop(bytes, "", i) ==>
                TryFromSpec(x) == Err(if bytes[i] == 0 then UnexpectedNullTerminator else NonAsciiCharacter)
    ensures x < Pow(256, 31) && (forall i :: 0 <= i < 32 ==> !Stops(bytes, "", i)) ==> TryFromSpec(x).Ok?
  {
    BeTop(bytes);
    BeUnique(bytes);
    BeZeroIff(bytes);
    if x < Pow(256, 31) {
      forall i | 0 <= i < 32 && FirstStop(bytes, "", i)
        ensures TryFromSpec(x) == Err(if bytes[i] == 0 then UnexpectedNullTerminator else NonAsciiCharacter)
      {
        ScanStops(bytes, "", i);
      }
      if forall i :: 0 <= i < 32 ==> !Stops(bytes, "", i) {
        ScanPasses(bytes, "");
      }
    }
  }
}
