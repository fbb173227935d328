/**
 * A codec of byte arrays of the kind the felt codec relies on: a length, then the characters. It shows that what is
 * asked of such a codec can be had.
 */
module ByteArrays {
  import opened Wrappers
  import opened Felts
  import opened FeltCodec

  predicate IsAscii(s: string) {
    forall i :: 0 <= i < |s| ==> s[i] as int < 128
  }

  function Codes(s: string): (r: seq<Felt>)
    ensures |r| == |s| && forall i :: 0 <= i < |r| ==> r[i] == s[i] as int
  {
    seq(|s|, i requires 0 <= i < |s| => s[i] as int)
  }

  predicate AreCodes(felts: seq<Felt>) {
    forall i :: 0 <= i < |felts| ==> felts[i] < 128
  }

  function Characters(felts: seq<Felt>): (s: string)
    requires AreCodes(felts)
    ensures |s| == |felts| && IsAscii(s) && forall i :: 0 <= i < |s| ==> s[i] as int == felts[i]
  {
    seq(|felts|, i requires 0 <= i < |felts| => felts[i] as char)
  }

  function Encode(s: string): (r: Option<seq<Felt>>) {
    if IsAscii(s) && |s| < P then Some([|s|] + Codes(s)) else None
  }

  function Decode(felts: seq<Felt>): (r: Option<Text>) {
    if felts == [] then None
    else
      var size: nat := felts[0];
      if |felts| <= size || !AreCodes(felts[1..][..size]) then None
      else Some(Text(Some(Characters(felts[1..][..size])), 1 + size))
  }

  function LengthPrefixed(): (c: ByteArrayCodec) {
    ByteArrayCodec(Encode, Decode)
  }

  lemma DecodeEncode(s: string, tail: seq<Felt>)
    requires Encode(s).Some?
    ensures Decode(Encode(s).value + tail) == Some(Text(Some(s), |Encode(s).value|))
  {
    var felts := Encode(s).value + tail;
    assert felts[1..][..felts[0]] == Codes(s);
    assert Characters(Codes(s)) == s;
  }

  lemma EncodeDecode(felts: seq<Felt>)
    requires Decode(felts).Some?
    ensures var text := Decode(felts).value;
            text.text.Some? && Encode(text.text.value).Some? && |Encode(text.text.value).value| == text.size <= |felts|
  {
  }

  lemma DecodeIsLocal(felts: seq<Felt>, tail: seq<Felt>)
    requires Decode(felts + tail).Some? && Decode(felts + tail).value.size <= |felts|
    ensures Decode(felts) == Decode(felts + tail)
  {
    assert felts[1..][..felts[0]] == (felts + tail)[1..][..felts[0]];
  }

  lemma IsLawful()
    ensures LengthPrefixed().Lawful() && LengthPrefixed().Bounded()
  {
    var c := LengthPrefixed();
    assert forall s :: c.encode(s).Some? ==> c.encode(s).value != [];
    forall s, tail: seq<Felt> | c.encode(s).Some?
      ensures c.decode(c.encode(s).value + tail) == Some(Text(Some(s), |c.encode(s).value|))
    {
      DecodeEncode(s, tail);
    }
    forall felts: seq<Felt> | c.decode(felts).Some?
      ensures c.decode(felts).value.size <= |felts| && c.decode(felts).value.text.Some?
      ensures c.encode(c.decode(felts).value.text.value).Some?
      ensures |c.encode(c.decode(felts).value.text.value).value| == c.decode(felts).value.size
    {
      EncodeDecode(felts);
    }
  }

  lemma IsLocal()
    ensures LengthPrefixed().Local()
  {
    var c := LengthPrefixed();
    forall felts: seq<Felt>, tail: seq<Felt> |
      c.decode(felts + tail).Some? && c.decode(felts + tail).value.size <= |felts|
      ensures c.decode(felts) == c.decode(felts + tail)
    {
      DecodeIsLocal(felts, tail);
    }
  }

  /** Some codec decodes what it encodes, takes no more than there is, looks no further, and has an empty text. */
  lemma CodecExists()
    ensures exists c: ByteArrayCodec :: c.Lawful() && c.Bounded() && c.Local() && c.encode("").Some?
  {
    IsLawful();
    IsLocal();
    assert LengthPrefixed().encode("").Some?;
  }
}
