/** The two codecs of Cairo types side by side. */
module Codecs {
  import opened Felts
  import opened Schema
  import opened FeltCodec
  import opened FeltRoundTrip
  import opened JsonCodec

  /** Where both codecs apply, a value read back from felts is the value read back from JSON. */
  lemma CodecsAgree(c: ByteArrayCodec, t: Ty, v: Ty, tail: seq<Felt>)
    requires c.Lawful() && Fits(v, t) && SelectedOnly(v) && NamesAgree(v) && SerializeTy(c, v).Ok?
    ensures ToJson(v).Ok?
    ensures DeserializeTy(c, t, SerializeTy(c, v).value + tail).value == v
    ensures FromJson(t, ToJson(v).value).value == v
  {
    ReadsBack(c, t, v, tail);
    JsonRoundTrip(t, v);
  }
}
