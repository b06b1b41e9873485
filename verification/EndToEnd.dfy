/** The running encoder and the running decoder together. */
module EndToEnd {
  import opened Wire
  import opened Descriptor
  import opened DecodeSpec
  import opened EncodeSpec
  import opened Encodability
  import opened RoundTrip
  import opened IStreams
  import Decoder
  import Encoder

  /** pb_encode into a buffer, and pb_decode of the bytes it wrote.  The message gets into the buffer exactly
      if it is encodable and fits; it comes out again, as an equivalent one, exactly if it satisfies
      `Arrives`. */
  method EncodeAndDecode(buffer: array<byte>, t: seq<Field>, b: seq<Slot>, dest: Decoder.Struct)
    returns (encoded: bool, size: nat, decoded: bool)
    requires WellFormed(t) && Plain(t) && Typed(t, b) && Complete(t, b) && |dest.slots| == |t|
    modifies buffer, dest
    ensures var e := EncMessage(t, b);
      (e.Some? <==> Encodable(t, b)) && (encoded <==> e.Some? && |e.value| <= buffer.Length)
      && (encoded ==> size == |e.value| && buffer[..size] == e.value)
    ensures encoded && size < 0x1_0000_0000 ==> (decoded && Equiv(t, dest.slots, b) <==> Arrives(t, b))
  {
    hide WellFormed, Plain, Typed, Complete, EncMessage, DecodeNoInit, Equiv, Arrives, Encodable;
    Encoder.BoundedIsTyped(t, b);
    EncodesExactly(t, b);
    decoded := false;
    encoded, size := Encoder.EncodeToBuffer(buffer, t, b);
    if encoded {
      ghost var e := EncMessage(t, b).value;
      assert buffer[..size] == e;
      var stream := new IStream.FromBuffer(buffer[..size]);
      decoded := Decoder.PbDecode(stream, t, dest);
      if size < 0x1_0000_0000 { RoundTripExact(t, b, e); }
    }
  }
}
