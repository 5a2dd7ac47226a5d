/** A message through a buffer: pb_encode, then pb_decode of the bytes written. */
module ProtoTransfer {
  import opened Keys
  import opened Coding
  import opened Protos
  import opened ProtoRoundTrip
  import ProtoReading
  import ProtoEncoder
  import ProtoDecoder

  lemma SentIsReceived(d: Desc, v: Value, out: Bytes)
    requires DescOk(d) && MsgOk(d, v, Held) && MsgOk(d, v, Encodable) && |out| < TWO_32 && out == [] + EncFields(d, v, 0)
    ensures ProtoReading.DecMsg(d, ZeroMsg(d).slots, {}, out, 0, |out|) ==
              if MsgOk(d, v, Decodable) then Some(v.slots) else None
  {
    assert out == EncFields(d, v, 0);
    DecodeUndoesEncode(d, v);
  }

  /** Encoding into a buffer of `maxSize` bytes and decoding what was written.  A message that can be encoded and
      fits is received as it was sent, unless one of its strings fills its storage without a terminator; then
      decoding fails, and does not return another message. */
  method Transfer(d: Desc, v: Value, maxSize: nat) returns (sent: bool, received: bool, value: Value)
    requires DescOk(d) && MsgOk(d, v, Held) && maxSize < TWO_32
    ensures sent <==> MsgOk(d, v, Encodable) && |EncFields(d, v, 0)| <= maxSize
    ensures received <==> sent && MsgOk(d, v, Decodable)
    ensures received ==> value == v
  {
    assert Msg(v.slots) == v;
    hide MsgOk, DescOk, EncFields, ZeroMsg, ProtoReading.DecMsg;
    var s := new ProtoEncoder.OStream(false, maxSize, []);
    sent := ProtoEncoder.Encode(s, d, v);
    received, value := false, v;
    if sent {
      SentIsReceived(d, v, s.out);
      received, value := ProtoDecoder.Decode(s.out, d);
    }
  }
}
