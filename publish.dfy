/** The PUBLISH packet assembler: a fixed header, a Publish variable header
    and a payload. The variable-header codec and the payload parser are not
    part of this model; they are the function-valued fields of a
    `PublishCodec`, and their types are type parameters. */
module PublishPackets {
  import opened Prelude
  import opened Headers

  datatype PublishCodec<!VH, !P> = PublishCodec(
    headerFromBytes: seq<byte> -> VH,        // PublishHeader::from_bytes
    headerToBytes: VH -> seq<byte>,          // PublishHeader::to_bytes
    parsePayload: (VH, seq<byte>) -> P,      // PayloadFactory::parse_payload
    publishPayloadBytes: P -> Option<seq<byte>>)
      // Some(publish_payload.to_bytes()) for a Payload::Publish(publish_payload),
      // None for every other variant

  /** `Publish::new` is this constructor: it stores the three parts as given. */
  datatype Publish<VH, P> = Publish(fixedHeader: MqttHeaders, variableHeader: VH, payload: P)

  /** Bytes at which `from_bytes` starts the variable header, and the payload. */
  const VariableHeaderOffset: nat := 2
  const PayloadOffset: nat := 10

  /** `Publish::from_bytes`. The fixed header is parsed first (a fifth length
      byte panics there); then `data[2..]` and `data[10..]` are taken, which
      panic on a frame shorter than 10 bytes; finally `unwrap` panics when the
      fixed header did not parse. The offsets are fixed, whatever the size of
      the Remaining Length field. */
  function FromBytes<VH, P>(data: seq<byte>, codec: PublishCodec<VH, P>): (r: Result<Publish<VH, P>, Fault>)
    ensures r.Ok? <==> |data| >= PayloadOffset && Decode(data).Ok?
    ensures r.Ok? ==>
      && r.value.fixedHeader == Decode(data).value
      && r.value.variableHeader == codec.headerFromBytes(data[VariableHeaderOffset..])
      && r.value.payload == codec.parsePayload(r.value.variableHeader, data[PayloadOffset..])
    ensures Decode(data) == Err(LengthOverflow) ==> r == Err(ArithmeticOverflow)
    ensures Decode(data) != Err(LengthOverflow) && |data| < PayloadOffset ==> r == Err(SliceOutOfRange)
    ensures |data| >= PayloadOffset && Decode(data).Err? && Decode(data) != Err(LengthOverflow) ==>
      r == Err(UnwrapOnErr)
  {
    var fixedHeader := Decode(data);
    if fixedHeader == Err(LengthOverflow) then Err(ArithmeticOverflow)
    else if |data| < PayloadOffset then Err(SliceOutOfRange)
    else
      var variableHeader := codec.headerFromBytes(data[VariableHeaderOffset..]);
      var payload := codec.parsePayload(variableHeader, data[PayloadOffset..]);
      match fixedHeader
      case Err(_) => Err(UnwrapOnErr)
      case Ok(h) => Ok(Publish(h, variableHeader, payload))
  }

  /** `Publish::to_bytes`: the fixed header's bytes, then the variable
      header's, then the payload's, with nothing in between; panics when the
      payload is not the Publish variant. */
  method ToBytes<VH, P>(p: Publish<VH, P>, codec: PublishCodec<VH, P>) returns (r: Result<seq<byte>, Fault>)
    ensures codec.publishPayloadBytes(p.payload).None? ==> r == Err(UnexpectedPayload)
    ensures codec.publishPayloadBytes(p.payload).Some? ==>
      r == Ok(Encode(p.fixedHeader) + codec.headerToBytes(p.variableHeader)
              + codec.publishPayloadBytes(p.payload).value)
  {
    var bytes := Headers.ToBytes(p.fixedHeader);
    bytes := bytes + codec.headerToBytes(p.variableHeader);
    var payloadBytes: seq<byte>;
    match codec.publishPayloadBytes(p.payload) {
      case None => return Err(UnexpectedPayload);
      case Some(b) => payloadBytes := b;
    }
    bytes := bytes + payloadBytes;
    return Ok(bytes);
  }

  /** The fixed header is parsed before the frame is sliced: a six-byte frame
      whose length field runs to a fifth byte panics on the overflow in
      `parse`, not on the slice `data[10..]`. */
  lemma OverflowBeforeSlice<VH, P>(codec: PublishCodec<VH, P>)
    ensures FromBytes([0x30, 0x80, 0x80, 0x80, 0x80, 0x01], codec) == Err(ArithmeticOverflow)
  {
    assert DecodeLength([0x80, 0x80, 0x80, 0x80, 0x01], 0) == Err(LengthOverflow);
  }

  /** The fixed header of a serialised Publish parses back from the front of
      the bytes, whatever the variable header and payload bytes are. */
  lemma FixedHeaderRecoverable(h: MqttHeaders, variableHeaderBytes: seq<byte>, payloadBytes: seq<byte>)
    requires h.flags < 16 && h.remainingLength as nat <= MaxRemainingLength
    ensures Decode(Encode(h) + variableHeaderBytes + payloadBytes) == Ok(h)
  {
    assert Encode(h) + variableHeaderBytes + payloadBytes == Encode(h) + (variableHeaderBytes + payloadBytes);
    RoundTrip(h, variableHeaderBytes + payloadBytes);
  }

  /** With a Remaining Length of 128 or more the length field takes two bytes
      or more, so the slice `from_bytes` gives the variable-header parser
      starts with a length byte, not with the variable header. */
  lemma VariableHeaderOffsetIgnoresLengthField(h: MqttHeaders, rest: seq<byte>)
    requires h.remainingLength as nat >= 128
    ensures |Encode(h)| > VariableHeaderOffset
    ensures (Encode(h) + rest)[VariableHeaderOffset - 1] == EncodeLength(h.remainingLength as nat)[0]
    ensures Continues((Encode(h) + rest)[VariableHeaderOffset - 1])
  {
    EncodeLengthShape(h.remainingLength as nat);
  }
}
