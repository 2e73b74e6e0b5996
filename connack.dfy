/** The CONNACK packet assembler. The ConnAck variable-header parser, the
    payload parser and both `incomming_byte_size` functions are not part of
    this model; they are the fields of a `ConnAckCodec`. */
module ConnAckPackets {
  import opened Prelude
  import opened Headers

  datatype ConnAckCodec<!VH, P> = ConnAckCodec(
    fixedHeaderSize: MqttHeaders -> nat,   // MqttHeaders::incomming_byte_size
    headerSize: nat,                       // ConnAckHeader::incomming_byte_size()
    headerFromBytes: seq<byte> -> VH,      // ConnAckHeader::from_bytes
    parsePayload: (VH, seq<byte>) -> P)    // PayloadFactory::parse_payload

  /** `ConnAck::new` is this constructor: it stores the three parts as given. */
  datatype ConnAck<VH, P> = ConnAck(fixedHeader: MqttHeaders, variableHeader: VH, payload: P)

  /** `ConnAck::from_bytes`. The fixed header is unwrapped first (a panic when
      it does not parse); the variable header is parsed from the
      `headerSize` bytes that follow the fixed header's size, a slice that
      panics when the frame is shorter; the payload is parsed from no bytes. */
  function FromBytes<VH, P>(data: seq<byte>, codec: ConnAckCodec<VH, P>): (r: Result<ConnAck<VH, P>, Fault>)
    ensures Decode(data) == Err(LengthOverflow) ==> r == Err(ArithmeticOverflow)
    ensures Decode(data).Err? && Decode(data) != Err(LengthOverflow) ==> r == Err(UnwrapOnErr)
    ensures r.Ok? <==>
      Decode(data).Ok? && codec.fixedHeaderSize(Decode(data).value) + codec.headerSize <= |data|
    ensures Decode(data).Ok? && !r.Ok? ==> r == Err(SliceOutOfRange)
    ensures r.Ok? ==>
      var start := codec.fixedHeaderSize(Decode(data).value);
      && r.value.fixedHeader == Decode(data).value
      && r.value.variableHeader == codec.headerFromBytes(data[start..start + codec.headerSize])
      && r.value.payload == codec.parsePayload(r.value.variableHeader, [])
  {
    match Decode(data)
    case Err(LengthOverflow) => Err(ArithmeticOverflow)
    case Err(_) => Err(UnwrapOnErr)
    case Ok(fixedHeader) =>
      var fixedHeaderSize := codec.fixedHeaderSize(fixedHeader);
      var end := codec.headerSize + fixedHeaderSize;
      if end > |data| then Err(SliceOutOfRange)
      else
        var variableHeader := codec.headerFromBytes(data[fixedHeaderSize..end]);
        var payload := codec.parsePayload(variableHeader, data[0..0]);
        Ok(ConnAck(fixedHeader, variableHeader, payload))
  }
}
