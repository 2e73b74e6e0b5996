/** `parse_packet`: classifies a binary frame by the high nibble of its first
    byte and wraps the decoded packet in a broker command. The response
    channel (`oneshot`) and the WebSocket sender are opaque tokens here, of
    type parameters `R` and `S`; `Connect::from_bytes` is not part of this
    model and is the parameter `connectFromBytes`. */
module Frames {
  import opened Prelude
  import opened Headers
  import PublishPackets

  datatype BrokerCommand<C, P, S, R> =
    | ConnectCommand(connectPacket: C, wsSender: S, responder: R)
    | ConnAckCommand(responder: R)
    | PublishCommand(publishPacket: P, responder: R)

  /** How `parse_packet` fails: an `Err` it returns, or a panic on the way. */
  datatype PacketError =
    | Rejected(message: string)
    | Panicked(fault: Fault)

  const EmptyData: string := "Empty data"
  const UnknownMessageType: string := "Unknown message type"

  function ParsePacket<C, VH, PP, S, R>(
    data: seq<byte>, wsSender: S, responder: R,
    connectFromBytes: seq<byte> -> C, publishCodec: PublishPackets.PublishCodec<VH, PP>)
    : (r: Result<BrokerCommand<C, PublishPackets.Publish<VH, PP>, S, R>, PacketError>)
    ensures |data| == 0 <==> r == Err(Rejected(EmptyData))
    ensures |data| == 1 ==> r == Err(Panicked(IndexOutOfRange))
    ensures |data| >= 2 && HighNibble(data[0]) == 1 ==>
      r == Ok(ConnectCommand(connectFromBytes(data), wsSender, responder))
    ensures |data| >= 2 && HighNibble(data[0]) == 2 ==> r == Ok(ConnAckCommand(responder))
    ensures |data| >= 2 && HighNibble(data[0]) == 3 ==>
      match PublishPackets.FromBytes(data, publishCodec)
      case Ok(p) => r == Ok(PublishCommand(p, responder))
      case Err(f) => r == Err(Panicked(f))
    ensures |data| >= 2 && !(1 <= HighNibble(data[0]) <= 3) <==> r == Err(Rejected(UnknownMessageType))
  {
    if |data| == 0 then Err(Rejected(EmptyData))
    else if |data| < 2 then Err(Panicked(IndexOutOfRange))  // `data[1]`
    else
      match HighNibble(data[0])
      case 1 => Ok(ConnectCommand(connectFromBytes(data), wsSender, responder))
      case 2 => Ok(ConnAckCommand(responder))
      case 3 =>
        (match PublishPackets.FromBytes(data, publishCodec)
         case Ok(p) => Ok(PublishCommand(p, responder))
         case Err(f) => Err(Panicked(f)))
      case _ => Err(Rejected(UnknownMessageType))
  }

  /** The kind of command depends on `data[0] >> 4` alone: two frames of two
      bytes or more with the same high nibble yield the same kind of command,
      or are both rejected as unknown. */
  lemma KindDependsOnHighNibble<C, VH, PP, S, R>(
    d1: seq<byte>, d2: seq<byte>, wsSender: S, responder: R,
    connectFromBytes: seq<byte> -> C, publishCodec: PublishPackets.PublishCodec<VH, PP>)
    requires |d1| >= 2 && |d2| >= 2 && HighNibble(d1[0]) == HighNibble(d2[0])
    ensures var r1 := ParsePacket(d1, wsSender, responder, connectFromBytes, publishCodec);
            var r2 := ParsePacket(d2, wsSender, responder, connectFromBytes, publishCodec);
      && (r1 == Err(Rejected(UnknownMessageType)) <==> r2 == Err(Rejected(UnknownMessageType)))
      && (r1.Ok? && r2.Ok? ==>
            && (r1.value.ConnectCommand? <==> r2.value.ConnectCommand?)
            && (r1.value.ConnAckCommand? <==> r2.value.ConnAckCommand?)
            && (r1.value.PublishCommand? <==> r2.value.PublishCommand?))
  {
  }

  /** A ConnAck frame carries nothing into its command: any two frames of two
      bytes or more with high nibble 2 give the same command. */
  lemma ConnAckIgnoresFrameContents<C, VH, PP, S, R>(
    d1: seq<byte>, d2: seq<byte>, wsSender: S, responder: R,
    connectFromBytes: seq<byte> -> C, publishCodec: PublishPackets.PublishCodec<VH, PP>)
    requires |d1| >= 2 && |d2| >= 2 && HighNibble(d1[0]) == HighNibble(d2[0]) == 2
    ensures ParsePacket(d1, wsSender, responder, connectFromBytes, publishCodec)
         == ParsePacket(d2, wsSender, responder, connectFromBytes, publishCodec)
  {
  }
}
