/** The fourteen MQTT 3.1.1 control packet types with their fixed codes
    (section 2.2.1 of MQTT Version 3.1.1, Table 2.1), and the dispatcher whose
    handler table holds one (empty) handler per packet type. */
module PacketTypes {
  import opened Prelude

  datatype MqttPacketType =
    | Connect | ConnAck | Publish | PubAck | PubRec | PubRel | PubComp
    | Subscribe | SubAck | Unsubscribe | UnsubAck | PingReq | PingResp
    | Disconnect

  /** The enum discriminant, `packet_type as u8`. */
  function Code(t: MqttPacketType): (c: nat)
    ensures 1 <= c <= 14
  {
    match t
    case Connect => 1
    case ConnAck => 2
    case Publish => 3
    case PubAck => 4
    case PubRec => 5
    case PubRel => 6
    case PubComp => 7
    case Subscribe => 8
    case SubAck => 9
    case Unsubscribe => 10
    case UnsubAck => 11
    case PingReq => 12
    case PingResp => 13
    case Disconnect => 14
  }

  /** The packet type a high nibble names, as the `match byte1 >> 4` of the
      fixed-header parser decides it; `None` for 0 and 15. */
  function PacketTypeOfNibble(n: nat): (r: Option<MqttPacketType>)
    ensures r.Some? <==> 1 <= n <= 14
    ensures r.Some? ==> Code(r.value) == n
  {
    match n
    case 1 => Some(Connect)
    case 2 => Some(ConnAck)
    case 3 => Some(Publish)
    case 4 => Some(PubAck)
    case 5 => Some(PubRec)
    case 6 => Some(PubRel)
    case 7 => Some(PubComp)
    case 8 => Some(Subscribe)
    case 9 => Some(SubAck)
    case 10 => Some(Unsubscribe)
    case 11 => Some(UnsubAck)
    case 12 => Some(PingReq)
    case 13 => Some(PingResp)
    case 14 => Some(Disconnect)
    case _ => None
  }

  /** The nibble match inverts the code table. */
  lemma NibbleOfCode(t: MqttPacketType)
    ensures PacketTypeOfNibble(Code(t)) == Some(t)
  {
    match t
    case Connect =>
    case ConnAck =>
    case Publish =>
    case PubAck =>
    case PubRec =>
    case PubRel =>
    case PubComp =>
    case Subscribe =>
    case SubAck =>
    case Unsubscribe =>
    case UnsubAck =>
    case PingReq =>
    case PingResp =>
    case Disconnect =>
  }

  /** No two packet types share a code. */
  lemma CodeInjective(s: MqttPacketType, t: MqttPacketType)
    ensures Code(s) == Code(t) ==> s == t
  {
    NibbleOfCode(s);
    NibbleOfCode(t);
  }

  const AllPacketTypes: set<MqttPacketType> :=
    {Connect, ConnAck, Publish, PubAck, PubRec, PubRel, PubComp,
     Subscribe, SubAck, Unsubscribe, UnsubAck, PingReq, PingResp, Disconnect}

  /** One of the `handle_*` functions of the dispatcher, named by the packet
      type it is registered for (`handle_connect` for Connect, ...). */
  datatype Handler = Handler(handles: MqttPacketType)

  /** Calling a handler. Every `handle_*` function has an empty body, so a
      call leaves whatever state it is given as it was; this holds by
      definition, for every handler the table can hold. */
  function Invoke<S>(h: Handler, state: S): S
  {
    state
  }

  datatype MqttPacketDispatcher = MqttPacketDispatcher(handlers: map<MqttPacketType, Handler>)

  /** `MqttPacketDispatcher::new`: fills the handler table with one insert
      per packet type and always succeeds. */
  method NewDispatcher() returns (r: Result<MqttPacketDispatcher, string>)
    ensures r.Ok?
    ensures r.value.handlers.Keys == AllPacketTypes
    ensures |r.value.handlers| == 14
    ensures forall t :: t in r.value.handlers ==> r.value.handlers[t] == Handler(t)
  {
    var handlers: map<MqttPacketType, Handler> := map[];
    handlers := handlers[Connect := Handler(Connect)];
    handlers := handlers[ConnAck := Handler(ConnAck)];
    handlers := handlers[Publish := Handler(Publish)];
    handlers := handlers[PubAck := Handler(PubAck)];
    handlers := handlers[PubRec := Handler(PubRec)];
    handlers := handlers[PubRel := Handler(PubRel)];
    handlers := handlers[PubComp := Handler(PubComp)];
    handlers := handlers[Subscribe := Handler(Subscribe)];
    handlers := handlers[SubAck := Handler(SubAck)];
    handlers := handlers[Unsubscribe := Handler(Unsubscribe)];
    handlers := handlers[UnsubAck := Handler(UnsubAck)];
    handlers := handlers[PingReq := Handler(PingReq)];
    handlers := handlers[PingResp := Handler(PingResp)];
    handlers := handlers[Disconnect := Handler(Disconnect)];
    FullTable(handlers);
    return Ok(MqttPacketDispatcher(handlers));
  }

  /** The table with one entry `t := handle_t` per packet type, as the
      fourteen inserts leave it. */
  ghost predicate IsFullTable(m: map<MqttPacketType, Handler>)
  {
    m == map[
        Connect := Handler(Connect),
        ConnAck := Handler(ConnAck),
        Publish := Handler(Publish),
        PubAck := Handler(PubAck),
        PubRec := Handler(PubRec),
        PubRel := Handler(PubRel),
        PubComp := Handler(PubComp),
        Subscribe := Handler(Subscribe),
        SubAck := Handler(SubAck),
        Unsubscribe := Handler(Unsubscribe),
        UnsubAck := Handler(UnsubAck),
        PingReq := Handler(PingReq),
        PingResp := Handler(PingResp),
        Disconnect := Handler(Disconnect)]
  }

  lemma FullTable(m: map<MqttPacketType, Handler>)
    requires IsFullTable(m)
    ensures m.Keys == AllPacketTypes
    ensures |m| == 14
    ensures forall t :: t in m ==> m[t] == Handler(t)
  {
    FullTableKeys(m);
    AllPacketTypesSize();
    FullTableValues(m);
  }

  lemma FullTableKeys(m: map<MqttPacketType, Handler>)
    requires IsFullTable(m)
    ensures m.Keys == AllPacketTypes
  {
  }

  lemma FullTableValues(m: map<MqttPacketType, Handler>)
    requires IsFullTable(m)
    ensures forall t :: t in m ==> m[t] == Handler(t)
  {
    forall t | t in m ensures m[t] == Handler(t) {
      match t
      case Connect => case ConnAck => case Publish => case PubAck =>
      case PubRec => case PubRel => case PubComp => case Subscribe =>
      case SubAck => case Unsubscribe => case UnsubAck => case PingReq =>
      case PingResp => case Disconnect =>
    }
  }

  lemma AllPacketTypesSize()
    ensures |AllPacketTypes| == 14
  {
  }
}
