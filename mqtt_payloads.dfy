/** The CONNECT-style payload record and the payload factory, which in this
    version hands out the empty payload whatever header it is given. */
module Payloads {
  import opened Prelude

  datatype Payload = Payload(
    clientId: Option<string>,
    willTopic: Option<string>,
    willMessage: Option<string>,
    username: Option<string>,
    password: Option<string>)

  /** `Payload::default()` */
  function DefaultPayload(): (p: Payload)
    ensures p.clientId.None? && p.willTopic.None? && p.willMessage.None?
    ensures p.username.None? && p.password.None?
  {
    Payload(None, None, None, None, None)
  }

  /** `PayloadFactory::create_payload`. The variable header is any value of
      the header type `H`; `isConnectHeader` is the downcast test "is this a
      ConnectHeader?". Both branches build the default payload. */
  function CreatePayload<H>(variableHeader: H, isConnectHeader: H -> bool): (p: Payload)
    ensures p == DefaultPayload()
  {
    if isConnectHeader(variableHeader) then DefaultPayload() else DefaultPayload()
  }

  /** The payload does not depend on the header, nor on how the downcast
      classifies it. */
  lemma CreatePayloadIgnoresHeader<H>(a: H, b: H, isConnectA: H -> bool, isConnectB: H -> bool)
    ensures CreatePayload(a, isConnectA) == CreatePayload(b, isConnectB)
  {
  }
}
