/** The MQTT fixed header: byte 0 holds the packet type in its high nibble and
    the flags in its low nibble (section 2.2.1 of MQTT Version 3.1.1); the
    bytes from offset 1 hold the Remaining Length as a base-128 variable-length
    integer, least significant group first, bit 7 set on every byte but the
    last (section 2.2.3 of MQTT Version 3.1.1).

    `Decode` and `Encode` are the specification; `Parse` and `ToBytes` are the
    source's loops, proved to compute them. */
module Headers {
  import opened Prelude
  import opened PacketTypes

  datatype MqttHeaders = MqttHeaders(packetType: MqttPacketType, flags: byte, remainingLength: u32)

  datatype HeaderError =
    | BufferTooShort     // Err("Buffer is too short to contain an MQTT Fixed Header")
    | InvalidPacketType  // Err("Invalid MQTT Packet Type")
    | LengthOverflow     // not an Err of the source: on a fifth length byte the
                         // `u32` multiplier overflows and the parser panics

  /** Length bytes the `u32` multiplier can weigh without overflowing. */
  const MaxLengthBytes: nat := 4

  /** 2^28 - 1, the largest Remaining Length four bytes can hold. */
  const MaxRemainingLength: nat := 0x0FFF_FFFF

  // ---------------------------------------------------------------------------
  // Bit fields of a byte (ByteOps proves these equal the source's bit operations)

  /** `b >> 4` */
  function HighNibble(b: byte): nat { b as nat / 16 }

  /** `b & 0x0F` */
  function LowNibble(b: byte): byte { b % 16 }

  /** `b & 127`: the seven value bits of a length byte. */
  function Low7(b: byte): nat { b as nat % 128 }

  /** `b & 128 != 0`: the continuation bit of a length byte. */
  predicate Continues(b: byte) { b >= 128 }

  function Pow128(k: nat): (p: nat)
    ensures p >= 1
  {
    if k == 0 then 1 else 128 * Pow128(k - 1)
  }

  // ---------------------------------------------------------------------------
  // Reference definitions: what the parser's loop reads and accumulates

  /** How many length bytes the parser reads from `lengthBytes`: up to and
      including the first one whose continuation bit is clear, or all of them
      when every one has it set. */
  function ConsumedCount(lengthBytes: seq<byte>): (n: nat)
    ensures n <= |lengthBytes|
    ensures lengthBytes != [] ==> n >= 1
  {
    if lengthBytes == [] then 0
    else if !Continues(lengthBytes[0]) then 1
    else 1 + ConsumedCount(lengthBytes[1..])
  }

  /** The sum of `(g[i] & 127) * 128^i` over the groups `g`, accumulated in the
      order the parser adds them. */
  function GroupsValue(groups: seq<byte>): nat
  {
    if groups == [] then 0
    else GroupsValue(groups[..|groups| - 1]) + Low7(groups[|groups| - 1]) * Pow128(|groups| - 1)
  }

  // ---------------------------------------------------------------------------
  // Specification of the decoder

  /** The Remaining Length read from `lengthBytes` when `read` length bytes
      precede them. Reading stops at a byte with the continuation bit clear;
      running out of bytes ends the number as it stands; a fifth length byte
      overflows the multiplier. */
  function DecodeLength(lengthBytes: seq<byte>, read: nat): (r: Result<nat, HeaderError>)
    requires read <= MaxLengthBytes
    ensures r.Ok? ==> r.value < Pow128(MaxLengthBytes - read)
    ensures r.Err? ==> r.error == LengthOverflow
    decreases |lengthBytes|
  {
    if |lengthBytes| == 0 then Ok(0)
    else if read == MaxLengthBytes then Err(LengthOverflow)
    else if !Continues(lengthBytes[0]) then Ok(Low7(lengthBytes[0]))
    else
      match DecodeLength(lengthBytes[1..], read + 1)
      case Ok(rest) => Ok(Low7(lengthBytes[0]) + 128 * rest)
      case Err(e) => Err(e)
  }

  lemma FourGroupsBound()
    ensures Pow128(MaxLengthBytes) == MaxRemainingLength + 1
  {
  }

  /** `MqttHeaders::parse` as a function of the buffer. */
  function Decode(buffer: seq<byte>): (r: Result<MqttHeaders, HeaderError>)
  {
    if |buffer| < 2 then Err(BufferTooShort)
    else
      match PacketTypeOfNibble(HighNibble(buffer[0]))
      case None => Err(InvalidPacketType)
      case Some(t) =>
        match DecodeLength(buffer[1..], 0)
        case Err(e) => Err(e)
        case Ok(n) =>
          FourGroupsBound();
          Ok(MqttHeaders(t, LowNibble(buffer[0]), n as u32))
  }

  // ---------------------------------------------------------------------------
  // Specification of the encoder

  /** The base-128 groups of `n`, least significant first, bit 7 set on all
      but the last; at least one byte, so 0 is `[0x00]`. */
  function EncodeLength(n: nat): (r: seq<byte>)
    ensures |r| >= 1
    decreases n
  {
    if n < 128 then [n as byte]
    else [(n % 128 + 128) as byte] + EncodeLength(n / 128)
  }

  /** `(packet_type as u8) << 4 | (flags & 0x0F)` */
  function FirstByte(h: MqttHeaders): byte
  {
    (Code(h.packetType) * 16 + LowNibble(h.flags) as nat) as byte
  }

  /** `MqttHeaders::to_bytes` as a function of the header. */
  function Encode(h: MqttHeaders): (r: seq<byte>)
  {
    [FirstByte(h)] + EncodeLength(h.remainingLength as nat)
  }

  // ---------------------------------------------------------------------------
  // The source's loops

  /** `MqttHeaders::parse`. */
  method Parse(buffer: seq<byte>) returns (r: Result<MqttHeaders, HeaderError>)
    ensures r == Decode(buffer)
  {
    if |buffer| < 2 {
      return Err(BufferTooShort);
    }
    var byte1 := buffer[0];
    var packetType: MqttPacketType;
    match PacketTypeOfNibble(byte1 as nat / 16) {
      case None => return Err(InvalidPacketType);
      case Some(t) => packetType := t;
    }
    var flags := byte1 % 16;

    ghost var lengthBytes := buffer[1..];
    ghost var stopped := false;
    var multiplier: nat := 1;
    var value: nat := 0;
    var index := 1;
    while index < |buffer|
      invariant 1 <= index <= |buffer|
      invariant index <= MaxLengthBytes + 1
      invariant multiplier == Pow128(index - 1)
      invariant value == GroupsValue(lengthBytes[..index - 1])
      invariant forall j :: 0 <= j < index - 1 ==> Continues(lengthBytes[j])
    {
      var encoded := buffer[index];
      GroupsValueBound(lengthBytes[..index - 1]);
      // the `u32` arithmetic of `value += ...` and `multiplier *= 128`
      if value + (encoded as nat % 128) * multiplier > U32_MAX || multiplier * 128 > U32_MAX {
        OverflowOnlyOnFifthByte(index - 1, value, multiplier, encoded as nat % 128);
        ConsumedCountPastPrefix(lengthBytes, index - 1);
        DecodeLengthValue(lengthBytes);
        return Err(LengthOverflow);
      }
      assert lengthBytes[..index] == lengthBytes[..index - 1] + [encoded];
      value := value + (encoded as nat % 128) * multiplier;
      multiplier := multiplier * 128;
      if encoded < 128 {
        ConsumedCountAtClear(lengthBytes, index - 1);
        assert lengthBytes[..index][..index - 1] == lengthBytes[..index - 1];
        assert value == GroupsValue(lengthBytes[..ConsumedCount(lengthBytes)]);
        stopped := true;
        break;
      }
      index := index + 1;
    }
    if !stopped {
      ConsumedCountAllContinue(lengthBytes, index - 1);
      assert lengthBytes[..index - 1] == lengthBytes[..ConsumedCount(lengthBytes)];
    }
    DecodeLengthValue(lengthBytes);
    GroupsValueBound(lengthBytes[..ConsumedCount(lengthBytes)]);
    return Ok(MqttHeaders(packetType, flags, value as u32));
  }

  /** `MqttHeaders::to_bytes`. */
  method ToBytes(h: MqttHeaders) returns (buffer: seq<byte>)
    ensures buffer == Encode(h)
  {
    var byte1 := (Code(h.packetType) * 16 + (h.flags % 16) as nat) as byte;
    buffer := [byte1];
    var remainingLength := h.remainingLength as nat;
    while true
      invariant buffer + EncodeLength(remainingLength) == Encode(h)
      decreases remainingLength
    {
      var encodedByte := remainingLength % 128;
      var rest := remainingLength / 128;
      if rest > 0 {
        encodedByte := encodedByte + 128;  // `encoded_byte |= 128`, bit 7 being clear
      }
      buffer := buffer + [encodedByte as byte];
      if rest == 0 {
        assert buffer == Encode(h);
        break;
      }
      remainingLength := rest;
    }
  }

  // ---------------------------------------------------------------------------
  // Lemmas for the loops

  lemma GroupsValueBound(groups: seq<byte>)
    ensures GroupsValue(groups) < Pow128(|groups|)
    decreases |groups|
  {
    if groups != [] {
      var k := |groups| - 1;
      GroupsValueBound(groups[..k]);
      MulMonotone(Low7(groups[k]), 127, Pow128(k));
      assert Pow128(k + 1) == 128 * Pow128(k);
    }
  }

  lemma MulMonotone(a: nat, b: nat, c: nat)
    requires a <= b
    ensures a * c <= b * c
  {
  }

  /** Only on the fifth length byte (`read == 4`) does the `u32` arithmetic
      overflow, and there it always does. */
  lemma OverflowOnlyOnFifthByte(read: nat, value: nat, multiplier: nat, low: nat)
    requires read <= MaxLengthBytes
    requires multiplier == Pow128(read) && value < multiplier && low < 128
    ensures (value + low * multiplier > U32_MAX || multiplier * 128 > U32_MAX) <==> read == MaxLengthBytes
  {
    assert Pow128(4) == 0x1000_0000;
    if read < MaxLengthBytes {
      assert multiplier <= 0x20_0000 by {
        assert read == 0 || read == 1 || read == 2 || read == 3;
      }
      assert value + low * multiplier < 128 * multiplier;
    }
  }

  lemma ConsumedCountAtClear(lengthBytes: seq<byte>, i: nat)
    requires i < |lengthBytes| && !Continues(lengthBytes[i])
    requires forall j :: 0 <= j < i ==> Continues(lengthBytes[j])
    ensures ConsumedCount(lengthBytes) == i + 1
    decreases i
  {
    if i > 0 {
      ConsumedCountAtClear(lengthBytes[1..], i - 1);
    }
  }

  lemma ConsumedCountAllContinue(lengthBytes: seq<byte>, i: nat)
    requires i == |lengthBytes|
    requires forall j :: 0 <= j < i ==> Continues(lengthBytes[j])
    ensures ConsumedCount(lengthBytes) == i
    decreases i
  {
    if i > 0 {
      ConsumedCountAllContinue(lengthBytes[1..], i - 1);
    }
  }

  lemma ConsumedCountPastPrefix(lengthBytes: seq<byte>, i: nat)
    requires i < |lengthBytes|
    requires forall j :: 0 <= j < i ==> Continues(lengthBytes[j])
    ensures ConsumedCount(lengthBytes) > i
    decreases i
  {
    if i > 0 {
      ConsumedCountPastPrefix(lengthBytes[1..], i - 1);
    }
  }

  /** Adding a group in front scales the rest by 128. */
  lemma GroupsValueCons(b: byte, groups: seq<byte>)
    ensures GroupsValue([b] + groups) == Low7(b) + 128 * GroupsValue(groups)
    decreases |groups|
  {
    if groups != [] {
      var k := |groups| - 1;
      var s := [b] + groups;
      assert s[..|s| - 1] == [b] + groups[..k];
      GroupsValueCons(b, groups[..k]);
      assert Pow128(k + 1) == 128 * Pow128(k);
      assert Low7(groups[k]) * Pow128(k + 1) == 128 * (Low7(groups[k]) * Pow128(k));
    } else {
      assert [b] + groups == [b];
      assert [b][..0] == [];
    }
  }

  /** The decoder reads exactly `ConsumedCount` bytes and returns the sum of
      their groups, unless that takes more than four bytes. */
  lemma DecodeLengthValue(lengthBytes: seq<byte>)
    ensures ConsumedCount(lengthBytes) <= MaxLengthBytes ==>
      DecodeLength(lengthBytes, 0) == Ok(GroupsValue(lengthBytes[..ConsumedCount(lengthBytes)]))
    ensures ConsumedCount(lengthBytes) > MaxLengthBytes ==>
      DecodeLength(lengthBytes, 0) == Err(LengthOverflow)
  {
    DecodeLengthValueFrom(lengthBytes, 0);
  }

  lemma {:induction false} DecodeLengthValueFrom(lengthBytes: seq<byte>, read: nat)
    requires read <= MaxLengthBytes
    ensures ConsumedCount(lengthBytes) <= MaxLengthBytes - read ==>
      DecodeLength(lengthBytes, read) == Ok(GroupsValue(lengthBytes[..ConsumedCount(lengthBytes)]))
    ensures ConsumedCount(lengthBytes) > MaxLengthBytes - read ==>
      DecodeLength(lengthBytes, read) == Err(LengthOverflow)
    decreases |lengthBytes|
  {
    if lengthBytes == [] {
      assert lengthBytes[..0] == [];
    } else if read == MaxLengthBytes {
    } else if !Continues(lengthBytes[0]) {
      assert lengthBytes[..1] == [lengthBytes[0]];
      assert [lengthBytes[0]][..0] == [];
    } else {
      var tail := lengthBytes[1..];
      DecodeLengthValueFrom(tail, read + 1);
      var n := ConsumedCount(tail);
      assert lengthBytes[..n + 1] == [lengthBytes[0]] + tail[..n];
      GroupsValueCons(lengthBytes[0], tail[..n]);
    }
  }

  // ---------------------------------------------------------------------------
  // Properties of the decoder

  /** `parse` rejects a buffer of fewer than two bytes, and only such a buffer
      with that error. */
  lemma DecodeShortBuffer(buffer: seq<byte>)
    ensures Decode(buffer) == Err(BufferTooShort) <==> |buffer| < 2
  {
  }

  /** The high nibble of byte 0 decides the packet type: 1..14 name
      Connect..Disconnect, 0 and 15 are rejected. The flags are exactly the low
      nibble of byte 0. */
  lemma DecodeFirstByte(buffer: seq<byte>)
    requires |buffer| >= 2
    ensures Decode(buffer) == Err(InvalidPacketType) <==> !(1 <= HighNibble(buffer[0]) <= 14)
    ensures Decode(buffer).Ok? ==>
      && Code(Decode(buffer).value.packetType) == HighNibble(buffer[0])
      && Decode(buffer).value.flags == LowNibble(buffer[0])
  {
  }

  /** The whole decoder against the reference definitions: the Remaining
      Length is the sum of the groups of the bytes up to and including the
      first one with bit 7 clear (all bytes when none is clear), and a fifth
      length byte overflows. */
  lemma DecodeByReference(buffer: seq<byte>)
    requires |buffer| >= 2 && 1 <= HighNibble(buffer[0]) <= 14
    ensures ConsumedCount(buffer[1..]) <= MaxLengthBytes ==>
      && Decode(buffer).Ok?
      && Decode(buffer).value.remainingLength as nat
           == GroupsValue(buffer[1..][..ConsumedCount(buffer[1..])])
    ensures ConsumedCount(buffer[1..]) > MaxLengthBytes ==>
      Decode(buffer) == Err(LengthOverflow)
  {
    DecodeLengthValue(buffer[1..]);
  }

  /** A buffer that runs out while every length byte has bit 7 set still
      decodes, to the value accumulated so far. */
  lemma DecodeUnterminated(buffer: seq<byte>)
    requires 2 <= |buffer| <= MaxLengthBytes + 1 && 1 <= HighNibble(buffer[0]) <= 14
    requires forall j :: 1 <= j < |buffer| ==> Continues(buffer[j])
    ensures Decode(buffer).Ok?
    ensures Decode(buffer).value.remainingLength as nat == GroupsValue(buffer[1..])
  {
    var lb := buffer[1..];
    ConsumedCountAllContinue(lb, |lb|);
    assert lb[..|lb|] == lb;
    DecodeByReference(buffer);
  }

  lemma ConsumedCountAppend(lengthBytes: seq<byte>, i: nat, rest: seq<byte>)
    requires i < |lengthBytes| && !Continues(lengthBytes[i])
    ensures ConsumedCount(lengthBytes + rest) == ConsumedCount(lengthBytes) <= i + 1
    decreases i
  {
    if Continues(lengthBytes[0]) {
      assert (lengthBytes + rest)[1..] == lengthBytes[1..] + rest;
      ConsumedCountAppend(lengthBytes[1..], i - 1, rest);
    }
  }

  /** Decoding stops at the first length byte with bit 7 clear: whatever
      follows it is ignored. */
  lemma DecodeIgnoresTrailing(buffer: seq<byte>, i: nat, rest: seq<byte>)
    requires 1 <= i < |buffer| && !Continues(buffer[i])
    ensures Decode(buffer + rest) == Decode(buffer)
  {
    var lb := buffer[1..];
    assert (buffer + rest)[1..] == lb + rest;
    assert (buffer + rest)[0] == buffer[0];
    ConsumedCountAppend(lb, i - 1, rest);
    var n := ConsumedCount(lb);
    assert (lb + rest)[..n] == lb[..n];
    DecodeLengthValue(lb);
    DecodeLengthValue(lb + rest);
  }

  // ---------------------------------------------------------------------------
  // Properties of the encoder

  /** Every length byte but the last has bit 7 set, the last has it clear,
      and the groups add up to `n`. */
  lemma {:induction false} EncodeLengthShape(n: nat)
    ensures forall i :: 0 <= i < |EncodeLength(n)| - 1 ==> Continues(EncodeLength(n)[i])
    ensures !Continues(EncodeLength(n)[|EncodeLength(n)| - 1])
    ensures GroupsValue(EncodeLength(n)) == n
    decreases n
  {
    if n >= 128 {
      var b := (n % 128 + 128) as byte;
      EncodeLengthShape(n / 128);
      GroupsValueCons(b, EncodeLength(n / 128));
    } else {
      assert [n as byte][..0] == [];
    }
  }

  /** The encoding of `n` fits in `k` bytes exactly when `n < 128^k`; in
      particular it takes at most four bytes exactly when `n < 2^28`. */
  lemma {:induction false} EncodeLengthSize(n: nat, k: nat)
    requires k >= 1
    ensures |EncodeLength(n)| <= k <==> n < Pow128(k)
    decreases n
  {
    if n >= 128 {
      if k > 1 {
        EncodeLengthSize(n / 128, k - 1);
      } else {
        assert Pow128(1) == 128;
        assert |EncodeLength(n)| >= 2;
      }
    }
  }

  /** Decoding the encoding of `n`, whatever bytes follow, gives back `n`,
      provided the encoding fits in the length bytes still allowed. */
  lemma {:induction false} EncodeLengthRoundTrip(n: nat, read: nat, rest: seq<byte>)
    requires read < MaxLengthBytes && n < Pow128(MaxLengthBytes - read)
    ensures DecodeLength(EncodeLength(n) + rest, read) == Ok(n)
    decreases n
  {
    var r := EncodeLength(n) + rest;
    if n < 128 {
      assert r[0] == n as byte;
    } else {
      assert read + 1 < MaxLengthBytes;
      assert r[1..] == EncodeLength(n / 128) + rest;
      assert Pow128(MaxLengthBytes - read) == 128 * Pow128(MaxLengthBytes - (read + 1));
      EncodeLengthRoundTrip(n / 128, read + 1, rest);
    }
  }

  lemma FirstByteFields(h: MqttHeaders)
    ensures HighNibble(FirstByte(h)) == Code(h.packetType)
    ensures LowNibble(FirstByte(h)) == h.flags % 16
  {
  }

  /** `parse(to_bytes(h)) == h` for flags below 16 and a Remaining Length of
      at most 2^28 - 1, also when more bytes follow the header. */
  lemma RoundTrip(h: MqttHeaders, trailing: seq<byte>)
    requires h.flags < 16 && h.remainingLength as nat <= MaxRemainingLength
    ensures Decode(Encode(h) + trailing) == Ok(h)
  {
    var buffer := Encode(h) + trailing;
    FirstByteFields(h);
    NibbleOfCode(h.packetType);
    assert buffer[1..] == EncodeLength(h.remainingLength as nat) + trailing;
    EncodeLengthRoundTrip(h.remainingLength as nat, 0, trailing);
  }

  /** A header whose Remaining Length exceeds 2^28 - 1 encodes to five length
      bytes, which `parse` cannot read back: the encoder accepts what the
      decoder rejects. */
  lemma EncodeBeyondMaximum(h: MqttHeaders)
    requires h.remainingLength as nat > MaxRemainingLength
    ensures |Encode(h)| > 1 + MaxLengthBytes
    ensures Decode(Encode(h)) == Err(LengthOverflow)
  {
    var n := h.remainingLength as nat;
    var lb := EncodeLength(n);
    EncodeLengthSize(n, MaxLengthBytes);
    EncodeLengthShape(n);
    ConsumedCountPastPrefix(lb, MaxLengthBytes);
    assert Encode(h)[1..] == lb;
    FirstByteFields(h);
    NibbleOfCode(h.packetType);
    DecodeByReference(Encode(h));
  }

  /** The two unit tests of `mqtt_headers.rs`. */
  lemma HeaderExamples()
    ensures Decode([0x10, 0x00]) == Ok(MqttHeaders(Connect, 0, 0))
    ensures Encode(MqttHeaders(Connect, 0, 10)) == [0x10, 0x0A]
  {
  }

  /** The Remaining Length boundaries of section 2.2.3 of MQTT 3.1.1. */
  lemma LengthBoundaries()
    ensures EncodeLength(0) == [0x00]
    ensures EncodeLength(127) == [0x7F]
    ensures EncodeLength(128) == [0x80, 0x01]
    ensures EncodeLength(16383) == [0xFF, 0x7F]
    ensures EncodeLength(16384) == [0x80, 0x80, 0x01]
    ensures EncodeLength(MaxRemainingLength) == [0xFF, 0xFF, 0xFF, 0x7F]
  {
  }
}
