# MQTT 3.1.1 broker core, modelled in Dafny

This project models the sequential core of a small MQTT 3.1.1 broker written
in Rust and proves properties of the model:

- **Fixed-header codec** (`Headers`, `mqtt_headers.dfy`). `MqttHeaders::parse`
  and `MqttHeaders::to_bytes` are the methods `Parse` and `ToBytes`. They keep
  the source's loops: the parser accumulates `value` and `multiplier` one
  length byte at a time, and the encoder pushes one base-128 group per
  iteration. Each method is proved to compute a specification function,
  `Decode` or `Encode`. The lemmas about those functions give the error cases,
  how the type and flags nibbles are read, where decoding stops, the round
  trip `Decode(Encode(h) + trailing) == Ok(h)`, and the boundary encodings of
  section 2.2.3 of MQTT Version 3.1.1.
- **Packet types and dispatcher** (`PacketTypes`, `mqtt_types.dfy`). These are
  the fourteen packet types with their codes 1..14, the nibble match that
  inverts the codes, and `MqttPacketDispatcher::new`. That method fills a
  handler table with fourteen inserts.
- **Client registry** (`Brokers`, `broker.dfy`). `Broker` is a class whose
  `clients` field is the source's `Vec<String>`. Its methods update the field
  in place. They are proved against `FirstIndex` and `RemoveFirst`, and the
  lemmas about those functions give the "nothing else changes" properties.
- **Packet assemblers** (`PublishPackets`, `ConnAckPackets`). These model the
  slicing and concatenation done by `Publish::from_bytes`,
  `Publish::to_bytes` and `ConnAck::from_bytes`. The variable-header codecs
  and the payload parser are not part of this model. They appear as
  function-valued fields of a codec record, so the proofs hold for any
  implementation of them. `Publish::new` and `ConnAck::new` are the datatype
  constructors `Publish(...)` and `ConnAck(...)`, which store their three parts
  as given.
- **Payload factory** (`Payloads`). This is the five-field `Payload` record,
  its default value, and `create_payload`, which returns the default in both
  of its branches.
- **Frame classification** (`Frames`). This is `parse_packet` from `main.rs`.

Conventions:

- A byte is the newtype `byte` (0..255). The source's bit operations are
  written as arithmetic: `b >> 4` is `b / 16`, `b & 0x0F` is `b % 16`,
  `b & 127` is `b % 128`, `b & 128 == 0` is `b < 128`, and `x | 128` on a
  value below 128 is `x + 128`. The lemmas of `ByteOps` prove each of these
  equal to the bit operation on `bv8`.
- A Rust panic is modelled as a returned `Err(fault)` that names the cause
  (`Prelude.Fault`). For example, `Publish::from_bytes` on a frame shorter
  than 10 bytes whose fixed header does not overflow gives
  `Err(SliceOutOfRange)`; one whose length field runs to a fifth byte gives
  `Err(ArithmeticOverflow)`, because the fixed header is parsed first
  (`OverflowBeforeSlice`). There are two exceptions. The `u32` overflow panic
  inside `parse` itself is the header error `LengthOverflow`, which the packet
  assemblers turn into `Err(ArithmeticOverflow)`. The panic of
  `get_index_of_client` on an absent id is a precondition (see "## Left out").
- `parse` multiplies a `u32` `multiplier` by 128 after every length byte.
  Reading a fifth length byte therefore overflows `u32`, which panics in a
  debug build. The model makes this the error `LengthOverflow`, and the lemma
  `OverflowOnlyOnFifthByte` proves that the `u32` bound is exceeded on the
  fifth length byte and on no earlier one.

In three places the code does less than an MQTT broker is meant to do, and
the model follows the code:

- `parse` does not fail when the buffer ends while the continuation bit is
  still set. It returns the value accumulated so far (`DecodeUnterminated`).
- `parse` does not report how many length bytes it read.
- A second `connect_client` with the same id appends a duplicate entry and
  does not evict the first one (`RemoveOneOfDuplicates`,
  `DuplicateConnectKeepsSession`).

`Publish::from_bytes` reads the variable header at offset 2 and the payload at
offset 10, whatever the size of the length field.
`VariableHeaderOffsetIgnoresLengthField` shows what offset 2 means when the
Remaining Length is 128 or more: the slice handed to the variable-header parser
then starts with a length byte. In the same way, `EncodeBeyondMaximum` shows
that `to_bytes` encodes a Remaining Length above 2^28 - 1 into five length
bytes, and `parse` rejects those bytes.

## Model

| member | source | states |
|---|---|---|
| `Headers.Parse` | src/models/mqtt_headers.rs:13-58 | the parser loop returns exactly `Decode(buffer)`: the error for a short buffer or a bad type nibble, and otherwise the type, the flags and the accumulated Remaining Length |
| `Headers.ToBytes` | src/models/mqtt_headers.rs:60-81 | the encoder loop returns exactly `Encode(h)`: the first byte, then the base-128 groups of the Remaining Length |
| `Headers.DecodeLength` | src/models/mqtt_headers.rs:40-51 | with `read` length bytes already consumed, a decoded length is below `128^(4 - read)`, which is at most 2^28 - 1 from the start; the only failure is the overflow on a fifth byte |
| `Headers.OverflowOnlyOnFifthByte` | src/models/mqtt_headers.rs:45-46 | the `u32` arithmetic `value += (b & 127) * multiplier; multiplier *= 128` overflows exactly when the byte is the fifth length byte |
| `Headers.DecodeShortBuffer` | src/models/mqtt_headers.rs:14-16 | `parse` returns the too-short error exactly when the buffer has fewer than 2 bytes |
| `Headers.DecodeFirstByte` | src/models/mqtt_headers.rs:18-38 | a high nibble outside 1..14 is rejected, and only such a nibble; on success the type's code is the high nibble of byte 0 and the flags are its low nibble |
| `Headers.DecodeByReference` | src/models/mqtt_headers.rs:40-57 | the Remaining Length is the sum of `(b & 127) * 128^i` over the bytes up to and including the first byte with bit 7 clear (all bytes when none is clear); more than four such bytes overflow |
| `Headers.DecodeUnterminated` | src/models/mqtt_headers.rs:43-51 | a buffer that ends while every length byte has bit 7 set still decodes, to the value accumulated so far |
| `Headers.DecodeIgnoresTrailing` | src/models/mqtt_headers.rs:43-51 | decoding stops at the first length byte with bit 7 clear, and bytes appended after it do not change the result |
| `Headers.EncodeLengthShape` | src/models/mqtt_headers.rs:67-78 | every length byte but the last has bit 7 set, the last has it clear, and the groups sum back to the encoded value |
| `Headers.EncodeLengthSize` | src/models/mqtt_headers.rs:67-78 | the encoding fits in `k` bytes exactly when the value is below `128^k`, so it takes at most 4 bytes exactly when the value is below 2^28 |
| `Headers.EncodeLengthRoundTrip` | src/models/mqtt_headers.rs:40-51 | decoding the encoding of `n`, followed by any bytes, gives `n` back while it fits in the length bytes still allowed |
| `Headers.FirstByteFields` | src/models/mqtt_headers.rs:63 | the first byte written carries the type code in its high nibble and `flags & 0x0F` in its low nibble |
| `Headers.RoundTrip` | src/models/mqtt_headers.rs:13-81 | `parse(to_bytes(h)) == h`, also with bytes appended, for flags below 16 and a Remaining Length of at most 2^28 - 1 |
| `Headers.EncodeBeyondMaximum` | src/models/mqtt_headers.rs:66-78 | a Remaining Length above 2^28 - 1 encodes to five length bytes, which `parse` then fails on |
| `Headers.HeaderExamples` | src/models/mqtt_headers.rs:90-108 | `[0x10, 0x00]` parses to Connect with flags 0 and length 0, and `{Connect, 0, 10}` encodes to `[0x10, 0x0A]` |
| `Headers.LengthBoundaries` | src/models/mqtt_headers.rs:66-78 | 0, 127, 128, 16383, 16384 and 2^28 - 1 encode to their byte sequences from section 2.2.3 of MQTT 3.1.1 |
| `ByteOps.MasksAsArithmetic` | src/models/mqtt_headers.rs:20-47 | `>> 4`, `& 0x0F`, `& 127` and the `& 128` test on a `u8` equal the arithmetic the model uses |
| `ByteOps.FirstByteAsArithmetic` | src/models/mqtt_headers.rs:63 | shifting a code below 16 left by 4 and OR-ing in `flags & 0x0F` equals `code * 16 + flags % 16` |
| `ByteOps.SetBit7AsArithmetic` | src/models/mqtt_headers.rs:72 | setting bit 7 of a byte whose bit 7 is clear adds 128 |
| `PacketTypes.Code` | src/models/mqtt_types.rs:4-19 | every packet type's discriminant lies in 1..14 |
| `PacketTypes.PacketTypeOfNibble` | src/models/mqtt_headers.rs:20-36 | the nibble match names a packet type exactly for 1..14, and the type it names has that nibble as its code |
| `PacketTypes.NibbleOfCode` | src/models/mqtt_types.rs:4-19 | the nibble match applied to a type's code gives that type back |
| `PacketTypes.CodeInjective` | src/models/mqtt_types.rs:4-19 | no two packet types share a code |
| `PacketTypes.NewDispatcher` | src/models/mqtt_types.rs:26-44 | `new` always returns `Ok`; the handler table has exactly the 14 packet types as keys, and each key maps to its own handler |
| `PacketTypes.FullTable` | src/models/mqtt_types.rs:27-41 | the table the fourteen inserts build has the 14 packet types as its keys, 14 entries, and `handle_t` registered at each `t` |
| `Brokers.Broker.constructor` | src/models/broker.rs:10-14 | a new broker has no clients |
| `Brokers.Broker.ConnectClient` | src/models/broker.rs:16-19 | returns true and appends the id at the end; the existing entries are unchanged and duplicates are kept |
| `Brokers.Broker.IsClientConnected` | src/models/broker.rs:21-26 | true exactly when the id occurs in the list; the list is not changed |
| `Brokers.Broker.GetIndexOfClient` | src/models/broker.rs:28-39 | for an id that is present, returns the smallest index whose entry equals the id |
| `Brokers.Broker.DisconnectClient` | src/models/broker.rs:41-48 | for an absent id, returns `("", false)` and does not change the list; for a present id, returns `(id, true)` and removes exactly its first occurrence |
| `Brokers.FirstIndex` | src/models/broker.rs:33-37 | the id occurs at the returned index and at no smaller index |
| `Brokers.RemoveFirstAbsent` | src/models/broker.rs:42-44 | removing an absent id leaves the list unchanged |
| `Brokers.RemoveFirstSplice` | src/models/broker.rs:45-47 | removing a present id deletes the entry at its first index; the entries before and after it keep their order, and the length drops by one |
| `Brokers.RemoveFirstMultiset` | src/models/broker.rs:45-47 | a removal takes exactly one copy of the id out of the multiset of entries, or none when the id is absent |
| `Brokers.RemoveSingleOccurrence` | src/models/broker.rs:41-48 | after disconnecting an id that occurred once, it is no longer connected |
| `Brokers.RemoveOneOfDuplicates` | src/models/broker.rs:16-19 | an id connected twice is still connected after one disconnect |
| `Brokers.ConnectThenDisconnect` | src/models/broker.rs:16-48 | connecting a new id and then disconnecting it restores the original list |
| `Brokers.ConnectedAfterConnect` | src/models/broker.rs:16-26 | after `connect_client(id)`, `is_client_connected(id)` holds |
| `Brokers.DuplicateConnectKeepsSession` | src/models/broker.rs:16-48 | on a new broker, two connects then one disconnect leave the id connected, while one connect then one disconnect leave it disconnected |
| `Payloads.DefaultPayload` | src/models/mqtt_payloads.rs:4-11 | the default payload has all five fields `None` |
| `Payloads.CreatePayload` | src/models/mqtt_payloads.rs:16-22 | returns the default payload whether or not the header is a Connect header |
| `Payloads.CreatePayloadIgnoresHeader` | src/models/mqtt_payloads.rs:16-22 | the result does not depend on the header given |
| `PublishPackets.FromBytes` | src/models/packets/publish.rs:23-28 | succeeds exactly on a frame of at least 10 bytes whose fixed header parses; the fixed header is then `parse(data)`, the variable header is parsed from offset 2, and the payload is `parse_payload` of that header and the bytes from offset 10; otherwise it gives the panic raised first (overflow in `parse`, a slice past the end, or an unwrap on `Err`) |
| `PublishPackets.ToBytes` | src/models/packets/publish.rs:30-39 | the fixed header's bytes, then the variable header's, then the payload's, with no other framing; a payload that is not the Publish variant panics |
| `PublishPackets.OverflowBeforeSlice` | src/models/packets/publish.rs:23-26 | a six-byte frame whose length field runs to a fifth byte panics on the `u32` overflow in `parse`, which runs before the slices |
| `PublishPackets.FixedHeaderRecoverable` | src/models/packets/publish.rs:30-39 | the fixed header of serialised Publish bytes parses back from their front |
| `PublishPackets.VariableHeaderOffsetIgnoresLengthField` | src/models/packets/publish.rs:25 | with a Remaining Length of 128 or more, the byte before offset 2 is a length byte with bit 7 set, so the slice starting at offset 2 is still inside the length field |
| `ConnAckPackets.FromBytes` | src/models/packets/connack.rs:20-26 | a fixed header that does not parse panics (unwrap); otherwise it succeeds exactly when the frame holds the fixed header's size plus the ConnAck header's size; the fixed header is `parse(data)`, the variable header is parsed from the slice right after the fixed header, and the payload is parsed from no bytes; the slice lies inside the frame and is `ConnAckHeader::incomming_byte_size()` bytes long |
| `Frames.ParsePacket` | src/main.rs:139-183 | empty data gives `Err("Empty data")`, and only empty data does; a 1-byte frame panics on `data[1]`; high nibble 1 gives a Connect command with the decoded packet and the sender; 2 gives a ConnAck command holding only the responder; 3 gives a Publish command with `Publish::from_bytes(data)` or that call's panic; any other nibble gives `Err("Unknown message type")` |
| `Frames.KindDependsOnHighNibble` | src/main.rs:144-150 | two frames with the same high nibble give the same kind of command, or are both rejected as unknown |
| `Frames.ConnAckIgnoresFrameContents` | src/main.rs:162-167 | every ConnAck frame of two bytes or more gives the same command |

## Left out

- `main` and `connection_handler` (`src/main.rs`) are left out. They are the
  TCP listener, the WebSocket upgrade, stream splitting, sending frames and
  logging, all of which are I/O.
- `Arc<Mutex<Broker>>` with `try_lock` is concurrency and is left out. `Broker`
  is a single-threaded object.
- The oneshot responder and the mpsc sender of `parse_packet` are opaque
  values of type parameters. The model takes one responder as a parameter,
  where the source creates a fresh channel in each branch.
- `src/models/packets/connect.rs` declares a struct and has no behaviour, so
  it is not modelled.
- The following are not part of this model: `Connect::from_bytes`,
  `PublishHeader`, `ConnAckHeader`, `PayloadFactory::parse_payload`, the
  `Payload::Publish` variant, and both `incomming_byte_size` functions. They
  are function-valued parameters or codec fields. Their possible panics are
  not modelled, and neither is their wire format.
- `MqttPacketType::from_u8` and the `BrokerCommand` declaration are not part
  of this model. `BrokerCommand` is a datatype with the three variants
  `parse_packet` builds.
- The handlers are `fn()` with empty bodies. `Handler(t)` names
  `handle_<t>`, and `Invoke` gives a call's effect on any state, which is none: a
  handler is a no-op by definition of `Invoke`, not by a separate proof.
- Release-build wrap-around of the `u32` arithmetic in `parse` is not modelled.
  The model follows the debug build, which panics on a fifth length byte.
- Subscriptions, topic matching, QoS 1/2 acknowledgment queues, keep-alive,
  eviction on a duplicate connect and `NoSubscribers` do not exist in this
  code, so they are not modelled.
- Brokers.Broker.GetIndexOfClient: the panic on an absent id is a
  precondition, because its only caller checks presence first. The
  unreachable trailing `0` is not modelled.
- `log` macros and `Debug` output are left out.
