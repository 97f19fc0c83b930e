# MQTT connection core of the pubsub broker, in Dafny

This project models `src/net.c` of the pubsub broker. That file is the libev
reactor code that accepts MQTT clients, buffers what they send, frames MQTT
packets and drains each client's outgoing queue. The model covers the three
pieces of sequential logic in it:

- **The frame decoder.** `read_packet` decides whether a client's receive
  buffer holds one complete MQTT frame. The packet type is the high nibble of
  byte 0 (section 2.2.1 of MQTT 3.1.1). The Remaining Length is a base-128
  varint: seven data bits per byte, `0x80` as the continuation bit, at most
  four bytes (section 2.2.3 of MQTT 3.1.1).
  - Modules: `RemainingLength` (the varint, its encoding, round trip and
    bounds) and `Packet` (framing, type extraction, routing, the CONNECT
    gate).
- **The handshake gate and dispatch.** A client in `S_CONNECTING` may only
  send CONNECT. Any other frame reaches no handler. Otherwise a frame is
  routed by its type.
- **The per-client buffers and the client list.** These are imperative
  classes in module `Net`:
  - `Client` holds the fixed `BUF_LEN`-byte `inbuf` (an `array`), its fill
    count `inbufBytes`, the handshake `state`, and the `outgoingMsgs`
    sequence of `Envelope` objects.
  - `Envelope` updates `bytesSent` in place.
  - `Server` holds the client registry and `numClients`.
  - The methods are `accept_cb` (`Server.Accept`), `peer_cb`
    (`Server.PeerEvent`, `Client.Readable`, `Client.Writable`) and
    `read_packet` (`Client.ReadPacket`, `Client.DecodeRemainingLength`).
  - Each method is proved against a value-level specification: `AfterRead`,
    `ReadPacketResult`, `ReadVarint` and `Outbox.WriteHead`. The properties
    are proved about those specifications as lemmas.

The syscalls are parameters. `accept` gives its descriptor, `read` gives
the bytes it read (or failure), and `write` gives its count. The bytes
`write` sends are returned. `handle_connect` (in `mqtt.c`) is represented by
a `Handler`: a function from what it is given (the client's buffered bytes
and handshake state, and the decoded Remaining Length) to a `Reply`, the
value it returns and the handshake state it leaves.

Behaviour that follows the code rather than a fuller design:

- A buffer is a complete frame only when its length EQUALS the frame
  length. A frame followed by more bytes is not complete
  (`Packet.FrameWithTrailingBytesPartial`), so residual bytes and several
  frames per read are not handled.
- `read_packet` runs only on more than two buffered bytes
  (src/net.c:127). With two or fewer, line 131 tests `ret`, which nothing
  has set: it is the uninitialised local declared at src/net.c:82, so C
  leaves the outcome undefined. The model reads it as 0. Under that reading
  a header-only frame stays in the buffer (`Net.HeaderOnlyFrameKept`).
  Because of that guard, and the assertion at src/net.c:173, a conforming
  PINGREQ (`0xC0 0x00`) never reaches `read_packet`, so the T_PINGREQ case
  at src/net.c:220-223 is reached only by a PINGREQ with a nonzero
  Remaining Length. A DISCONNECT (`0xE0 0x00`) is kept out the same way.
  Both are valid frames with a Remaining Length of 0 (sections 3.12 and
  3.14 of MQTT 3.1.1), yet neither is ever dispatched. A CONNECT is never
  that short, since section 3.1 requires a variable header and a Client
  Identifier, so it always reaches the dispatch.
- PINGREQ calls no handler, and `read_packet` returns 0 for it. Its bytes
  stay in the buffer (`Net.PingReqKept`).
- A failed `read` (-1) is only logged. A zero-byte read, which is also what
  a full buffer gets because `read` is asked for 0 bytes, tears the client
  down.
- A rejected frame before CONNECT, or a length field over four bytes, makes
  `read_packet` return 0. The client is not disconnected.

Constants: `BUF_LEN` = 4096 (the comment at src/net.c:200-201),
`T_CONNECT` = 0x10 and `T_PINGREQ` = 0xC0 (section 2.2.1 of MQTT 3.1.1).
`net.h` and `mqtt.h`, where the source sets them, are not part of this
model.

## Model

| member | source | states |
|---|---|---|
| `RemainingLength.ReadDigits` | src/net.c:184-191 | the field read from byte k on takes between 1 and 4-k bytes and is below 128 to the power of the bytes it took; running out of bytes means fewer than 4-k were available |
| `RemainingLength.ReadVarint` | src/net.c:179-191 | a decoded Remaining Length takes 1 to 4 bytes that are present in the buffer, and is at most 2^28-1 |
| `RemainingLength.EncodeVarint` | src/net.c:180-182 | the encoding is nonempty, every byte but the last has the continuation bit 0x80 set, and the last does not |
| `RemainingLength.EncodeVarintSize` | src/net.c:180-182 | a value below 128^e (e at least 1) encodes in at most e bytes, so every length up to 2^28-1 fits the four-byte limit |
| `RemainingLength.ReadDigitsEncoded` | src/net.c:184-191 | reading an encoding back, whatever follows it, gives the value and the number of bytes the encoding took |
| `RemainingLength.VarintRoundTrip` | src/net.c:180-182 | encode-then-decode returns every length from 0 to 2^28-1, and the encoding takes at most four bytes |
| `RemainingLength.ContinuationRun` | src/net.c:180-182 | four bytes that all carry 0x80 are a malformed field, and a shorter such run at the end of the buffer asks for more bytes |
| `RemainingLength.EncodingPrefixNeedsMore` | src/net.c:187-191 | every proper prefix of an encoding reads as "need more bytes", never as a value |
| `RemainingLength.LengthByte` | src/net.c:189-191 | the length byte built from data bits d and a continuation flag yields exactly d as its `& 0x7F` bits and the flag as its 0x80 bit |
| `Packet.PacketType` | src/net.c:208 | the message type is the first byte with its low nibble cleared: a multiple of 16 that differs from the byte by less than 16 |
| `Packet.ParseFrame` | src/net.c:175-195 | a complete frame's length is at most 2^28-1 and the buffer holds at least two header bytes plus that many more |
| `Packet.Route` | src/net.c:209-227 | a frame is rejected exactly when the client is in S_CONNECTING and the type is not CONNECT; it goes to handle_connect exactly when it is CONNECT, with the decoded length; PINGREQ is recognised only after the handshake |
| `Packet.ReadPacketResult` | src/net.c:207-232 | for a complete CONNECT frame, read_packet returns what handle_connect returns when given the buffer, the state and the decoded Remaining Length, and the state becomes the one it leaves; for every other buffer it returns 0 and the state is unchanged |
| `Packet.SingleByteLength` | src/net.c:175-178 | with a length byte below 128 the frame is complete exactly when the buffer holds two plus that many bytes, its length is that byte, and otherwise it is merely partial |
| `Packet.EncodedFrame` | src/net.c:177-195 | a type byte, an encoded length L and a payload form a complete frame exactly when the payload has L bytes, and that frame has type `b0 & 0xF0` and length L |
| `Packet.FramePrefixPartial` | src/net.c:197-205 | every proper prefix of a frame is partial, so read_packet keeps waiting until the last byte has arrived |
| `Packet.FrameWithTrailingBytesPartial` | src/net.c:177-194 | a frame followed by further bytes is not complete, because the length test is an equality |
| `Packet.LowNibbleIgnored` | src/net.c:208-227 | changing the low nibble of byte 0 does not change the framing; when handle_connect's reply does not depend on that nibble, it does not change read_packet's result or the state either |
| `Packet.ConnectGate` | src/net.c:209-213 | in S_CONNECTING a complete non-CONNECT frame is rejected: read_packet returns 0 and the state stays S_CONNECTING whatever handle_connect would reply |
| `Packet.ConnectDispatched` | src/net.c:215-219 | a complete CONNECT frame goes to handle_connect in every state, which is given the decoded Remaining Length, and read_packet returns its reply |
| `Outbox.WriteHead` | src/net.c:138-167 | one writable event keeps every queued envelope unfinished, sends exactly the written count (nothing when the queue is empty or the write failed), and leaves the queue unchanged, without its head, or with only the head's count advanced |
| `Outbox.WriteHeadInOrder` | src/net.c:144-156 | the bytes a write sends followed by the bytes still queued are exactly the bytes queued before |
| `Outbox.WriteHeadRemovesHead` | src/net.c:156-165 | the head leaves the queue exactly when bytes_sent reaches bytes_total; until then only its bytes_sent advances, by the written count, and no other envelope changes |
| `Outbox.Drain` | src/net.c:133-168 | a run of writable events leaves every queued envelope with bytes left to send |
| `Outbox.DrainInOrder` | src/net.c:133-168 | whatever would-block results interrupt a run of writable events, the bytes sent are the queued bytes in enqueue order, each envelope resumed from where it stopped |
| `Net.AfterRead` | src/net.c:124-132 | after a nonempty read the buffer is either the old bytes followed by the new ones or empty. It is emptied exactly when read_packet ran on a complete CONNECT frame and handle_connect returned nonzero. The state changes only through handle_connect, and for a complete CONNECT it is whatever handle_connect left |
| `Net.HeaderOnlyFrameKept` | src/net.c:127-132 | when a read leaves exactly two bytes buffered, read_packet is not called; with the unset `ret` read as 0, the bytes stay buffered and the state is unchanged whatever handle_connect would reply |
| `Net.PingReqKept` | src/net.c:220-223 | a complete PINGREQ leaves its bytes in the buffer and the state unchanged |
| `Net.FeedFrame` | src/net.c:95-132 | a frame that arrives over any number of nonempty reads leaves the client as the same frame arriving in one read |
| `Net.Client.constructor` | src/net.c:64-72 | a new client has the accepted descriptor, S_CONNECTING, a fresh BUF_LEN-byte buffer holding nothing, and no queued messages |
| `Net.Client.Append` | src/net.c:95-96 | the bytes read are appended to the buffered bytes, and the count stays within BUF_LEN because read is asked for at most BUF_LEN - inbuf_bytes |
| `Net.Client.DecodeRemainingLength` | src/net.c:184-191 | the do-while loop over inbuf[1..inbuf_bytes] returns exactly the Remaining Length that the varint definition gives: value and size, malformed, or need more |
| `Net.Client.ReadPacket` | src/net.c:172-233 | read_packet's return value and the client's new state are those of the frame decision on the buffered bytes, so a complete CONNECT reaches handle_connect with its decoded Remaining Length; the buffer is not touched |
| `Net.Client.Readable` | src/net.c:124-132 | the buffer and state after a nonempty read are those AfterRead gives; the count stays within BUF_LEN |
| `Net.Client.Writable` | src/net.c:133-168 | the queue after a writable event and the bytes sent are those WriteHead gives for the old queue, and the envelopes stay distinct and unfinished |
| `Net.Server.Accept` | src/net.c:42-74 | an event error or a failed accept changes nothing; otherwise a fresh client in S_CONNECTING with an empty buffer and queue is registered under its descriptor and num_clients grows by one |
| `Net.Server.PeerEvent` | src/net.c:80-170 | a zero-byte read removes the client and decrements num_clients; a failed read changes nothing; data goes through AfterRead; a write happens only when no read was signalled, and then follows WriteHead; every other registered client keeps its buffer, state and queue, and the registry invariant is kept |
| `Net.Server.Disconnect` | src/net.c:96-118 | the client leaves the list under its descriptor, num_clients drops by one, and the remaining clients are unchanged and still registered |
| `Net.Server.Receive` | src/net.c:124-132 | a nonempty read changes the client's buffer and state as AfterRead says, leaves its queue and every other client unchanged, and keeps the registry invariant |
| `Net.Server.Send` | src/net.c:133-168 | a writable event changes the client's queue as WriteHead says, leaves its buffer and state and every other client unchanged, and keeps the registry invariant |
| `Net.RegisterFresh` | src/net.c:64-74 | adding a new client, with a footprint disjoint from the registered ones, under an unused descriptor keeps every client valid with pairwise-disjoint footprints and num_clients equal to the list's size |
| `Net.Unregister` | src/net.c:98-108 | removing a client from the list and decrementing num_clients keeps the registry invariant |

## Left out

- `accept`, `getnameinfo`, `close`, `read` and `write` are OS I/O. Their results are parameters. The bytes `write` sends are the result of `Writable`.
- libev watcher setup, start and stop (src/net.c:65, 76-77, 112-113) belong to a foreign event-loop library. `EV_ERROR` is a boolean parameter, and `EV_READ`/`EV_WRITE` are the two fields of `Events`.
- `logmsg` calls are diagnostics only, and so are the host and service names from `getnameinfo`.
- `handle_connect` and the rest of `mqtt.c` are not part of this model. It is a `Handler` parameter: what it returns and the state it leaves, as a function of the buffered bytes, the state and the Remaining Length. The client identifier and will fields it fills in are not modelled.
- `malloc`, `smalloc` and `free` are memory management. That includes the frees of possibly unset fields at src/net.c:107-109. Teardown removes the client from the registry and drops it.
- Putting envelopes on the queue happens in the protocol handlers, outside `net.c`. So the model has no way to create an envelope, and queues are only ever drained.
- Net.Server.PeerEvent: a readable event is stated to leave the outgoing queue unchanged. That holds because `handle_connect` is represented by a `Handler`, which queues nothing. The real handler queues a CONNACK, and the model does not capture that.
- Net.FeedFrame: the lemma is about frames of any length up to 2^28-1. A `Client` can never buffer more than `BUF_LEN` bytes, so for the class it applies only to frames that fit in 4096 bytes. A longer frame fills the buffer, and the next read gets 0 bytes and tears the client down.
- Net.HeaderOnlyFrameKept: src/net.c:131 tests `ret` uninitialised whenever two or fewer bytes are buffered, so C gives no defined outcome. The lemma, like `AfterRead`, reads that `ret` as 0.
- Packet.LowNibbleIgnored: the flags change nothing only for a handle_connect whose reply ignores them. The lemma states it under that condition, because `handle_connect` sees the whole buffer and is not part of this model.
- The client lookup at src/net.c:86-89 compares `client->fd` with itself, so it always stops at the list head. The model is handed the client the event belongs to. The registry is a map from descriptor to client, so the head-insertion order of `LIST_INSERT_HEAD` is not kept.
- `errno` and platform `char` signedness: bytes are unsigned octets.
- Net.Server.constructor: the global `clients` list and `num_clients` are initialised outside `net.c`. The constructor only gives an empty registry.
- Packet.CompleteAsWritten: the C `int`s `multiplier` and `msg_length` can overflow after five iterations of the loop as written. The model uses unbounded integers there.
- Net.WriteAsWritten: `bytes_sent` is taken as a signed integer. Its type is in `data.h`, which is not part of this model.

## Findings

| source | as written | input that shows it | evidently intended | confidence | as-written member | corrected member |
|---|---|---|---|---|---|---|
| src/net.c:187-193 | line 189 overwrites `msg_length` instead of adding to it; line 191 loops while `thisbyte & 0x7F` is nonzero instead of while 0x80 is set, with no four-byte limit; line 193 always subtracts a two-byte header | the CONNECT frame `0x10 0x80 0x01` followed by 128 payload bytes: its length is read as 0, so the frame is never complete | accumulate seven bits per byte with 0x80 as continuation, at most four bytes, and count a header of 1 plus the field's size (the comment at src/net.c:180-182) | high; not executed | `Packet.CompleteAsWritten`, `Packet.AsWrittenMissesTwoByteLength` | `Packet.ParseFrame`, `Net.Client.DecodeRemainingLength` |
| src/net.c:147-156 | a negative `write` result is compared with the positive error numbers EAGAIN, EWOULDBLOCK and EINTR, never matches, and is added to `bytes_sent` | a write that fails (-1) on an envelope with nothing sent yet drives `bytes_sent` to -1 | a would-block or interrupted write leaves the envelope as it is. For any other write error, the commented-out code at src/net.c:150-153 intends to disconnect the client. The corrected model leaves the envelope unchanged for every negative count and does not model that disconnect | high; not executed | `Net.WriteAsWritten`, `Net.AsWrittenFailedWriteUnderflows` | `Outbox.WriteHead`, `Net.Client.Writable` |
| src/net.c:48 | the descriptor `accept` returned is compared with the error numbers EAGAIN, EINTR and EWOULDBLOCK instead of errno, and accept_cb returns on a match | on Linux, a new connection that gets descriptor 4 (EINTR) or 11 (EAGAIN, EWOULDBLOCK) is never registered, and its descriptor stays open | test errno after a -1 return, so that every non-negative descriptor is a connection to register | high; not executed | `Net.AcceptRegistersAsWritten`, `Net.AsWrittenDropsValidDescriptors` | `Net.Server.Accept` |
