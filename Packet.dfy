/**
 * The decision `read_packet` (src/net.c) makes about the bytes a client has
 * buffered: whether they hold one complete MQTT frame, which type it is, and
 * whether the client's handshake state lets it reach a handler.
 */
module Packet {
  import opened RemainingLength

  /** Packet types, in the high nibble of the first byte (section 2.2.1 of
      MQTT 3.1.1). mqtt.h, which defines them for the broker, is not part of
      this model. */
  const T_CONNECT: byte := 0x10
  const T_PINGREQ: byte := 0xC0

  /** The handshake state of a client. data.h, which defines the states, is
      not part of this model: `Connecting` is S_CONNECTING, the only state
      net.c tests, and `Connected` stands for every other state. */
  datatype ClientState = Connecting | Connected

  /** The message type of a frame: its first byte with the flag nibble
      cleared (`b0 & 0xF0`). */
  function PacketType(b0: byte): (t: byte)
    ensures t % 16 == 0 && 0 <= b0 - t < 16
  {
    b0 - b0 % 16
  }

  /** What the buffered bytes amount to. */
  datatype Framing =
    | Partial                              // not (exactly) one frame yet
    | BadLength                            // Remaining Length over four bytes
    | Complete(msgType: byte, length: nat)  // one whole frame, nothing more

  /** The buffer holds exactly one frame when it is one type byte, a
      Remaining Length field and exactly that many payload bytes. As in the
      source, a buffer that runs past the end of the frame is not complete. */
  function ParseFrame(buf: seq<byte>): (f: Framing)
    ensures f.Complete? ==> f.length <= MaxLength && |buf| >= 2 + f.length
  {
    if |buf| < 2 then Partial
    else
      match ReadVarint(buf[1..])
      case NeedMore => Partial
      case Malformed => BadLength
      case Value(len, n) =>
        if |buf| == 1 + n + len then Complete(PacketType(buf[0]), len) else Partial
  }

  /** Where read_packet sends a complete frame. */
  datatype Dispatch =
    | Rejected              // a frame other than CONNECT before the handshake
    | Connect(length: nat)  // handed to handle_connect
    | PingReq               // PINGREQ: its handler is not called (net.c:222)
    | Unknown(msgType: byte) // any other type: logged and dropped

  function Route(state: ClientState, msgType: byte, length: nat): (d: Dispatch)
    ensures d.Rejected? <==> state == Connecting && msgType != T_CONNECT
    ensures d.Connect? <==> msgType == T_CONNECT
    ensures d.Connect? ==> d.length == length
    ensures d.PingReq? <==> state != Connecting && msgType == T_PINGREQ
  {
    if state == Connecting && msgType != T_CONNECT then Rejected
    else if msgType == T_CONNECT then Connect(length)
    else if msgType == T_PINGREQ then PingReq
    else Unknown(msgType)
  }

  /** A value returned by read_packet or handle_connect, paired with the
      client's handshake state afterwards. */
  datatype Reply = Reply(ret: int, state: ClientState)

  /** handle_connect(client, msg_length) (mqtt.c, not part of this model) as
      a function of what it is given: the client's buffered bytes and
      handshake state, and the decoded Remaining Length. Its value is what
      it returns and the state it leaves. */
  type Handler = (seq<byte>, ClientState, nat) -> Reply

  /** What read_packet returns, and the client's state after it, for the
      buffered bytes `buf`, the state before, and handle_connect. */
  function ReadPacketResult(buf: seq<byte>, state: ClientState, connect: Handler): (r: Reply)
    ensures ParseFrame(buf).Complete? && ParseFrame(buf).msgType == T_CONNECT ==>
      r == connect(buf, state, ParseFrame(buf).length)
    ensures !(ParseFrame(buf).Complete? && ParseFrame(buf).msgType == T_CONNECT) ==>
      r == Reply(0, state)
  {
    match ParseFrame(buf)
    case Complete(t, len) =>
      (match Route(state, t, len)
       case Connect(n) => connect(buf, state, n)
       case _ => Reply(0, state))
    case _ => Reply(0, state)
  }

  /** With a one-byte Remaining Length (below 128) the frame is complete
      exactly when the buffer holds two header bytes and that many more;
      otherwise the bytes are simply not a frame yet. */
  lemma SingleByteLength(buf: seq<byte>)
    requires |buf| >= 2 && buf[1] < 128
    ensures ParseFrame(buf).Complete? <==> |buf| - 2 == buf[1] as int
    ensures ParseFrame(buf).Complete? ==> ParseFrame(buf).length == buf[1] as nat
    ensures !ParseFrame(buf).Complete? ==> ParseFrame(buf) == Partial
  {
    var s := buf[1..];
    assert s[0] == buf[1];
    assert !Continues(buf[1]) && Low7(buf[1]) == buf[1] as nat;
  }

  /** A type byte, the encoding of a length L and a payload form a complete
      frame of length L exactly when the payload has L bytes. */
  lemma EncodedFrame(b0: byte, len: nat, payload: seq<byte>)
    requires len <= MaxLength
    ensures ParseFrame([b0] + EncodeVarint(len) + payload).Complete? <==> |payload| == len
    ensures |payload| == len ==>
      ParseFrame([b0] + EncodeVarint(len) + payload) == Complete(PacketType(b0), len)
  {
    var buf := [b0] + EncodeVarint(len) + payload;
    assert buf[1..] == EncodeVarint(len) + payload;
    VarintRoundTrip(len, payload);
  }

  /** Bytes of a frame that arrive in pieces are never taken for a frame
      before the last piece: every proper prefix of a frame is Partial. */
  lemma FramePrefixPartial(b0: byte, payload: seq<byte>, m: nat)
    requires |payload| <= MaxLength
    requires m < 1 + |EncodeVarint(|payload|)| + |payload|
    ensures ParseFrame(([b0] + EncodeVarint(|payload|) + payload)[..m]) == Partial
  {
    var len := |payload|;
    var e := EncodeVarint(len);
    assert [b0] + e + payload == [b0] + (e + payload);
    var p := ([b0] + (e + payload))[..m];
    if m >= 2 {
      TakeTail(b0, e + payload, m);
      TakeAppend(e, payload, m - 1);
      if m - 1 < |e| {
        Pow128Four();
        EncodingPrefixNeedsMore(len, m - 1, 0);
        NeedMorePartial(p);
      } else {
        VarintRoundTrip(len, payload[..m - 1 - |e|]);
        LengthMismatchPartial(p, len, |e|);
      }
    }
  }

  lemma TakeTail<T>(x: T, t: seq<T>, m: nat)
    requires 1 <= m <= 1 + |t|
    ensures ([x] + t)[..m][1..] == t[..m - 1]
  {
  }

  lemma TakeAppend<T>(a: seq<T>, b: seq<T>, j: nat)
    requires j <= |a| + |b|
    ensures j <= |a| ==> (a + b)[..j] == a[..j]
    ensures j >= |a| ==> (a + b)[..j] == a + b[..j - |a|]
  {
  }

  /** As written, read_packet compares the buffered count with the frame
      length for equality: a frame followed by further bytes (the start of a
      second frame read in the same call) is not complete either. */
  lemma FrameWithTrailingBytesPartial(b0: byte, payload: seq<byte>, extra: seq<byte>)
    requires |payload| <= MaxLength && extra != []
    ensures ParseFrame([b0] + EncodeVarint(|payload|) + payload + extra) == Partial
  {
    var e := EncodeVarint(|payload|);
    var rest := payload + extra;
    var buf := [b0] + (e + rest);
    assert buf[1..] == e + rest;
    VarintRoundTrip(|payload|, rest);
    LengthMismatchPartial(buf, |payload|, |e|);
    assert buf == [b0] + e + payload + extra;
  }

  lemma NeedMorePartial(buf: seq<byte>)
    requires |buf| >= 2 && ReadVarint(buf[1..]) == NeedMore
    ensures ParseFrame(buf) == Partial
  {
  }

  lemma LengthMismatchPartial(buf: seq<byte>, len: nat, n: nat)
    requires |buf| >= 2 && ReadVarint(buf[1..]) == Value(len, n) && |buf| != 1 + n + len
    ensures ParseFrame(buf) == Partial
  {
  }

  /** The flag nibble of the first byte never changes the framing or the
      route, so it changes read_packet's result only through what
      handle_connect makes of the bytes it is given. */
  lemma LowNibbleIgnored(buf: seq<byte>, b0: byte, state: ClientState, connect: Handler)
    requires |buf| >= 1 && b0 / 16 == buf[0] / 16
    ensures ParseFrame([b0] + buf[1..]) == ParseFrame(buf)
    ensures (forall s, n :: connect([b0] + buf[1..], s, n) == connect(buf, s, n)) ==>
      ReadPacketResult([b0] + buf[1..], state, connect) == ReadPacketResult(buf, state, connect)
  {
    assert ([b0] + buf[1..])[1..] == buf[1..];
  }

  /** Before the handshake, a complete frame of any type other than CONNECT
      reaches no handler: read_packet returns 0 and the state stays
      S_CONNECTING, whatever handle_connect would have done. */
  lemma ConnectGate(buf: seq<byte>, connect: Handler)
    requires ParseFrame(buf).Complete? && ParseFrame(buf).msgType != T_CONNECT
    ensures Route(Connecting, ParseFrame(buf).msgType, ParseFrame(buf).length) == Rejected
    ensures ReadPacketResult(buf, Connecting, connect) == Reply(0, Connecting)
  {
  }

  /** A complete CONNECT frame goes to handle_connect in every state, with
      the decoded Remaining Length, and read_packet passes on its reply. */
  lemma ConnectDispatched(buf: seq<byte>, state: ClientState, connect: Handler)
    requires ParseFrame(buf).Complete? && ParseFrame(buf).msgType == T_CONNECT
    ensures Route(state, T_CONNECT, ParseFrame(buf).length) == Connect(ParseFrame(buf).length)
    ensures ReadPacketResult(buf, state, connect) == connect(buf, state, ParseFrame(buf).length)
  {
  }

  // Finding: the Remaining Length loop as written (src/net.c:175-195).
  //  - line 189 overwrites `msg_length` instead of adding to it;
  //  - line 191 continues while the data bits are nonzero, not while the
  //    continuation bit 0x80 is set, and does not stop after four bytes;
  //  - line 193 takes the header to be two bytes even when the length field
  //    is longer.
  // The C ints `multiplier` and `msg_length` can also overflow after five
  // iterations; the model below uses unbounded integers.

  /** read_packet's completeness test as written: the source's result for a
      buffer of more than two bytes. */
  function CompleteAsWritten(buf: seq<byte>): (complete: bool)
    requires |buf| > 2
  {
    if buf[1] < 128 then |buf| - 2 == buf[1] as int
    else |buf| - 2 == LengthLoopAsWritten(buf, 1, 1)
  }

  /** The do-while loop at src/net.c:187-191 as written, from `msg_index`
      with the current `multiplier`; the result is the final `msg_length`. */
  function LengthLoopAsWritten(buf: seq<byte>, msgIndex: nat, multiplier: int): (msgLength: int)
    requires 1 <= msgIndex < |buf|
    decreases |buf| - msgIndex
  {
    var thisbyte := buf[msgIndex];
    var msgLength := (thisbyte % 128) * multiplier;
    if msgIndex + 1 < |buf| && thisbyte % 128 != 0 then
      LengthLoopAsWritten(buf, msgIndex + 1, multiplier * 128)
    else
      msgLength
  }

  /** A CONNECT frame with a 128-byte payload, whose length field is the two
      bytes 0x80 0x01: it is complete, but the loop as written reads its
      length as 0 and read_packet keeps waiting for it forever. */
  lemma AsWrittenMissesTwoByteLength()
    ensures var buf := [0x10 as byte, 0x80, 0x01] + seq(128, _ => 0 as byte);
      ParseFrame(buf) == Complete(T_CONNECT, 128) && !CompleteAsWritten(buf)
  {
    var payload := seq(128, _ => 0 as byte);
    assert EncodeVarint(1) == [0x01];
    assert EncodeVarint(128) == [0x80, 0x01];
    EncodedFrame(0x10, 128, payload);
    assert [0x10 as byte, 0x80, 0x01] + payload == [0x10 as byte] + EncodeVarint(128) + payload;
  }
}
