/**
 * The per-client state of src/net.c and the callbacks that change it:
 * accept_cb creates a client and registers it, peer_cb appends what `read`
 * returned to the client's receive buffer and runs read_packet on it, or
 * gives the head of the client's outgoing queue one `write`, or tears the
 * client down when the peer closed the connection.
 *
 * The syscalls are not modelled: what `accept`, `read` and `write` returned
 * is given to each callback as a parameter, and the bytes `write` may send
 * are returned by it.
 */
module Net {
  import opened RemainingLength
  import opened Packet
  import opened Outbox

  /** Capacity of a client's receive buffer: the 4096 bytes the comment at
      src/net.c:200-201 gives (net.h, where BUF_LEN is set, is not part of
      this model). */
  const BUF_LEN: nat := 4096

  /** The receive buffer and handshake state after one readable event that
      appended `data`: read_packet runs only on more than two buffered bytes
      (src/net.c:127), and the buffer is emptied only when it returns
      nonzero (src/net.c:131-132). */
  function AfterRead(buf: seq<byte>, state: ClientState, data: seq<byte>, connect: Handler)
    : (r: (seq<byte>, ClientState))
    ensures r.0 == [] || r.0 == buf + data
    ensures (r.0 == [] && buf + data != []) <==>
      (|buf + data| > 2 && ParseFrame(buf + data).Complete? &&
       ParseFrame(buf + data).msgType == T_CONNECT &&
       connect(buf + data, state, ParseFrame(buf + data).length).ret != 0)
    ensures r.1 != state ==>
      |buf + data| > 2 && ParseFrame(buf + data).Complete? &&
      ParseFrame(buf + data).msgType == T_CONNECT
    ensures (|buf + data| > 2 && ParseFrame(buf + data).Complete? &&
             ParseFrame(buf + data).msgType == T_CONNECT) ==>
      r.1 == connect(buf + data, state, ParseFrame(buf + data).length).state
  {
    var bytes := buf + data;
    // src/net.c:131 reads `ret` uninitialised when read_packet was not
    // called; the model takes it to be 0 there.
    var reply := if |bytes| > 2 then ReadPacketResult(bytes, state, connect) else Reply(0, state);
    if reply.ret != 0 then ([], reply.state) else (bytes, reply.state)
  }

  /** A header-only frame (PINGREQ is `0xC0 0x00`), or any two buffered
      bytes, is never handed to read_packet, because of the guard at
      src/net.c:127. What line 131 then tests is the uninitialised `ret`;
      with the model's reading of it as 0 the two bytes stay buffered, and
      whatever handle_connect would reply plays no part. */
  lemma HeaderOnlyFrameKept(buf: seq<byte>, data: seq<byte>, state: ClientState, connect: Handler)
    requires |buf + data| == 2
    ensures AfterRead(buf, state, data, connect) == (buf + data, state)
  {
  }

  /** A PINGREQ never empties the buffer: read_packet returns 0 for it
      (src/net.c:220-223 calls no handler), so its bytes stay and every
      later frame lands behind them. */
  lemma PingReqKept(buf: seq<byte>, data: seq<byte>, state: ClientState, connect: Handler)
    requires ParseFrame(buf + data).Complete? && ParseFrame(buf + data).msgType == T_PINGREQ
    ensures AfterRead(buf, state, data, connect) == (buf + data, state)
  {
  }

  /** A run of readable events, each bringing one chunk. */
  function Feed(buf: seq<byte>, state: ClientState, chunks: seq<seq<byte>>, connect: Handler)
    : (r: (seq<byte>, ClientState))
    decreases |chunks|
  {
    if chunks == [] then (buf, state)
    else
      var step := AfterRead(buf, state, chunks[0], connect);
      Feed(step.0, step.1, chunks[1..], connect)
  }

  function Concat(chunks: seq<seq<byte>>): (s: seq<byte>)
    decreases |chunks|
  {
    if chunks == [] then [] else chunks[0] + Concat(chunks[1..])
  }

  /** Split invariance: a frame that arrives over any number of reads, each
      bringing some of its bytes, leaves the client exactly as the same
      frame arriving in one read. Before the last piece the bytes are kept
      and nothing is dispatched. */
  lemma {:induction false} FeedFrame(pre: seq<byte>, chunks: seq<seq<byte>>, state: ClientState,
                                     connect: Handler, b0: byte, payload: seq<byte>)
    requires |payload| <= MaxLength
    requires pre + Concat(chunks) == [b0] + EncodeVarint(|payload|) + payload
    requires |pre| < |[b0] + EncodeVarint(|payload|) + payload|
    requires chunks != [] && forall i :: 0 <= i < |chunks| ==> chunks[i] != []
    ensures Feed(pre, state, chunks, connect)
         == AfterRead([], state, [b0] + EncodeVarint(|payload|) + payload, connect)
    decreases |chunks|
  {
    var frame := [b0] + EncodeVarint(|payload|) + payload;
    var bytes := pre + chunks[0];
    if |chunks| == 1 {
      assert Concat(chunks) == chunks[0];
      assert [] + frame == frame;
    } else {
      assert frame == bytes + Concat(chunks[1..]);
      assert chunks[1] != [];
      assert Concat(chunks[1..]) == chunks[1] + Concat(chunks[2..]);
      assert frame[..|bytes|] == bytes;
      FramePrefixPartial(b0, payload, |bytes|);
      assert AfterRead(pre, state, chunks[0], connect) == (bytes, state);
      FeedFrame(bytes, chunks[1..], state, connect, b0, payload);
    }
  }

  /** One queued message (`Envelope`). Its message is fixed when it is
      queued, which happens outside net.c; only `bytes_sent` changes, in
      peer_cb. */
  class Envelope {
    const msg: seq<byte>
    var bytesSent: nat
  }

  /** The value of a queue of envelopes. */
  ghost function Snapshot(q: seq<Envelope>): (p: seq<Pending>)
    reads q
    ensures |p| == |q|
    ensures forall i :: 0 <= i < |q| ==> p[i] == Pending(q[i].msg, q[i].bytesSent)
  {
    if q == [] then [] else [Pending(q[0].msg, q[0].bytesSent)] + Snapshot(q[1..])
  }

  /** One connected client (`struct Client`). */
  class Client {
    const fd: int
    var state: ClientState
    const inbuf: array<byte>
    var inbufBytes: nat
    var outgoingMsgs: seq<Envelope>
    /** The objects this client owns: itself, its receive buffer (malloced
        for it alone at src/net.c:68) and the envelopes on its queue. */
    ghost var Repr: set<object>

    /** The client owns itself, its buffer and its queued envelopes. */
    ghost predicate Owned()
      reads this
    {
      this in Repr && inbuf in Repr &&
      forall i :: 0 <= i < |outgoingMsgs| ==> outgoingMsgs[i] in Repr
    }

    /** The client owns its objects; the buffer has BUF_LEN bytes and holds
        at most that many; queued envelopes are distinct objects, each with
        bytes left to send. */
    ghost predicate Valid()
      reads this, outgoingMsgs
    {
      Owned() &&
      inbuf.Length == BUF_LEN && inbufBytes <= BUF_LEN &&
      (forall i, j :: 0 <= i < j < |outgoingMsgs| ==> outgoingMsgs[i] != outgoingMsgs[j]) &&
      (forall i :: 0 <= i < |outgoingMsgs| ==> outgoingMsgs[i].bytesSent < |outgoingMsgs[i].msg|)
    }

    /** The bytes read but not yet consumed. */
    ghost function Buffered(): (s: seq<byte>)
      reads this, inbuf
      requires inbufBytes <= inbuf.Length
    {
      inbuf[..inbufBytes]
    }

    ghost function Outgoing(): (q: seq<Pending>)
      reads this, outgoingMsgs
    {
      Snapshot(outgoingMsgs)
    }

    /** A newly accepted client (src/net.c:64-72): S_CONNECTING, an empty
        buffer of BUF_LEN bytes, no queued messages. */
    constructor (peerSd: int)
      ensures Valid() && fresh(inbuf) && Repr == {this, inbuf}
      ensures fd == peerSd && state == Connecting
      ensures inbufBytes == 0 && Buffered() == [] && outgoingMsgs == []
    {
      fd := peerSd;
      state := Connecting;
      inbuf := new byte[BUF_LEN];
      inbufBytes := 0;
      outgoingMsgs := [];
      new;
      Repr := {this, inbuf};
    }

    /** What `read` put at `inbuf + inbuf_bytes`, counted in by
        src/net.c:126. `read` is asked for at most BUF_LEN - inbuf_bytes
        bytes (src/net.c:95-96), so the buffer never overflows. */
    method Append(data: seq<byte>)
      requires Valid() && |data| <= BUF_LEN - inbufBytes
      modifies this`inbufBytes, inbuf
      ensures Valid()
      ensures Buffered() == old(Buffered()) + data
    {
      forall i | 0 <= i < |data| {
        inbuf[inbufBytes + i] := data[i];
      }
      inbufBytes := inbufBytes + |data|;
    }

    /** The Remaining Length at inbuf[1..inbuf_bytes], read as the loop at
        src/net.c:184-191 is meant to: per the comment at src/net.c:180-182,
        seven data bits per byte, continuing while 0x80 is set, at most four
        bytes. (As written, the loop overwrites the length at line 189 and
        tests the data bits at line 191; see `Packet.CompleteAsWritten`.) */
    method DecodeRemainingLength() returns (r: Varint)
      requires 2 <= inbufBytes <= inbuf.Length
      ensures r == ReadVarint(inbuf[1..inbufBytes])
    {
      ghost var s := inbuf[1..inbufBytes];
      ghost var whole := ReadVarint(s);
      var msgIndex := 1;
      var multiplier: nat := 1;
      var msgLength: nat := 0;
      while true
        invariant 1 <= msgIndex < inbufBytes && msgIndex <= 4
        invariant whole == Shifted(msgLength, multiplier, msgIndex - 1,
                                           ReadDigits(s[msgIndex - 1..], msgIndex - 1))
        decreases inbufBytes - msgIndex
      {
        var thisbyte := inbuf[msgIndex];
        assert thisbyte == s[msgIndex - 1];
        DigitStep(s, msgIndex - 1, msgLength, multiplier);
        msgIndex := msgIndex + 1;
        msgLength := Accumulate(msgLength, thisbyte, multiplier);
        multiplier := multiplier * 128;
        if !Continues(thisbyte) {
          return Value(msgLength, msgIndex - 1);
        }
        if msgIndex == 5 {
          return Malformed;
        }
        if msgIndex == inbufBytes {
          return NeedMore;
        }
      }
    }

    /** read_packet (src/net.c:172-233) on the buffered bytes: whether they
        are one complete frame, its type, the CONNECT gate while
        S_CONNECTING, and the dispatch. Only a CONNECT frame reaches a
        handler; whatever handle_connect returns is returned, and the state
        it leaves is the client's new state. The buffer is not touched. */
    method ReadPacket(connect: Handler) returns (ret: int)
      requires Valid() && inbufBytes > 2
      modifies this`state
      ensures Valid()
      ensures Reply(ret, state) == ReadPacketResult(Buffered(), old(state), connect)
    {
      var msgLength: nat := inbuf[1];
      var complete := false;
      ghost var buf := Buffered();
      assert buf[1..] == inbuf[1..inbufBytes];
      if inbuf[1] < 128 {
        SingleByteLength(buf);
        complete := inbufBytes - 2 == inbuf[1];
      } else {
        var v := DecodeRemainingLength();
        if v.Value? {
          msgLength := v.value;
          complete := inbufBytes == 1 + v.size + v.value;
        }
      }
      if !complete {
        return 0;
      }
      assert ParseFrame(buf) == Complete(PacketType(inbuf[0]), msgLength);
      ret := 0;
      var msgType := PacketType(inbuf[0]);
      if state == Connecting && msgType != T_CONNECT {
        return 0;
      }
      if msgType == T_CONNECT {
        var reply := connect(inbuf[..inbufBytes], state, msgLength);
        ret, state := reply.ret, reply.state;
      } else if msgType == T_PINGREQ {
        // its handler is commented out at src/net.c:222
      }
    }

    /** The readable branch of peer_cb after a `read` that returned the
        nonempty `data` (src/net.c:124-132). */
    method Readable(data: seq<byte>, connect: Handler)
      requires Valid() && |data| <= BUF_LEN - inbufBytes
      modifies this`inbufBytes, this`state, inbuf
      ensures Valid()
      ensures (Buffered(), state) == AfterRead(old(Buffered()), old(state), data, connect)
      ensures outgoingMsgs == old(outgoingMsgs) && Outgoing() == old(Outgoing())
    {
      ghost var bytes := Buffered() + data;
      ghost var before := state;
      Append(data);
      assert Buffered() == bytes;
      var ret := 0;
      if inbufBytes > 2 {
        ret := ReadPacket(connect);
      }
      assert Reply(ret, state) == if |bytes| > 2 then ReadPacketResult(bytes, before, connect)
                                  else Reply(0, before);
      if ret != 0 {
        inbufBytes := 0;
        assert Buffered() == [];
      }
    }

    /** The writable branch of peer_cb (src/net.c:133-168): the head
        envelope, if any, gets one `write`, which took `written` bytes.
        `write` is asked for the rest of the head, so it never takes more.
        Returns the bytes that write sent. A negative count leaves the queue
        as it is; as written, src/net.c:148 compares the count with errno
        values and then adds it to `bytes_sent` (see `WriteAsWritten`). */
    method Writable(written: int) returns (sent: seq<byte>)
      requires Valid() && written <= Room(Outgoing())
      modifies this`outgoingMsgs, if outgoingMsgs == [] then {} else {outgoingMsgs[0]}
      ensures Valid()
      ensures (Outgoing(), sent) == WriteHead(old(Outgoing()), written)
      ensures outgoingMsgs == old(outgoingMsgs) || outgoingMsgs == old(outgoingMsgs)[1..]
      ensures Buffered() == old(Buffered()) && state == old(state)
    {
      if outgoingMsgs == [] || written < 0 {
        return [];
      }
      var envelope := outgoingMsgs[0];
      ghost var q := Outgoing();
      sent := envelope.msg[envelope.bytesSent..envelope.bytesSent + written];
      envelope.bytesSent := envelope.bytesSent + written;
      if envelope.bytesSent == |envelope.msg| {
        outgoingMsgs := outgoingMsgs[1..];
        assert Outgoing() == q[1..];
      } else {
        assert Outgoing() == [Pending(envelope.msg, envelope.bytesSent)] + q[1..];
      }
    }
  }

  /** The value `Shifted(length, multiplier, k, r)` is what reading the whole
      field gives when `k` bytes were consumed into `length`, the next byte
      counts `multiplier` times, and `r` is what the rest reads as. */
  function Shifted(length: nat, multiplier: nat, k: nat, r: Varint): (whole: Varint) {
    match r
    case Value(v, n) => Value(length + multiplier * v, k + n)
    case other => other
  }

  /** How reading byte `k` of the field `s` moves the loop's state on. */
  lemma DigitStep(s: seq<byte>, k: nat, length: nat, multiplier: nat)
    requires k < |s| && k < 4
    ensures !Continues(s[k]) ==>
      Shifted(length, multiplier, k, ReadDigits(s[k..], k))
        == Value(Accumulate(length, s[k], multiplier), k + 1)
    ensures Continues(s[k]) && k == 3 ==> ReadDigits(s[k..], k) == Malformed
    ensures Continues(s[k]) && k < 3 && k + 1 == |s| ==> ReadDigits(s[k..], k) == NeedMore
    ensures Continues(s[k]) && k < 3 ==>
      Shifted(length, multiplier, k, ReadDigits(s[k..], k))
        == Shifted(Accumulate(length, s[k], multiplier), multiplier * 128, k + 1,
                   ReadDigits(s[k + 1..], k + 1))
  {
    var t := s[k..];
    assert t[0] == s[k];
    if !Continues(s[k]) {
      assert ReadDigits(t, k) == Value(Low7(s[k]), 1);
    } else if k < 3 {
      assert t[1..] == s[k + 1..];
      var r := ReadDigits(s[k + 1..], k + 1);
      if r.Value? {
        assert ReadDigits(t, k) == Value(Low7(s[k]) + 128 * r.value, r.size + 1);
        Distribute(length, multiplier, Low7(s[k]), r.value);
      } else {
        assert ReadDigits(t, k) == r;
      }
    }
  }

  /** The length after adding the data bits of `b` with weight
      `multiplier` (`msg_length += (thisbyte & 0x7F) * multiplier`). */
  function Accumulate(length: nat, b: byte, multiplier: nat): (n: nat) {
    length + Low7(b) * multiplier
  }

  lemma Distribute(length: nat, multiplier: nat, d: nat, v: nat)
    ensures length + multiplier * (d + 128 * v) == length + d * multiplier + (multiplier * 128) * v
  {
  }

  /** The Linux values of the error numbers src/net.c:48 and
      src/net.c:147 compare with (errno.h is not part of this model). */
  const EINTR: int := 4
  const EAGAIN: int := 11
  const EWOULDBLOCK: int := 11

  /** The new `bytes_sent` of the writable step as written
      (src/net.c:146-156): a negative count that equals EAGAIN,
      EWOULDBLOCK or EINTR leaves the envelope as it is, and every other
      count is added to `bytes_sent`. The error numbers are positive, so the
      first test never holds. */
  function WriteAsWritten(bytesSent: nat, ret: int): (n: int) {
    if ret < 0 && (ret == EAGAIN || ret == EWOULDBLOCK || ret == EINTR) then bytesSent
    else bytesSent + ret
  }

  /** A failed write (-1) on an envelope not yet started drives bytes_sent
      as written to -1, while the model leaves the queue unchanged. */
  lemma AsWrittenFailedWriteUnderflows(msg: seq<byte>)
    requires msg != []
    ensures WriteAsWritten(0, -1) == -1
    ensures WriteHead([Pending(msg, 0)], -1) == ([Pending(msg, 0)], [])
  {
  }

  /** Whether accept_cb as written (src/net.c:48-54) registers the
      descriptor `accept` returned: line 48 compares the descriptor itself,
      not errno, with EAGAIN, EINTR and EWOULDBLOCK. */
  predicate AcceptRegistersAsWritten(peerSd: int) {
    !(peerSd == EAGAIN || peerSd == EINTR || peerSd == EWOULDBLOCK) && peerSd >= 0
  }

  /** As written, a new connection that gets descriptor 4 or 11 returns from
      accept_cb before it is registered: the peer is never served and the
      descriptor stays open. Server.Accept registers both. */
  lemma AsWrittenDropsValidDescriptors()
    ensures !AcceptRegistersAsWritten(4) && !AcceptRegistersAsWritten(11)
    ensures AcceptRegistersAsWritten(3) && AcceptRegistersAsWritten(5)
  {
  }

  /** A client list `clients` with count `count`, owning the objects in
      `repr`: the count is the number of clients, each client is registered
      under its own descriptor, owns its objects and is valid, and no two
      clients share a buffer or an envelope. */
  ghost predicate Registry(clients: map<int, Client>, count: int, repr: set<object>)
    reads repr
  {
    count == |clients| &&
    (forall fd | fd in clients ::
       clients[fd] in repr && clients[fd].fd == fd &&
       clients[fd].Owned() && clients[fd].Repr <= repr && clients[fd].Valid()) &&
    (forall fd, fd' | fd in clients && fd' in clients && fd != fd' ::
       clients[fd].Repr !! clients[fd'].Repr)
  }

  /** Registering a valid client that owns only its own two objects, both
      outside the registry, keeps the registry valid. */
  lemma RegisterFresh(clients: map<int, Client>, count: int, repr: set<object>, c: Client)
    requires Registry(clients, count, repr) && c.fd !in clients
    requires c.Valid() && c.Repr == {c, c.inbuf} && c !in repr && c.inbuf !in repr
    ensures Registry(clients[c.fd := c], count + 1, repr + c.Repr)
  {
    var after := clients[c.fd := c];
    forall fd, fd' | fd in after && fd' in after && fd != fd'
      ensures after[fd].Repr !! after[fd'].Repr
    {
      if fd != c.fd && fd' != c.fd {
        assert clients[fd].Repr !! clients[fd'].Repr;
      } else {
        var other := if fd == c.fd then fd' else fd;
        OutsideDisjoint(c, c.inbuf, clients[other].Repr, repr);
        assert after[fd].Repr == c.Repr || after[fd].Repr == clients[other].Repr;
        assert after[fd'].Repr == c.Repr || after[fd'].Repr == clients[other].Repr;
      }
    }
  }

  /** Removing a client keeps the registry valid. */
  lemma Unregister(clients: map<int, Client>, count: int, repr: set<object>, fd: int)
    requires Registry(clients, count, repr) && fd in clients
    ensures Registry(clients - {fd}, count - 1, repr)
  {
    assert |clients - {fd}| == |clients| - 1;
  }

  /** Two objects outside a set are disjoint from every part of it. */
  lemma OutsideDisjoint(a: object, b: object, part: set<object>, whole: set<object>)
    requires a !in whole && b !in whole && part <= whole
    ensures {a, b} !! part
  {
  }

  /** Events libev reported for a client's socket. */
  datatype Events = Events(read: bool, write: bool)

  /** What one `read` returned: -1, or the bytes it read (none when the
      peer closed the connection). */
  datatype ReadResult = ReadFailed | ReadBytes(data: seq<byte>)

  /** The broker's client list (`clients`, `num_clients`), keyed by socket
      descriptor. */
  class Server {
    var clients: map<int, Client>
    var numClients: int
    ghost var Repr: set<object>

    /** The registry is valid and owns every client's objects. */
    ghost predicate Valid()
      reads this, Repr
    {
      this !in Repr && Registry(clients, numClients, Repr)
    }

    constructor ()
      ensures Valid() && clients == map[]
    {
      clients := map[];
      numClients := 0;
      Repr := {};
    }

    /** accept_cb (src/net.c:32-78) after `accept` returned `peerSd`. An
        event error or a failed accept changes nothing; otherwise a new
        client in S_CONNECTING with an empty buffer and queue joins the
        list, and num_clients grows by one. The descriptor of a new
        connection is never one that is still open. */
    method Accept(evError: bool, peerSd: int) returns (c: Client?)
      requires Valid() && (peerSd >= 0 ==> peerSd !in clients)
      modifies this
      ensures Valid() && fresh(Repr - old(Repr))
      ensures evError || peerSd < 0 ==>
        c == null && clients == old(clients) && numClients == old(numClients)
      ensures !evError && peerSd >= 0 ==>
        c != null && fresh(c) && fresh(c.inbuf) && c.Valid() &&
        c.fd == peerSd && c.state == Connecting &&
        c.inbufBytes == 0 && c.outgoingMsgs == [] &&
        clients == old(clients)[peerSd := c] && numClients == old(numClients) + 1
    {
      if evError {
        return null;
      }
      // Corrected: accept signals a failure, transient or not, by returning
      // -1, so every non-negative descriptor is a connection to register
      // (see AcceptRegistersAsWritten for the test at src/net.c:48).
      if peerSd < 0 {
        return null;
      }
      c := new Client(peerSd);
      RegisterFresh(clients, numClients, Repr, c);
      assert this !in Repr + c.Repr;
      clients, Repr, numClients := clients[peerSd := c], Repr + c.Repr, numClients + 1;
    }

    /** peer_cb (src/net.c:80-170) for the client `c` whose socket the event
        is on (src/net.c:86-89 looks it up by comparing `client->fd` with
        itself; the model is given the right client). A readable event is
        handled in preference to a writable one. Every other client is left
        as it was. */
    method PeerEvent(c: Client, ev: Events, got: ReadResult, written: int, connect: Handler)
      returns (sent: seq<byte>)
      requires Valid() && c.fd in clients && clients[c.fd] == c
      requires got.ReadBytes? ==> |got.data| <= BUF_LEN - c.inbufBytes
      requires !ev.read && ev.write ==> written <= Room(c.Outgoing())
      modifies this, c, c.inbuf, if c.outgoingMsgs == [] then {} else {c.outgoingMsgs[0]}
      ensures Valid() && c.Valid() && Repr == old(Repr)
      ensures ev.read && got == ReadBytes([]) ==>
        clients == old(clients) - {c.fd} && numClients == old(numClients) - 1
      ensures !(ev.read && got == ReadBytes([])) ==> clients == old(clients)
      ensures forall fd | fd in clients && fd != c.fd ::
        clients[fd].Buffered() == old(clients[fd].Buffered()) &&
        clients[fd].state == old(clients[fd].state) &&
        clients[fd].Outgoing() == old(clients[fd].Outgoing())
      ensures ev.read && got.ReadBytes? && got.data != [] ==>
        (c.Buffered(), c.state) == AfterRead(old(c.Buffered()), old(c.state), got.data, connect)
      ensures ev.read ==> sent == [] && c.Outgoing() == old(c.Outgoing())
      ensures !ev.read ==> c.Buffered() == old(c.Buffered()) && c.state == old(c.state)
      ensures !ev.read && ev.write ==>
        (c.Outgoing(), sent) == WriteHead(old(c.Outgoing()), written)
      ensures (!ev.read && !ev.write) || (ev.read && got == ReadFailed) ==>
        sent == [] && c.Buffered() == old(c.Buffered()) && c.state == old(c.state) &&
        c.Outgoing() == old(c.Outgoing())
    {
      assert c.Valid();
      sent := [];
      if ev.read {
        match got
        case ReadBytes(data) =>
          if data == [] {
            Disconnect(c);
          } else {
            Receive(c, data, connect);
          }
        case ReadFailed =>
      } else if ev.write {
        sent := Send(c, written);
      }
    }

    /** The peer closed the connection (src/net.c:96-118): num_clients
        drops by one and the client leaves the list (close(2) and the
        frees are not modelled). */
    method Disconnect(c: Client)
      requires Valid() && c.fd in clients && clients[c.fd] == c
      modifies this
      ensures Valid() && c.Valid() && Repr == old(Repr)
      ensures clients == old(clients) - {c.fd} && numClients == old(numClients) - 1
      ensures forall fd | fd in clients && fd != c.fd ::
        clients[fd].Buffered() == old(clients[fd].Buffered()) &&
        clients[fd].state == old(clients[fd].state) &&
        clients[fd].Outgoing() == old(clients[fd].Outgoing())
    {
      Unregister(clients, numClients, Repr, c.fd);
      numClients, clients := numClients - 1, clients - {c.fd};
    }

    /** `read` returned the nonempty `data` (src/net.c:124-132). */
    method Receive(c: Client, data: seq<byte>, connect: Handler)
      requires Valid() && c.fd in clients && clients[c.fd] == c
      requires data != [] && |data| <= BUF_LEN - c.inbufBytes
      modifies c`inbufBytes, c`state, c.inbuf
      ensures Valid() && c.Valid() && clients == old(clients)
      ensures forall fd | fd in clients && fd != c.fd ::
        clients[fd].Buffered() == old(clients[fd].Buffered()) &&
        clients[fd].state == old(clients[fd].state) &&
        clients[fd].Outgoing() == old(clients[fd].Outgoing())
      ensures (c.Buffered(), c.state) == AfterRead(old(c.Buffered()), old(c.state), data, connect)
      ensures c.Outgoing() == old(c.Outgoing())
    {
      c.Readable(data, connect);
    }

    /** A writable event and no readable one (src/net.c:133-168). */
    method Send(c: Client, written: int) returns (sent: seq<byte>)
      requires Valid() && c.fd in clients && clients[c.fd] == c
      requires written <= Room(c.Outgoing())
      modifies c`outgoingMsgs, if c.outgoingMsgs == [] then {} else {c.outgoingMsgs[0]}
      ensures Valid() && c.Valid() && clients == old(clients)
      ensures forall fd | fd in clients && fd != c.fd ::
        clients[fd].Buffered() == old(clients[fd].Buffered()) &&
        clients[fd].state == old(clients[fd].state) &&
        clients[fd].Outgoing() == old(clients[fd].Outgoing())
      ensures (c.Outgoing(), sent) == WriteHead(old(c.Outgoing()), written)
      ensures c.Buffered() == old(c.Buffered()) && c.state == old(c.state)
    {
      sent := c.Writable(written);
    }
  }
}
