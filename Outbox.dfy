/**
 * The value of a client's outgoing message queue (`outgoing_msgs` in
 * src/net.c) and what one writable event does to it: at most the head
 * envelope gets one write, its `bytes_sent` advances by what the write took,
 * and it leaves the queue once all of its bytes are out.
 */
module Outbox {
  import opened RemainingLength

  /** One queued envelope as a value: its message (`msg`, whose length is
      `bytes_total`) and how many of its bytes were written (`bytes_sent`). */
  datatype Pending = Pending(msg: seq<byte>, sent: nat)

  /** Every queued envelope still has bytes to send, as the assertion at
      src/net.c:139 demands of the head. */
  predicate WellFormed(q: seq<Pending>) {
    forall i :: 0 <= i < |q| ==> q[i].sent < |q[i].msg|
  }

  /** The bytes still to go out, in queue order. */
  function Unsent(q: seq<Pending>): (s: seq<byte>)
    requires WellFormed(q)
  {
    if q == [] then [] else q[0].msg[q[0].sent..] + Unsent(q[1..])
  }

  /** The most the next write may take: what is left of the head. */
  function Room(q: seq<Pending>): (n: nat)
    requires WellFormed(q)
  {
    if q == [] then 0 else |q[0].msg| - q[0].sent
  }

  /** One writable event whose `write` returned `written`: the queue
      afterwards and the bytes that went out. A negative count (an error or
      a would-block) changes nothing. */
  function WriteHead(q: seq<Pending>, written: int): (r: (seq<Pending>, seq<byte>))
    requires WellFormed(q) && written <= Room(q)
    ensures WellFormed(r.0)
    ensures |r.1| == if q == [] || written < 0 then 0 else written
    ensures q == [] || written < 0 ==> r.0 == q
    ensures r.0 == q || (q != [] && r.0 == q[1..]) ||
            (q != [] && r.0 != [] && r.0[1..] == q[1..] && r.0[0].msg == q[0].msg &&
             r.0[0].sent == q[0].sent + written)
  {
    if q == [] || written < 0 then (q, [])
    else
      var head := q[0];
      var sent := head.sent + written;
      var out := head.msg[head.sent..sent];
      if sent == |head.msg| then (q[1..], out)
      else ([Pending(head.msg, sent)] + q[1..], out)
  }

  /** A write never loses, repeats or reorders bytes: what went out followed
      by what is still queued is what was queued before. */
  lemma WriteHeadInOrder(q: seq<Pending>, written: int)
    requires WellFormed(q) && written <= Room(q)
    ensures WriteHead(q, written).1 + Unsent(WriteHead(q, written).0) == Unsent(q)
  {
    if q != [] && written >= 0 {
      var head := q[0];
      var sent := head.sent + written;
      assert head.msg[head.sent..] == head.msg[head.sent..sent] + head.msg[sent..];
      if sent < |head.msg| {
        assert ([Pending(head.msg, sent)] + q[1..])[1..] == q[1..];
      }
    }
  }

  /** The head leaves the queue exactly when its last byte went out; until
      then only its count of bytes sent moves, and no other envelope
      changes. */
  lemma WriteHeadRemovesHead(q: seq<Pending>, written: int)
    requires WellFormed(q) && written <= Room(q) && q != [] && written >= 0
    ensures WriteHead(q, written).0 == q[1..] <==> q[0].sent + written == |q[0].msg|
    ensures q[0].sent + written < |q[0].msg| ==>
      WriteHead(q, written).0 == [Pending(q[0].msg, q[0].sent + written)] + q[1..]
  {
    var sent := q[0].sent + written;
    if sent < |q[0].msg| {
      assert |[Pending(q[0].msg, sent)] + q[1..]| != |q[1..]|;
    }
  }

  /** The write counts of a run of writable events are ones `write` can
      return: none exceeds what is left of the head at that point. */
  predicate Feasible(q: seq<Pending>, writes: seq<int>)
    requires WellFormed(q)
    decreases |writes|
  {
    writes == [] ||
    (writes[0] <= Room(q) && Feasible(WriteHead(q, writes[0]).0, writes[1..]))
  }

  /** A run of writable events: the queue afterwards and all bytes written. */
  function Drain(q: seq<Pending>, writes: seq<int>): (r: (seq<Pending>, seq<byte>))
    requires WellFormed(q) && Feasible(q, writes)
    ensures WellFormed(r.0)
    decreases |writes|
  {
    if writes == [] then (q, [])
    else
      var step := WriteHead(q, writes[0]);
      var rest := Drain(step.0, writes[1..]);
      (rest.0, step.1 + rest.1)
  }

  /** However the writes are cut short by would-block results, the bytes
      written over any run of writable events are the queued bytes in
      enqueue order: envelope after envelope, each from where it stopped. */
  lemma {:induction false} DrainInOrder(q: seq<Pending>, writes: seq<int>)
    requires WellFormed(q) && Feasible(q, writes)
    ensures Drain(q, writes).1 + Unsent(Drain(q, writes).0) == Unsent(q)
    decreases |writes|
  {
    if writes != [] {
      var step := WriteHead(q, writes[0]);
      var rest := Drain(step.0, writes[1..]);
      assert Drain(q, writes) == (rest.0, step.1 + rest.1);
      WriteHeadInOrder(q, writes[0]);
      DrainInOrder(step.0, writes[1..]);
      Regroup(step.1, rest.1, Unsent(rest.0), Unsent(step.0), Unsent(q));
    }
  }

  lemma Regroup(a: seq<byte>, b: seq<byte>, c: seq<byte>, v: seq<byte>, u: seq<byte>)
    requires b + c == v && a + v == u
    ensures (a + b) + c == u
  {
  }
}
