/**
 The receiving and sending side of a Net connection (src/plugin/core/net/net.cc) in the mode that
 cuts length-prefixed messages out of a growing buffer, and NetObject's buffer
 (src/plugin/core/net/i_net.h).
 */
module NetStream {
  import opened Bytes
  import opened Wrappers
  import opened RpcPacket
  import opened Framing

  /** A Net connection is never stopped by what it reads; it can only wait. */
  datatype NoError = NoError

  /** What Net::Dismantle cuts off the front of the buffer. */
  function NetCut(buf: seq<Byte>): Cut<Message, NoError> {
    // GetBuffLen casts the length to int
    var len := AsInt32(|buf|);
    if len < HEAD_LENGTH then Wait
    else
      var m := DecodePacket(buf, len);
      if m.Some? && m.value.id > 0 then Take(HEAD_LENGTH + |m.value.body|, [m.value]) else Wait
  }

  lemma NetCutProgresses()
    ensures Progress(NetCut)
  {
  }

  lemma NetCutOfExtension(a: seq<Byte>, b: seq<Byte>)
    requires |a| + |b| < INT32_LIMIT && !NetCut(a).Wait?
    ensures NetCut(a + b) == NetCut(a)
  {
    assert (a + b)[1..5] == a[1..5];
    assert (a + b)[5..9] == a[5..9];
    var n := NetCut(a).len;
    assert (a + b)[HEAD_LENGTH..n] == a[HEAD_LENGTH..n];
  }

  lemma NetCutIsStable()
    ensures Stable(NetCut, INT32_LIMIT)
  {
    forall a: seq<Byte>, b: seq<Byte> | |a| + |b| < INT32_LIMIT && !NetCut(a).Wait?
      ensures NetCut(a + b) == NetCut(a)
    {
      NetCutOfExtension(a, b);
    }
  }

  /** All that one conn_readcb call makes of a buffer. */
  ghost function Received(buf: seq<Byte>): Outcome<Message, NoError> {
    NetCutProgresses();
    Drain(NetCut, buf)
  }

  lemma ReceivedStep(cut: seq<Message>, buf: seq<Byte>)
    requires NetCut(buf).Take?
    ensures Prepend(cut, Received(buf)) == Prepend(cut + NetCut(buf).out, Received(buf[NetCut(buf).len..]))
    ensures |NetCut(buf).out| == 1 && 0 < NetCut(buf).len <= |buf|
  {
    PrependTwice(cut, NetCut(buf).out, Received(buf[NetCut(buf).len..]));
  }

  lemma ReceivedNothing(cut: seq<Message>, buf: seq<Byte>)
    requires !NetCut(buf).Take?
    ensures Prepend(cut, Received(buf)) == Outcome(cut, buf, None)
  {
    assert cut + [] == cut;
  }

  function Least(a: nat, b: nat): nat {
    if a < b then a else b
  }

  class NetObject {
    var ringBuff: seq<Byte>
    var needRemove: bool

    constructor ()
      ensures ringBuff == [] && !needRemove
    {
      ringBuff, needRemove := [], false;
    }

    method AddBuff(data: seq<Byte>) returns (len: int)
      modifies `ringBuff
      ensures ringBuff == old(ringBuff) + data && len == AsInt32(|ringBuff|)
    {
      ringBuff := ringBuff + data;
      len := AsInt32(|ringBuff|);
    }

    /** Erases a range; None is the exception of std::string::erase for a start behind the end. */
    method RemoveBuff(start: UInt32, len: UInt32) returns (left: Option<int>)
      modifies `ringBuff
      ensures var buf := old(ringBuff); var end := (start + len) % 0x1_0000_0000;
        && (end > |buf| ==> left == Some(0) && ringBuff == buf)
        && (end <= |buf| < start ==> left == None && ringBuff == buf)
        && (end <= |buf| && start <= |buf| ==>
          left == Some(AsInt32(|ringBuff|)) && ringBuff == buf[..start] + buf[Least(start + len, |buf|)..])
    {
      // the sum is of 32 bits
      if (start + len) % 0x1_0000_0000 > |ringBuff| {
        return Some(0);
      }
      if start > |ringBuff| {
        return None;
      }
      ringBuff := ringBuff[..start] + ringBuff[Least(start + len, |ringBuff|)..];
      left := Some(AsInt32(|ringBuff|));
    }

    /** RemoveBuff of bytes that are there. */
    method RemoveFront(n: nat)
      requires n <= |ringBuff| && n < 0x1_0000_0000
      modifies `ringBuff
      ensures ringBuff == old(ringBuff)[n..]
    {
      var left := RemoveBuff(0, n);
    }
  }

  class Net {
    const hasReceiver: bool
    var received: nat
    /** The calls of the receive callback, oldest first. */
    var delivered: seq<Message>

    constructor (hasReceiver: bool)
      ensures this.hasReceiver == hasReceiver && received == 0 && delivered == []
    {
      this.hasReceiver := hasReceiver;
      received, delivered := 0, [];
    }

    /** Cuts at most one message off the front of the object's buffer. */
    method Dismantle(netObject: NetObject) returns (again: bool)
      modifies this, netObject`ringBuff
      ensures var cut := NetCut(old(netObject.ringBuff));
        && again == cut.Take?
        && netObject.ringBuff == (if again then old(netObject.ringBuff)[cut.len..] else old(netObject.ringBuff))
        && delivered == old(delivered) + (if again && hasReceiver then cut.out else [])
        && received == old(received) + (if again && hasReceiver then 1 else 0)
    {
      again := false;
      var buf := netObject.ringBuff;
      var len := AsInt32(|buf|);
      if len >= HEAD_LENGTH {
        var head := new RpcHead();
        var bodyLength := DeCode(buf, len, head);
        if bodyLength >= 0 && head.msgId > 0 {
          if hasReceiver {
            delivered := delivered + [Message(head.msgId, buf[HEAD_LENGTH..HEAD_LENGTH + bodyLength])];
            received := received + 1;
          }
          netObject.RemoveFront(bodyLength + HEAD_LENGTH);
          again := true;
        }
      }
    }

    /** conn_readcb outside stream mode: append what the socket holds, then dismantle greedily. */
    method ConnReadCb(netObject: NetObject, data: seq<Byte>)
      modifies this, netObject`ringBuff
      ensures netObject.needRemove ==>
        netObject.ringBuff == old(netObject.ringBuff) && delivered == old(delivered) && received == old(received)
      ensures !netObject.needRemove ==> var d := Received(old(netObject.ringBuff) + data);
        && netObject.ringBuff == d.rest
        && delivered == old(delivered) + (if hasReceiver then d.out else [])
        && received == old(received) + (if hasReceiver then |d.out| else 0)
    {
      if netObject.needRemove {
        return;
      }
      var n := netObject.AddBuff(data);
      ghost var all := netObject.ringBuff;
      ghost var cut: seq<Message> := [];
      var again := true;
      while again
        invariant again ==> Received(all) == Prepend(cut, Received(netObject.ringBuff))
        invariant !again ==> Received(all) == Outcome(cut, netObject.ringBuff, None)
        invariant delivered == old(delivered) + (if hasReceiver then cut else [])
        invariant received == old(received) + (if hasReceiver then |cut| else 0)
        decreases again, |netObject.ringBuff|
      {
        ghost var before := netObject.ringBuff;
        again := Dismantle(netObject);
        if again {
          ReceivedStep(cut, before);
          cut := cut + NetCut(before).out;
        } else {
          ReceivedNothing(cut, before);
        }
      }
    }
  }

  /** conn_readcb called once for each chunk on a connection whose buffer was drained to `buf`. */
  ghost function ReceivedInChunks(buf: seq<Byte>, chunks: seq<seq<Byte>>): Outcome<Message, NoError> {
    NetCutProgresses();
    FeedAll(NetCut, Received(buf), chunks)
  }

  /** Any chunking of any bytes delivers the same messages and leaves the same buffer as one piece. */
  lemma ChunkIndependent(buf: seq<Byte>, chunks: seq<seq<Byte>>)
    requires |buf| + |Concat(chunks)| < INT32_LIMIT
    ensures ReceivedInChunks(buf, chunks) == Received(buf + Concat(chunks))
  {
    NetCutProgresses();
    NetCutIsStable();
    ChunkIndependence(NetCut, INT32_LIMIT, buf, chunks);
    NeverStopped(buf + Concat(chunks));
  }

  lemma {:induction false} NeverStopped(buf: seq<Byte>)
    ensures Received(buf).stopped.None?
    decreases |buf|
  {
    var c := NetCut(buf);
    if c.Take? {
      NeverStopped(buf[c.len..]);
    }
  }

  // ------------------------------------------------------------------------------------------
  // Round trip
  // ------------------------------------------------------------------------------------------

  /** Messages a receiver can be sent: a non-zero id and a packet whose length fits an int. */
  predicate Sendable(m: Message) {
    m.id > 0 && HEAD_LENGTH + |m.body| < INT32_LIMIT
  }

  predicate AllSendable(ms: seq<Message>) {
    forall i :: 0 <= i < |ms| ==> Sendable(ms[i])
  }

  function EncodeAll(ms: seq<Message>): seq<Byte>
    requires AllSendable(ms)
  {
    if ms == [] then [] else PacketBytes(ms[0]) + EncodeAll(ms[1..])
  }

  lemma EncodeAllCons(m: Message, ms: seq<Message>)
    requires Sendable(m) && AllSendable(ms)
    ensures AllSendable([m] + ms)
    ensures EncodeAll([m] + ms) == PacketBytes(m) + EncodeAll(ms)
  {
    assert ([m] + ms)[1..] == ms;
  }

  lemma NetCutOfPacket(m: Message, tail: seq<Byte>)
    requires Sendable(m) && |PacketBytes(m)| + |tail| < INT32_LIMIT
    ensures NetCut(PacketBytes(m) + tail) == Take(|PacketBytes(m)|, [m])
  {
    DecodeEncoded(m, tail, |PacketBytes(m) + tail|);
  }

  lemma {:induction false} EncodedArrives(ms: seq<Message>, tail: seq<Byte>)
    requires AllSendable(ms)
    requires |EncodeAll(ms)| + |tail| < INT32_LIMIT
    ensures Received(EncodeAll(ms) + tail) == Prepend(ms, Received(tail))
    decreases |ms|
  {
    if ms == [] {
      assert EncodeAll(ms) + tail == tail;
      PrependTwice([], [], Received(tail));
    } else {
      var packet, others := PacketBytes(ms[0]), EncodeAll(ms[1..]) + tail;
      assert EncodeAll(ms) + tail == packet + others;
      NetCutOfPacket(ms[0], others);
      assert (packet + others)[|packet|..] == others;
      EncodedArrives(ms[1..], tail);
      PrependTwice([ms[0]], ms[1..], Received(tail));
      assert [ms[0]] + ms[1..] == ms;
    }
  }

  /** Encoded messages split anywhere arrive exactly, in order, and leave an empty buffer. */
  lemma SplitMessagesArrive(ms: seq<Message>, chunks: seq<seq<Byte>>)
    requires AllSendable(ms)
    requires Concat(chunks) == EncodeAll(ms) && |EncodeAll(ms)| < INT32_LIMIT
    ensures ReceivedInChunks([], chunks) == Outcome(ms, [], None)
  {
    ChunkIndependent([], chunks);
    assert [] + Concat(chunks) == EncodeAll(ms) + [];
    EncodedArrives(ms, []);
    assert Received([]) == Outcome([], [], None);
    assert ms + [] == ms;
  }

  lemma NetCutIsPacket(buf: seq<Byte>)
    requires NetCut(buf).Take? && |buf| < INT32_LIMIT
    ensures var c := NetCut(buf);
      |c.out| == 1 && Sendable(c.out[0]) && PacketBytes(c.out[0]) == buf[..c.len]
  {
    EncodeDecoded(buf, |buf|);
  }

  lemma LosslessStep(buf: seq<Byte>, n: nat, m: Message, o: Outcome<Message, NoError>)
    requires n <= |buf| && Sendable(m) && PacketBytes(m) == buf[..n]
    requires AllSendable(o.out) && EncodeAll(o.out) + o.rest == buf[n..]
    ensures AllSendable([m] + o.out)
    ensures EncodeAll([m] + o.out) + o.rest == buf
  {
    EncodeAllCons(m, o.out);
    assert PacketBytes(m) + EncodeAll(o.out) + o.rest == buf[..n] + (EncodeAll(o.out) + o.rest);
  }

  /** Nothing is invented or dropped: what was delivered re-encodes to exactly the bytes consumed. */
  lemma {:induction false} ReceivingIsLossless(buf: seq<Byte>)
    requires |buf| < INT32_LIMIT
    ensures AllSendable(Received(buf).out)
    ensures EncodeAll(Received(buf).out) + Received(buf).rest == buf
    decreases |buf|
  {
    var c := NetCut(buf);
    if c.Take? {
      NetCutIsPacket(buf);
      ReceivingIsLossless(buf[c.len..]);
      LosslessStep(buf, c.len, c.out[0], Received(buf[c.len..]));
      assert c.out == [c.out[0]];
    } else {
      assert Received(buf) == Outcome([], buf, None);
      assert [] + buf == buf;
    }
  }

  // ------------------------------------------------------------------------------------------
  // Where delivery stops
  // ------------------------------------------------------------------------------------------

  /** More input can still complete the message at the front of the buffer. */
  predicate CanRecover(buf: seq<Byte>)
    requires |buf| >= HEAD_LENGTH
  {
    ParseHead(buf).Some? && ParseHead(buf).value.msgId > 0 && HEAD_LENGTH + ParseHead(buf).value.size < INT32_LIMIT
  }

  lemma HeadOfExtension(buf: seq<Byte>, more: seq<Byte>)
    requires |buf| >= HEAD_LENGTH
    ensures ParseHead(buf + more) == ParseHead(buf)
  {
    assert (buf + more)[1..5] == buf[1..5];
    assert (buf + more)[5..9] == buf[5..9];
  }

  /**
   Once a whole head is buffered, further input can ever deliver something exactly when the flag is
   right, the id non-zero and the announced packet shorter than 2^31; otherwise the connection
   stalls for good, because no branch of Dismantle removes the offending bytes.
   */
  lemma RecoversIff(buf: seq<Byte>)
    requires HEAD_LENGTH <= |buf| < INT32_LIMIT
    ensures CanRecover(buf) <==>
            exists more: seq<Byte> :: |buf| + |more| < INT32_LIMIT && NetCut(buf + more).Take?
  {
    forall more: seq<Byte> | |buf| + |more| < INT32_LIMIT && NetCut(buf + more).Take?
      ensures CanRecover(buf)
    {
      HeadOfExtension(buf, more);
    }
    if CanRecover(buf) {
      var need := HEAD_LENGTH + ParseHead(buf).value.size;
      var more: seq<Byte> := if |buf| >= need then [] else seq(need - |buf|, _ => 0);
      HeadOfExtension(buf, more);
      assert NetCut(buf + more).Take?;
    }
  }

  /**
   The length cast is a real limit: whatever arrives behind a deliverable front message in the same
   read, something is delivered if and only if the buffer stays below 2^31 bytes; otherwise nothing is.
   */
  lemma DeliversBelowLimitIff(a: seq<Byte>, b: seq<Byte>)
    requires NetCut(a).Take? && |a| + |b| < 0x1_0000_0000
    ensures Received(a + b).out != [] <==> |a| + |b| < INT32_LIMIT
    ensures |a| + |b| >= INT32_LIMIT ==> Received(a + b) == Outcome([], a + b, None)
    ensures |a| + |b| < INT32_LIMIT ==> NetCut(a).out <= Received(a + b).out
  {
    assert |a + b| == |a| + |b|;
    if |a| + |b| < INT32_LIMIT {
      NetCutOfExtension(a, b);
    }
  }

  // ------------------------------------------------------------------------------------------
  // Sending
  // ------------------------------------------------------------------------------------------

  /** Net::SendMsg up to the bytes it hands to SendData; None when its length check refuses. */
  method SendMsg(msgId: UInt32, msg: seq<Byte>) returns (sent: Option<seq<Byte>>)
    requires |msg| < 0x8000_0000_0000_0000
    ensures sent.Some? <==> HEAD_LENGTH + |msg| < INT32_LIMIT
    ensures sent.Some? ==> sent.value == PacketBytes(Message(msgId, msg))
  {
    var dataLen := |msg| % 0x1_0000_0000;
    var all, out := EnCode(msgId, msg, dataLen);
    // the int result is compared with a size_t
    var allAsSize := if all >= 0 then all else all + 0x1_0000_0000_0000_0000;
    if allAsSize == |msg| + HEAD_LENGTH {
      assert msg[..dataLen] == msg;
      return Some(out);
    }
    return None;
  }

  /**
   A message SendMsg lets through is delivered by a peer with an empty buffer iff its id is
   non-zero; one with id 0 is never delivered and blocks every later message.
   */
  lemma SentIsDeliveredIff(m: Message)
    requires HEAD_LENGTH + |m.body| < INT32_LIMIT
    ensures m.id > 0 <==> Received(PacketBytes(m)) == Outcome([m], [], None)
    ensures m.id == 0 ==> forall more: seq<Byte> ::
      |PacketBytes(m)| + |more| < INT32_LIMIT ==> Received(PacketBytes(m) + more).out == []
  {
    var buf := PacketBytes(m);
    assert buf + [] == buf;
    if m.id > 0 {
      NetCutOfPacket(m, []);
      assert buf[|buf|..] == [];
      assert Received([]) == Outcome([], [], None);
    } else {
      forall more: seq<Byte> | |buf| + |more| < INT32_LIMIT
        ensures Received(buf + more).out == []
      {
        DecodeEncoded(m, more, |buf + more|);
      }
      assert Received(buf + []).out == [];
    }
  }
}
