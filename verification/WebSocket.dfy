/**
 The frame codec of WSModule (src/plugin/core/net/ws_module.cc): the server side of
 sections 5.2, 5.3 and 5.5 of RFC 6455, carrying one RPC packet in each binary frame.
 */
module WebSocket {
  import opened Bytes
  import opened Wrappers
  import opened RpcPacket
  import opened Framing
  import NetStream
  import Reentry
  import StreamMode

  const PAYLOAD_MIN_LEN := 125
  const PAYLOAD_MID_LEN := 126
  const PAYLOAD_MAX_LEN := 127
  const MAX_PACKAGE_SIZE := 8096

  const OP_INCOMPLETE := 0
  const OP_TEXT := 1
  const OP_BINARY := 2
  const OP_CLOSE := 8

  /**
   The error codes DecodeFrame returns. TextFrame is not one of them: it marks the point where the
   source re-enters DecodeFrame on the frame it has not yet removed (see TextFrameReentersForever).
   */
  datatype Verdict =
    | BadUnmaskedFrame
    | BadReservedBits
    | BadContinuation
    | BadControlFragment
    | BadControlSize
    | BadSize
    | Closed
    | TextFrame

  datatype FrameResult =
    | NeedMore
    | Bad(error: Verdict)
    | Frame(fin: bool, op: nat, payload: seq<Byte>, need: nat)

  /** Section 5.3 of RFC 6455: octet i is combined with octet i modulo 4 of the masking key. */
  function Masked(data: seq<Byte>, key: seq<Byte>): (r: seq<Byte>)
    requires |key| == 4
    ensures |r| == |data|
  {
    seq(|data|, i requires 0 <= i < |data| => Xor(data[i], key[i % 4]))
  }

  lemma MaskedTwice(data: seq<Byte>, key: seq<Byte>)
    requires |key| == 4
    ensures Masked(Masked(data, key), key) == data
  {
    forall i | 0 <= i < |data|
      ensures Masked(Masked(data, key), key)[i] == data[i]
    {
      XorTwice(data[i], key[i % 4]);
    }
  }

  /** Octets before the payload of a masked frame whose second octet carries `len7`. */
  function Need(len7: nat): nat {
    2 + (if len7 == PAYLOAD_MID_LEN then 2 else if len7 == PAYLOAD_MAX_LEN then 8 else 0) + 4
  }

  /** The opcode and flag checks. */
  function HeaderError(b0: Byte, len7: nat): Option<Verdict> {
    var op, fin, rsv := b0 % 0x10, b0 / 0x80 == 1, b0 / 0x10 % 8 != 0;
    if op == OP_TEXT || op == OP_BINARY then
      if rsv then Some(BadReservedBits) else None
    else if op == OP_INCOMPLETE then Some(BadContinuation)
    else if !fin then Some(BadControlFragment)
    else if len7 > PAYLOAD_MIN_LEN then Some(BadControlSize)
    else if rsv then Some(BadReservedBits)
    else None
  }

  /** The payload length; None when it is not canonical, needs 64 bits or is over the limit. */
  function RealLength(buf: seq<Byte>, len7: nat): (r: Option<nat>)
    requires |buf| >= 4
    ensures r.Some? ==> r.value <= MAX_PACKAGE_SIZE
  {
    if len7 == PAYLOAD_MAX_LEN then None
    else
      var b2: int, b3: int := buf[2], buf[3];
      var n := if len7 == PAYLOAD_MID_LEN then b2 * 0x100 + b3 else len7;
      if (len7 == PAYLOAD_MID_LEN && n < PAYLOAD_MID_LEN) || n > MAX_PACKAGE_SIZE then None else Some(n)
  }

  /** What the checks of DecodeFrame make of the front of a buffer. */
  function ParseFrame(buf: seq<Byte>): (r: FrameResult)
    ensures r.Frame? ==> 6 <= r.need && r.need + |r.payload| <= |buf|
  {
    if |buf| < 3 then NeedMore
    else if buf[1] < 0x80 then Bad(BadUnmaskedFrame)
    else
      var len7 := buf[1] % 0x80;
      var need := Need(len7);
      if |buf| < need then NeedMore
      else
        var e := HeaderError(buf[0], len7);
        if e.Some? then Bad(e.value)
        else
          var n := RealLength(buf, len7);
          if n.None? then Bad(BadSize)
          else if |buf| < need + n.value then NeedMore
          else Frame(buf[0] / 0x80 == 1, buf[0] % 0x10,
                     Masked(buf[need..need + n.value], buf[need - 4..need]), need)
  }

  /** The messages handed on for a binary payload. */
  function Delivered(payload: seq<Byte>): seq<Message> {
    var m := DecodePacket(payload, |payload|);
    if m.Some? && m.value.id > 0 then [m.value] else []
  }

  /** What DecodeFrame does with the front of its buffer. */
  function WsCut(buf: seq<Byte>): Cut<Message, Verdict> {
    match ParseFrame(buf)
    case NeedMore => Wait
    case Bad(e) => Stop(e)
    case Frame(_, op, payload, need) =>
      if op == OP_CLOSE then Stop(Closed)
      else if op == OP_TEXT then Stop(TextFrame)
      else Take(need + |payload|, if op == OP_BINARY then Delivered(payload) else [])
  }

  lemma WsCutProgresses()
    ensures Progress(WsCut)
  {
  }

  lemma SliceOfExtension(a: seq<Byte>, b: seq<Byte>, i: nat, j: nat)
    requires i <= j <= |a|
    ensures (a + b)[i..j] == a[i..j]
  {
  }

  lemma FrameOfExtension(a: seq<Byte>, b: seq<Byte>)
    requires !ParseFrame(a).NeedMore?
    ensures ParseFrame(a + b) == ParseFrame(a)
  {
    if a[1] >= 0x80 {
      var len7 := a[1] % 0x80;
      var need := Need(len7);
      assert (a + b)[0] == a[0] && (a + b)[1] == a[1];
      assert RealLength(a + b, len7) == RealLength(a, len7);
      if ParseFrame(a).Frame? {
        var n := RealLength(a, len7).value;
        SliceOfExtension(a, b, need, need + n);
        SliceOfExtension(a, b, need - 4, need);
      }
    }
  }

  lemma WsCutIsStable(limit: nat)
    ensures Stable(WsCut, limit)
  {
    forall a: seq<Byte>, b: seq<Byte> | !WsCut(a).Wait?
      ensures WsCut(a + b) == WsCut(a)
    {
      FrameOfExtension(a, b);
    }
  }

  /** All that DecodeFrame makes of a buffer. */
  ghost function Decoded(buf: seq<Byte>): Outcome<Message, Verdict> {
    WsCutProgresses();
    Drain(WsCut, buf)
  }

  /** The buffer with the payload of its front frame unmasked, as the close and text branches leave it. */
  function Unmasked(buf: seq<Byte>): (r: seq<Byte>)
    requires ParseFrame(buf).Frame?
    ensures |r| == |buf|
  {
    var f := ParseFrame(buf);
    buf[..f.need] + f.payload + buf[f.need + |f.payload|..]
  }

  lemma ReplacedParts(buf: seq<Byte>, need: nat, payload: seq<Byte>)
    requires need + |payload| <= |buf|
    ensures var n := need + |payload|; var u := buf[..need] + payload + buf[n..];
      u[need..n] == payload && u[n..] == buf[n..]
  {
  }

  /** The buffer a wait, an error, or the unmasking of a close or text frame leaves behind. */
  function AfterRefusal(buf: seq<Byte>): seq<Byte> {
    if WsCut(buf) == Stop(Closed) || WsCut(buf) == Stop(TextFrame) then Unmasked(buf) else buf
  }

  /** What WsCut makes of a frame whose checks have passed, and what a refusal of it leaves behind. */
  lemma CutOfFrame(buf: seq<Byte>)
    requires ParseFrame(buf).Frame?
    ensures var f := ParseFrame(buf); var n := f.need + |f.payload|;
      && WsCut(buf) == (if f.op == OP_CLOSE then Stop(Closed) else if f.op == OP_TEXT then Stop(TextFrame)
                        else Take(n, if f.op == OP_BINARY then Delivered(f.payload) else []))
      && (!WsCut(buf).Take? ==> AfterRefusal(buf) == buf[..f.need] + f.payload + buf[n..])
  {
  }

  /** The buffer with the first `i` octets from `need` on replaced by those of `octets`. */
  function Splice(buf: seq<Byte>, need: nat, octets: seq<Byte>, i: nat): (r: seq<Byte>)
    requires i <= |octets| && need + |octets| <= |buf|
    ensures |r| == |buf|
  {
    buf[..need] + octets[..i] + buf[need + i..]
  }

  lemma SpliceNext(buf: seq<Byte>, need: nat, octets: seq<Byte>, i: nat)
    requires i < |octets| && need + |octets| <= |buf|
    ensures Splice(buf, need, octets, i)[need + i] == buf[need + i]
    ensures Splice(buf, need, octets, i)[need + i := octets[i]] == Splice(buf, need, octets, i + 1)
  {
  }

  lemma Spliced(buf: seq<Byte>, need: nat, octets: seq<Byte>, i: nat)
    requires need + |octets| <= |buf| && (i == 0 || i == |octets|)
    ensures Splice(buf, need, octets, i) == if i == 0 then buf else buf[..need] + octets + buf[need + |octets|..]
    ensures octets == [] ==> buf == buf[..need] + octets + buf[need..]
  {
    assert octets[..|octets|] == octets;
  }

  class WSModule {
    /** The messages handed to the receive callbacks, oldest first. */
    var delivered: seq<Message>

    constructor ()
      ensures delivered == []
    {
      delivered := [];
    }

    /** Unmasks `n` octets of the buffer in place. */
    method UnmaskInPlace(netObject: NetStream.NetObject, need: nat, n: nat)
      requires 4 <= need && need + n <= |netObject.ringBuff|
      modifies netObject`ringBuff
      ensures var buf := old(netObject.ringBuff);
        netObject.ringBuff == buf[..need] + Masked(buf[need..need + n], buf[need - 4..need]) + buf[need + n..]
    {
      ghost var buf := netObject.ringBuff;
      var key := netObject.ringBuff[need - 4..need];
      ghost var masked := Masked(buf[need..need + n], key);
      Spliced(buf, need, masked, 0);
      var i := 0;
      while i < n
        invariant i <= n && netObject.ringBuff == Splice(buf, need, masked, i)
      {
        SpliceNext(buf, need, masked, i);
        netObject.ringBuff := netObject.ringBuff[need + i := Xor(netObject.ringBuff[need + i], key[i % 4])];
        i := i + 1;
      }
      Spliced(buf, need, masked, n);
    }

    /** The checks DecodeFrame makes before it touches the payload. */
    static method CheckFrame(buf: seq<Byte>) returns (wait: bool, ec: Option<Verdict>, op: nat, need: nat, realLen: nat)
      ensures wait <==> ParseFrame(buf).NeedMore?
      ensures ec.Some? ==> ParseFrame(buf) == Bad(ec.value)
      ensures !wait && ec.None? ==> ParseFrame(buf).Frame? && need == ParseFrame(buf).need
      ensures !wait && ec.None? ==> realLen == |ParseFrame(buf).payload| && op == ParseFrame(buf).op
      ensures !wait && ec.None? ==> realLen <= MAX_PACKAGE_SIZE
      ensures !wait && ec.None? ==>
        ParseFrame(buf).payload == Masked(buf[need..need + realLen], buf[need - 4..need])
    {
      wait, ec, op, need, realLen := false, None, 0, 2, 0;
      var size := |buf|;
      if size < 3 {
        return true, None, 0, 0, 0;
      }
      var payloadLen := buf[1] % 0x80;
      if payloadLen == PAYLOAD_MID_LEN {
        need := need + 2;
      } else if payloadLen == PAYLOAD_MAX_LEN {
        need := need + 8;
      }
      if buf[1] < 0x80 {
        ec := Some(BadUnmaskedFrame);
        return;
      }
      need := need + 4;
      if size < need {
        wait := true;
        return;
      }
      op := buf[0] % 0x10;
      var fin, rsv := buf[0] / 0x80 == 1, buf[0] / 0x10 % 8 != 0;
      if op == OP_TEXT || op == OP_BINARY {
        if rsv {
          ec := Some(BadReservedBits);
          return;
        }
      } else if op == OP_INCOMPLETE {
        ec := Some(BadContinuation);
        return;
      } else {
        if !fin {
          ec := Some(BadControlFragment);
          return;
        }
        if payloadLen > PAYLOAD_MIN_LEN {
          ec := Some(BadControlSize);
          return;
        }
        if rsv {
          ec := Some(BadReservedBits);
          return;
        }
      }
      if payloadLen == PAYLOAD_MID_LEN {
        var b2: int, b3: int := buf[2], buf[3];
        realLen := b2 * 0x100 + b3;
        if realLen < PAYLOAD_MID_LEN {
          ec := Some(BadSize);
          return;
        }
      } else if payloadLen == PAYLOAD_MAX_LEN {
        ec := Some(BadSize);
        return;
      } else {
        realLen := payloadLen;
      }
      if realLen > MAX_PACKAGE_SIZE {
        ec := Some(BadSize);
        return;
      }
      wait := size < need + realLen;
    }

    /** What DecodeFrame does with a frame whose checks have passed; `more` when it goes on behind it. */
    method UseFrame(netObject: NetStream.NetObject, op: nat, need: nat, realLen: nat, ghost payload: seq<Byte>)
      returns (more: bool, ec: Option<Verdict>)
      requires 4 <= need && need + realLen <= |netObject.ringBuff| < INT32_LIMIT && realLen <= MAX_PACKAGE_SIZE
      requires payload == Masked(netObject.ringBuff[need..need + realLen], netObject.ringBuff[need - 4..need])
      modifies this, netObject`ringBuff
      ensures var buf := old(netObject.ringBuff);
        && more == (op != OP_CLOSE && op != OP_TEXT)
        && ec == (if more then None else Some(if op == OP_CLOSE then Closed else TextFrame))
        && delivered == old(delivered) + (if op == OP_BINARY then Delivered(payload) else [])
        && netObject.ringBuff == (if more then [] else buf[..need] + payload) + buf[need + realLen..]
    {
      ghost var buf := netObject.ringBuff;
      UnmaskInPlace(netObject, need, realLen);
      ReplacedParts(buf, need, payload);
      if op == OP_CLOSE {
        return false, Some(Closed);
      }
      if op == OP_BINARY {
        var octets := netObject.ringBuff[need..need + realLen];
        assert octets == payload;
        OnBinary(octets);
      } else if op == OP_TEXT {
        return false, Some(TextFrame);
      }
      netObject.RemoveFront(need + realLen);
      return true, None;
    }

    /** One activation of DecodeFrame up to the recursive call; `more` when that call is reached. */
    method DecodeOne(netObject: NetStream.NetObject) returns (more: bool, ec: Option<Verdict>)
      requires |netObject.ringBuff| < INT32_LIMIT
      modifies this, netObject`ringBuff
      ensures var buf := old(netObject.ringBuff); var cut := WsCut(buf);
        && more == cut.Take?
        && ec == (if cut.Stop? then Some(cut.error) else None)
        && delivered == old(delivered) + (if more then cut.out else [])
        && netObject.ringBuff == (if more then buf[cut.len..] else AfterRefusal(buf))
    {
      more := false;
      var wait, op, need, realLen;
      wait, ec, op, need, realLen := CheckFrame(netObject.ringBuff);
      if !wait && ec.None? {
        CutOfFrame(netObject.ringBuff);
        more, ec := UseFrame(netObject, op, need, realLen, ParseFrame(netObject.ringBuff).payload);
      }
    }

    /**
     Decodes frames until the buffer holds no complete one or a frame is refused. Octets of an
     incomplete frame stay as they came. The verdict TextFrame says that the source does not return
     (see DecodeReturnsIff).
     */
    method DecodeFrame(netObject: NetStream.NetObject) returns (ec: Option<Verdict>)
      requires |netObject.ringBuff| < INT32_LIMIT
      modifies this, netObject`ringBuff
      ensures var o := Decoded(old(netObject.ringBuff));
        ec == o.stopped && delivered == old(delivered) + o.out && netObject.ringBuff == AfterRefusal(o.rest)
      decreases |netObject.ringBuff|
    {
      ghost var buf := netObject.ringBuff;
      var more: bool;
      more, ec := DecodeOne(netObject);
      if more {
        ghost var others := Decoded(netObject.ringBuff);
        ec := DecodeFrame(netObject);
        AppendAssociative(old(delivered), WsCut(buf).out, others.out);
      }
    }

    /** Hands on the RPC packet inside a binary payload, or drops the payload. */
    method OnBinary(payload: seq<Byte>)
      requires |payload| <= MAX_PACKAGE_SIZE
      modifies this
      ensures delivered == old(delivered) + Delivered(payload)
    {
      var head := new RpcHead();
      var bodyLength := DeCode(payload, |payload|, head);
      if bodyLength >= 0 && head.msgId > 0 {
        delivered := delivered + [Message(head.msgId, payload[HEAD_LENGTH..HEAD_LENGTH + bodyLength])];
      }
    }
  }

  // ------------------------------------------------------------------------------------------
  // Chunking
  // ------------------------------------------------------------------------------------------

  /**
   For every split of the input, DecodeFrame on the growing buffer delivers the same messages and
   returns the same first error, or ends waiting with the same buffer.
   */
  lemma ChunkIndependent(chunks: seq<seq<Byte>>)
    ensures Progress(WsCut)
    ensures Agree(FeedAll(WsCut, Outcome([], [], None), chunks), Decoded(Concat(chunks)))
  {
    WsCutProgresses();
    WsCutIsStable(|Concat(chunks)| + 1);
    ChunkIndependence(WsCut, |Concat(chunks)| + 1, [], chunks);
    assert [] + Concat(chunks) == Concat(chunks);
    assert Decoded([]) == Outcome([], [], None);
  }

  // ------------------------------------------------------------------------------------------
  // Round trip
  // ------------------------------------------------------------------------------------------

  /** First octet, second octet without the mask bit, and the extended length, of a final frame. */
  function FrameHead(op: Byte, size: nat): seq<Byte>
    requires op < 0x10 && size <= 0xFFFF
  {
    [0x80 + op] + (if size <= PAYLOAD_MIN_LEN then [size] else [PAYLOAD_MID_LEN, size / 0x100, size % 0x100])
  }

  /** The octets of a 64-bit size, the lowest last. */
  function BigEndian64(n: nat): (s: seq<Byte>)
    requires n < 0x1_0000_0000_0000_0000
    ensures |s| == 8
  {
    var high, low := n / 0x1_0000_0000, n % 0x1_0000_0000;
    BigEndian32(high) + BigEndian32(low)
  }

  /** SQUICK_HTONLL on a little-endian machine: the number with the same octets in the other order. */
  function Swapped64(n: nat): nat
    requires n < 0x1_0000_0000_0000_0000
  {
    Swapped32(n % 0x1_0000_0000) * 0x1_0000_0000 + Swapped32(n / 0x1_0000_0000)
  }

  function Swapped32(n: UInt32): nat {
    var s := BigEndian32(n);
    FromBigEndian32([s[3], s[2], s[1], s[0]])
  }

  lemma SwappedIsPositive(n: UInt32)
    requires n > 0
    ensures Swapped32(n) > 0
  {
    BigEndian32RoundTrip(n);
  }

  /**
   WSModule::EncodeFrame. A size that needs 64 bits is swapped in place and then used as the number of
   octets to append; None where that is more than the payload holds. What append does then, throw or
   read on, depends on how many it is asked for and is not modelled.
   */
  method EncodeFrame(data: seq<Byte>, text: bool) returns (res: Option<seq<Byte>>)
    requires |data| < 0x1_0000_0000_0000_0000
    ensures var op := if text then OP_TEXT else OP_BINARY;
      && (|data| <= 0xFFFF ==> res == Some(FrameHead(op, |data|) + data))
      && (|data| > 0xFFFF && Swapped64(|data|) > |data| ==> res == None)
      && (|data| > 0xFFFF && Swapped64(|data|) <= |data| ==>
            res == Some([0x80 + op, PAYLOAD_MAX_LEN] + BigEndian64(|data|) + data[..Swapped64(|data|)]))
  {
    var size := |data|;
    var sizebuf: seq<Byte> := [];
    var payloadLen: Byte := 0;
    if size <= PAYLOAD_MIN_LEN {
      payloadLen := size;
    } else if size <= 0xFFFF {
      payloadLen := PAYLOAD_MID_LEN;
      sizebuf := [size / 0x100, size % 0x100];
    } else {
      payloadLen := PAYLOAD_MAX_LEN;
      sizebuf := BigEndian64(size);
      size := Swapped64(size);
    }
    var ocode: Byte := 0x80 + (if text then OP_TEXT else OP_BINARY);
    var frame := [ocode];
    frame := frame + [payloadLen];
    if sizebuf != [] {
      frame := frame + sizebuf;
    }
    if size > |data| {
      return None;
    }
    if |data| <= 0xFFFF {
      assert data[..size] == data;
      HeadInParts(ocode, size, frame);
    } else {
      assert frame == [ocode, PAYLOAD_MAX_LEN] + BigEndian64(|data|);
    }
    res := Some(frame + data[..size]);
  }

  lemma HeadInParts(ocode: Byte, size: nat, frame: seq<Byte>)
    requires 0x80 <= ocode < 0x90 && size <= 0xFFFF
    requires frame == if size <= PAYLOAD_MIN_LEN then [ocode] + [size]
                      else [ocode] + [PAYLOAD_MID_LEN] + [size / 0x100, size % 0x100]
    ensures frame == FrameHead(ocode - 0x80, size)
  {
  }

  /** For every payload over 65535 octets and below 2^32 it is more than the payload holds. */
  lemma LongPayloadAsksForMore(n: nat)
    requires 0xFFFF < n < 0x1_0000_0000
    ensures Swapped64(n) > n
  {
    assert n % 0x1_0000_0000 == n && n / 0x1_0000_0000 == 0;
    SwappedIsPositive(n);
  }

  /**
   What a client makes of an encoded frame under section 5.3 of RFC 6455: the mask bit set, the
   key after the length, the payload masked.
   */
  function ClientFrame(op: Byte, data: seq<Byte>, key: seq<Byte>): seq<Byte>
    requires op < 0x10 && |data| <= 0xFFFF && |key| == 4
  {
    var head := FrameHead(op, |data|);
    [head[0], head[1] + 0x80] + head[2..] + key + Masked(data, key)
  }

  /** The second octet of a final frame without the mask bit. */
  function Length7(n: nat): nat {
    if n <= PAYLOAD_MIN_LEN then n else PAYLOAD_MID_LEN
  }

  lemma ClientFrameShape(op: Byte, data: seq<Byte>, key: seq<Byte>)
    requires op < 0x10 && |data| <= 0xFFFF && |key| == 4
    ensures var n := |data|; var frame := ClientFrame(op, data, key); var need := Need(Length7(n));
      && |frame| == need + n
      && frame[0] == 0x80 + op && frame[1] == 0x80 + Length7(n)
      && (n > PAYLOAD_MIN_LEN ==> frame[2] == n / 0x100 && frame[3] == n % 0x100)
      && frame[need - 4..need] == key
      && frame[need..] == Masked(data, key)
  {
  }

  lemma PrefixKeepsOctets(a: seq<Byte>, b: seq<Byte>, i: nat, j: nat)
    requires i <= j <= |a|
    ensures (a + b)[i..j] == a[i..j]
    ensures forall k :: 0 <= k < |a| ==> (a + b)[k] == a[k]
  {
  }

  /** Octets that begin as a final binary frame of `n` octets are parsed as one. */
  lemma BinaryFrameParsed(buf: seq<Byte>, n: nat)
    requires n <= MAX_PACKAGE_SIZE && Need(Length7(n)) + n <= |buf|
    requires buf[0] == 0x80 + OP_BINARY && buf[1] == 0x80 + Length7(n)
    requires n > PAYLOAD_MIN_LEN ==> buf[2] == n / 0x100 && buf[3] == n % 0x100
    ensures var need := Need(Length7(n));
      ParseFrame(buf) == Frame(true, OP_BINARY, Masked(buf[need..need + n], buf[need - 4..need]), need)
  {
    assert RealLength(buf, Length7(n)) == Some(n);
  }

  /** An encoded binary frame, masked with any key, is decoded to its payload and consumed exactly. */
  lemma EncodedFrameIsDecoded(data: seq<Byte>, key: seq<Byte>, tail: seq<Byte>)
    requires |data| <= MAX_PACKAGE_SIZE && |key| == 4
    ensures var frame := ClientFrame(OP_BINARY, data, key);
      ParseFrame(frame + tail) == Frame(true, OP_BINARY, data, |frame| - |data|)
  {
    var frame, need := ClientFrame(OP_BINARY, data, key), Need(Length7(|data|));
    ClientFrameShape(OP_BINARY, data, key);
    PrefixKeepsOctets(frame, tail, need - 4, need);
    PrefixKeepsOctets(frame, tail, need, need + |data|);
    assert frame[need..need + |data|] == frame[need..];
    BinaryFrameParsed(frame + tail, |data|);
    MaskedTwice(data, key);
  }

  lemma SameFrame(x: seq<Byte>, y: seq<Byte>, need: nat)
    requires need in {6, 8} && |x| == |y| >= need
    requires x[0] == y[0] && x[1] == y[1] && (need == 8 ==> x[2] == y[2] && x[3] == y[3])
    requires x[need - 4..need] == y[need - 4..need] && x[need..] == y[need..]
    ensures x == y
  {
    assert x == x[..need - 4] + x[need - 4..need] + x[need..];
    assert y == y[..need - 4] + y[need - 4..need] + y[need..];
  }

  lemma FrameHeader(buf: seq<Byte>)
    requires ParseFrame(buf).Frame? && ParseFrame(buf).fin && ParseFrame(buf).op == OP_BINARY
    ensures var f := ParseFrame(buf); var n := |f.payload|;
      && n <= MAX_PACKAGE_SIZE && f.need == Need(Length7(n))
      && buf[0] == 0x80 + OP_BINARY && buf[1] == 0x80 + Length7(n)
      && (n > PAYLOAD_MIN_LEN ==> buf[2] == n / 0x100 && buf[3] == n % 0x100)
  {
    var b2: int, b3: int := buf[2], buf[3];
    QuotientAndRemainder(b2, buf[3]);
  }

  /** Conversely, every accepted final binary frame is a masked encoded frame of its payload. */
  lemma DecodedFrameIsEncoded(buf: seq<Byte>)
    requires ParseFrame(buf).Frame? && ParseFrame(buf).fin && ParseFrame(buf).op == OP_BINARY
    ensures var f := ParseFrame(buf);
      && |f.payload| <= MAX_PACKAGE_SIZE
      && buf[..f.need + |f.payload|] == ClientFrame(OP_BINARY, f.payload, buf[f.need - 4..f.need])
  {
    var f := ParseFrame(buf);
    var key, n := buf[f.need - 4..f.need], |f.payload|;
    FrameHeader(buf);
    PayloadIsMasked(buf);
    MaskedTwice(buf[f.need..f.need + n], key);
    ClientFrameShape(OP_BINARY, f.payload, key);
    var x := buf[..f.need + n];
    assert x[f.need - 4..f.need] == key;
    assert x[f.need..] == buf[f.need..f.need + n];
    SameFrame(x, ClientFrame(OP_BINARY, f.payload, key), f.need);
  }

  /** The verdict on the first two octets, the second one's length seen as `n`, in terms of their fields. */
  lemma HeaderVerdictIff(buf: seq<Byte>, fin: bool, rsv: nat, op: nat, len7: nat)
    requires |buf| >= 3 && rsv < 8 && op < 16 && len7 < 128
    requires buf[0] == (if fin then 0x80 else 0) + rsv * 0x10 + op && buf[1] % 0x80 == len7
    requires |buf| >= if len7 == 127 then 14 else if len7 == 126 then 8 else 6
    ensures var f := ParseFrame(buf); var masked := buf[1] >= 0x80; var data := op == 1 || op == 2;
      var b2: int, b3: int := buf[2], buf[3];
      && (f == Bad(BadUnmaskedFrame) <==> !masked)
      && (f == Bad(BadContinuation) <==> masked && op == 0)
      && (f == Bad(BadControlFragment) <==> masked && op > 2 && !fin)
      && (f == Bad(BadControlSize) <==> masked && op > 2 && fin && len7 > 125)
      && (f == Bad(BadReservedBits) <==> masked && op > 0 && rsv > 0 && (data || (fin && len7 <= 125)))
      && (f == Bad(BadSize) <==>
        masked && data && rsv == 0 && (len7 == 127 || (len7 == 126 && !(126 <= b2 * 0x100 + b3 <= 8096))))
  {
    FieldsOf(buf[0], fin, rsv, op);
    var b2: int, b3: int := buf[2], buf[3];
    assert b2 * 0x100 + b3 >= 0;
  }

  lemma FieldsOf(b: Byte, fin: bool, rsv: nat, op: nat)
    requires rsv < 8 && op < 16 && b == (if fin then 0x80 else 0) + rsv * 0x10 + op
    ensures b % 0x10 == op && b / 0x10 % 8 == rsv && (b / 0x80 == 1 <==> fin)
  {
    assert b / 0x10 == (if fin then 8 else 0) + rsv;
  }

  /** When no verdict is against it, the frame is accepted as soon as all of it is there, and waited for before. */
  lemma FrameIsAcceptedIff(buf: seq<Byte>)
    requires !ParseFrame(buf).Bad?
    ensures ParseFrame(buf).Frame? <==>
      && |buf| >= 6
      && var len7 := buf[1] % 0x80; var b2: int, b3: int := buf[2], buf[3];
        |buf| >= if len7 == 127 then 14 else if len7 == 126 then 8 + b2 * 0x100 + b3 else 6 + len7
    ensures var f := ParseFrame(buf); f.Frame? ==>
      && f.op == buf[0] % 0x10 && f.fin == (buf[0] >= 0x80) && f.need == (if buf[1] % 0x80 == 126 then 8 else 6)
      && forall i :: 0 <= i < |f.payload| ==> f.payload[i] == Xor(buf[f.need + i], buf[f.need - 4 + i % 4])
  {
  }

  /** A binary payload is handed on exactly when it begins with a packet whose id is not 0. */
  lemma DeliveredIff(payload: seq<Byte>, m: Message)
    requires |payload| < 0x1_0000_0000
    ensures Delivered(payload) == [m] <==>
            m.id > 0 && |m.body| < 0x1_0000_0000 && PacketBytes(m) <= payload
    ensures Delivered(payload) != [] ==> exists sent :: Delivered(payload) == [sent]
  {
    if DecodePacket(payload, |payload|).Some? {
      EncodeDecoded(payload, |payload|);
    }
    if |m.body| < 0x1_0000_0000 && PacketBytes(m) <= payload {
      var tail := payload[|PacketBytes(m)|..];
      assert payload == PacketBytes(m) + tail;
      DecodeEncoded(m, tail, |payload|);
    }
  }

  /** A frame that is passed over, neither data nor a close, leaves no trace in what is decoded behind it. */
  lemma ControlFrameIsSilent(frame: seq<Byte>, tail: seq<Byte>)
    requires var f := ParseFrame(frame); f.Frame? && f.need + |f.payload| == |frame|
    requires ParseFrame(frame).op !in {1, 2, 8}
    ensures Decoded(frame + tail) == Decoded(tail)
  {
    FrameOfExtension(frame, tail);
    DrainTake(frame, tail, []);
    assert [] + Decoded(tail).out == Decoded(tail).out;
  }

  /** A binary frame hands on what its payload holds, in front of what is decoded behind it. */
  lemma BinaryFrameDelivers(frame: seq<Byte>, tail: seq<Byte>)
    requires var f := ParseFrame(frame); f.Frame? && f.need + |f.payload| == |frame|
    requires ParseFrame(frame).op == 2
    ensures var o := Decoded(tail);
      Decoded(frame + tail) == Outcome(Delivered(ParseFrame(frame).payload) + o.out, o.rest, o.stopped)
  {
    WsCutProgresses();
    FrameOfExtension(frame, tail);
    assert WsCut(frame + tail) == Take(|frame|, Delivered(ParseFrame(frame).payload));
    DrainTake(frame, tail, Delivered(ParseFrame(frame).payload));
  }

  lemma DrainTake(frame: seq<Byte>, tail: seq<Byte>, out: seq<Message>)
    requires frame != [] && WsCut(frame + tail) == Take(|frame|, out)
    ensures var o := Decoded(tail); Decoded(frame + tail) == Outcome(out + o.out, o.rest, o.stopped)
  {
    WsCutProgresses();
    assert (frame + tail)[|frame|..] == tail;
  }

  /** A close frame ends decoding, with its verdict. */
  lemma CloseFrameStops(frame: seq<Byte>, tail: seq<Byte>)
    requires var f := ParseFrame(frame); f.Frame? && f.need + |f.payload| == |frame|
    requires ParseFrame(frame).op == 8
    ensures Decoded(frame + tail) == Outcome([], frame + tail, Some(Closed))
  {
    FrameOfExtension(frame, tail);
  }

  /** The frames of a list of packets, each masked with its own key. */
  function ClientFrames(ms: seq<Message>, keys: seq<seq<Byte>>): seq<Byte>
    requires |keys| == |ms| && Fitting(ms) && forall i :: 0 <= i < |keys| ==> |keys[i]| == 4
  {
    if ms == [] then []
    else ClientFrame(OP_BINARY, PacketBytes(ms[0]), keys[0]) + ClientFrames(ms[1..], keys[1..])
  }

  predicate Fitting(ms: seq<Message>) {
    forall i :: 0 <= i < |ms| ==> ms[i].id > 0 && HEAD_LENGTH + |ms[i].body| <= MAX_PACKAGE_SIZE
  }

  lemma PacketIsDelivered(m: Message)
    requires m.id > 0 && HEAD_LENGTH + |m.body| <= MAX_PACKAGE_SIZE
    ensures Delivered(PacketBytes(m)) == [m]
  {
    assert PacketBytes(m) + [] == PacketBytes(m);
    DecodeEncoded(m, [], |PacketBytes(m)|);
  }

  lemma PacketFrameCut(m: Message, key: seq<Byte>, tail: seq<Byte>)
    requires m.id > 0 && HEAD_LENGTH + |m.body| <= MAX_PACKAGE_SIZE && |key| == 4
    ensures var frame := ClientFrame(OP_BINARY, PacketBytes(m), key);
      WsCut(frame + tail) == Take(|frame|, [m])
  {
    EncodedFrameIsDecoded(PacketBytes(m), key, tail);
    PacketIsDelivered(m);
  }

  lemma {:induction false} FramesArrive(ms: seq<Message>, keys: seq<seq<Byte>>)
    requires |keys| == |ms| && Fitting(ms) && forall i :: 0 <= i < |keys| ==> |keys[i]| == 4
    ensures Decoded(ClientFrames(ms, keys)) == Outcome(ms, [], None)
    decreases |ms|
  {
    if ms != [] {
      var frame, others := ClientFrame(OP_BINARY, PacketBytes(ms[0]), keys[0]), ClientFrames(ms[1..], keys[1..]);
      PacketFrameCut(ms[0], keys[0], others);
      assert (frame + others)[|frame|..] == others;
      FramesArrive(ms[1..], keys[1..]);
      assert [ms[0]] + ms[1..] == ms;
    }
  }

  /** Packets sent as masked binary frames and split anywhere arrive exactly and in order. */
  lemma SplitFramesArrive(ms: seq<Message>, keys: seq<seq<Byte>>, chunks: seq<seq<Byte>>)
    requires |keys| == |ms| && Fitting(ms) && forall i :: 0 <= i < |keys| ==> |keys[i]| == 4
    requires Concat(chunks) == ClientFrames(ms, keys)
    ensures Progress(WsCut)
    ensures FeedAll(WsCut, Outcome([], [], None), chunks) == Outcome(ms, [], None)
  {
    ChunkIndependent(chunks);
    FramesArrive(ms, keys);
  }

  // ------------------------------------------------------------------------------------------
  // Where the source departs
  // ------------------------------------------------------------------------------------------

  /**
   Re-entering DecodeFrame on a text frame sees, after the unmasking, a text frame of the same length
   again; unmasking that one masks it back.
   */
  lemma TextFrameReenters(buf: seq<Byte>)
    requires WsCut(buf) == Stop(TextFrame)
    ensures ParseFrame(buf).Frame?
    ensures WsCut(Unmasked(buf)) == Stop(TextFrame) && |Unmasked(buf)| == |buf|
    ensures Unmasked(Unmasked(buf)) == buf
  {
    var f := ParseFrame(buf);
    UnmaskedFrame(buf);
    PutBack(buf, f.need, |f.payload|, f.payload);
  }

  lemma WsCutMeetsAgain()
    ensures Reentry.MeetsAgain(WsCut, AfterRefusal, TextFrame)
  {
    forall a: seq<Byte> | WsCut(a) == Stop(TextFrame)
      ensures WsCut(AfterRefusal(a)) == Stop(TextFrame)
    {
      TextFrameReenters(a);
    }
  }

  /** However often DecodeFrame re-enters on a text frame it is there, masked and unmasked in turn. */
  lemma TextFrameReentersForever(buf: seq<Byte>, n: nat)
    requires WsCut(buf) == Stop(TextFrame)
    ensures WsCut(Reentry.Again(AfterRefusal, buf, n)) == Stop(TextFrame)
    ensures Reentry.Again(AfterRefusal, buf, n) == if n % 2 == 0 then buf else AfterRefusal(buf)
  {
    WsCutMeetsAgain();
    TextFrameReenters(buf);
    Reentry.AgainAndAgain(WsCut, AfterRefusal, TextFrame, buf, n);
  }

  /** The shortest text frame does it. */
  lemma EmptyTextFrame(key: seq<Byte>)
    requires |key| == 4
    ensures WsCut([0x81, 0x80] + key) == Stop(TextFrame)
  {
  }

  /** What the callback of a text frame leaves to be removed. */
  function FrontFrame(buf: seq<Byte>): nat {
    var f := ParseFrame(buf);
    if f.Frame? then f.need + |f.payload| else 0
  }

  /**
   DecodeFrame with the callbacks it makes, cut off at `n` nested activations: the buffer when it
   returns, None when it has not. A text frame is handed on before it is removed, and the callback
   (src/plugin/core/net/ws_module.cc:249-255) decodes the same buffer.
   */
  ghost function Returned(buf: seq<Byte>, n: nat): Option<seq<Byte>> {
    WsCutProgresses();
    Reentry.Returned(WsCut, AfterRefusal, FrontFrame, TextFrame, buf, n)
  }

  /** At some depth it returns. */
  ghost predicate DecodeReturns(buf: seq<Byte>) {
    WsCutProgresses();
    Reentry.Returns(WsCut, AfterRefusal, FrontFrame, TextFrame, buf)
  }

  /** The buffer DecodeFrame leaves when it returns. */
  ghost function LeftBy(buf: seq<Byte>): seq<Byte> {
    WsCutProgresses();
    Reentry.LeftBy(WsCut, AfterRefusal, buf)
  }

  /** A whole frame that is accepted and removed: neither a close nor a text frame. */
  predicate IsPassed(frame: seq<Byte>) {
    var f := ParseFrame(frame);
    f.Frame? && f.need + |f.payload| == |frame| && f.op != OP_CLOSE && f.op != OP_TEXT
  }

  predicate StartsWithText(buf: seq<Byte>) {
    ParseFrame(buf).Frame? && ParseFrame(buf).op == OP_TEXT
  }

  lemma PassedIsTaken(frame: seq<Byte>)
    ensures IsPassed(frame) <==> WsCut(frame).Take? && WsCut(frame).len == |frame|
    ensures StartsWithText(frame) <==> WsCut(frame) == Stop(TextFrame)
  {
    if ParseFrame(frame).Bad? {
      NotTheMarker(frame);
    }
  }

  lemma NotTheMarker(buf: seq<Byte>)
    ensures ParseFrame(buf) != Bad(TextFrame) && ParseFrame(buf) != Bad(Closed)
  {
  }

  /** The buffer is frames that pass, then a text frame, then anything. */
  ghost predicate ReachesText(buf: seq<Byte>) {
    Reentry.Reaches(WsCut, TextFrame, buf)
  }

  lemma WsCutIsClosed()
    ensures Reentry.Closed(WsCut)
  {
    forall a: seq<Byte> | WsCut(a).Take? && WsCut(a).len <= |a|
      ensures WsCut(a[..WsCut(a).len]) == WsCut(a)
    {
      FrameWithoutRest(a);
    }
  }

  lemma FrameWithoutRest(buf: seq<Byte>)
    requires ParseFrame(buf).Frame?
    ensures ParseFrame(buf[..FrontFrame(buf)]) == ParseFrame(buf)
  {
    var n, len7 := FrontFrame(buf), buf[1] % 0x80;
    var front := buf[..n];
    assert front[0] == buf[0] && front[1] == buf[1] && front[2] == buf[2] && front[3] == buf[3];
    assert RealLength(front, len7) == RealLength(buf, len7);
    assert front + buf[n..] == buf;
    FrameOfExtension(front, buf[n..]);
  }

  /** The marker verdict stands for exactly the buffers in which a text frame comes behind frames that pass. */
  lemma MarkerIff(buf: seq<Byte>)
    ensures Decoded(buf).stopped == Some(TextFrame) <==> ReachesText(buf)
  {
    WsCutProgresses();
    WsCutIsClosed();
    WsCutIsStable(|buf| + 1);
    Reentry.ReachesIff(WsCut, TextFrame, buf);
  }

  /**
   DecodeFrame returns, at some depth, if and only if no text frame comes behind frames that pass; and
   then it leaves what the model leaves.
   */
  lemma DecodeReturnsIff(buf: seq<Byte>)
    ensures DecodeReturns(buf) <==> !ReachesText(buf)
    ensures !ReachesText(buf) ==> Returned(buf, |buf| + 1) == Some(LeftBy(buf))
    ensures LeftBy(buf) == AfterRefusal(Decoded(buf).rest)
  {
    WsCutProgresses();
    WsCutIsClosed();
    WsCutIsStable(|buf| + 1);
    WsCutMeetsAgain();
    Reentry.ReturnsIff(WsCut, AfterRefusal, FrontFrame, TextFrame, buf);
    DecodedLeaves(buf);
  }

  lemma PutBack(buf: seq<Byte>, at: nat, n: nat, other: seq<Byte>)
    requires at + n <= |buf| && |other| == n
    ensures var changed := buf[..at] + other + buf[at + n..];
      changed[..at] + buf[at..at + n] + changed[at + n..] == buf
  {
  }

  lemma UnmaskedFrame(buf: seq<Byte>)
    requires ParseFrame(buf).Frame?
    ensures var f := ParseFrame(buf);
      ParseFrame(Unmasked(buf)) == Frame(f.fin, f.op, buf[f.need..f.need + |f.payload|], f.need)
  {
    var f := ParseFrame(buf);
    var again, n := Unmasked(buf), |f.payload|;
    var raw, key := buf[f.need..f.need + n], buf[f.need - 4..f.need];
    Replaced(buf, f.need, n, f.payload);
    SameHeader(buf, again);
    assert ParseFrame(again).payload == Masked(f.payload, key);
    assert f.payload == Masked(raw, key) by {
      PayloadIsMasked(buf);
    }
    MaskedTwice(raw, key);
  }

  lemma Replaced(buf: seq<Byte>, at: nat, n: nat, other: seq<Byte>)
    requires at + n <= |buf| && |other| == n
    ensures var changed := buf[..at] + other + buf[at + n..];
      changed[..at] == buf[..at] && changed[at..at + n] == other
  {
  }

  lemma PayloadIsMasked(buf: seq<Byte>)
    requires ParseFrame(buf).Frame?
    ensures var f := ParseFrame(buf);
      f.payload == Masked(buf[f.need..f.need + |f.payload|], buf[f.need - 4..f.need])
  {
  }

  lemma SameHeader(buf: seq<Byte>, again: seq<Byte>)
    requires ParseFrame(buf).Frame? && |again| == |buf|
    requires again[..ParseFrame(buf).need] == buf[..ParseFrame(buf).need]
    ensures var f := ParseFrame(buf); var n := |f.payload|;
      ParseFrame(again) == Frame(f.fin, f.op, Masked(again[f.need..f.need + n], buf[f.need - 4..f.need]), f.need)
  {
    var f := ParseFrame(buf);
    assert forall i :: 0 <= i < f.need ==> again[i] == again[..f.need][i] == buf[..f.need][i] == buf[i];
    assert RealLength(again, buf[1] % 0x80) == RealLength(buf, buf[1] % 0x80);
    assert again[f.need - 4..f.need] == buf[f.need - 4..f.need];
  }

  /**
   conn_readcb in stream mode (src/plugin/core/net/net.cc:139-148) around an open connection:
   after the callback it asks for the length from before the callback to be removed, which
   RemoveBuff refuses as soon as one frame was consumed and obeys otherwise. The verdict TextFrame
   says that the callback does not return (see MarkerIff), and then nothing is promised.
   */
  method StreamReadCb(ws: WSModule, netObject: NetStream.NetObject, data: seq<Byte>) returns (ec: Option<Verdict>)
    requires |netObject.ringBuff| + |data| < INT32_LIMIT
    modifies ws, netObject
    ensures old(netObject.needRemove) ==>
      netObject.ringBuff == old(netObject.ringBuff) && ws.delivered == old(ws.delivered) && netObject.needRemove
    ensures !old(netObject.needRemove) ==> var buf := old(netObject.ringBuff) + data;
      && ec == Decoded(buf).stopped
      && (ec != Some(TextFrame) ==>
        && ws.delivered == old(ws.delivered) + Decoded(buf).out
        && netObject.needRemove == ec.Some?
        && (ec.None? ==> netObject.ringBuff == KeptByStreamMode(buf)))
  {
    ec := None;
    if netObject.needRemove {
      return;
    }
    var n := netObject.AddBuff(data);
    var len := |netObject.ringBuff|;
    DecodedLeaves(netObject.ringBuff);
    if len > 0 {
      ec := ws.DecodeFrame(netObject);
      AfterStreamCallback(netObject, len, ec);
    }
  }

  /** What conn_readcb does once the callback is back: OnError has closed the connection after an error. */
  method AfterStreamCallback(netObject: NetStream.NetObject, len: nat, ec: Option<Verdict>)
    requires !netObject.needRemove && |netObject.ringBuff| <= len < INT32_LIMIT
    modifies netObject
    ensures netObject.needRemove == ec.Some?
    ensures netObject.ringBuff == if |old(netObject.ringBuff)| < len then old(netObject.ringBuff) else []
  {
    if ec.Some? {
      netObject.needRemove := true;
    }
    var left := netObject.RemoveBuff(0, len);
  }

  lemma DecodedLeaves(buf: seq<Byte>)
    ensures var o := Decoded(buf);
      && |AfterRefusal(o.rest)| == |o.rest| <= |buf|
      && (o.stopped.None? ==> AfterRefusal(o.rest) == o.rest)
      && KeptByStreamMode(buf) == if |o.rest| < |buf| then o.rest else []
    ensures Decoded([]) == Outcome([], [], None)
  {
    WsCutProgresses();
    DrainRest(WsCut, buf);
  }

  ghost function KeptByStreamMode(buf: seq<Byte>): seq<Byte> {
    WsCutProgresses();
    StreamMode.Kept(WsCut, buf)
  }

  /**
   A read that ends in the middle of a frame keeps the unfinished octets exactly when it also
   completed a frame; the beginning of a connection's first incomplete frame is thrown away.
   */
  lemma StreamModeKeepsTailIff(buf: seq<Byte>)
    requires Decoded(buf).stopped.None? && buf != []
    ensures KeptByStreamMode(buf) == Decoded(buf).rest <==> WsCut(buf).Take?
    ensures !WsCut(buf).Take? ==> KeptByStreamMode(buf) == []
  {
    WsCutProgresses();
    StreamMode.KeepsTailIff(WsCut, buf);
  }

  /** The first octet of a frame, read alone, is gone. */
  lemma FirstOctetIsDropped(b: Byte)
    ensures Decoded([b]) == Outcome([], [b], None) && KeptByStreamMode([b]) == []
  {
    WsCutProgresses();
  }

  /**
   Over any chunks stream mode delivers, keeps and answers after every read what it would without its
   removal if and only if every read that finds octets in the buffer completes a frame or is refused; and
   then it ends as with all octets in one piece.
   */
  lemma StreamLosesNothingIff(chunks: seq<seq<Byte>>)
    ensures Progress(WsCut)
    ensures StreamMode.AlwaysSame(WsCut, chunks) <==> StreamMode.NeverStranded(WsCut, chunks)
    ensures StreamMode.NeverStranded(WsCut, chunks) ==>
      Agree(StreamMode.Reads(WsCut, chunks), Drain(WsCut, Concat(chunks)))
  {
    WsCutProgresses();
    WsCutIsStable(|Concat(chunks)| + 1);
    StreamMode.LosesNothingIff(WsCut, chunks);
    if StreamMode.NeverStranded(WsCut, chunks) {
      StreamMode.EndsAsOnePiece(WsCut, chunks);
    }
  }
}
