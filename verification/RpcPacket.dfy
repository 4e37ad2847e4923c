/**
 The 9-byte packet head Flag(1) | MsgID(4) | MsgSize(4) of src/plugin/core/net/i_net.h and the
 packet codec of Net::EnCode / Net::DeCode (src/plugin/core/net/net.cc), which WSModule repeats.
 */
module RpcPacket {
  import opened Bytes
  import opened Wrappers

  const HEAD_LENGTH := 9
  const FLAG: Byte := 0x53

  datatype Head = Head(msgId: UInt32, size: UInt32)

  /** One message as the receive callback sees it. */
  datatype Message = Message(id: UInt32, body: seq<Byte>)

  /** The wire image of a head. */
  function HeadBytes(h: Head): (s: seq<Byte>)
    ensures |s| == HEAD_LENGTH
  {
    [FLAG] + BigEndian32(h.msgId) + BigEndian32(h.size)
  }

  /** What a head parses to; None when the flag byte is wrong. */
  function ParseHead(data: seq<Byte>): Option<Head>
    requires |data| >= HEAD_LENGTH
  {
    if data[0] != FLAG then None
    else Some(Head(FromBigEndian32(data[1..5]), FromBigEndian32(data[5..9])))
  }

  lemma HeadRoundTrip(h: Head, tail: seq<Byte>)
    ensures ParseHead(HeadBytes(h) + tail) == Some(h)
  {
    var data := HeadBytes(h) + tail;
    assert data[1..5] == BigEndian32(h.msgId);
    assert data[5..9] == BigEndian32(h.size);
    BigEndian32RoundTrip(h.msgId);
    BigEndian32RoundTrip(h.size);
  }

  lemma ParsedHeadBytes(data: seq<Byte>)
    requires |data| >= HEAD_LENGTH && ParseHead(data).Some?
    ensures HeadBytes(ParseHead(data).value) == data[..HEAD_LENGTH]
  {
    FromBigEndian32RoundTrip(data[1..5]);
    FromBigEndian32RoundTrip(data[5..9]);
    assert data[..9] == [data[0]] + data[1..5] + data[5..9];
  }

  class RpcHead {
    var msgId: UInt32
    var size: UInt32

    constructor ()
      ensures msgId == 0 && size == 0
    {
      msgId, size := 0, 0;
    }

    /** Writes the head into the first nine bytes of `data`, leaving the others alone. */
    method EnCode(data: array<Byte>) returns (offset: nat)
      requires data.Length >= HEAD_LENGTH
      modifies data
      ensures offset == HEAD_LENGTH
      ensures data[..] == HeadBytes(Head(msgId, size)) + old(data[HEAD_LENGTH..])
    {
      offset := 0;
      data[offset] := FLAG;
      offset := offset + 1;
      var netId := BigEndian32(msgId);
      data[offset], data[offset + 1], data[offset + 2], data[offset + 3] := netId[0], netId[1], netId[2], netId[3];
      offset := offset + 4;
      var netSize := BigEndian32(size);
      data[offset], data[offset + 1], data[offset + 2], data[offset + 3] := netSize[0], netSize[1], netSize[2], netSize[3];
      offset := offset + 4;
    }

    /** Returns 0 and keeps the fields when the flag byte is wrong, else 9. */
    method DeCode(data: seq<Byte>) returns (offset: nat)
      requires |data| >= HEAD_LENGTH
      modifies this
      ensures ParseHead(data).None? ==> offset == 0 && msgId == old(msgId) && size == old(size)
      ensures ParseHead(data).Some? ==> offset == HEAD_LENGTH && Head(msgId, size) == ParseHead(data).value
    {
      offset := 0;
      if data[offset] != FLAG {
        return;
      }
      offset := offset + 1;
      msgId := FromBigEndian32(data[offset..offset + 4]);
      offset := offset + 4;
      size := FromBigEndian32(data[offset..offset + 4]);
      offset := offset + 4;
    }
  }

  /** The bytes Net::EnCode emits for a message. */
  function PacketBytes(m: Message): seq<Byte>
    requires |m.body| < 0x1_0000_0000
  {
    HeadBytes(Head(m.id, |m.body|)) + m.body
  }

  /**
   What Net::DeCode accepts: a full head with the right flag whose body is inside the first
   `allLen` bytes, as the message it stands for.
   */
  function DecodePacket(data: seq<Byte>, allLen: nat): (r: Option<Message>)
    requires allLen <= |data|
    ensures r.Some? ==> HEAD_LENGTH + |r.value.body| <= allLen
  {
    if allLen < HEAD_LENGTH then None
    else if ParseHead(data).None? then None
    else
      var h := ParseHead(data).value;
      if h.size > allLen - HEAD_LENGTH then None
      else Some(Message(h.msgId, data[HEAD_LENGTH..HEAD_LENGTH + h.size]))
  }

  /**
   Net::DeCode: the body length as an int, or -1, -2, -3 for a short head, a wrong flag, a short body.
   Lengths of 2^31 and more come out negative, but never as one of those three.
   */
  method DeCode(data: seq<Byte>, allLen: UInt32, head: RpcHead) returns (r: int)
    requires allLen <= |data|
    modifies head
    ensures DecodePacket(data, allLen).Some? ==>
      var m := DecodePacket(data, allLen).value;
      r == AsInt32(|m.body|) && head.msgId == m.id
    ensures DecodePacket(data, allLen).Some? <==> r !in {-1, -2, -3}
    ensures allLen < INT32_LIMIT ==> (DecodePacket(data, allLen).Some? <==> r >= 0)
    ensures r == -1 <==> allLen < HEAD_LENGTH
    ensures r == -2 <==> allLen >= HEAD_LENGTH && data[0] != FLAG
    ensures r == -3 <==> allLen >= HEAD_LENGTH && data[0] == FLAG && ParseHead(data).value.size > allLen - HEAD_LENGTH
  {
    if allLen < HEAD_LENGTH {
      return -1;
    }
    var n := head.DeCode(data);
    if HEAD_LENGTH != n {
      return -2;
    }
    if head.size > allLen - HEAD_LENGTH {
      return -3;
    }
    return AsInt32(head.size);
  }

  /** Net::EnCode: a head for the 32-bit length, then that many bytes; the result is an `int`. */
  method EnCode(msgId: UInt32, data: seq<Byte>, dataLen: UInt32) returns (all: int, out: seq<Byte>)
    requires dataLen <= |data|
    ensures out == PacketBytes(Message(msgId, data[..dataLen]))
    ensures all == AsInt32(dataLen + HEAD_LENGTH)
  {
    var head := new RpcHead();
    head.msgId := msgId;
    head.size := dataLen;
    var headBuf := new Byte[HEAD_LENGTH](_ => 0);
    var n := head.EnCode(headBuf);
    out := [];
    out := out + headBuf[..];
    out := out + data[..dataLen];
    all := AsInt32(head.size + HEAD_LENGTH);
  }

  /** A packet octet by octet: the letter S, the id and the body's length, highest octets first, the body. */
  lemma PacketLayout(m: Message)
    requires |m.body| < 0x1_0000_0000
    ensures var p := PacketBytes(m);
      && |p| == 9 + |m.body| && p[0] == 'S' as int
      && m.id == p[1] as int * 0x100_0000 + p[2] as int * 0x1_0000 + p[3] as int * 0x100 + p[4] as int
      && |m.body| == p[5] as int * 0x100_0000 + p[6] as int * 0x1_0000 + p[7] as int * 0x100 + p[8] as int
      && p[9..] == m.body
  {
    BigEndian32RoundTrip(m.id);
    BigEndian32RoundTrip(|m.body|);
  }

  lemma DecodeEncoded(m: Message, tail: seq<Byte>, allLen: nat)
    requires |m.body| < 0x1_0000_0000
    requires |PacketBytes(m)| <= allLen <= |PacketBytes(m) + tail|
    ensures DecodePacket(PacketBytes(m) + tail, allLen) == Some(m)
  {
    var data := PacketBytes(m) + tail;
    HeadRoundTrip(Head(m.id, |m.body|), m.body + tail);
    assert data == HeadBytes(Head(m.id, |m.body|)) + (m.body + tail);
    assert data[HEAD_LENGTH..HEAD_LENGTH + |m.body|] == m.body;
  }

  lemma EncodeDecoded(data: seq<Byte>, allLen: nat)
    requires allLen <= |data| && DecodePacket(data, allLen).Some?
    ensures var m := DecodePacket(data, allLen).value;
      |m.body| < 0x1_0000_0000 && |PacketBytes(m)| <= allLen && PacketBytes(m) == data[..|PacketBytes(m)|]
  {
    ParsedHeadBytes(data);
  }
}
