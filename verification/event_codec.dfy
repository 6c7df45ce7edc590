/**
 * Encoder half of the event message protocol: byte stuffing, the 7-byte
 * header, and the frame layout
 *   SOH, stuffed header, STX, stuffed name, US, stuffed data, EOT.
 */
module EventCodec {
  import opened Common

  /** Frame start. Not defined in the protocol header that the encoder
      includes; chosen as ASCII SOH, distinct from the other control bytes,
      and 0x01 ^ 0x20 = 0x21 is not a control byte. */
  const SOH: byte := 0x01
  const STX: byte := 0x02
  const US: byte := 0x1F
  const EOT: byte := 0x04
  const ESC: byte := 0x1B
  const ESC_XOR: byte := 0x20

  /** The message counter is a uint16_t. */
  const MSG_ID_MOD: nat := 0x1_0000

  /** Logical header fields the encoder always sends. */
  const SENDER_ID: byte := 1
  const RECEIVER_ID: byte := 0
  const SENDER_GROUP_ID: byte := 0
  const RECEIVER_GROUP_ID: byte := 0
  const FLAGS: byte := 0

  /** The five byte values that must never appear raw inside a field. */
  predicate NeedsStuffing(b: byte) {
    b == SOH || b == STX || b == US || b == EOT || b == ESC
  }

  /** The four bytes that delimit a frame (the escape byte is not one). */
  predicate IsDelimiter(b: byte) {
    b == SOH || b == STX || b == US || b == EOT
  }

  /** A sequence in which no delimiter occurs raw. */
  predicate DelimiterFree(s: seq<byte>) {
    forall i :: 0 <= i < |s| ==> !IsDelimiter(s[i])
  }

  function StuffByte(b: byte): (r: seq<byte>)
    ensures |r| == 2 <==> NeedsStuffing(b)
    ensures |r| == 1 <==> !NeedsStuffing(b)
    ensures DelimiterFree(r)
    ensures |r| == 2 ==> r[0] == ESC && r[1] ^ ESC_XOR == b
    ensures |r| == 1 ==> r[0] == b && r[0] != ESC
  {
    if NeedsStuffing(b) then [ESC, b ^ ESC_XOR] else [b]
  }

  /** Byte-stuffs every byte of `s`, in order. */
  function Stuff(s: seq<byte>): (r: seq<byte>)
    ensures |s| <= |r| <= 2 * |s|
    ensures DelimiterFree(r)
  {
    if |s| == 0 then [] else StuffByte(s[0]) + Stuff(s[1..])
  }

  /** Reference inverse of stuffing: an escape byte unmasks its successor. */
  function Unstuff(t: seq<byte>): seq<byte>
  {
    if |t| == 0 then []
    else if t[0] == ESC && |t| >= 2 then [t[1] ^ ESC_XOR] + Unstuff(t[2..])
    else [t[0]] + Unstuff(t[1..])
  }

  lemma {:induction false} UnstuffStuff(s: seq<byte>)
    ensures Unstuff(Stuff(s)) == s
  {
    if |s| > 0 {
      var h := StuffByte(s[0]);
      assert Stuff(s) == h + Stuff(s[1..]);
      UnstuffStuff(s[1..]);
      if NeedsStuffing(s[0]) {
        assert (h + Stuff(s[1..]))[2..] == Stuff(s[1..]);
      } else {
        assert (h + Stuff(s[1..]))[1..] == Stuff(s[1..]);
      }
    }
  }

  lemma {:induction false} StuffAppend(a: seq<byte>, b: seq<byte>)
    ensures Stuff(a + b) == Stuff(a) + Stuff(b)
  {
    if |a| == 0 {
      assert a + b == b;
    } else {
      assert (a + b)[0] == a[0];
      assert (a + b)[1..] == a[1..] + b;
      StuffAppend(a[1..], b);
    }
  }

  /** The seven logical header bytes, message id big-endian. */
  function HeaderFields(senderId: byte, receiverId: byte, senderGroupId: byte,
                        receiverGroupId: byte, flags: byte, messageId: nat): (h: seq<byte>)
    requires messageId < MSG_ID_MOD
    ensures |h| == 7
    ensures ((h[5] as bv16) << 8) | (h[6] as bv16) == messageId as bv16
    ensures h[..5] == [senderId, receiverId, senderGroupId, receiverGroupId, flags]
  {
    var m := messageId as bv16;
    [senderId, receiverId, senderGroupId, receiverGroupId, flags, (m >> 8) as bv8, (m & 0xFF) as bv8]
  }

  /** create_header: each logical header byte stuffed on its own. */
  function CreateHeader(senderId: byte, receiverId: byte, senderGroupId: byte,
                        receiverGroupId: byte, flags: byte, messageId: nat): (r: seq<byte>)
    requires messageId < MSG_ID_MOD
    ensures 7 <= |r| <= 14
    ensures DelimiterFree(r)
    ensures Unstuff(r) == HeaderFields(senderId, receiverId, senderGroupId, receiverGroupId, flags, messageId)
  {
    var h := HeaderFields(senderId, receiverId, senderGroupId, receiverGroupId, flags, messageId);
    UnstuffStuff(h);
    Stuff(h)
  }

  /** The header event_msg_encode always writes. */
  function FrameHeader(messageId: nat): (r: seq<byte>)
    requires messageId < MSG_ID_MOD
    ensures 8 <= |r| <= 14
    ensures DelimiterFree(r)
  {
    var r := CreateHeader(SENDER_ID, RECEIVER_ID, SENDER_GROUP_ID, RECEIVER_GROUP_ID, FLAGS, messageId);
    assert NeedsStuffing(SENDER_ID);
    var h := HeaderFields(SENDER_ID, RECEIVER_ID, SENDER_GROUP_ID, RECEIVER_GROUP_ID, FLAGS, messageId);
    assert Stuff(h) == StuffByte(h[0]) + Stuff(h[1..]);
    r
  }

  /** Frame body after the header: STX, name, US, data, EOT. */
  function FrameBody(name: seq<byte>, data: seq<byte>): seq<byte>
  {
    [STX] + Stuff(CPrefix(name)) + [US] + Stuff(data) + [EOT]
  }

  /** event_msg_encode: the name is read as a C string (it stops at NUL). */
  function EncodeFrame(name: seq<byte>, data: seq<byte>, messageId: nat): (r: seq<byte>)
    requires messageId < MSG_ID_MOD
    ensures 4 + 8 + |CPrefix(name)| + |data| <= |r| <= 4 + 14 + 2 * |CPrefix(name)| + 2 * |data|
    ensures r[0] == SOH && r[|r| - 1] == EOT
  {
    [SOH] + FrameHeader(messageId) + FrameBody(name, data)
  }

  /** The wrapping 16-bit message counter. */
  datatype Encoder = Encoder(nextMessageId: nat)
  {
    ghost predicate Valid() { nextMessageId < MSG_ID_MOD }

    /** The uint16_t increment after each encoded frame. */
    function Next(): (r: Encoder)
      ensures Valid() ==> r.Valid()
      ensures nextMessageId + 1 < MSG_ID_MOD ==> r.nextMessageId == nextMessageId + 1
      ensures nextMessageId + 1 == MSG_ID_MOD ==> r.nextMessageId == 0
    {
      Encoder((nextMessageId + 1) % MSG_ID_MOD)
    }
  }

  datatype Encoded = Encoded(frame: seq<byte>, encoder: Encoder)

  /** Encoding uses the current id as the header's message id, then bumps
      the counter modulo 2^16. */
  function Encode(e: Encoder, name: seq<byte>, data: seq<byte>): (r: Encoded)
    requires e.Valid()
    ensures r.encoder.Valid()
    ensures r.encoder == e.Next()
    ensures |r.frame| > 0 && r.frame[0] == SOH && r.frame[|r.frame| - 1] == EOT
    ensures r.frame == EncodeFrame(name, data, e.nextMessageId)
  {
    Encoded(EncodeFrame(name, data, e.nextMessageId), e.Next())
  }

  /** The header bytes of an encoded frame unstuff to the logical header,
      which carries the message id big-endian in its last two bytes. */
  lemma FrameCarriesMessageId(name: seq<byte>, data: seq<byte>, messageId: nat)
    requires messageId < MSG_ID_MOD
    ensures var f := EncodeFrame(name, data, messageId);
            var h := Unstuff(f[1..|FrameHeader(messageId)| + 1]);
            && h == HeaderFields(SENDER_ID, RECEIVER_ID, SENDER_GROUP_ID, RECEIVER_GROUP_ID, FLAGS, messageId)
            && ((h[5] as bv16) << 8) | (h[6] as bv16) == messageId as bv16
  {
    var f := EncodeFrame(name, data, messageId);
    assert f[1..|FrameHeader(messageId)| + 1] == FrameHeader(messageId);
  }
}
