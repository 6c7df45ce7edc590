/**
 * Sending a payload to the connected BLE client: the bytes go out as
 * notifications on the TX characteristic, in chunks of at most 480 bytes,
 * with a 10 ms pause between consecutive chunks. Radio set-up, the
 * connection callbacks and the notify call itself are not modelled; a
 * chunk stands for one setValue + notify.
 */
module BleSend {
  import opened Common

  const CHUNK_SIZE: nat := 480
  /** ble_comm_send takes the length as a uint16_t. */
  const LEN_LIMIT: nat := 0x1_0000

  /** The receiver's view: the chunks put back together in order. */
  function Flatten(chunks: seq<seq<byte>>): seq<byte>
    decreases |chunks|
  {
    if |chunks| == 0 then [] else chunks[0] + Flatten(chunks[1..])
  }

  /** The chunking of s: full 480-byte chunks from the front, the rest in
      a last, shorter one. */
  function ChunksOf(s: seq<byte>): (r: seq<seq<byte>>)
    ensures Flatten(r) == s
    ensures |s| == 0 <==> |r| == 0
    ensures forall k :: 0 <= k < |r| ==> 1 <= |r[k]| <= CHUNK_SIZE
    ensures forall k :: 0 <= k < |r| - 1 ==> |r[k]| == CHUNK_SIZE
    decreases |s|
  {
    if |s| == 0 then []
    else
      var n := Min(CHUNK_SIZE, |s|);
      var rest := ChunksOf(s[n..]);
      assert s[..n] + s[n..] == s;
      [s[..n]] + rest
  }

  /** There are ceil(|s| / 480) chunks. */
  lemma {:induction false} ChunkCount(s: seq<byte>)
    ensures |ChunksOf(s)| == (|s| + CHUNK_SIZE - 1) / CHUNK_SIZE
    decreases |s|
  {
    if |s| > 0 {
      var n := Min(CHUNK_SIZE, |s|);
      ChunkCount(s[n..]);
      assert |ChunksOf(s)| == 1 + |ChunksOf(s[n..])|;
    }
  }

  /** One pass of the send loop: the chunk taken at offset is the first
      chunk of what remains. */
  lemma NextChunk(data: seq<byte>, offset: nat, len: nat, chunkLen: nat, chunks: seq<seq<byte>>)
    requires offset < len <= |data| && chunkLen == Min(CHUNK_SIZE, len - offset)
    ensures chunks + ChunksOf(data[offset..len])
         == chunks + [data[offset..offset + chunkLen]] + ChunksOf(data[offset + chunkLen..len])
  {
    var s := data[offset..len];
    assert s[..chunkLen] == data[offset..offset + chunkLen];
    assert s[chunkLen..] == data[offset + chunkLen..len];
    assert ChunksOf(s) == [s[..chunkLen]] + ChunksOf(s[chunkLen..]);
  }

  /** What one ble_comm_send call does: the chunks notified, the pauses
      taken, and the chunk count it computes for its trace message. */
  datatype Sent = Sent(chunks: seq<seq<byte>>, pauses: nat, count: nat)

  /** ble_comm_send(data, len). `connected` is is_connected and `hasTx`
      whether the TX characteristic exists. */
  method Send(connected: bool, hasTx: bool, data: seq<byte>, len: nat) returns (r: Sent)
    requires len < LEN_LIMIT && len <= |data|
    ensures !connected || !hasTx ==> r.chunks == [] && r.pauses == 0
    ensures connected && hasTx ==>
              && r.chunks == ChunksOf(data[..len])
              && r.count == |r.chunks|
              && r.pauses == (if |r.chunks| == 0 then 0 else |r.chunks| - 1)
  {
    if !connected || !hasTx {
      return Sent([], 0, 0);
    }
    var offset := 0;
    var count := (len + CHUNK_SIZE - 1) / CHUNK_SIZE;
    var chunks: seq<seq<byte>> := [];
    var pauses := 0;
    while offset < len
      invariant 0 <= offset <= len
      invariant chunks + ChunksOf(data[offset..len]) == ChunksOf(data[..len])
      invariant offset < len ==> pauses == |chunks|
      invariant offset == len ==> pauses == (if |chunks| == 0 then 0 else |chunks| - 1)
    {
      var chunkLen := if len - offset > CHUNK_SIZE then CHUNK_SIZE else len - offset;
      var chunk := data[offset..offset + chunkLen];
      NextChunk(data, offset, len, chunkLen, chunks);
      ghost var rest := data[offset + chunkLen..len];
      assert (chunks + [chunk]) + ChunksOf(rest) == ChunksOf(data[..len]);
      chunks := chunks + [chunk];
      offset := offset + chunkLen;
      assert data[offset..len] == rest;
      if offset < len {
        pauses := pauses + 1;
      }
    }
    assert data[len..len] == [];
    assert chunks + [] == chunks;
    ChunkCount(data[..len]);
    r := Sent(chunks, pauses, count);
  }

  /** The client gets back exactly the first len bytes, in chunks of 1 to
      480 bytes, every chunk but the last a full one; an empty payload
      sends nothing. */
  lemma SendDelivers(data: seq<byte>, len: nat)
    requires len < LEN_LIMIT && len <= |data|
    ensures Flatten(ChunksOf(data[..len])) == data[..len]
    ensures len == 0 <==> ChunksOf(data[..len]) == []
    ensures len > CHUNK_SIZE ==> |ChunksOf(data[..len])| >= 2
  {
    var cs := ChunksOf(data[..len]);
    if len == 0 {
      assert |cs| == 0;
    } else {
      assert |cs| >= 1;
    }
  }
}
