/**
 * Decoder half of the event message protocol: a five-state machine that
 * consumes one byte per call and completes a frame at EOT.
 */
module EventDecoder {
  import opened Common
  import opened EventCodec

  datatype Mode = Idle | WaitStx | ReadName | ReadData | Escape

  /** decoder_state, event_name, event_data and in_name_section. */
  datatype Decoder = Decoder(mode: Mode, name: seq<byte>, data: seq<byte>, inNameSection: bool)
  {
    /** The section flag agrees with the section being read; every state the
        decoder reaches from a reset satisfies this. */
    ghost predicate Valid() {
      && (mode == ReadName ==> inNameSection)
      && (mode == ReadData ==> !inNameSection)
    }
  }

  /** The state after event_msg_init or event_msg_reset
      (src/core/event_msg.cpp:188-191 and 237-243). */
  const Fresh: Decoder := Decoder(Idle, [], [], true)

  /** A frame completed by EOT: the accumulated name and data. */
  datatype Frame = Frame(name: seq<byte>, data: seq<byte>)

  datatype StepResult = StepResult(dec: Decoder, done: Option<Frame>)

  /** The state after an STX: name capture restarts with empty buffers. */
  const NameStart: Decoder := Decoder(ReadName, [], [], true)

  /** event_msg_feed_byte, without the dispatch (see EventMsg.FeedByte). */
  function Step(d: Decoder, b: byte): (r: StepResult)
    ensures d.Valid() ==> r.dec.Valid()
    // a frame completes exactly at a raw EOT in the data section, and the
    // decoder is then back to its reset state
    ensures r.done.Some? <==> d.mode == ReadData && b == EOT
    ensures r.done.Some? ==> r.done.value == Frame(d.name, d.data) && r.dec == Fresh
    // SOH aborts any frame in progress, unless it is the escaped byte
    ensures b == SOH && d.mode != Escape ==> r.dec.mode == WaitStx
    // STX after the header, or inside a frame, restarts name capture
    ensures b == STX && d.mode in {WaitStx, ReadName, ReadData} ==> r.dec == NameStart
    // malformed input is absorbed: EOT in a name and US in data are content
    ensures d.mode == ReadName && b == EOT ==> r.dec == d.(name := d.name + [EOT])
    ensures d.mode == ReadData && b == US ==> r.dec == d.(data := d.data + [US])
    // after an escape, any byte at all is unmasked into the active section
    ensures d.mode == Escape && d.inNameSection ==>
              r.dec == d.(mode := ReadName, name := d.name + [b ^ ESC_XOR])
    ensures d.mode == Escape && !d.inNameSection ==>
              r.dec == d.(mode := ReadData, data := d.data + [b ^ ESC_XOR])
  {
    match d.mode
    case Idle =>
      if b == SOH then StepResult(d.(mode := WaitStx), None)
      else StepResult(d, None)
    case WaitStx =>
      if b == STX then StepResult(NameStart, None)
      else if b == SOH then StepResult(d.(mode := WaitStx), None)
      else StepResult(d, None)
    case ReadName =>
      if b == ESC then StepResult(d.(mode := Escape), None)
      else if b == US then StepResult(d.(mode := ReadData, inNameSection := false), None)
      else if b == SOH then StepResult(d.(mode := WaitStx), None)
      else if b == STX then StepResult(NameStart, None)
      else StepResult(d.(name := d.name + [b]), None)
    case ReadData =>
      if b == ESC then StepResult(d.(mode := Escape), None)
      else if b == EOT then StepResult(Fresh, Some(Frame(d.name, d.data)))
      else if b == SOH then StepResult(d.(mode := WaitStx), None)
      else if b == STX then StepResult(NameStart, None)
      else StepResult(d.(data := d.data + [b]), None)
    case Escape =>
      var u := b ^ ESC_XOR;
      if d.inNameSection then StepResult(d.(mode := ReadName, name := d.name + [u]), None)
      else StepResult(d.(mode := ReadData, data := d.data + [u]), None)
  }

  datatype FeedResult = FeedResult(dec: Decoder, frames: seq<Frame>)

  function FramesOf(o: Option<Frame>): seq<Frame>
  {
    if o.Some? then [o.value] else []
  }

  /** event_msg_feed_bytes: one Step per byte, in order. */
  function FeedAll(d: Decoder, bs: seq<byte>): (r: FeedResult)
    ensures |r.frames| <= |bs|
    decreases |bs|
  {
    if |bs| == 0 then FeedResult(d, [])
    else
      var s := Step(d, bs[0]);
      var rest := FeedAll(s.dec, bs[1..]);
      FeedResult(rest.dec, FramesOf(s.done) + rest.frames)
  }

  /** Every state reachable from a valid state is valid. */
  lemma {:induction false} FeedAllValid(d: Decoder, bs: seq<byte>)
    requires d.Valid()
    ensures FeedAll(d, bs).dec.Valid()
    decreases |bs|
  {
    if |bs| > 0 {
      FeedAllValid(Step(d, bs[0]).dec, bs[1..]);
    }
  }

  /** Feeding is compositional: two batches behave as their concatenation. */
  lemma {:induction false} FeedAllAppend(d: Decoder, a: seq<byte>, b: seq<byte>)
    ensures FeedAll(d, a + b).dec == FeedAll(FeedAll(d, a).dec, b).dec
    ensures FeedAll(d, a + b).frames == FeedAll(d, a).frames + FeedAll(FeedAll(d, a).dec, b).frames
    decreases |a|
  {
    if |a| == 0 {
      assert a + b == b;
    } else {
      assert (a + b)[0] == a[0];
      assert (a + b)[1..] == a[1..] + b;
      FeedAllAppend(Step(d, a[0]).dec, a[1..], b);
    }
  }

  lemma XorTwice(b: byte)
    ensures b ^ ESC_XOR ^ ESC_XOR == b
  {
  }

  /** Feeding one byte is one Step. */
  lemma FeedOne(d: Decoder, b: byte)
    ensures FeedAll(d, [b]) == FeedResult(Step(d, b).dec, FramesOf(Step(d, b).done))
  {
    assert [b][1..] == [];
  }

  /** Feeding two bytes is two Steps. */
  lemma FeedTwo(d: Decoder, b0: byte, b1: byte)
    requires Step(d, b0).done.None?
    ensures FeedAll(d, [b0, b1]) == FeedAll(Step(d, b0).dec, [b1])
  {
    assert [b0, b1][1..] == [b1];
  }

  /** While waiting for STX, header bytes are skipped without effect. */
  lemma {:induction false} SkipHeader(d: Decoder, h: seq<byte>)
    requires d.mode == WaitStx
    requires DelimiterFree(h)
    ensures FeedAll(d, h) == FeedResult(d, [])
  {
    if |h| > 0 {
      assert !IsDelimiter(h[0]);
      SkipHeader(d, h[1..]);
    }
  }

  /** One stuffed byte, fed while reading a section, appends the original
      byte to that section. */
  lemma FeedStuffedByte(d: Decoder, b: byte)
    requires (d.mode == ReadName && d.inNameSection) || (d.mode == ReadData && !d.inNameSection)
    ensures FeedAll(d, StuffByte(b)).frames == []
    ensures d.mode == ReadName ==> FeedAll(d, StuffByte(b)).dec == d.(name := d.name + [b])
    ensures d.mode == ReadData ==> FeedAll(d, StuffByte(b)).dec == d.(data := d.data + [b])
  {
    if NeedsStuffing(b) {
      var u := b ^ ESC_XOR;
      XorTwice(b);
      var d1 := d.(mode := Escape);
      assert Step(d, ESC) == StepResult(d1, None);
      FeedTwo(d, ESC, u);
      FeedOne(d1, u);
    } else {
      FeedOne(d, b);
    }
  }

  /** Stuffed bytes fed while reading a name append exactly the original
      bytes to the name. */
  lemma {:induction false} FeedStuffedName(n: seq<byte>, x: seq<byte>, s: seq<byte>)
    ensures FeedAll(Decoder(ReadName, n, x, true), Stuff(s))
            == FeedResult(Decoder(ReadName, n + s, x, true), [])
    decreases |s|
  {
    var d := Decoder(ReadName, n, x, true);
    if |s| == 0 {
      assert n + s == n;
    } else {
      var head := StuffByte(s[0]);
      var tail := Stuff(s[1..]);
      var d1 := Decoder(ReadName, n + [s[0]], x, true);
      assert Stuff(s) == head + tail;
      assert FeedAll(d, head) == FeedResult(d1, []) by {
        FeedStuffedByte(d, s[0]);
      }
      assert FeedAll(d1, tail) == FeedResult(Decoder(ReadName, n + s, x, true), []) by {
        FeedStuffedName(n + [s[0]], x, s[1..]);
        AppendHead(n, s);
      }
      FeedAllAppend(d, head, tail);
    }
  }

  /** Stuffed bytes fed while reading data append exactly the original bytes
      to the data. */
  lemma {:induction false} FeedStuffedData(n: seq<byte>, x: seq<byte>, s: seq<byte>)
    ensures FeedAll(Decoder(ReadData, n, x, false), Stuff(s))
            == FeedResult(Decoder(ReadData, n, x + s, false), [])
    decreases |s|
  {
    var d := Decoder(ReadData, n, x, false);
    if |s| == 0 {
      assert x + s == x;
    } else {
      var head := StuffByte(s[0]);
      var tail := Stuff(s[1..]);
      var d1 := Decoder(ReadData, n, x + [s[0]], false);
      assert Stuff(s) == head + tail;
      assert FeedAll(d, head) == FeedResult(d1, []) by {
        FeedStuffedByte(d, s[0]);
      }
      assert FeedAll(d1, tail) == FeedResult(Decoder(ReadData, n, x + s, false), []) by {
        FeedStuffedData(n, x + [s[0]], s[1..]);
        AppendHead(x, s);
      }
      FeedAllAppend(d, head, tail);
    }
  }

  /** From any reachable state, SOH, a stuffed header and STX leave the
      decoder at the start of name capture, having completed nothing. This
      includes the mid-escape state, where the SOH itself is unmasked into
      the old frame's buffers and the STX then discards them. */
  lemma FeedFrameStart(d: Decoder, h: seq<byte>)
    requires d.Valid()
    ensures FeedAll(d, [SOH] + Stuff(h) + [STX]) == FeedResult(NameStart, [])
  {
    var hs := Stuff(h);
    var d1 := Step(d, SOH).dec;
    assert Step(d, SOH).done.None?;
    FeedAllAppend(d, [SOH], hs + [STX]);
    assert [SOH] + hs + [STX] == [SOH] + (hs + [STX]);
    FeedAllAppend(d1, hs, [STX]);
    var d2 := FeedAll(d1, hs).dec;
    assert FeedAll(d1, hs).frames == [] && d2.mode in {WaitStx, ReadName, ReadData} by {
      if d.mode == Escape {
        if d.inNameSection {
          FeedStuffedName(d.name + [SOH ^ ESC_XOR], d.data, h);
        } else {
          FeedStuffedData(d.name, d.data + [SOH ^ ESC_XOR], h);
        }
      } else {
        SkipHeader(d1, hs);
      }
    }
    assert FeedAll(d2, [STX]) == FeedResult(NameStart, []);
  }

  /** From the start of name capture, the stuffed name, US, the stuffed data
      and EOT complete exactly one frame and return the decoder to reset. */
  lemma FeedFrameBody(name: seq<byte>, data: seq<byte>)
    ensures FeedAll(NameStart, Stuff(name) + [US] + Stuff(data) + [EOT])
            == FeedResult(Fresh, [Frame(name, data)])
  {
    var sn := Stuff(name);
    var sd := Stuff(data);
    FeedStuffedName([], [], name);
    assert [] + name == name;
    var dn := Decoder(ReadName, name, [], true);
    var dd := Decoder(ReadData, name, [], false);
    FeedAllAppend(NameStart, sn, [US]);
    assert FeedAll(dn, [US]) == FeedResult(dd, []);
    FeedAllAppend(NameStart, sn + [US], sd);
    FeedStuffedData(name, [], data);
    assert [] + data == data;
    var de := Decoder(ReadData, name, data, false);
    FeedAllAppend(NameStart, sn + [US] + sd, [EOT]);
    assert FeedAll(de, [EOT]) == FeedResult(Fresh, [Frame(name, data)]);
  }

  /** The encoded frame as frame start followed by frame body. */
  lemma EncodeFrameSplit(name: seq<byte>, data: seq<byte>, messageId: nat)
    requires messageId < MSG_ID_MOD
    ensures EncodeFrame(name, data, messageId)
            == ([SOH] + Stuff(HeaderFields(SENDER_ID, RECEIVER_ID, SENDER_GROUP_ID, RECEIVER_GROUP_ID, FLAGS, messageId)) + [STX])
               + (Stuff(CPrefix(name)) + [US] + Stuff(data) + [EOT])
  {
    var h := HeaderFields(SENDER_ID, RECEIVER_ID, SENDER_GROUP_ID, RECEIVER_GROUP_ID, FLAGS, messageId);
    assert FrameHeader(messageId) == Stuff(h);
    Regroup7([SOH], Stuff(h), [STX], Stuff(CPrefix(name)), [US], Stuff(data), [EOT]);
  }

  /** Resynchronisation: whatever state the decoder is in, one complete
      encoded frame completes exactly that frame, once, and leaves the
      decoder reset. */
  lemma FeedEncodedFrame(d: Decoder, name: seq<byte>, data: seq<byte>, messageId: nat)
    requires d.Valid()
    requires messageId < MSG_ID_MOD
    ensures FeedAll(d, EncodeFrame(name, data, messageId))
            == FeedResult(Fresh, [Frame(CPrefix(name), data)])
  {
    var h := HeaderFields(SENDER_ID, RECEIVER_ID, SENDER_GROUP_ID, RECEIVER_GROUP_ID, FLAGS, messageId);
    var start := [SOH] + Stuff(h) + [STX];
    var body := Stuff(CPrefix(name)) + [US] + Stuff(data) + [EOT];
    EncodeFrameSplit(name, data, messageId);
    FeedAllAppend(d, start, body);
    FeedFrameStart(d, h);
    FeedFrameBody(CPrefix(name), data);
  }

  /** Round trip from a reset decoder. */
  lemma RoundTrip(name: seq<byte>, data: seq<byte>, messageId: nat)
    requires 0 !in name
    requires messageId < MSG_ID_MOD
    ensures FeedAll(Fresh, EncodeFrame(name, data, messageId))
            == FeedResult(Fresh, [Frame(name, data)])
  {
    FeedEncodedFrame(Fresh, name, data, messageId);
    CPrefixOfNulFree(name);
  }

  /** No raw EOT occurs in `s`. */
  predicate NoEot(s: seq<byte>) {
    EOT !in s
  }

  lemma NoEotAppend(a: seq<byte>, b: seq<byte>)
    requires NoEot(a) && NoEot(b)
    ensures NoEot(a + b)
  {
    forall i | 0 <= i < |a + b|
      ensures (a + b)[i] != EOT
    {
      if i < |a| {
        assert (a + b)[i] == a[i];
      } else {
        assert (a + b)[i] == b[i - |a|];
      }
    }
  }

  lemma DelimiterFreeNoEot(s: seq<byte>)
    requires DelimiterFree(s)
    ensures NoEot(s)
  {
    forall i | 0 <= i < |s|
      ensures s[i] != EOT
    {
      assert !IsDelimiter(s[i]);
    }
  }

  /** Every prefix of `s` that stops short of its last byte avoids EOT when
      everything but the last byte does. */
  lemma NoEotShortPrefix(d: Decoder, s: seq<byte>, cut: nat)
    requires 0 < |s| && cut < |s|
    requires NoEot(s[..|s| - 1])
    ensures FeedAll(d, s[..cut]).frames == []
  {
    forall i | 0 <= i < cut
      ensures s[..cut][i] != EOT
    {
      assert s[..cut][i] == s[..|s| - 1][i];
    }
    NoEotNoFrame(d, s[..cut]);
  }

  /** In an encoded frame the only raw EOT is the last byte. */
  lemma EotOnlyAtEnd(name: seq<byte>, data: seq<byte>, messageId: nat)
    requires messageId < MSG_ID_MOD
    ensures NoEot(EncodeFrame(name, data, messageId)[..|EncodeFrame(name, data, messageId)| - 1])
  {
    var h := Stuff(HeaderFields(SENDER_ID, RECEIVER_ID, SENDER_GROUP_ID, RECEIVER_GROUP_ID, FLAGS, messageId));
    var sn := Stuff(CPrefix(name));
    var sd := Stuff(data);
    var f := EncodeFrame(name, data, messageId);
    EncodeFrameSplit(name, data, messageId);
    var a := [SOH] + h + [STX] + sn + [US] + sd;
    SplitLast7([SOH], h, [STX], sn, [US], sd, [EOT]);
    DropLast(a, EOT);
    assert NoEot(a) by {
      DelimiterFreeNoEot(h);
      DelimiterFreeNoEot(sn);
      DelimiterFreeNoEot(sd);
      NoEotAppend([SOH], h);
      NoEotAppend([SOH] + h, [STX]);
      NoEotAppend([SOH] + h + [STX], sn);
      NoEotAppend([SOH] + h + [STX] + sn, [US]);
      NoEotAppend([SOH] + h + [STX] + sn + [US], sd);
    }
  }

  /** Bytes with no raw EOT never complete a frame. */
  lemma {:induction false} NoEotNoFrame(d: Decoder, bs: seq<byte>)
    requires NoEot(bs)
    ensures FeedAll(d, bs).frames == []
    decreases |bs|
  {
    if |bs| > 0 {
      NoEotNoFrame(Step(d, bs[0]).dec, bs[1..]);
    }
  }

  /** A frame cut short anywhere before its EOT, followed by a complete
      frame, yields only the complete frame. */
  lemma TruncatedThenComplete(d: Decoder, cut: nat, name1: seq<byte>, data1: seq<byte>, id1: nat,
                              name2: seq<byte>, data2: seq<byte>, id2: nat)
    requires d.Valid()
    requires id1 < MSG_ID_MOD && id2 < MSG_ID_MOD
    requires cut < |EncodeFrame(name1, data1, id1)|
    ensures FeedAll(d, EncodeFrame(name1, data1, id1)[..cut] + EncodeFrame(name2, data2, id2))
            == FeedResult(Fresh, [Frame(CPrefix(name2), data2)])
  {
    var f := EncodeFrame(name1, data1, id1);
    var g := EncodeFrame(name2, data2, id2);
    var p := f[..cut];
    EotOnlyAtEnd(name1, data1, id1);
    NoEotShortPrefix(d, f, cut);
    FeedAllValid(d, p);
    FeedAllAppend(d, p, g);
    FeedEncodedFrame(FeedAll(d, p).dec, name2, data2, id2);
  }

  /** An SOH that arrives right after an escape is frame content, not a
      frame start. */
  lemma EscapedSohIsContent(n: seq<byte>, x: seq<byte>)
    ensures FeedAll(Decoder(ReadData, n, x, false), [ESC, SOH, EOT])
            == FeedResult(Fresh, [Frame(n, x + [SOH ^ ESC_XOR])])
  {
    var d := Decoder(ReadData, n, x, false);
    var d1 := Decoder(Escape, n, x, false);
    var d2 := Decoder(ReadData, n, x + [SOH ^ ESC_XOR], false);
    assert [ESC, SOH, EOT] == [ESC] + [SOH, EOT];
    FeedAllAppend(d, [ESC], [SOH, EOT]);
    FeedOne(d, ESC);
    FeedTwo(d1, SOH, EOT);
    FeedOne(d2, EOT);
  }
}
