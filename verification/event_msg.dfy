/**
 * The event message system: a handler registry keyed by event name, an
 * optional catch-all handler, a send callback, the encoder's message
 * counter and the decoder. Handlers and callbacks are function pointers in
 * the firmware; here they are opaque identifiers, and calling one is
 * reported as a Dispatch value.
 */
module EventMsg {
  import opened Common
  import opened EventCodec
  import opened EventDecoder

  /** Identity of a registered C function pointer. */
  type Callback = nat

  /** event_msg_send encodes into a static buffer of this many bytes. */
  const SEND_BUFFER_SIZE: nat := 4096

  /** Lengths are passed as uint16_t. */
  const MAX_LEN: nat := 0x1_0000

  datatype System = System(
    decoder: Decoder,
    encoder: Encoder,
    handlers: map<seq<byte>, Callback>,
    unhandled: Option<Callback>,
    sendCallback: Option<Callback>)
  {
    ghost predicate Valid() {
      decoder.Valid() && encoder.Valid()
    }
  }

  /** event_msg_init: everything is cleared; only the send callback is kept. */
  function Init(onSend: Option<Callback>): (s: System)
    ensures s.Valid()
    ensures s.decoder == Fresh && s.encoder.nextMessageId == 0
    ensures s.handlers == map[] && s.unhandled.None? && s.sendCallback == onSend
  {
    System(Fresh, Encoder(0), map[], None, onSend)
  }

  /** event_msg_on: a null handler is ignored; otherwise the handler for the
      name (as a C string) is set, replacing any earlier one. */
  function On(s: System, name: seq<byte>, handler: Option<Callback>): (r: System)
    requires s.Valid()
    ensures r.Valid()
    ensures handler.None? ==> r == s
    ensures handler.Some? ==> CPrefix(name) in r.handlers && r.handlers[CPrefix(name)] == handler.value
    ensures forall k :: k in s.handlers && k != CPrefix(name) ==> k in r.handlers && r.handlers[k] == s.handlers[k]
    ensures r.handlers.Keys <= s.handlers.Keys + {CPrefix(name)}
    ensures r.decoder == s.decoder && r.encoder == s.encoder
    ensures r.unhandled == s.unhandled && r.sendCallback == s.sendCallback
  {
    if handler.None? then s
    else s.(handlers := s.handlers[CPrefix(name) := handler.value])
  }

  /** event_msg_on_unhandled: a null pointer clears the catch-all handler. */
  function OnUnhandled(s: System, handler: Option<Callback>): (r: System)
    requires s.Valid()
    ensures r.Valid()
    ensures r.unhandled == handler
    ensures r.(unhandled := s.unhandled) == s
  {
    s.(unhandled := handler)
  }

  /** event_msg_reset: only the decoder is touched. */
  function Reset(s: System): (r: System)
    requires s.Valid()
    ensures r.Valid()
    ensures r.decoder == Fresh
    ensures r.handlers == s.handlers && r.encoder == s.encoder
    ensures r.unhandled == s.unhandled && r.sendCallback == s.sendCallback
  {
    s.(decoder := Fresh)
  }

  /** What a completed frame causes. */
  datatype Dispatch =
    | Handled(handler: Callback, data: seq<byte>)
    | Unhandled(handler: Callback, name: seq<byte>, data: seq<byte>)
    | Dropped(name: seq<byte>, data: seq<byte>)

  /** The registry is a std::map<String, ...>; Arduino Strings order by
      strcmp, so the lookup compares the received name as a C string. */
  function Route(s: System, f: Frame): (a: Dispatch)
    ensures a.Handled? <==> CPrefix(f.name) in s.handlers
    ensures a.Handled? ==> a.handler == s.handlers[CPrefix(f.name)] && a.data == f.data
    ensures a.Unhandled? <==> CPrefix(f.name) !in s.handlers && s.unhandled.Some?
    ensures a.Unhandled? ==> a.handler == s.unhandled.value && a.name == f.name && a.data == f.data
    ensures a.Dropped? ==> a.name == f.name && a.data == f.data
  {
    var key := CPrefix(f.name);
    if key in s.handlers then Handled(s.handlers[key], f.data)
    else if s.unhandled.Some? then Unhandled(s.unhandled.value, f.name, f.data)
    else Dropped(f.name, f.data)
  }

  function RouteAll(s: System, fs: seq<Frame>): (r: seq<Dispatch>)
    ensures |r| == |fs|
    ensures forall i :: 0 <= i < |fs| ==> r[i] == Route(s, fs[i])
  {
    if |fs| == 0 then [] else [Route(s, fs[0])] + RouteAll(s, fs[1..])
  }

  datatype Fed = Fed(sys: System, dispatched: seq<Dispatch>)

  /** event_msg_feed_byte: one decoder step, then dispatch of a completed
      frame against the registry as it is at that moment. */
  function FeedByte(s: System, b: byte): (r: Fed)
    requires s.Valid()
    ensures r.sys.Valid()
    ensures r.sys.decoder == Step(s.decoder, b).dec
    ensures r.sys.(decoder := s.decoder) == s
    ensures r.dispatched == RouteAll(s, FramesOf(Step(s.decoder, b).done))
  {
    var st := Step(s.decoder, b);
    Fed(s.(decoder := st.dec), RouteAll(s, FramesOf(st.done)))
  }

  /** event_msg_feed_bytes: the bytes in order; the length is a uint16_t. */
  function FeedBytes(s: System, bs: seq<byte>): (r: Fed)
    requires s.Valid()
    requires |bs| < MAX_LEN
    ensures r.sys.Valid()
    ensures r.sys.(decoder := s.decoder) == s
    decreases |bs|
  {
    if |bs| == 0 then Fed(s, [])
    else
      var one := FeedByte(s, bs[0]);
      var rest := FeedBytes(one.sys, bs[1..]);
      Fed(rest.sys, one.dispatched + rest.dispatched)
  }

  lemma RouteAllAppend(s: System, a: seq<Frame>, b: seq<Frame>)
    ensures RouteAll(s, a + b) == RouteAll(s, a) + RouteAll(s, b)
  {
    var l := RouteAll(s, a + b);
    var r := RouteAll(s, a) + RouteAll(s, b);
    assert |l| == |r|;
    forall i | 0 <= i < |l|
      ensures l[i] == r[i]
    {
      if i < |a| {
        assert (a + b)[i] == a[i];
      } else {
        assert (a + b)[i] == b[i - |a|];
      }
    }
  }

  /** Feeding a batch through the system is the decoder's run over the batch,
      with every completed frame routed, in order. */
  lemma {:induction false} FeedBytesIsDecoderRun(s: System, bs: seq<byte>)
    requires s.Valid()
    requires |bs| < MAX_LEN
    ensures FeedBytes(s, bs).sys.decoder == FeedAll(s.decoder, bs).dec
    ensures FeedBytes(s, bs).dispatched == RouteAll(s, FeedAll(s.decoder, bs).frames)
    decreases |bs|
  {
    if |bs| > 0 {
      var st := Step(s.decoder, bs[0]);
      var s1 := FeedByte(s, bs[0]).sys;
      FeedBytesIsDecoderRun(s1, bs[1..]);
      assert s1 == s.(decoder := st.dec);
      RouteAllSameRegistry(s1, s, FeedAll(st.dec, bs[1..]).frames);
      RouteAllAppend(s, FramesOf(st.done), FeedAll(st.dec, bs[1..]).frames);
    }
  }

  /** Routing depends only on the registry, not on the decoder or counter. */
  lemma RouteAllSameRegistry(s: System, t: System, fs: seq<Frame>)
    requires s.handlers == t.handlers && s.unhandled == t.unhandled
    ensures RouteAll(s, fs) == RouteAll(t, fs)
  {
    var l := RouteAll(s, fs);
    var r := RouteAll(t, fs);
    forall i | 0 <= i < |fs|
      ensures l[i] == r[i]
    {
    }
  }

  /** Resynchronisation at the system level: whatever the decoder holds, one
      encoded frame is routed exactly once and leaves the decoder reset. */
  lemma FrameDispatchedOnce(s: System, name: seq<byte>, data: seq<byte>, messageId: nat)
    requires s.Valid()
    requires messageId < MSG_ID_MOD
    requires |EncodeFrame(name, data, messageId)| < MAX_LEN
    ensures FeedBytes(s, EncodeFrame(name, data, messageId)).sys == Reset(s)
    ensures FeedBytes(s, EncodeFrame(name, data, messageId)).dispatched
            == [Route(s, Frame(CPrefix(name), data))]
  {
    var f := EncodeFrame(name, data, messageId);
    FeedBytesIsDecoderRun(s, f);
    FeedEncodedFrame(s.decoder, name, data, messageId);
    assert RouteAll(s, [Frame(CPrefix(name), data)]) == [Route(s, Frame(CPrefix(name), data))];
  }

  /** A frame whose name has a registered handler reaches that handler with
      the data unchanged. */
  lemma RegisteredHandlerReceives(s: System, name: seq<byte>, data: seq<byte>, messageId: nat)
    requires s.Valid()
    requires messageId < MSG_ID_MOD
    requires |EncodeFrame(name, data, messageId)| < MAX_LEN
    requires CPrefix(name) in s.handlers
    ensures FeedBytes(s, EncodeFrame(name, data, messageId)).dispatched
            == [Handled(s.handlers[CPrefix(name)], data)]
  {
    FrameDispatchedOnce(s, name, data, messageId);
    CPrefixIdempotent(name);
  }

  lemma {:induction false} CPrefixIdempotent(s: seq<byte>)
    ensures CPrefix(CPrefix(s)) == CPrefix(s)
  {
    CPrefixOfNulFree(CPrefix(s));
  }

  datatype Sent = Sent(sys: System, transmitted: Option<seq<byte>>)

  /** event_msg_send as written: with no callback nothing happens and the
      counter is not advanced; otherwise the frame is encoded into the send
      buffer, whatever its size, and handed to the callback. */
  function SendUnchecked(s: System, name: seq<byte>, data: seq<byte>): (r: Sent)
    requires s.Valid()
    requires |data| < MAX_LEN
    ensures r.sys.Valid()
    ensures s.sendCallback.None? ==> r == Sent(s, None)
    ensures s.sendCallback.Some? ==>
              && r.transmitted == Some(EncodeFrame(name, data, s.encoder.nextMessageId))
              && r.sys == s.(encoder := s.encoder.Next())
  {
    if s.sendCallback.None? then Sent(s, None)
    else
      var e := Encode(s.encoder, name, data);
      Sent(s.(encoder := e.encoder), Some(e.frame))
  }

  /** A frame whose every data byte needs stuffing doubles the data. */
  lemma {:induction false} StuffAllControl(s: seq<byte>)
    requires forall i :: 0 <= i < |s| ==> NeedsStuffing(s[i])
    ensures |Stuff(s)| == 2 * |s|
    decreases |s|
  {
    if |s| > 0 {
      assert NeedsStuffing(s[0]);
      StuffAllControl(s[1..]);
    }
  }

  /** 2100 EOT bytes are a legal uint16_t-sized payload, yet their frame is
      larger than the 4096-byte static send buffer. */
  lemma SendBufferOverflow(s: System)
    requires s.Valid()
    requires s.sendCallback.Some?
    ensures var data := seq(2100, _ => EOT);
            && |data| < MAX_LEN
            && SendUnchecked(s, [], data).transmitted.Some?
            && |SendUnchecked(s, [], data).transmitted.value| > SEND_BUFFER_SIZE
  {
    var data := seq(2100, _ => EOT);
    StuffAllControl(data);
    var f := EncodeFrame([], data, s.encoder.nextMessageId);
    assert CPrefix([]) == [];
    assert |f| == 1 + |FrameHeader(s.encoder.nextMessageId)| + |FrameBody([], data)|;
  }

  /** event_msg_send with the buffer bound respected: a frame that does not
      fit in the send buffer is not sent and does not consume a message id. */
  function Send(s: System, name: seq<byte>, data: seq<byte>): (r: Sent)
    requires s.Valid()
    requires |data| < MAX_LEN
    ensures r.sys.Valid()
    ensures r.transmitted.Some? ==> |r.transmitted.value| <= SEND_BUFFER_SIZE
    ensures r.transmitted.Some? <==>
              s.sendCallback.Some? && |EncodeFrame(name, data, s.encoder.nextMessageId)| <= SEND_BUFFER_SIZE
    ensures r.transmitted.Some? ==> r == SendUnchecked(s, name, data)
    ensures r.transmitted.None? ==> r.sys == s
  {
    if s.sendCallback.None? then Sent(s, None)
    else if |EncodeFrame(name, data, s.encoder.nextMessageId)| > SEND_BUFFER_SIZE then Sent(s, None)
    else SendUnchecked(s, name, data)
  }

  /** Loopback: what one system sends, another system with a handler for the
      name delivers to that handler, byte for byte. */
  lemma Loopback(sender: System, receiver: System, name: seq<byte>, data: seq<byte>)
    requires sender.Valid() && receiver.Valid()
    requires |data| < MAX_LEN
    requires Send(sender, name, data).transmitted.Some?
    requires CPrefix(name) in receiver.handlers
    ensures FeedBytes(receiver, Send(sender, name, data).transmitted.value).dispatched
            == [Handled(receiver.handlers[CPrefix(name)], data)]
  {
    RegisteredHandlerReceives(receiver, name, data, sender.encoder.nextMessageId);
  }

  /** Each sent frame carries the current message id, and the next send
      carries its successor modulo 2^16. */
  lemma SendAdvancesCounter(s: System, name: seq<byte>, data: seq<byte>)
    requires s.Valid()
    requires |data| < MAX_LEN
    requires Send(s, name, data).transmitted.Some?
    ensures Send(s, name, data).sys.encoder == s.encoder.Next()
    ensures Unstuff(Send(s, name, data).transmitted.value[1..|FrameHeader(s.encoder.nextMessageId)| + 1])
            == HeaderFields(SENDER_ID, RECEIVER_ID, SENDER_GROUP_ID, RECEIVER_GROUP_ID, FLAGS, s.encoder.nextMessageId)
  {
    FrameCarriesMessageId(name, data, s.encoder.nextMessageId);
  }
}
