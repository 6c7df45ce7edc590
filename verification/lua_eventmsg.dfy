/**
 * The Lua-side event bridge of the engine library: scripts register Lua
 * callbacks per event name; events arriving from the peer for a registered
 * name are queued (at most sixteen, the oldest dropped when full) and are
 * delivered when the script calls eventmsg.update().
 *
 * Names are compared as C strings, as the std::string keys are built from
 * `c_str()`. A callback is identified by its registry reference.
 */
module LuaEventMsg {
  import opened Common
  import opened LuaValues

  const QUEUE_LENGTH: nat := 16
  /** eventmsg.update() with no third argument. */
  const DEFAULT_MAX_EVENTS: nat := 8

  type Callback = nat

  datatype Pending = Pending(name: string, data: seq<byte>)

  datatype Bridge = Bridge(
    callbacks: map<string, seq<Callback>>,  // eventCallbacks
    names: set<string>,                     // registeredEvents
    queue: Option<seq<Pending>>)            // pendingQueue, None before init
  {
    predicate Valid() {
      && callbacks.Keys == names
      && (forall k :: k in callbacks ==> |callbacks[k]| > 0)
      && (queue.Some? ==> |queue.value| <= QUEUE_LENGTH)
    }
  }

  const Empty: Bridge := Bridge(map[], {}, None)

  /** lua_eventmsg_init: the queue is created once. (It also installs the
      bridge as the event layer's unhandled-event handler.) */
  function Init(b: Bridge): (r: Bridge)
    ensures b.Valid() ==> r.Valid()
    ensures r.queue.Some?
    ensures b.queue.Some? ==> r == b
    ensures b.queue.None? ==> r.queue == Some([])
    ensures r.callbacks == b.callbacks && r.names == b.names
  {
    if b.queue.Some? then b else b.(queue := Some([]))
  }

  // ---------------------------------------------------------------------
  // The bounded queue
  // ---------------------------------------------------------------------

  /** The last QUEUE_LENGTH entries of s (all of s when it is short). */
  function Newest(s: seq<Pending>): (r: seq<Pending>)
    ensures |r| <= QUEUE_LENGTH
  {
    if |s| <= QUEUE_LENGTH then s else s[|s| - QUEUE_LENGTH..]
  }

  /** xQueueSend, and on a full queue: receive (drop) the oldest, send
      again. */
  function Push(q: seq<Pending>, e: Pending): (r: seq<Pending>)
    requires |q| <= QUEUE_LENGTH
    ensures |r| <= QUEUE_LENGTH && |r| > 0 && r[|r| - 1] == e
    ensures |q| < QUEUE_LENGTH ==> r == q + [e]
    ensures |q| == QUEUE_LENGTH ==> r == q[1..] + [e]
  {
    if |q| < QUEUE_LENGTH then q + [e] else q[1..] + [e]
  }

  function PushAll(q: seq<Pending>, es: seq<Pending>): seq<Pending>
    requires |q| <= QUEUE_LENGTH
    decreases |es|
  {
    if |es| == 0 then q else PushAll(Push(q, es[0]), es[1..])
  }

  lemma PushNewest(s: seq<Pending>, e: Pending)
    ensures Push(Newest(s), e) == Newest(s + [e])
  {
    var t := s + [e];
    if |s| >= QUEUE_LENGTH {
      assert Newest(s)[1..] + [e] == t[|t| - QUEUE_LENGTH..];
    }
  }

  /** Whatever arrives, the queue holds the sixteen newest events in
      arrival order: old ones are dropped first. */
  lemma {:induction false} PushAllKeepsNewest(s: seq<Pending>, es: seq<Pending>)
    ensures PushAll(Newest(s), es) == Newest(s + es)
    decreases |es|
  {
    if |es| > 0 {
      PushNewest(s, es[0]);
      PushAllKeepsNewest(s + [es[0]], es[1..]);
      AppendHead(s, es);
    }
  }

  /** Events that fit are all kept, in order. */
  lemma PushAllFits(q: seq<Pending>, es: seq<Pending>)
    requires |q| + |es| <= QUEUE_LENGTH
    ensures PushAll(q, es) == q + es
  {
    PushAllKeepsNewest(q, es);
  }

  // ---------------------------------------------------------------------
  // Incoming events, registration
  // ---------------------------------------------------------------------

  /** handleIncomingEvent: an event whose name nobody registered, or that
      arrives before the queue exists, is dropped; otherwise it is queued. */
  function Incoming(b: Bridge, name: string, data: seq<byte>): (r: Bridge)
    requires b.Valid()
    ensures r.Valid()
    ensures CStr(name) !in b.names || b.queue.None? ==> r == b
    ensures CStr(name) in b.names && b.queue.Some? ==>
              r.queue == Some(Push(b.queue.value, Pending(name, data)))
    ensures r.callbacks == b.callbacks && r.names == b.names
  {
    if CStr(name) !in b.names || b.queue.None? then b
    else b.(queue := Some(Push(b.queue.value, Pending(name, data))))
  }

  /** eventmsg.on(name, fn): one more callback for the name, after those
      already there. */
  function On(b: Bridge, name: string, callback: Callback): (r: Bridge)
    requires b.Valid()
    ensures r.Valid()
    ensures CStr(name) in r.names
    ensures r.callbacks[CStr(name)] ==
              (if CStr(name) in b.callbacks then b.callbacks[CStr(name)] else []) + [callback]
    ensures forall k :: k != CStr(name) ==> (k in r.callbacks <==> k in b.callbacks)
    ensures forall k :: k != CStr(name) && k in b.callbacks ==> r.callbacks[k] == b.callbacks[k]
    ensures r.queue == b.queue
  {
    var k := CStr(name);
    var old_ := if k in b.callbacks then b.callbacks[k] else [];
    b.(callbacks := b.callbacks[k := old_ + [callback]], names := b.names + {k})
  }

  /** eventmsg.off(name): every callback for the name goes, and so does the
      name; an unknown name changes nothing. */
  function Off(b: Bridge, name: string): (r: Bridge)
    requires b.Valid()
    ensures r.Valid()
    ensures CStr(name) !in r.names && CStr(name) !in r.callbacks
    ensures CStr(name) !in b.callbacks ==> r == b
    ensures forall k :: k != CStr(name) ==> (k in r.callbacks <==> k in b.callbacks)
    ensures forall k :: k != CStr(name) && k in b.callbacks ==> r.callbacks[k] == b.callbacks[k]
    ensures r.queue == b.queue
  {
    var k := CStr(name);
    if k in b.callbacks then b.(callbacks := b.callbacks - {k}, names := b.names - {k}) else b
  }

  /** After off, events for the name are no longer queued. */
  lemma OffStopsQueueing(b: Bridge, name: string, data: seq<byte>)
    requires b.Valid()
    ensures Incoming(Off(b, name), name, data) == Off(b, name)
  {
  }

  /** lua_eventmsg_cleanup: no callbacks, no names, nothing pending. */
  function Cleanup(b: Bridge): (r: Bridge)
    ensures r.Valid()
    ensures r.callbacks == map[] && r.names == {}
    ensures r.queue.Some? <==> b.queue.Some?
    ensures r.queue.Some? ==> r.queue.value == []
  {
    Bridge(map[], {}, if b.queue.Some? then Some([]) else None)
  }

  // ---------------------------------------------------------------------
  // Draining
  // ---------------------------------------------------------------------

  datatype Call = Call(callback: Callback, data: seq<byte>)

  /** The calls one event makes: every callback registered for its name,
      in registration order, each given the event's data. */
  function CallsForEvent(callbacks: map<string, seq<Callback>>, e: Pending): (r: seq<Call>)
    ensures CStr(e.name) !in callbacks ==> r == []
    ensures CStr(e.name) in callbacks ==> |r| == |callbacks[CStr(e.name)]|
    ensures forall j :: 0 <= j < |r| ==> r[j] == Call(callbacks[CStr(e.name)][j], e.data)
  {
    var k := CStr(e.name);
    if k !in callbacks then []
    else seq(|callbacks[k]|, j requires 0 <= j < |callbacks[k]| => Call(callbacks[k][j], e.data))
  }

  /** The calls a run of events makes, event after event. */
  function CallsFor(callbacks: map<string, seq<Callback>>, es: seq<Pending>): seq<Call>
    decreases |es|
  {
    if |es| == 0 then [] else CallsFor(callbacks, es[..|es| - 1]) + CallsForEvent(callbacks, es[|es| - 1])
  }

  datatype Drained = Drained(bridge: Bridge, calls: seq<Call>, processed: nat)

  /** drainPending(maxEvents) on the queue as it stands: a do-while loop, so
      it takes at least one event even when maxEvents is 0. Events that
      arrive while a blocking call waits are not modelled. */
  method Drain(b: Bridge, maxEvents: nat) returns (r: Drained)
    requires b.Valid()
    ensures r.bridge.Valid()
    ensures b.queue.None? ==> r == Drained(b, [], 0)
    ensures b.queue.Some? ==>
              && r.processed == Min(|b.queue.value|, Max(maxEvents, 1))
              && r.bridge.queue == Some(b.queue.value[r.processed..])
              && r.calls == CallsFor(b.callbacks, b.queue.value[..r.processed])
    ensures r.bridge.callbacks == b.callbacks && r.bridge.names == b.names
  {
    if b.queue.None? {
      return Drained(b, [], 0);
    }
    var q := b.queue.value;
    var processed := 0;
    var calls: seq<Call> := [];
    while true
      invariant 0 <= processed <= |q|
      invariant processed == 0 || processed < maxEvents
      invariant calls == CallsFor(b.callbacks, q[..processed])
      decreases |q| - processed
    {
      if processed == |q| {
        break;
      }
      assert q[..processed + 1][..processed] == q[..processed];
      calls := calls + CallsForEvent(b.callbacks, q[processed]);
      processed := processed + 1;
      if processed >= maxEvents {
        break;
      }
    }
    r := Drained(b.(queue := Some(q[processed..])), calls, processed);
  }

  /** Events that arrive on an empty queue, at most sixteen and all for
      registered names, are delivered by one update() in arrival order. */
  method ArrivalOrder(b: Bridge, es: seq<Pending>) returns (d: Drained)
    requires b.Valid() && b.queue == Some([])
    requires |es| <= QUEUE_LENGTH
    ensures d.calls == CallsFor(b.callbacks, es)
    ensures d.bridge.queue == Some([])
  {
    PushAllFits([], es);
    var filled := b.(queue := Some(PushAll([], es)));
    assert filled.queue.value == es;
    d := Drain(filled, QUEUE_LENGTH);
    assert es[..|es|] == es;
  }

  // ---------------------------------------------------------------------
  // Values sent from Lua
  // ---------------------------------------------------------------------

  /** lua_value_to_data: the payload eventmsg.send() sends. Numbers and
      strings go through lua_tolstring, so integers give their decimal
      text; float formatting is not modelled (None). */
  function ValueToData(v: Value): (r: Option<string>)
    ensures r.None? <==> v.Float?
    ensures v.Integer? ==> ParseDecimal(r.value) == Some(v.i)
    ensures v.Nil? || v.Table? || v.Function? || v.Userdata? || v.Thread? || v.LightUserdata? ==> r == Some("")
    ensures v.Boolean? ==> r == Some(if v.b then "true" else "false")
    ensures r.Some? ==> '\0' !in r.value
    // a string is sent up to its first NUL, and whole when it has none
    ensures v.Str? ==> r == Some(CStr(v.s))
    ensures v.Str? && '\0' !in v.s ==> r == Some(v.s)
  {
    match v
    case Str(s) => if '\0' in s then Some(CStr(s)) else CStrOfNulFree(s); Some(CStr(s))
    case Integer(i) => DecimalRoundTrip(i); Some(DecimalText(i))
    case Float => None
    case Boolean(b) => Some(if b then "true" else "false")
    case _ => Some("")
  }
}
