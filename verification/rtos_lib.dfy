/**
 * The `rtos` Lua library on top of the timer table: timer_start,
 * timer_stop, the timer message handler, and what receive does besides
 * waiting (the idle garbage-collection counter and the timeout argument).
 *
 * The target is a 32-bit ESP32: size_t and int are 32 bits wide, Lua
 * integers 64. Every cast the library makes is written out.
 */
module RtosLib {
  import opened Common
  import opened LuaValues
  import T = TimerTable

  /** MSG_TIMER, the first value a timer message gives to Lua. */
  const MSG_TIMER: int := 1
  const WORD: nat := 0x1_0000_0000

  /** (size_t)x: two's-complement truncation to 32 bits. */
  function SizeT(x: int): (r: nat)
    ensures r < WORD
    ensures 0 <= x < WORD ==> r == x
    ensures (r - x) % WORD == 0
  {
    x % WORD
  }

  /** (int)x on a 32-bit int. */
  function Int32(x: int): (r: int)
    ensures -0x8000_0000 <= r < 0x8000_0000
    ensures -0x8000_0000 <= x < 0x8000_0000 ==> r == x
    ensures SizeT(r) == SizeT(x)
  {
    var m := x % WORD;
    if m >= 0x8000_0000 then m - WORD else m
  }

  /** The library keeps a record allocated exactly while it is in the
      table: it frees every record it takes out. */
  predicate Owned(t: T.Timers) {
    t.Valid() && forall p :: p in t.heap ==> t.Holds(p)
  }

  // ---------------------------------------------------------------------
  // rtos.timer_start(id, timeout [, repeat])
  // ---------------------------------------------------------------------

  datatype StartResult = StartResult(timers: T.Timers, pushed: int)

  /** The new record timer_start fills in. */
  function NewTimer(id: int, timeout: int, repeat: Option<int>): T.Timer
  {
    T.Timer(SizeT(id), SizeT(timeout), Int32(if repeat.Some? then repeat.value else 0), false, false)
  }

  /** `alloc` is what luat_heap_malloc returns (None for NULL); `creates`
      and `starts` are the OS timer outcomes. */
  function TimerStart(t: T.Timers, id: int, timeout: int, repeat: Option<int>,
                      alloc: Option<T.Ref>, creates: bool, starts: bool): (r: StartResult)
    requires Owned(t)
    requires alloc.Some? ==> alloc.value !in t.heap
    ensures Owned(r.timers)
    ensures r.pushed == 1 || r.pushed == 0
    ensures r.pushed == 1 <==>
              SizeT(timeout) != 0 && alloc.Some? && T.NextSlot(t.slots) >= 0 && creates && starts
    // a failure leaves nothing behind: the record is freed
    ensures r.pushed == 0 ==> r.timers == t
    ensures r.pushed == 1 ==>
              && alloc.value in r.timers.heap
              && r.timers.slots == t.slots[T.NextSlot(t.slots) := alloc]
              && r.timers.heap == t.heap[alloc.value := r.timers.heap[alloc.value]]
              && r.timers.heap[alloc.value].id == SizeT(id)
              && r.timers.heap[alloc.value].timeout == SizeT(timeout)
              && r.timers.heap[alloc.value].repeat == Int32(if repeat.Some? then repeat.value else 0)
              && (r.timers.heap[alloc.value].autoReload <==> r.timers.heap[alloc.value].repeat != 0)
  {
    if SizeT(timeout) < 1 then StartResult(t, 0)
    else if alloc.None? then StartResult(t, 0)
    else Launch(t, alloc.value, NewTimer(id, timeout, repeat), creates, starts)
  }

  /** The record filled in, handed to luat_timer_start, and freed again if
      that fails (lib/lua_sys/src/luat_lib_rtos.c:138-155). */
  function Launch(t: T.Timers, p: T.Ref, rec: T.Timer, creates: bool, starts: bool): (r: StartResult)
    requires Owned(t) && p !in t.heap
    ensures Owned(r.timers)
    ensures r.pushed == 1 || r.pushed == 0
    ensures r.pushed == 1 <==> T.NextSlot(t.slots) >= 0 && creates && starts
    ensures r.pushed == 0 ==> r.timers == t
    ensures r.pushed == 1 ==>
              && p in r.timers.heap
              && r.timers.slots == t.slots[T.NextSlot(t.slots) := Some(p)]
              && r.timers.heap == t.heap[p := r.timers.heap[p]]
              && r.timers.heap[p].(running := false, autoReload := false) == rec.(running := false, autoReload := false)
              && (r.timers.heap[p].autoReload <==> rec.repeat != 0)
  {
    var withRecord := T.Timers(t.slots, t.heap[p := rec]);
    assert !withRecord.Holds(p);
    var s := T.Start(withRecord, Some(p), creates, starts);
    if s.result == 0 then
      FillKeepsOwned(t, T.NextSlot(t.slots), p, s.timers);
      StartResult(s.timers, 1)
    // luat_timer_start left the table as it was; freeing the record
    // removes the only other trace of it
    else StartResult(t, 0)
  }

  lemma FillKeepsOwned(t: T.Timers, k: nat, p: T.Ref, u: T.Timers)
    requires Owned(t) && k < |t.slots| && t.slots[k].None?
    requires u.Valid() && u.slots == t.slots[k := Some(p)] && u.heap.Keys == t.heap.Keys + {p}
    ensures Owned(u)
  {
    forall q | q in u.heap ensures u.Holds(q) {
      if q == p {
        assert u.slots[k] == Some(p);
      } else {
        var i :| 0 <= i < |t.slots| && t.slots[i] == Some(q);
        assert u.slots[i] == Some(q);
      }
    }
  }

  /** Only a timeout whose 32-bit truncation is zero is refused: -1 asks
      for 4294967295 ms, and 2^32 for nothing. */
  lemma TimeoutTruncated(t: T.Timers, id: int, timeout: int, repeat: Option<int>, p: T.Ref)
    requires Owned(t) && p !in t.heap && T.NextSlot(t.slots) >= 0
    ensures TimerStart(t, id, -1, repeat, Some(p), true, true).pushed == 1
    ensures TimerStart(t, id, -1, repeat, Some(p), true, true).timers.heap[p].timeout == WORD - 1
    ensures TimerStart(t, id, WORD, repeat, Some(p), true, true).pushed == 0
  {
  }

  // ---------------------------------------------------------------------
  // Timer messages
  // ---------------------------------------------------------------------

  /** What the OS timer callback posts: arg1 is the id as an int, ptr the
      record luat_timer_get found for it. */
  datatype TimerMsg = TimerMsg(arg1: int, ptr: T.Ref)

  /** luat_timer_callback for an OS timer carrying `osId`: nothing is
      posted when no record has that id. */
  function Fire(t: T.Timers, osId: nat): (r: Option<TimerMsg>)
    requires t.Valid()
    ensures r.None? <==> T.Get(t, osId).None?
    ensures r.Some? ==> r.value.ptr == T.Get(t, osId).value && SizeT(r.value.arg1) == SizeT(osId)
  {
    var g := T.Get(t, osId);
    if g.None? then None else Some(TimerMsg(Int32(osId), g.value))
  }

  /** The three values a timer message gives to Lua. */
  datatype Pushed = Pushed(msgType: int, id: int, repeat: int)

  datatype Handled =
    | NoValues(timers: T.Timers)                  // returns 0 values
    | Values(timers: T.Timers, values: Pushed)
    | DanglingPointer                             // ptr was already freed

  /** A one-shot delivery: luat_timer_stop, then the record is freed. */
  function Retire(t: T.Timers, p: T.Ref): (r: T.Timers)
    requires Owned(t) && p in t.heap
    ensures Owned(r)
    ensures !r.Holds(p) && r.heap == t.heap - {p}
    ensures forall i :: 0 <= i < T.MAX_TIMERS && t.slots[i] != Some(p) ==> r.slots[i] == t.slots[i]
  {
    var s := T.Stop(t, Some(p));
    var r := T.Timers(s.timers.slots, s.timers.heap - {p});
    forall q | q in r.heap ensures r.Holds(q) {
      var i :| 0 <= i < |t.slots| && t.slots[i] == Some(q);
      assert r.slots[i] == Some(q);
    }
    r
  }

  /** A counted delivery: one repetition fewer. */
  function CountOnce(t: T.Timers, p: T.Ref): (r: T.Timers)
    requires Owned(t) && p in t.heap && t.heap[p].repeat > 0
    ensures Owned(r)
    ensures r.slots == t.slots && r.heap == t.heap[p := t.heap[p].(repeat := t.heap[p].repeat - 1)]
  {
    T.Timers(t.slots, t.heap[p := t.heap[p].(repeat := t.heap[p].repeat - 1)])
  }

  /** The record a message designates. */
  function Target(t: T.Timers, m: TimerMsg): Option<T.Ref>
    requires t.Valid()
  {
    if m.arg1 > 0 then T.Get(t, m.arg1) else Some(m.ptr)
  }

  /** l_timer_handler. For a positive arg1 the record is looked up again
      by id; otherwise the message's pointer is used as it is, and if that
      record has been freed meanwhile the handler reads freed memory. */
  function Handler(t: T.Timers, m: TimerMsg): (r: Handled)
    requires Owned(t)
    ensures r.NoValues? ==> r.timers == t && m.arg1 > 0 && T.Get(t, m.arg1).None?
    ensures r.DanglingPointer? <==> m.arg1 <= 0 && m.ptr !in t.heap
    ensures r.Values? ==> Owned(r.timers) && Target(t, m).Some? && Target(t, m).value in t.heap
    ensures r.Values? ==>
              var p := Target(t, m).value;
              var tm := t.heap[p];
              && r.values == Pushed(MSG_TIMER, tm.id, tm.repeat)
              && (tm.repeat == 0 ==> r.timers == Retire(t, p))
              && (tm.repeat > 0 ==> r.timers == CountOnce(t, p))
              && (tm.repeat < 0 ==> r.timers == t)
  {
    var found := Target(t, m);
    if found.None? then NoValues(t)
    else if found.value !in t.heap then DanglingPointer
    else
      var p := found.value;
      var tm := t.heap[p];
      var values := Pushed(MSG_TIMER, tm.id, tm.repeat);
      if tm.repeat == 0 then Values(Retire(t, p), values)
      else if tm.repeat > 0 then Values(CountOnce(t, p), values)
      else Values(t, values)
  }

  /** No other record in the table carries this id. */
  predicate OnlyWithId(t: T.Timers, p: T.Ref, id: nat)
    requires t.Valid()
  {
    forall i :: 0 <= i < T.MAX_TIMERS && t.slots[i].Some? && t.slots[i].value != p ==>
      t.heap[t.slots[i].value].id != id
  }

  lemma GetUnique(t: T.Timers, p: T.Ref)
    requires t.Valid() && t.Holds(p) && OnlyWithId(t, p, t.heap[p].id)
    ensures T.Get(t, t.heap[p].id) == Some(p)
  {
    var id := t.heap[p].id;
    var k :| 0 <= k < |t.slots| && t.slots[k] == Some(p);
    assert t.slots[k].Some? && t.heap[t.slots[k].value].id == id;
  }

  /** The deliveries a timer with repeat n gives: n, n-1, ..., 0. */
  function CountDown(id: nat, n: nat): (r: seq<Pushed>)
    ensures |r| == n + 1
    ensures forall j :: 0 <= j <= n ==> r[j] == Pushed(MSG_TIMER, id, n - j)
  {
    if n == 0 then [Pushed(MSG_TIMER, id, 0)] else [Pushed(MSG_TIMER, id, n)] + CountDown(id, n - 1)
  }

  /** p is in the table under a positive id (one an int holds) that no
      other timer there carries, so a message for the id reaches p. */
  predicate Sole(t: T.Timers, p: T.Ref, id: nat) {
    && Owned(t) && t.Holds(p) && t.heap[p].id == id
    && 0 < id < 0x8000_0000 && OnlyWithId(t, p, id)
  }

  lemma OneDelivery(t: T.Timers, p: T.Ref, id: nat)
    requires Sole(t, p, id) && t.heap[p].repeat > 0
    ensures var r := Handler(t, TimerMsg(id, p));
            && r.Values?
            && r.values == Pushed(MSG_TIMER, id, t.heap[p].repeat)
            && Sole(r.timers, p, id)
            && r.timers.heap[p].repeat == t.heap[p].repeat - 1
  {
    GetUnique(t, p);
  }

  lemma LastDelivery(t: T.Timers, p: T.Ref, id: nat)
    requires Sole(t, p, id) && t.heap[p].repeat == 0
    ensures var r := Handler(t, TimerMsg(id, p));
            && r.Values?
            && r.values == Pushed(MSG_TIMER, id, 0)
            && Owned(r.timers)
            && T.Get(r.timers, id).None? && p !in r.timers.heap
  {
    GetUnique(t, p);
    var r := Handler(t, TimerMsg(id, p));
    forall i | 0 <= i < T.MAX_TIMERS && r.timers.slots[i].Some?
      ensures r.timers.heap[r.timers.slots[i].value].id != id
    {
      assert r.timers.slots[i] in r.timers.slots;
    }
  }

  /** A Lua loop calling rtos.receive() k times, each call getting a
      message for the timer p (id > 0, shared by no other timer) with
      repeat n, 0 <= n < k: it is delivered n + 1 times, counting n down
      to 0, and the remaining messages give nothing because the timer is
      gone. */
  method ReceiveTimer(t: T.Timers, p: T.Ref, id: nat, k: nat) returns (r: T.Timers, got: seq<Pushed>)
    requires Sole(t, p, id) && 0 <= t.heap[p].repeat < k
    ensures Owned(r)
    ensures got == CountDown(id, t.heap[p].repeat)
    ensures T.Get(r, id).None? && p !in r.heap
  {
    var n := t.heap[p].repeat;
    var m := TimerMsg(id, p);
    r := t;
    got := [];
    var i := 0;
    while i < k
      invariant 0 <= i <= k && Owned(r)
      invariant i <= n ==> Sole(r, p, id) && r.heap[p].repeat == n - i && |got| == i
      invariant i > n ==> T.Get(r, id).None? && p !in r.heap && |got| == n + 1
      invariant forall j :: 0 <= j < |got| ==> got[j] == Pushed(MSG_TIMER, id, n - j)
    {
      var h := Handler(r, m);
      if i < n {
        OneDelivery(r, p, id);
      } else if i == n {
        LastDelivery(r, p, id);
      }
      if h.Values? {
        got := got + [h.values];
        r := h.timers;
      }
      i := i + 1;
    }
  }

  /** A negative repeat never runs out: every delivery gives it back
      unchanged and the timer stays. */
  lemma ForeverStays(t: T.Timers, p: T.Ref, id: nat)
    requires Sole(t, p, id) && t.heap[p].repeat < 0
    ensures Handler(t, TimerMsg(id, p)) == Values(t, Pushed(MSG_TIMER, id, t.heap[p].repeat))
  {
    GetUnique(t, p);
  }

  // ---------------------------------------------------------------------
  // rtos.timer_stop(id)
  // ---------------------------------------------------------------------

  /** l_rtos_timer_stop: only an integer argument counts; the id is cast to
      int and then to size_t for the lookup. */
  function TimerStop(t: T.Timers, arg: Value): (r: T.Timers)
    requires Owned(t)
    ensures Owned(r)
    ensures !arg.Integer? || T.Get(t, SizeT(arg.i)).None? ==> r == t
    ensures arg.Integer? && T.Get(t, SizeT(arg.i)).Some? ==>
              var p := T.Get(t, SizeT(arg.i)).value;
              && !r.Holds(p) && r.heap == t.heap - {p}
              && forall i :: 0 <= i < T.MAX_TIMERS && t.slots[i] != Some(p) ==> r.slots[i] == t.slots[i]
  {
    if !arg.Integer? then t
    else
      var found := T.Get(t, SizeT(Int32(arg.i)));
      if found.None? then t else Retire(t, found.value)
  }

  // ---------------------------------------------------------------------
  // rtos.receive([timeout])
  // ---------------------------------------------------------------------

  const AUTOGC_HIGH_WATER: nat := 90
  const AUTOGC_MID_WATER: nat := 80
  const AUTOGC_CONFIG: nat := 100

  datatype GcStep = GcStep(counter: nat, collections: nat)

  /** The collection step at the top of receive. `total` is the Lua heap
      size in bytes as a size_t; "used" is taken to be the same number,
      and the percentage products are computed in 32 bits. */
  function AutoGc(counter: nat, busEmpty: bool, config: nat, total: nat): (r: GcStep)
    requires total < WORD
    ensures !busEmpty || config == 0 ==> r == GcStep(0, 0)
    ensures r.collections == 0 || r.collections == 2
    ensures r.counter <= counter + 1
  {
    if busEmpty && config != 0 then
      var used := total;
      if SizeT(used * 100) >= SizeT(total * AUTOGC_HIGH_WATER) then GcStep(counter, 2)
      else if counter >= config then
        GcStep(0, if SizeT(used * 100) >= SizeT(total * AUTOGC_MID_WATER) then 2 else 0)
      else GcStep(counter + 1, 0)
    else GcStep(0, 0)
  }

  /** The largest heap whose percentage products do not wrap. */
  const NO_WRAP_TOTAL: nat := 42_949_672

  /** Since "used" is the total, the high-water test passes on every idle
      receive: the heap is collected twice and the counter stays where it
      is; a busy bus resets it. */
  lemma IdleAlwaysCollects(counter: nat, busEmpty: bool, total: nat)
    requires total <= NO_WRAP_TOTAL
    ensures busEmpty ==> AutoGc(counter, busEmpty, AUTOGC_CONFIG, total) == GcStep(counter, 2)
    ensures !busEmpty ==> AutoGc(counter, busEmpty, AUTOGC_CONFIG, total) == GcStep(0, 0)
  {
  }

  /** Counter after a run of receives, each with the bus state and heap
      size seen at that moment. */
  function CounterAfter(counter: nat, steps: seq<(bool, nat)>): nat
    requires forall j :: 0 <= j < |steps| ==> steps[j].1 < WORD
    decreases |steps|
  {
    if |steps| == 0 then counter
    else CounterAfter(AutoGc(counter, steps[0].0, AUTOGC_CONFIG, steps[0].1).counter, steps[1..])
  }

  /** So the counter never leaves 0 and the mid-water branch is never
      reached. */
  lemma {:induction false} CounterStaysZero(steps: seq<(bool, nat)>)
    requires forall j :: 0 <= j < |steps| ==> steps[j].1 <= NO_WRAP_TOTAL
    ensures CounterAfter(0, steps) == 0
    decreases |steps|
  {
    if |steps| > 0 {
      IdleAlwaysCollects(0, steps[0].0, steps[0].1);
      CounterStaysZero(steps[1..]);
    }
  }

  datatype Wait = Forever | Millis(ms: nat)

  /** The wait receive asks for: the optional argument defaults to -1 and
      is cast to int; a negative value waits forever. */
  function ReceiveWait(timeout: Option<int>): (r: Wait)
    ensures timeout.None? ==> r == Forever
    ensures timeout.Some? && -0x8000_0000 <= timeout.value < 0 ==> r == Forever
    ensures timeout.Some? && 0 <= timeout.value < 0x8000_0000 ==> r == Millis(timeout.value)
  {
    var ms := Int32(if timeout.Some? then timeout.value else -1);
    if ms < 0 then Forever else Millis(ms)
  }

  datatype Received =
    | TimedOut(timers: T.Timers)                   // pushes -1
    | Delivered(handled: Handled)

  /** After the wait: no message gives -1, a message goes to its handler. */
  function Receive(t: T.Timers, msg: Option<TimerMsg>): (r: Received)
    requires Owned(t)
    ensures msg.None? <==> r.TimedOut?
    ensures r.TimedOut? ==> r.timers == t
    ensures msg.Some? ==> r == Delivered(Handler(t, msg.value))
  {
    if msg.None? then TimedOut(t) else Delivered(Handler(t, msg.value))
  }
}
