/**
 * The FreeRTOS port of the LuatOS timer table: a fixed array of 64 slots,
 * each empty or holding a pointer to a timer record. Timer records live in
 * a heap of their own, keyed by an abstract pointer; whether the OS timer
 * can be created and started is a parameter.
 */
module TimerTable {
  import opened Common

  const MAX_TIMERS: nat := 64

  /** A pointer to a timer record. */
  type Ref = nat

  datatype Timer = Timer(
    id: nat,            // size_t id
    timeout: nat,       // milliseconds
    repeat: int,        // -1 forever, 0 once, n > 0 n more times
    running: bool,      // os_timer != NULL
    autoReload: bool)   // the OS timer's auto-reload flag

  datatype Timers = Timers(slots: seq<Option<Ref>>, heap: map<Ref, Timer>)
  {
    predicate Valid() {
      && |slots| == MAX_TIMERS
      && (forall i :: 0 <= i < |slots| && slots[i].Some? ==> slots[i].value in heap)
      // a timer in the table has its OS timer
      && (forall i :: 0 <= i < |slots| && slots[i].Some? ==> heap[slots[i].value].running)
      // a record sits in at most one slot
      && (forall i, j :: 0 <= i < j < |slots| && slots[i].Some? && slots[j].Some? ==> slots[i] != slots[j])
    }

    predicate Holds(ref: Ref) {
      Some(ref) in slots
    }
  }

  const Empty: Timers := Timers(seq(MAX_TIMERS, _ => None), map[])

  /** next_timer_slot: the lowest empty slot, or -1 when all are taken. */
  function NextSlot(slots: seq<Option<Ref>>): (r: int)
    ensures -1 <= r < |slots|
    ensures r == -1 <==> forall i :: 0 <= i < |slots| ==> slots[i].Some?
    ensures r >= 0 ==> slots[r].None? && forall i :: 0 <= i < r ==> slots[i].Some?
  {
    FirstEmptyFrom(slots, 0)
  }

  function FirstEmptyFrom(slots: seq<Option<Ref>>, from: nat): (r: int)
    requires from <= |slots|
    ensures -1 <= r < |slots|
    ensures r == -1 <==> forall i :: from <= i < |slots| ==> slots[i].Some?
    ensures r >= 0 ==> from <= r && slots[r].None? && forall i :: from <= i < r ==> slots[i].Some?
    decreases |slots| - from
  {
    if from == |slots| then -1
    else if slots[from].None? then from
    else FirstEmptyFrom(slots, from + 1)
  }

  datatype Started = Started(timers: Timers, result: int)

  /** luat_timer_start(timer). `ref` is None for a NULL timer; `creates`
      and `starts` say whether xTimerCreate and xTimerStart succeed. */
  function Start(t: Timers, ref: Option<Ref>, creates: bool, starts: bool): (r: Started)
    requires t.Valid()
    requires ref.Some? ==> ref.value in t.heap && !t.Holds(ref.value)
    ensures r.timers.Valid()
    ensures r.timers.heap.Keys == t.heap.Keys
    ensures r.result == 0 || r.result == -1
    ensures r.result == -1 ==> r.timers == t
    ensures r.result == 0 <==> ref.Some? && NextSlot(t.slots) >= 0 && creates && starts
    ensures r.result == 0 ==>
              var k := NextSlot(t.slots);
              && r.timers.slots == t.slots[k := ref]
              && r.timers.heap[ref.value].running
              && (r.timers.heap[ref.value].autoReload <==> t.heap[ref.value].repeat != 0)
              && r.timers.heap[ref.value].(running := false, autoReload := false)
                 == t.heap[ref.value].(running := false, autoReload := false)
  {
    if ref.None? then Started(t, -1)
    else
      var k := NextSlot(t.slots);
      if k < 0 || !creates then Started(t, -1)
      // on a failed start the slot and os_timer are put back
      else if !starts then Started(t, -1)
      else
        var tm := t.heap[ref.value];
        var slots := t.slots[k := ref];
        assert forall i :: 0 <= i < |slots| && slots[i].Some? && i != k ==> slots[i] != ref;
        Started(Timers(slots, t.heap[ref.value := tm.(running := true, autoReload := tm.repeat != 0)]), 0)
  }

  /** The first slot holding ref, if any. */
  function SlotOf(slots: seq<Option<Ref>>, ref: Ref): (r: int)
    ensures -1 <= r < |slots|
    ensures r == -1 <==> Some(ref) !in slots
    ensures r >= 0 ==> slots[r] == Some(ref) && Some(ref) !in slots[..r]
  {
    if Some(ref) !in slots then -1
    else
      var k := FirstFrom(slots, Some(ref), 0);
      assert Some(ref) !in slots[..k] by {
        forall i | 0 <= i < k ensures slots[..k][i] != Some(ref) {}
      }
      k
  }

  function FirstFrom(slots: seq<Option<Ref>>, x: Option<Ref>, from: nat): (r: nat)
    requires from <= |slots| && x in slots[from..]
    ensures from <= r < |slots| && slots[r] == x
    ensures forall i :: from <= i < r ==> slots[i] != x
    decreases |slots| - from
  {
    if slots[from] == x then from
    else
      assert x in slots[from + 1..] by {
        var j :| 0 <= j < |slots[from..]| && slots[from..][j] == x;
        assert j != 0;
        assert slots[from + 1..][j - 1] == x;
      }
      FirstFrom(slots, x, from + 1)
  }

  datatype Stopped = Stopped(timers: Timers, result: int)

  /** luat_timer_stop(timer): a NULL timer, or one whose OS timer is gone,
      gives 1; otherwise the first slot holding it is cleared, the OS timer
      deleted, and 0 returned. The record itself is not freed. */
  function Stop(t: Timers, ref: Option<Ref>): (r: Stopped)
    requires t.Valid()
    requires ref.Some? ==> ref.value in t.heap
    ensures r.timers.Valid()
    ensures r.result == 1 <==> ref.None? || !t.heap[ref.value].running
    ensures r.result == 1 ==> r.timers == t
    ensures r.result == 0 ==>
              && r.timers.heap == t.heap[ref.value := t.heap[ref.value].(running := false)]
              && !r.timers.Holds(ref.value)
              && !r.timers.heap[ref.value].running
              && (forall i :: 0 <= i < MAX_TIMERS && t.slots[i] != ref ==> r.timers.slots[i] == t.slots[i])
  {
    if ref.None? || !t.heap[ref.value].running then Stopped(t, 1)
    else
      var k := SlotOf(t.slots, ref.value);
      var slots := if k >= 0 then t.slots[k := None] else t.slots;
      assert Some(ref.value) !in slots by {
        if k >= 0 {
          forall i | 0 <= i < |slots| ensures slots[i] != ref {
            if i < k { assert t.slots[..k][i] == t.slots[i]; }
          }
        }
      }
      var tm := t.heap[ref.value];
      Stopped(Timers(slots, t.heap[ref.value := tm.(running := false)]), 0)
  }

  /** luat_timer_get(id): the record in the lowest slot whose id matches.
      Starting does not reject a second timer with the same id; this is the
      one that wins. */
  function Get(t: Timers, id: nat): (r: Option<Ref>)
    requires t.Valid()
    ensures r.Some? ==> t.Holds(r.value) && t.heap[r.value].id == id
    ensures r.None? ==> forall i :: 0 <= i < MAX_TIMERS && t.slots[i].Some? ==> t.heap[t.slots[i].value].id != id
    ensures r.Some? ==> exists k :: 0 <= k < MAX_TIMERS && t.slots[k] == r &&
                                    forall i :: 0 <= i < k && t.slots[i].Some? ==> t.heap[t.slots[i].value].id != id
  {
    GetFrom(t, id, 0)
  }

  function GetFrom(t: Timers, id: nat, from: nat): (r: Option<Ref>)
    requires t.Valid() && from <= MAX_TIMERS
    ensures r.Some? ==> t.Holds(r.value) && t.heap[r.value].id == id
    ensures r.None? ==> forall i :: from <= i < MAX_TIMERS && t.slots[i].Some? ==> t.heap[t.slots[i].value].id != id
    ensures r.Some? ==> exists k :: from <= k < MAX_TIMERS && t.slots[k] == r &&
                                    forall i :: from <= i < k && t.slots[i].Some? ==> t.heap[t.slots[i].value].id != id
    decreases MAX_TIMERS - from
  {
    if from == MAX_TIMERS then None
    else if t.slots[from].Some? && t.heap[t.slots[from].value].id == id then t.slots[from]
    else GetFrom(t, id, from + 1)
  }

  function Occupied(slots: seq<Option<Ref>>): nat
  {
    if |slots| == 0 then 0
    else Occupied(slots[..|slots| - 1]) + (if slots[|slots| - 1].Some? then 1 else 0)
  }

  /** luat_timer_stop_all: every slot emptied and every record in the table
      freed; the count is how many slots were occupied. */
  method StopAll(t: Timers) returns (r: Timers, count: nat)
    requires t.Valid()
    ensures r.Valid()
    ensures forall i :: 0 <= i < MAX_TIMERS ==> r.slots[i].None?
    ensures count == Occupied(t.slots)
    ensures forall p :: p in t.heap ==> (p in r.heap <==> !t.Holds(p))
    ensures forall p :: p in r.heap ==> p in t.heap && r.heap[p] == t.heap[p]
  {
    var slots := t.slots;
    var heap := t.heap;
    count := 0;
    var i := 0;
    while i < MAX_TIMERS
      invariant 0 <= i <= MAX_TIMERS && |slots| == MAX_TIMERS
      invariant forall j :: 0 <= j < i ==> slots[j].None?
      invariant forall j :: i <= j < MAX_TIMERS ==> slots[j] == t.slots[j]
      invariant count == Occupied(t.slots[..i])
      invariant forall p :: p in t.heap ==> (p in heap <==> Some(p) !in t.slots[..i])
      invariant forall p :: p in heap ==> p in t.heap && heap[p] == t.heap[p]
    {
      assert t.slots[..i + 1][..i] == t.slots[..i];
      assert t.slots[..i + 1] == t.slots[..i] + [t.slots[i]];
      if slots[i].Some? {
        heap := heap - {slots[i].value};
        slots := slots[i := None];
        count := count + 1;
      }
      i := i + 1;
    }
    assert t.slots[..MAX_TIMERS] == t.slots;
    r := Timers(slots, heap);
  }
}
