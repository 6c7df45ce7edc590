/**
 * The engine library's Lua engine: the shared run/stop protocol, a Lua
 * state rebuilt after every run on a restarted hybrid allocator, a callback
 * that re-registers modules on each new state, and a buffer in which code
 * arriving in chunks is assembled before it is run.
 */
module LibEngine {
  import opened Common
  import opened HybridAlloc
  import S = Scheduler

  datatype Engine = Engine(
    sched: S.Sched,
    alloc: Allocator,
    states: nat,                 // Lua states created so far
    buffer: string,              // code_buffer
    onReset: Option<S.Callback>) // state_reset_callback
  {
    ghost predicate Valid() {
      alloc.Valid() && alloc.Balanced()
    }
  }

  /** Before lua_engine_init: no state, nothing allocated. */
  const Unstarted: Engine :=
    Engine(S.Unstarted, Allocator(0, Stats(0, 0, 0, 0, false)), 0, "", None)

  datatype Rebuilt = Rebuilt(engine: Engine, resetCalled: Option<S.Callback>)

  /** reset_lua_state: close the old state and restart the pool with zeroed
      statistics, then build the new state on it and hand it to the reset
      callback. `startup` is what lua_newstate, luaL_openlibs and the
      callback ask of the allocator while doing so, in order. */
  function ResetState(e: Engine, startup: seq<Request>): (r: Rebuilt)
    ensures r.engine.Valid()
    // the new state's pool blocks are packed from the start of the pool
    ensures Packed(RunRequests(Fresh(e.alloc), startup).poolBlocks, 0, r.engine.alloc.poolOffset)
    ensures r.engine.alloc.stats.psramAvailable == e.alloc.stats.psramAvailable
    ensures startup == [] ==> r.engine.alloc.poolOffset == 0 && r.engine.alloc.stats.total == 0
    ensures r.engine.states == e.states + 1
    ensures r.resetCalled == e.onReset
    ensures r.engine.(alloc := e.alloc, states := e.states) == e
  {
    PoolBlocksDisjoint(Fresh(e.alloc), startup);
    var built := RunRequests(Fresh(e.alloc), startup);
    Rebuilt(e.(alloc := built.alloc, states := e.states + 1), e.onReset)
  }

  /** Nothing of the old state's allocations survives a reset: two engines
      that agree on whether PSRAM exists get the same allocator back. */
  lemma ResetForgetsOldAllocator(e1: Engine, e2: Engine, startup: seq<Request>)
    requires e1.alloc.stats.psramAvailable == e2.alloc.stats.psramAvailable
    ensures ResetState(e1, startup).engine.alloc == ResetState(e2, startup).engine.alloc
  {
    assert Fresh(e1.alloc) == Fresh(e2.alloc);
  }

  /** lua_engine_init: PSRAM counts as available when the heap reports any;
      then the first state is built and the worker starts waiting. */
  function Init(e: Engine, psramTotal: nat, startup: seq<Request>): (r: Rebuilt)
    ensures r.engine.Valid()
    ensures r.engine.alloc.stats.psramAvailable <==> psramTotal > 0
    ensures r.engine.sched.initialized && !r.engine.sched.running && !r.engine.sched.signalled
    ensures r.engine.states == e.states + 1
    ensures r.resetCalled == e.onReset
  {
    var withPsram := e.(alloc := e.alloc.(stats := e.alloc.stats.(psramAvailable := psramTotal > 0)));
    var b := ResetState(withPsram, startup);
    Rebuilt(b.engine.(sched := S.Init(e.sched)), b.resetCalled)
  }

  /** lua_engine_on_state_reset. */
  function OnStateReset(e: Engine, callback: Option<S.Callback>): (r: Engine)
    ensures r.onReset == callback
    ensures r.(onReset := e.onReset) == e
  {
    e.(onReset := callback)
  }

  datatype Taken = Taken(engine: Engine, runs: string)

  function WorkerTake(e: Engine): (r: Taken)
    requires e.sched.signalled && !e.sched.running
    ensures r.runs == CStr(e.sched.code)
    ensures r.engine.sched.running && !r.engine.sched.stopRequested
    ensures r.engine.(sched := e.sched) == e
  {
    var t := S.Take(e.sched);
    Taken(e.(sched := t.sched), t.runs)
  }

  datatype Finished = Finished(engine: Engine, effects: seq<S.Effect>, resetCalled: Option<S.Callback>)

  /** The end of a run: the scheduler's effects, with the state rebuilt at
      the point the rebuild effect stands. */
  function WorkerFinish(e: Engine, outcome: S.Outcome, startup: seq<Request>): (r: Finished)
    requires e.sched.running
    ensures r.engine.Valid()
    ensures !r.engine.sched.running && !r.engine.sched.stopRequested
    ensures r.effects == S.Finish(e.sched, outcome).effects
    // the next run gets the allocator a reset builds, whatever this run used
    ensures r.engine.alloc == ResetState(e, startup).engine.alloc
    ensures r.engine.states == e.states + 1
    ensures r.resetCalled == e.onReset
    ensures r.engine.buffer == e.buffer
  {
    var f := S.Finish(e.sched, outcome);
    var b := ResetState(e.(sched := f.sched), startup);
    Finished(b.engine, f.effects, b.resetCalled)
  }

  datatype Executed = Executed(engine: Engine, effects: seq<S.Effect>, timedOut: bool)

  /** lua_engine_execute; if the run in progress finishes while the caller
      waits, its state is rebuilt as in WorkerFinish. */
  method Execute(e: Engine, code: string, finishAfter: nat, outcome: S.Outcome, startup: seq<Request>)
    returns (r: Executed)
    ensures e.Valid() ==> r.engine.Valid()
    // a run that finished while the caller waited leaves a rebuilt state
    ensures e.sched.initialized && e.sched.running && !r.timedOut ==> r.engine.Valid()
    ensures e.sched.initialized ==> r.engine.sched.code == code && r.engine.sched.signalled
    ensures !e.sched.initialized ==> r.engine == e && r.effects == []
    ensures r.engine.buffer == e.buffer
    ensures r.timedOut ==> r.engine.sched.running && r.effects == []
    ensures !e.sched.running ==> !r.timedOut
    ensures e.sched.initialized && !r.timedOut ==> !r.engine.sched.running
    ensures e.sched.initialized && e.sched.running && !r.timedOut ==>
              r.effects == S.Finish(e.sched.(stopRequested := true), outcome).effects
              && r.engine.alloc == ResetState(e, startup).engine.alloc
    // the caller gives up after 500 polls, leaving the stop pending
    ensures e.sched.initialized && e.sched.running ==> (r.timedOut <==> finishAfter > S.MAX_POLLS)
    ensures r.timedOut ==> r.engine.sched.stopRequested
  {
    var x := S.Execute(e.sched, code, finishAfter, outcome);
    if e.sched.initialized && e.sched.running && !x.timedOut {
      var b := ResetState(e.(sched := x.sched), startup);
      r := Executed(b.engine, x.effects, false);
    } else {
      r := Executed(e.(sched := x.sched), x.effects, x.timedOut);
    }
  }

  /** lua_engine_add_code: a null pointer is ignored; otherwise the C string
      is appended as is. */
  function AddCode(e: Engine, code: Option<string>): (r: Engine)
    ensures code.None? ==> r == e
    ensures code.Some? ==> r.buffer == e.buffer + CStr(code.value)
    ensures r.(buffer := e.buffer) == e
  {
    if code.None? then e else e.(buffer := e.buffer + CStr(code.value))
  }

  /** lua_engine_clear_code. */
  function ClearCode(e: Engine): (r: Engine)
    ensures r.buffer == ""
    ensures r.(buffer := e.buffer) == e
  {
    e.(buffer := "")
  }

  /** lua_engine_run_buffer: execute the buffer as a C string. */
  method RunBuffer(e: Engine, finishAfter: nat, outcome: S.Outcome, startup: seq<Request>)
    returns (r: Executed)
    ensures e.Valid() ==> r.engine.Valid()
    ensures e.sched.initialized ==> r.engine.sched.code == CStr(e.buffer) && r.engine.sched.signalled
    ensures !e.sched.running ==> !r.timedOut
    ensures e.sched.initialized && !r.timedOut ==> !r.engine.sched.running
    ensures e.sched.initialized && e.sched.running ==> (r.timedOut <==> finishAfter > S.MAX_POLLS)
    ensures r.engine.buffer == e.buffer
  {
    r := Execute(e, CStr(e.buffer), finishAfter, outcome, startup);
  }

  /** The C strings of a run of add_code calls, concatenated. */
  function Chunks(cs: seq<Option<string>>): (r: string)
    ensures '\0' !in r
  {
    if |cs| == 0 then ""
    else
      var last := cs[|cs| - 1];
      Chunks(cs[..|cs| - 1]) + (if last.Some? then CStr(last.value) else "")
  }

  function AddAll(e: Engine, cs: seq<Option<string>>): (r: Engine)
  {
    if |cs| == 0 then e else AddCode(AddAll(e, cs[..|cs| - 1]), cs[|cs| - 1])
  }

  lemma {:induction false} AddAllAppends(e: Engine, cs: seq<Option<string>>)
    ensures AddAll(e, cs).buffer == e.buffer + Chunks(cs)
    ensures AddAll(e, cs).(buffer := e.buffer) == e
  {
    if |cs| > 0 {
      AddAllAppends(e, cs[..|cs| - 1]);
      var last := cs[|cs| - 1];
      var tail := if last.Some? then CStr(last.value) else "";
      Assoc(e.buffer, Chunks(cs[..|cs| - 1]), tail);
    }
  }

  /** Code sent in chunks is run whole: after clear, a run of add_code and
      run_buffer on an idle engine, the worker runs exactly the
      concatenation of the chunks. */
  method ChunkedCodeRuns(e: Engine, cs: seq<Option<string>>) returns (t: Taken)
    requires e.sched.initialized && !e.sched.running
    ensures t.runs == Chunks(cs)
  {
    var cleared := ClearCode(e);
    AddAllAppends(cleared, cs);
    var filled := AddAll(cleared, cs);
    assert filled.buffer == Chunks(cs);
    CStrOfNulFree(Chunks(cs));
    var x := RunBuffer(filled, 0, S.Ok, []);
    t := WorkerTake(x.engine);
    CStrOfNulFree(Chunks(cs));
  }

  datatype HookAction = Continue | RunStopScriptThenRaise

  /** The line hook: when a stop is pending it runs stop.lua, then raises
      "Interrupted by user (Ctrl+C)". */
  function Hook(e: Engine): (r: HookAction)
    ensures r.RunStopScriptThenRaise? <==> S.HookInterrupts(e.sched)
  {
    if e.sched.stopRequested then RunStopScriptThenRaise else Continue
  }
}
