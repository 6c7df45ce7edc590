/**
 * The run/stop protocol both Lua engines share: a worker task that waits
 * on a binary semaphore, runs the queued code, then rebuilds the Lua state;
 * and a caller-side execute that, when a run is in progress, asks it to
 * stop and polls for up to five seconds before queueing the new code.
 *
 * The two sides run concurrently in the firmware. Here each worker action
 * (Take, Finish) is atomic, and the moment the worker finishes during the
 * caller's polling is a parameter of Execute.
 */
module Scheduler {
  import opened Common

  const STOP_WAIT_MS: int := 5000
  const POLL_MS: int := 10
  /** Polls the caller makes before giving up. */
  const MAX_POLLS: nat := 500

  /** Identity of a C callback. */
  type Callback = nat

  /** What luaL_dostring returned: LUA_OK, or an error with its message. */
  datatype Outcome = Ok | Failed(message: string)

  /** Observable consequences of finishing a run, in order. */
  datatype Effect =
    | ErrorReported(callback: Callback, message: string)
    | StateRebuilt
    | StopReported(callback: Callback)

  datatype Sched = Sched(
    initialized: bool,     // the Lua state exists
    running: bool,         // is_running
    stopRequested: bool,   // stop_requested
    code: string,          // code_to_execute
    signalled: bool,       // the binary semaphore is given
    onError: Option<Callback>,
    onStop: Option<Callback>)

  /** Before lua_engine_init. */
  const Unstarted: Sched := Sched(false, false, false, "", false, None, None)

  /** lua_engine_init: the state exists, the semaphore is created empty and
      the worker is waiting. Callbacks set earlier are kept. */
  function Init(s: Sched): (r: Sched)
    ensures r.initialized && !r.running && !r.signalled
    ensures r.onError == s.onError && r.onStop == s.onStop
  {
    s.(initialized := true, running := false, signalled := false)
  }

  datatype Taken = Taken(sched: Sched, runs: string)

  /** The worker takes the semaphore: it marks itself running, discards
      any earlier stop request and runs the queued code as a C string. */
  function Take(s: Sched): (r: Taken)
    requires s.signalled && !s.running
    ensures r.sched.running && !r.sched.stopRequested && !r.sched.signalled
    ensures r.runs == CStr(s.code)
    ensures r.sched.(running := false, stopRequested := s.stopRequested, signalled := true) == s
  {
    Taken(s.(running := true, stopRequested := false, signalled := false), CStr(s.code))
  }

  datatype Finished = Finished(sched: Sched, effects: seq<Effect>)

  /** The worker's run ends: an error is reported to the error callback,
      the Lua state is rebuilt, the flags are cleared and the stop callback
      is told, in that order. */
  function Finish(s: Sched, outcome: Outcome): (r: Finished)
    requires s.running
    ensures !r.sched.running && !r.sched.stopRequested
    ensures r.sched.(running := true, stopRequested := s.stopRequested) == s
    ensures StateRebuilt in r.effects
    ensures |r.effects| >= 1 && r.effects[|r.effects| - 1] == (if s.onStop.Some? then StopReported(s.onStop.value) else StateRebuilt)
    // only the first effect can be an error report, and it is one exactly
    // when the run failed and an error callback is set
    ensures r.effects[0].ErrorReported? <==> outcome.Failed? && s.onError.Some?
    ensures forall i :: 0 < i < |r.effects| ==> !r.effects[i].ErrorReported?
    ensures outcome.Failed? && s.onError.Some? ==> r.effects[0] == ErrorReported(s.onError.value, outcome.message)
    // the whole list: at most an error report, the rebuild, at most a stop report
    ensures r.effects ==
              (if outcome.Failed? && s.onError.Some? then [ErrorReported(s.onError.value, outcome.message)] else [])
              + [StateRebuilt]
              + (if s.onStop.Some? then [StopReported(s.onStop.value)] else [])
  {
    var err := if outcome.Failed? && s.onError.Some? then [ErrorReported(s.onError.value, outcome.message)] else [];
    var stop := if s.onStop.Some? then [StopReported(s.onStop.value)] else [];
    Finished(s.(running := false, stopRequested := false), err + [StateRebuilt] + stop)
  }

  /** lua_engine_stop and lua_engine_request_stop. */
  function RequestStop(s: Sched): (r: Sched)
    ensures r.stopRequested
    ensures r.(stopRequested := s.stopRequested) == s
  {
    s.(stopRequested := true)
  }

  /** The line hook raises a Lua error exactly when a stop was requested. */
  predicate HookInterrupts(s: Sched) {
    s.stopRequested
  }

  datatype Executed = Executed(sched: Sched, effects: seq<Effect>, polls: nat, timedOut: bool)

  /** lua_engine_execute(code). `finishAfter` is how many 10 ms polls pass
      before a run in progress finishes, and `outcome` is its result. */
  method Execute(s: Sched, code: string, finishAfter: nat, outcome: Outcome) returns (r: Executed)
    ensures !s.initialized ==> r == Executed(s, [], 0, false)
    ensures s.initialized ==> r.sched.code == code && r.sched.signalled
    ensures s.initialized && !s.running ==>
              r == Executed(s.(code := code, signalled := true), [], 0, false)
    ensures s.initialized && s.running ==>
              && r.polls == Min(finishAfter, MAX_POLLS)
              && (r.timedOut <==> finishAfter > MAX_POLLS)
    ensures r.timedOut ==>
              r.sched == s.(stopRequested := true, code := code, signalled := true) && r.effects == []
    ensures s.initialized && s.running && !r.timedOut ==>
              var f := Finish(s.(stopRequested := true), outcome);
              r.sched == f.sched.(code := code, signalled := true) && r.effects == f.effects
  {
    if !s.initialized {
      return Executed(s, [], 0, false);
    }
    if !s.running {
      return Executed(s.(code := code, signalled := true), [], 0, false);
    }
    var asked := s.(stopRequested := true);
    var done := Finish(asked, outcome);
    var cur := asked;
    var effects: seq<Effect> := [];
    var timeout := STOP_WAIT_MS;
    var polls: nat := 0;
    if finishAfter == 0 {
      cur, effects := done.sched, done.effects;
    }
    while cur.running && timeout > 0
      invariant polls <= MAX_POLLS
      invariant timeout == STOP_WAIT_MS - POLL_MS * polls
      invariant cur.running <==> polls < finishAfter
      invariant cur.running ==> cur == asked && effects == []
      invariant !cur.running ==> cur == done.sched && effects == done.effects
      invariant polls <= finishAfter
      decreases timeout
    {
      polls := polls + 1;
      timeout := timeout - POLL_MS;
      if polls == finishAfter {
        cur, effects := done.sched, done.effects;
      }
    }
    r := Executed(cur.(code := code, signalled := true), effects, polls, cur.running);
  }

  /** Two executes while idle queue only the second code, and it runs once:
      the semaphore is binary. */
  method ExecuteTwiceRunsLast(s: Sched, first: string, second: string) returns (t: Taken)
    requires s.initialized && !s.running
    ensures t.runs == CStr(second)
    ensures !t.sched.signalled
  {
    var a := Execute(s, first, 0, Ok);
    var b := Execute(a.sched, second, 0, Ok);
    t := Take(b.sched);
  }

  /** A stop asked for while nothing runs does not affect the next run. */
  lemma StaleStopDiscarded(s: Sched)
    requires s.signalled && !s.running
    ensures !HookInterrupts(Take(RequestStop(s)).sched)
    ensures Take(RequestStop(s)).runs == Take(s).runs
  {
  }

  /** Executing while a run is in progress and the run ends within the wait:
      the old run is interrupted, its state rebuilt, and the new code is the
      next thing the worker runs. */
  method ExecuteInterrupts(s: Sched, code: string, finishAfter: nat, outcome: Outcome) returns (t: Taken)
    requires s.initialized && s.running
    requires finishAfter <= MAX_POLLS
    ensures t.runs == CStr(code)
    ensures t.sched.running && !t.sched.stopRequested
  {
    var e := Execute(s, code, finishAfter, outcome);
    assert !e.timedOut;
    t := Take(e.sched);
  }

  /** A run, taken and finished, leaves the worker idle with no stop
      pending, and the state rebuilt exactly once. */
  lemma RunCycle(s: Sched, outcome: Outcome)
    requires s.signalled && !s.running
    ensures var f := Finish(Take(s).sched, outcome);
            && !f.sched.running && !f.sched.stopRequested && !f.sched.signalled
            && multiset(f.effects)[StateRebuilt] == 1
  {
    var t := Take(s).sched;
    var err := if outcome.Failed? && t.onError.Some? then [ErrorReported(t.onError.value, outcome.message)] else [];
    var stop := if t.onStop.Some? then [StopReported(t.onStop.value)] else [];
    assert Finish(t, outcome).effects == err + [StateRebuilt] + stop;
    assert multiset(err)[StateRebuilt] == 0;
    assert multiset(stop)[StateRebuilt] == 0;
  }
}
