/**
 * The application's own (older) Lua engine: the same run/stop protocol as
 * the engine library, but instead of a reset callback it keeps a registry
 * of at most sixteen module-registration functions, every one of which is
 * called, in registration order, on each new Lua state.
 */
module LegacyEngine {
  import opened Common
  import S = Scheduler

  const MAX_MODULES: nat := 16

  datatype Engine = Engine(
    sched: S.Sched,
    modules: seq<S.Callback>,   // registered_modules[0 .. module_count)
    states: nat)                // Lua states created so far
  {
    predicate Valid() {
      |modules| <= MAX_MODULES
    }
  }

  const Unstarted: Engine := Engine(S.Unstarted, [], 0)

  /** lua_engine_add_module: accepted while fewer than sixteen are held. */
  function AddModule(e: Engine, register: S.Callback): (r: Engine)
    ensures e.Valid() ==> r.Valid()
    ensures |e.modules| < MAX_MODULES ==> r.modules == e.modules + [register]
    ensures |e.modules| >= MAX_MODULES ==> r == e
    ensures r.(modules := e.modules) == e
  {
    if |e.modules| < MAX_MODULES then e.(modules := e.modules + [register]) else e
  }

  function AddModules(e: Engine, rs: seq<S.Callback>): Engine
    decreases |rs|
  {
    if |rs| == 0 then e else AddModules(AddModule(e, rs[0]), rs[1..])
  }

  /** Registering a list of modules keeps as many of them, in order, as fit
      in the sixteen slots, drops the rest and touches nothing else. */
  lemma {:induction false} AddModulesKeepsFirst(e: Engine, rs: seq<S.Callback>)
    requires e.Valid()
    ensures AddModules(e, rs).Valid()
    ensures |e.modules| + |rs| <= MAX_MODULES ==> AddModules(e, rs).modules == e.modules + rs
    ensures |e.modules| + |rs| > MAX_MODULES ==>
              AddModules(e, rs).modules == e.modules + rs[..MAX_MODULES - |e.modules|]
    ensures AddModules(e, rs).(modules := e.modules) == e
    decreases |rs|
  {
    if |rs| > 0 {
      var e1 := AddModule(e, rs[0]);
      AddModulesKeepsFirst(e1, rs[1..]);
      if |e.modules| < MAX_MODULES {
        assert e1.modules == e.modules + [rs[0]];
        if |e.modules| + |rs| <= MAX_MODULES {
          assert e.modules + [rs[0]] + rs[1..] == e.modules + rs;
        } else {
          var k := MAX_MODULES - |e.modules|;
          assert rs[..k] == [rs[0]] + rs[1..][..k - 1];
          assert e.modules + [rs[0]] + rs[1..][..k - 1] == e.modules + rs[..k];
        }
      } else {
        assert e1 == e;
        assert rs[..0] == [];
      }
    }
  }

  datatype Rebuilt = Rebuilt(engine: Engine, called: seq<S.Callback>)

  /** reset_lua_state: the old state is closed, a fresh one made, and every
      registered module is called on it once. */
  function ResetState(e: Engine): (r: Rebuilt)
    ensures r.called == e.modules
    ensures r.engine.states == e.states + 1
    ensures r.engine.(states := e.states) == e
  {
    Rebuilt(e.(states := e.states + 1), e.modules)
  }

  /** lua_engine_init: the first state is built with the modules registered
      so far, and the worker starts waiting. */
  function Init(e: Engine): (r: Rebuilt)
    ensures r.called == e.modules
    ensures r.engine.sched.initialized && !r.engine.sched.running && !r.engine.sched.signalled
    ensures r.engine.modules == e.modules && r.engine.states == e.states + 1
  {
    var b := ResetState(e);
    Rebuilt(b.engine.(sched := S.Init(e.sched)), b.called)
  }

  datatype Taken = Taken(engine: Engine, runs: string)

  function WorkerTake(e: Engine): (r: Taken)
    requires e.sched.signalled && !e.sched.running
    ensures r.runs == CStr(e.sched.code)
    ensures r.engine.sched.running && !r.engine.sched.stopRequested
    ensures r.engine.(sched := e.sched) == e
  {
    var t := S.Take(e.sched);
    Taken(e.(sched := t.sched), t.runs)
  }

  datatype Finished = Finished(engine: Engine, effects: seq<S.Effect>, called: seq<S.Callback>)

  /** The end of a run: error report, rebuild (calling every module), flags
      cleared, stop report. */
  function WorkerFinish(e: Engine, outcome: S.Outcome): (r: Finished)
    requires e.sched.running
    ensures !r.engine.sched.running && !r.engine.sched.stopRequested
    ensures r.effects == S.Finish(e.sched, outcome).effects
    ensures r.called == e.modules
    ensures r.engine.modules == e.modules && r.engine.states == e.states + 1
  {
    var f := S.Finish(e.sched, outcome);
    var b := ResetState(e.(sched := f.sched));
    Finished(b.engine, f.effects, b.called)
  }

  /** lua_engine_stop and lua_engine_request_stop set only the stop flag. */
  function Stop(e: Engine): (r: Engine)
    ensures r.sched.stopRequested
    ensures r.sched.running == e.sched.running
    ensures r.(sched := e.sched) == e
  {
    e.(sched := S.RequestStop(e.sched))
  }

  /** debug_hook: raise the interruption error exactly when a stop is
      pending. */
  function HookRaises(e: Engine): (r: bool)
    ensures r <==> S.HookInterrupts(e.sched)
  {
    e.sched.stopRequested
  }

  datatype Executed = Executed(engine: Engine, effects: seq<S.Effect>, called: seq<S.Callback>, timedOut: bool)

  /** lua_engine_execute. If a run in progress ends while the caller polls,
      the modules are called on the rebuilt state. */
  method Execute(e: Engine, code: string, finishAfter: nat, outcome: S.Outcome) returns (r: Executed)
    ensures !e.sched.initialized ==> r.engine == e && r.effects == [] && r.called == []
    ensures e.sched.initialized ==> r.engine.sched.code == code && r.engine.sched.signalled
    ensures r.engine.modules == e.modules
    ensures r.timedOut ==> r.engine.sched.running && r.called == []
    ensures !e.sched.running ==> !r.timedOut && r.called == []
    ensures e.sched.initialized && e.sched.running && !r.timedOut ==>
              r.called == e.modules && !r.engine.sched.running
    // a run in progress is asked to stop; the caller gives up after 500
    // polls, leaving the stop pending, and otherwise sees the run's end
    ensures !(e.sched.initialized && e.sched.running) ==> r.effects == []
    ensures e.sched.initialized && e.sched.running ==> (r.timedOut <==> finishAfter > S.MAX_POLLS)
    ensures r.timedOut ==> r.engine.sched.stopRequested && r.effects == []
    ensures e.sched.initialized && e.sched.running && !r.timedOut ==>
              r.effects == S.Finish(e.sched.(stopRequested := true), outcome).effects
  {
    var x := S.Execute(e.sched, code, finishAfter, outcome);
    if e.sched.initialized && e.sched.running && !x.timedOut {
      var b := ResetState(e.(sched := x.sched));
      r := Executed(b.engine, x.effects, b.called, false);
    } else {
      r := Executed(e.(sched := x.sched), x.effects, [], x.timedOut);
    }
  }
}
