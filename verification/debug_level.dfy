/**
 * The runtime log level: a single uint8_t that set_level changes only to a
 * known level, and that the *_RT logging macros compare against the level
 * of each message.
 */
module DebugLevel {
  type u8 = x: int | 0 <= x < 0x100

  const NONE: u8 := 0
  const ERROR: u8 := 1
  const INFO: u8 := 2
  const DEBUG: u8 := 3
  const TRACE: u8 := 4

  /** DEBUG_LOG_LEVEL as the library header defines it when nothing else
      does. */
  const DEFAULT: u8 := INFO

  predicate Known(level: u8) {
    level <= TRACE
  }

  /** debug_set_level: the new level from the current one. */
  function SetLevel(current: u8, level: u8): (r: u8)
    ensures Known(level) ==> r == level
    ensures !Known(level) ==> r == current
    ensures Known(current) ==> Known(r)
  {
    if level <= TRACE then level else current
  }

  /** The level after a run of set_level calls, oldest first. */
  function Replay(start: u8, calls: seq<u8>): u8
    decreases |calls|
  {
    if |calls| == 0 then start
    else SetLevel(Replay(start, calls[..|calls| - 1]), calls[|calls| - 1])
  }

  /** Starting from a known level, the level stays known whatever is
      asked for. */
  lemma {:induction false} ReplayStaysKnown(start: u8, calls: seq<u8>)
    requires Known(start)
    ensures Known(Replay(start, calls))
    decreases |calls|
  {
    if |calls| > 0 {
      ReplayStaysKnown(start, calls[..|calls| - 1]);
    }
  }

  /** The level is the last known one asked for, or the starting level
      when none was. */
  lemma {:induction false} ReplayLastKnownWins(start: u8, calls: seq<u8>)
    ensures (forall k :: 0 <= k < |calls| ==> !Known(calls[k])) ==> Replay(start, calls) == start
    ensures forall k :: 0 <= k < |calls| && Known(calls[k]) &&
                        (forall j :: k < j < |calls| ==> !Known(calls[j])) ==>
                        Replay(start, calls) == calls[k]
    decreases |calls|
  {
    if |calls| > 0 {
      var init := calls[..|calls| - 1];
      var last := |calls| - 1;
      ReplayLastKnownWins(start, init);
      forall k | 0 <= k < |calls| && Known(calls[k]) && (forall j :: k < j < |calls| ==> !Known(calls[j]))
        ensures Replay(start, calls) == calls[k]
      {
        if k < last {
          assert !Known(calls[last]);
          assert init[k] == calls[k];
          assert forall j :: k < j < |init| ==> init[j] == calls[j];
        }
      }
    }
  }

  /** Setting the same level twice is setting it once. */
  lemma SetLevelIdempotent(current: u8, level: u8)
    ensures SetLevel(SetLevel(current, level), level) == SetLevel(current, level)
  {
  }

  /** The *_RT macros: a message of level msg is printed iff the current
      level is at least msg. */
  predicate Enabled(current: u8, msg: u8) {
    current >= msg
  }

  /** Raising the level never silences a message; NONE prints nothing and
      TRACE prints every message level. */
  lemma EnabledMonotone(lower: u8, higher: u8, msg: u8)
    requires lower <= higher
    ensures Enabled(lower, msg) ==> Enabled(higher, msg)
    ensures ERROR <= msg ==> !Enabled(NONE, msg)
    ensures msg <= TRACE ==> Enabled(TRACE, msg)
  {
  }

  /** At the default level errors and info messages print, debug and
      trace messages do not. */
  lemma DefaultShowsInfo()
    ensures Enabled(DEFAULT, ERROR) && Enabled(DEFAULT, INFO)
    ensures !Enabled(DEFAULT, DEBUG) && !Enabled(DEFAULT, TRACE)
  {
  }
}
