/**
 * The application's serial console: characters typed on the serial port
 * are collected into a code buffer; Ctrl+D runs the buffer, Ctrl+C stops
 * a running script or clears the buffer, backspace deletes the last
 * character. Also the "lua_execute" event handler, which runs an event's
 * payload as code. What the engine does with the code is modelled in
 * LegacyEngine.
 */
module SerialConsole {
  import opened Common
  import L = LegacyEngine
  import S = Scheduler

  const CTRL_C: byte := 0x03
  const CTRL_D: byte := 0x04
  const BACKSPACE: byte := 0x08
  const DELETE: byte := 0x7F

  /** (char)byte: the character with the byte's code. */
  function CharOf(b: byte): (c: char)
    ensures c as int == b as int
  {
    (b as int) as char
  }

  /** Bytes that edit or run the buffer rather than being typed into it. */
  predicate IsControl(b: byte) {
    b == CTRL_C || b == CTRL_D || b == BACKSPACE || b == DELETE
  }

  predicate Typed(s: string) {
    forall k :: 0 <= k < |s| ==> s[k] as int < 256 && !IsControl(s[k] as int as byte)
  }

  datatype Action = Run(code: string) | RequestStop

  datatype Stepped = Stepped(buffer: string, action: Option<Action>)

  /** One character of processSerial; `running` is lua_engine_is_running()
      at that moment. */
  function Step(buffer: string, c: byte, running: bool): (r: Stepped)
    // Ctrl+D: run exactly the buffer and empty it; nothing when empty
    ensures c == CTRL_D && |buffer| > 0 ==> r == Stepped("", Some(Run(buffer)))
    ensures c == CTRL_D && |buffer| == 0 ==> r == Stepped("", None)
    // Ctrl+C: stop a running script, keeping the buffer; else clear it
    ensures c == CTRL_C && running ==> r == Stepped(buffer, Some(RequestStop))
    ensures c == CTRL_C && !running ==> r == Stepped("", None)
    // backspace: drop the last character, if any
    ensures (c == BACKSPACE || c == DELETE) ==>
              (r.action.None? && r.buffer == (if |buffer| > 0 then buffer[..|buffer| - 1] else buffer))
    // anything else is appended
    ensures !IsControl(c) ==> r == Stepped(buffer + [CharOf(c)], None)
  {
    if c == CTRL_D then
      if |buffer| > 0 then Stepped("", Some(Run(buffer))) else Stepped(buffer, None)
    else if c == CTRL_C then
      if running then Stepped(buffer, Some(RequestStop)) else Stepped("", None)
    else if c == BACKSPACE || c == DELETE then
      if |buffer| > 0 then Stepped(buffer[..|buffer| - 1], None) else Stepped(buffer, None)
    else Stepped(buffer + [CharOf(c)], None)
  }

  /** Backspace takes back the character just typed. */
  lemma BackspaceUndoesTyping(buffer: string, c: byte, running: bool)
    requires !IsControl(c)
    ensures Step(Step(buffer, c, running).buffer, BACKSPACE, running).buffer == buffer
  {
    assert (buffer + [CharOf(c)])[..|buffer|] == buffer;
  }

  /** What one step hands on: the action, if it produced one. */
  function Acts(st: Stepped): (r: seq<Action>)
    ensures |r| <= 1
    ensures st.action.None? <==> r == []
    ensures st.action.Some? ==> r == [st.action.value]
  {
    if st.action.Some? then [st.action.value] else []
  }

  /** The serial loop of src/main.cpp:123-176 over a run of input bytes,
      with the engine's running flag as seen at each byte. */
  function Feed(buffer: string, input: seq<byte>, running: seq<bool>): (r: (string, seq<Action>))
    requires |running| == |input|
    decreases |input|
  {
    if |input| == 0 then (buffer, [])
    else
      var st := Step(buffer, input[0], running[0]);
      var rest := Feed(st.buffer, input[1..], running[1..]);
      (rest.0, Acts(st) + rest.1)
  }

  lemma FeedCons(buffer: string, input: seq<byte>, running: seq<bool>)
    requires |running| == |input| > 0
    ensures var st := Step(buffer, input[0], running[0]);
            var rest := Feed(st.buffer, input[1..], running[1..]);
            Feed(buffer, input, running) == (rest.0, Acts(st) + rest.1)
  {
  }

  function Chars(bs: seq<byte>): (r: string)
    ensures |r| == |bs|
    ensures forall k :: 0 <= k < |bs| ==> r[k] == CharOf(bs[k])
  {
    seq(|bs|, k requires 0 <= k < |bs| => CharOf(bs[k]))
  }

  lemma CharsCons(buffer: string, text: seq<byte>)
    requires |text| > 0
    ensures buffer + [CharOf(text[0])] + Chars(text[1..]) == buffer + Chars(text)
  {
    assert Chars(text) == [CharOf(text[0])] + Chars(text[1..]);
  }

  /** Ordinary characters only grow the buffer; nothing runs. */
  lemma {:induction false} TypingAppends(buffer: string, text: seq<byte>, running: seq<bool>)
    requires |running| == |text|
    requires forall k :: 0 <= k < |text| ==> !IsControl(text[k])
    ensures Feed(buffer, text, running) == (buffer + Chars(text), [])
    decreases |text|
  {
    if |text| > 0 {
      var st := Step(buffer, text[0], running[0]);
      assert st == Stepped(buffer + [CharOf(text[0])], None);
      FeedCons(buffer, text, running);
      TypingAppends(st.buffer, text[1..], running[1..]);
      CharsCons(buffer, text);
      var rest := Feed(st.buffer, text[1..], running[1..]);
      assert Acts(st) == [] && rest.1 == [];
      assert Acts(st) + rest.1 == [];
    } else {
      assert buffer + Chars(text) == buffer;
    }
  }

  /** Feeding two runs one after the other is feeding their concatenation. */
  lemma {:induction false} FeedSplit(buffer: string, a: seq<byte>, b: seq<byte>, ra: seq<bool>, rb: seq<bool>)
    requires |ra| == |a| && |rb| == |b|
    ensures Feed(buffer, a + b, ra + rb) ==
            (Feed(Feed(buffer, a, ra).0, b, rb).0, Feed(buffer, a, ra).1 + Feed(Feed(buffer, a, ra).0, b, rb).1)
    decreases |a|
  {
    if |a| > 0 {
      var st := Step(buffer, a[0], ra[0]);
      assert (a + b)[0] == a[0] && (ra + rb)[0] == ra[0];
      assert (a + b)[1..] == a[1..] + b;
      assert (ra + rb)[1..] == ra[1..] + rb;
      FeedCons(buffer, a + b, ra + rb);
      FeedCons(buffer, a, ra);
      FeedSplit(st.buffer, a[1..], b, ra[1..], rb);
      var m := Feed(st.buffer, a[1..], ra[1..]);
      var n := Feed(m.0, b, rb);
      assert Acts(st) + (m.1 + n.1) == (Acts(st) + m.1) + n.1;
    } else {
      assert a + b == b && ra + rb == rb;
      assert Feed(buffer, a, ra) == (buffer, []);
      assert [] + Feed(buffer, b, rb).1 == Feed(buffer, b, rb).1;
    }
  }

  /** Typing a line of ordinary characters on an empty buffer and pressing
      Ctrl+D runs exactly that line, whatever the engine is doing, and
      leaves the buffer empty. */
  lemma TypedLineRuns(text: seq<byte>, running: seq<bool>, last: bool)
    requires |running| == |text| && |text| > 0
    requires forall k :: 0 <= k < |text| ==> !IsControl(text[k])
    ensures Feed("", text + [CTRL_D], running + [last]) == ("", [Run(Chars(text))])
  {
    FeedSplit("", text, [CTRL_D], running, [last]);
    TypingAppends("", text, running);
    var t := Chars(text);
    assert "" + t == t;
    assert Step(t, CTRL_D, last) == Stepped("", Some(Run(t)));
    FeedCons(t, [CTRL_D], [last]);
    assert [CTRL_D][0] == CTRL_D && [last][0] == last;
    assert [CTRL_D][1..] == [] && [last][1..] == [];
    assert Feed("", [], []) == ("", []);
    assert Acts(Stepped("", Some(Run(t)))) + [] == [Run(t)];
    assert Feed(t, [CTRL_D], [last]) == ("", [Run(t)]);
    assert Feed("", text, running).1 + [Run(t)] == [Run(t)];
  }

  /** One more byte at the end of the input: its step acts on the buffer
      the earlier bytes left. */
  lemma FeedSnoc(buffer: string, input: seq<byte>, seen: seq<bool>, c: byte, running: bool)
    requires |seen| == |input|
    ensures var before := Feed(buffer, input, seen);
            var st := Step(before.0, c, running);
            Feed(buffer, input + [c], seen + [running]) == (st.buffer, before.1 + Acts(st))
  {
    var before := Feed(buffer, input, seen);
    var st := Step(before.0, c, running);
    FeedSplit(buffer, input, [c], seen, [running]);
    FeedCons(before.0, [c], [running]);
    assert [c][1..] == [] && [running][1..] == [];
    assert Feed(st.buffer, [], []) == (st.buffer, []);
    assert Acts(st) + [] == Acts(st);
  }

  /** The code of every Run action, in order. */
  function RunCodes(acts: seq<Action>): seq<string>
  {
    if |acts| == 0 then []
    else
      var last := acts[|acts| - 1];
      RunCodes(acts[..|acts| - 1]) + (if last.Run? then [last.code] else [])
  }

  lemma RunCodesSnoc(acts: seq<Action>, more: seq<Action>)
    requires |more| <= 1
    ensures RunCodes(acts + more) ==
              RunCodes(acts) + (if |more| == 1 && more[0].Run? then [more[0].code] else [])
  {
    if |more| == 1 {
      assert (acts + more)[..|acts|] == acts;
    } else {
      assert acts + more == acts;
    }
  }

  /** The loop's step, stated on what the loop keeps: the buffer and the
      codes run so far. */
  lemma FeedStep(buffer: string, input: seq<byte>, seen: seq<bool>, c: byte, running: bool)
    requires |seen| == |input|
    ensures var before := Feed(buffer, input, seen);
            var st := Step(before.0, c, running);
            var after := Feed(buffer, input + [c], seen + [running]);
            && after.0 == st.buffer
            && RunCodes(after.1) ==
                 RunCodes(before.1) + (if st.action.Some? && st.action.value.Run? then [st.action.value.code] else [])
  {
    var before := Feed(buffer, input, seen);
    var st := Step(before.0, c, running);
    FeedSnoc(buffer, input, seen, c, running);
    RunCodesSnoc(before.1, Acts(st));
  }

  /** How many Ctrl+D bytes s holds. */
  function Presses(s: seq<byte>): nat
  {
    if |s| == 0 then 0 else Presses(s[..|s| - 1]) + (if s[|s| - 1] == CTRL_D then 1 else 0)
  }

  /** A step keeps the buffer typed, and runs only on Ctrl+D, only a
      non-empty typed buffer. */
  lemma StepKeepsTyped(buffer: string, c: byte, running: bool)
    requires Typed(buffer)
    ensures var st := Step(buffer, c, running);
            && Typed(st.buffer)
            && (st.action.Some? && st.action.value.Run? ==>
                  c == CTRL_D && |st.action.value.code| > 0 && Typed(st.action.value.code))
  {
  }

  /** Codes that Ctrl+D can run: non-empty and typed. */
  predicate Runnable(codes: seq<string>) {
    forall k :: 0 <= k < |codes| ==> |codes[k]| > 0 && Typed(codes[k])
  }

  /** Over any input, the buffer stays typed, and only non-empty typed
      buffers run, at most once per Ctrl+D. */
  lemma {:induction false} FeedKeepsTyped(buffer: string, input: seq<byte>, seen: seq<bool>)
    requires |seen| == |input| && Typed(buffer)
    ensures Typed(Feed(buffer, input, seen).0)
    ensures Runnable(RunCodes(Feed(buffer, input, seen).1))
    ensures |RunCodes(Feed(buffer, input, seen).1)| <= Presses(input)
    decreases |input|
  {
    if |input| > 0 {
      var n := |input| - 1;
      var pre, sp := input[..n], seen[..n];
      assert input == pre + [input[n]] && seen == sp + [seen[n]];
      FeedKeepsTyped(buffer, pre, sp);
      FeedStep(buffer, pre, sp, input[n], seen[n]);
      StepKeepsTyped(Feed(buffer, pre, sp).0, input[n], seen[n]);
    }
  }

  /** What processSerial does with a step's action: Ctrl+D calls
      lua_engine_execute, Ctrl+C while running calls lua_engine_stop. */
  method Dispatch(e: L.Engine, action: Option<Action>, finishAfter: nat, outcome: S.Outcome) returns (engine: L.Engine)
    ensures engine.modules == e.modules
    ensures action.None? ==> engine == e
    ensures action == Some(RequestStop) ==> engine == L.Stop(e)
  {
    match action {
      case Some(Run(code)) =>
        var x := L.Execute(e, code, finishAfter, outcome);
        engine := x.engine;
      case Some(RequestStop) =>
        engine := L.Stop(e);
      case None =>
        engine := e;
    }
  }

  /** processSerial, step by step, against the engine: Ctrl+D calls
      lua_engine_execute on the buffer and Ctrl+C while running calls
      lua_engine_stop. `finishAfter` and `outcome` are what each execute
      call sees of a run still in progress. */
  method ProcessSerial(e: L.Engine, buffer: string, input: seq<byte>, finishAfter: nat, outcome: S.Outcome)
    returns (engine: L.Engine, rest: string, ran: seq<string>, ghost seen: seq<bool>)
    requires Typed(buffer)
    // `seen` is the running flag the loop read at each byte: the loop is
    // the Feed of the input under those flags
    ensures |seen| == |input|
    ensures rest == Feed(buffer, input, seen).0
    ensures ran == RunCodes(Feed(buffer, input, seen).1)
    ensures Typed(rest)
    ensures Runnable(ran)
    ensures |ran| <= Presses(input)
    ensures engine.modules == e.modules
  {
    engine := e;
    rest := buffer;
    ran := [];
    seen := [];
    var i := 0;
    while i < |input|
      invariant 0 <= i <= |input|
      invariant |seen| == i
      invariant rest == Feed(buffer, input[..i], seen).0
      invariant ran == RunCodes(Feed(buffer, input[..i], seen).1)
      invariant engine.modules == e.modules
    {
      var running := engine.sched.running;
      var st := Step(rest, input[i], running);
      var ran' := if st.action.Some? && st.action.value.Run? then ran + [st.action.value.code] else ran;
      ghost var after := Feed(buffer, input[..i + 1], seen + [running]);
      assert st.buffer == after.0 && ran' == RunCodes(after.1) by {
        assert input[..i + 1] == input[..i] + [input[i]];
        FeedStep(buffer, input[..i], seen, input[i], running);
      }
      engine := Dispatch(engine, st.action, finishAfter, outcome);
      seen, rest, ran := seen + [running], st.buffer, ran';
      i := i + 1;
    }
    assert input[..|input|] == input;
    FeedKeepsTyped(buffer, input, seen);
  }

  /** onLuaExecuteEvent: the payload, byte for byte, becomes the code. */
  function ExecuteEventCode(data: seq<byte>): (r: string)
    ensures |r| == |data|
    ensures forall k :: 0 <= k < |data| ==> r[k] as int == data[k] as int
  {
    Chars(data)
  }

  /** The code reaches the engine as a C string: a payload without a NUL
      byte runs verbatim, one with a NUL runs only up to it. */
  lemma ExecutePayloadVerbatim(data: seq<byte>)
    ensures 0 !in data ==> CStr(ExecuteEventCode(data)) == ExecuteEventCode(data)
    ensures 0 in data ==> |CStr(ExecuteEventCode(data))| < |data|
  {
    var code := ExecuteEventCode(data);
    if 0 !in data {
      assert '\0' !in code by {
        forall k | 0 <= k < |code| ensures code[k] != '\0' {
          assert data[k] != 0;
        }
      }
      CStrOfNulFree(code);
    } else {
      var k :| 0 <= k < |data| && data[k] == 0;
      assert code[k] == '\0';
    }
  }
}
