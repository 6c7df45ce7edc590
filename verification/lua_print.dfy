/**
 * The engine library's Lua `print`: each argument becomes text, the texts
 * are joined with tabs, and the line is sent to the peer as one
 * "lua_code_output" event; and `dofile`, which reads scripts from the
 * LittleFS mount point.
 */
module LuaPrint {
  import opened Common
  import opened LuaValues

  /** EVENT_LUA_OUTPUT. */
  const OUTPUT_EVENT: string := "lua_code_output"
  const MOUNT_PREFIX: string := "/littlefs/"
  /** dofile's path buffer holds 256 bytes, the terminating NUL included. */
  const PATH_BUFFER: nat := 256

  /** lua_value_to_string. Strings are read as C strings; the reference
      types print their kind and address. Float formatting ("%.10g") is
      not modelled, so a float has no text here. */
  function ToText(v: Value): (r: Option<string>)
    ensures r.None? <==> v.Float?
    ensures v.Integer? ==> ParseDecimal(r.value) == Some(v.i)
    ensures r.Some? ==> '\0' !in r.value || v.Table? || v.Function? || v.Userdata? || v.Thread? || v.LightUserdata?
  {
    match v
    case Nil => Some("nil")
    case Boolean(b) => Some(if b then "true" else "false")
    case Integer(i) => DecimalRoundTrip(i); Some(DecimalText(i))
    case Float => None
    case Str(s) => Some(CStr(s))
    case Table(a) => Some("table: " + a)
    case Function(a) => Some("function: " + a)
    case Userdata(a) => Some("userdata: " + a)
    case Thread(a) => Some("thread: " + a)
    case LightUserdata(a) => Some("lightuserdata: " + a)
  }

  /** A string without NUL prints as itself; one with a NUL prints up to
      the first NUL. */
  lemma StringsPrintAsThemselves(s: string)
    ensures '\0' !in s ==> ToText(Str(s)) == Some(s)
    ensures '\0' in s ==> |ToText(Str(s)).value| < |s|
  {
    if '\0' !in s {
      CStrOfNulFree(s);
    }
  }

  /** The pieces joined with single tabs. */
  function JoinTabs(xs: seq<string>): string
    decreases |xs|
  {
    if |xs| == 0 then ""
    else if |xs| == 1 then xs[0]
    else xs[0] + "\t" + JoinTabs(xs[1..])
  }

  /** The total length of the pieces. */
  function SumLen(xs: seq<string>): nat
    decreases |xs|
  {
    if |xs| == 0 then 0 else |xs[0]| + SumLen(xs[1..])
  }

  /** Where piece j starts in the joined line: the pieces before it, each
      followed by its tab. */
  function Offset(xs: seq<string>, j: nat): nat
    requires j <= |xs|
    decreases j
  {
    if j == 0 then 0 else |xs[0]| + 1 + Offset(xs[1..], j - 1)
  }

  lemma {:induction false} JoinTabsLength(xs: seq<string>)
    requires |xs| >= 1
    ensures |JoinTabs(xs)| == SumLen(xs) + |xs| - 1
    decreases |xs|
  {
    if |xs| == 1 {
      assert SumLen(xs[1..]) == 0;
    } else {
      JoinTabsLength(xs[1..]);
    }
  }

  /** Piece j of a joined line sits at its offset, followed by a tab
      unless it is the last. */
  lemma {:induction false} JoinTabsAt(xs: seq<string>, j: nat)
    requires j < |xs|
    ensures Offset(xs, j) + |xs[j]| <= |JoinTabs(xs)|
    ensures JoinTabs(xs)[Offset(xs, j)..Offset(xs, j) + |xs[j]|] == xs[j]
    ensures j < |xs| - 1 ==>
              Offset(xs, j) + |xs[j]| < |JoinTabs(xs)| && JoinTabs(xs)[Offset(xs, j) + |xs[j]|] == '\t'
    decreases j
  {
    if |xs| == 1 {
      assert JoinTabs(xs) == xs[0];
    } else {
      var tl := xs[1..];
      var rest := JoinTabs(tl);
      var head := xs[0] + "\t";
      assert JoinTabs(xs) == head + rest;
      if j == 0 {
        assert (head + rest)[..|xs[0]|] == xs[0];
        assert (head + rest)[|xs[0]|] == '\t';
      } else {
        JoinTabsAt(tl, j - 1);
        var o := Offset(tl, j - 1);
        assert xs[j] == tl[j - 1];
        assert (head + rest)[|head| + o..|head| + o + |xs[j]|] == rest[o..o + |xs[j]|];
        if j < |xs| - 1 {
          assert (head + rest)[|head| + o + |xs[j]|] == rest[o + |xs[j]|];
        }
      }
    }
  }

  /** `line` is laid out from `xs`: its length is the pieces' plus one
      tab between each two, each piece sits at its offset, and a tab
      follows every piece but the last. */
  predicate Layout(line: string, xs: seq<string>) {
    && |xs| >= 1
    && |line| == SumLen(xs) + |xs| - 1
    && (forall j :: 0 <= j < |xs| ==>
          Offset(xs, j) + |xs[j]| <= |line|
          && line[Offset(xs, j)..Offset(xs, j) + |xs[j]|] == xs[j])
    && (forall j :: 0 <= j < |xs| - 1 ==>
          Offset(xs, j) + |xs[j]| < |line| && line[Offset(xs, j) + |xs[j]|] == '\t')
  }

  /** A joined line is laid out from its pieces, whatever they hold, tabs
      included. */
  lemma JoinTabsLayout(xs: seq<string>)
    requires |xs| >= 1
    ensures Layout(JoinTabs(xs), xs)
  {
    JoinTabsLength(xs);
    forall j | 0 <= j < |xs|
      ensures Offset(xs, j) + |xs[j]| <= |JoinTabs(xs)|
      ensures JoinTabs(xs)[Offset(xs, j)..Offset(xs, j) + |xs[j]|] == xs[j]
      ensures j < |xs| - 1 ==>
                Offset(xs, j) + |xs[j]| < |JoinTabs(xs)| && JoinTabs(xs)[Offset(xs, j) + |xs[j]|] == '\t'
    {
      JoinTabsAt(xs, j);
    }
  }

  /** Where the first tab is, or |s| when there is none. */
  function FirstTab(s: string): (k: nat)
    ensures k <= |s|
    ensures forall j :: 0 <= j < k ==> s[j] != '\t'
    ensures k < |s| ==> s[k] == '\t'
    decreases |s|
  {
    if |s| == 0 then 0 else if s[0] == '\t' then 0 else 1 + FirstTab(s[1..])
  }

  /** Cutting a line at every tab: the reference inverse of JoinTabs. */
  function SplitTabs(s: string): (r: seq<string>)
    ensures |r| >= 1
    decreases |s|
  {
    var k := FirstTab(s);
    if k == |s| then [s] else [s[..k]] + SplitTabs(s[k + 1..])
  }

  predicate NoTabs(xs: seq<string>) {
    forall j :: 0 <= j < |xs| ==> '\t' !in xs[j]
  }

  /** Cutting a line whose first piece has no tab. */
  lemma SplitCons(x: string, rest: string)
    requires '\t' !in x
    ensures SplitTabs(x + "\t" + rest) == [x] + SplitTabs(rest)
  {
    var s := x + "\t" + rest;
    assert s[|x|] == '\t';
    assert forall j :: 0 <= j < |x| ==> s[j] == x[j];
    assert FirstTab(s) == |x|;
    assert s[..|x|] == x;
    assert s[|x| + 1..] == rest;
  }

  lemma NoTabFirstTab(x: string)
    requires '\t' !in x
    ensures FirstTab(x) == |x|
  {
  }

  lemma NoTabsTail(xs: seq<string>)
    requires |xs| >= 1 && NoTabs(xs)
    ensures NoTabs(xs[1..])
  {
    forall j | 0 <= j < |xs[1..]| ensures '\t' !in xs[1..][j] {
      assert xs[1..][j] == xs[j + 1];
    }
  }

  /** Texts without tabs are recovered from the line print sends. */
  lemma {:induction false} SplitJoin(xs: seq<string>)
    requires |xs| >= 1 && NoTabs(xs)
    ensures SplitTabs(JoinTabs(xs)) == xs
    decreases |xs|
  {
    if |xs| == 1 {
      NoTabFirstTab(xs[0]);
    } else {
      SplitCons(xs[0], JoinTabs(xs[1..]));
      NoTabsTail(xs);
      SplitJoin(xs[1..]);
      assert xs == [xs[0]] + xs[1..];
    }
  }

  /** The texts of the arguments, or None when one of them is a float. */
  function Texts(args: seq<Value>): (r: Option<seq<string>>)
    ensures r.Some? ==> |r.value| == |args|
    ensures r.Some? ==> forall j :: 0 <= j < |args| ==> ToText(args[j]) == Some(r.value[j])
    ensures r.None? ==> exists j :: 0 <= j < |args| && args[j].Float?
    decreases |args|
  {
    if |args| == 0 then Some([])
    else
      var head := ToText(args[0]);
      var tail := Texts(args[1..]);
      if head.None? then None
      else if tail.None? then
        assert forall j :: 0 <= j < |args[1..]| ==> args[1..][j] == args[j + 1];
        None
      else
        var r := [head.value] + tail.value;
        assert forall j :: 1 <= j < |args| ==> args[j] == args[1..][j - 1] && r[j] == tail.value[j - 1];
        Some(r)
  }

  datatype Emitted = Emitted(event: string, payload: string)

  /** lua_print: exactly one output event per call, carrying the texts of
      the arguments joined with tabs (empty for no arguments). */
  function Print(args: seq<Value>): (r: Option<Emitted>)
    ensures r.Some? ==> r.value.event == OUTPUT_EVENT
    ensures |args| == 0 ==> r == Some(Emitted(OUTPUT_EVENT, ""))
    ensures r.None? ==> exists j :: 0 <= j < |args| && args[j].Float?
    ensures |args| > 0 ==> (r.Some? <==> Texts(args).Some?)
    // the line: every argument's text at its offset, a tab after each but
    // the last, and nothing else
    ensures r.Some? && |args| > 0 ==> Layout(r.value.payload, Texts(args).value)
  {
    if |args| == 0 then Some(Emitted(OUTPUT_EVENT, ""))
    else
      var t := Texts(args);
      if t.None? then None
      else
        JoinTabsLayout(t.value);
        Some(Emitted(OUTPUT_EVENT, JoinTabs(t.value)))
  }

  /** Reading the printed line back: when no text holds a tab, cutting the
      payload at its tabs gives one piece per argument, each the text of
      that argument. */
  lemma PrintedLineSplits(args: seq<Value>)
    requires |args| >= 1
    requires Print(args).Some? && NoTabs(Texts(args).value)
    ensures var pieces := SplitTabs(Print(args).value.payload);
            |pieces| == |args| && forall j :: 0 <= j < |args| ==> ToText(args[j]) == Some(pieces[j])
  {
    SplitJoin(Texts(args).value);
  }

  /** lua_dofile: "/littlefs/" followed by the name as a C string, cut to
      what the 256-byte buffer holds. */
  function DofilePath(filename: string): (r: string)
    ensures |r| <= PATH_BUFFER - 1
    ensures r <= MOUNT_PREFIX + CStr(filename)
    ensures |MOUNT_PREFIX + CStr(filename)| <= PATH_BUFFER - 1 ==> r == MOUNT_PREFIX + CStr(filename)
  {
    var full := MOUNT_PREFIX + CStr(filename);
    if |full| <= PATH_BUFFER - 1 then full else full[..PATH_BUFFER - 1]
  }

  /** A script name of at most 245 characters without NUL is opened under
      the mount point exactly as given. */
  lemma ShortNamesKept(filename: string)
    requires |filename| <= PATH_BUFFER - 1 - |MOUNT_PREFIX| && '\0' !in filename
    ensures DofilePath(filename) == MOUNT_PREFIX + filename
  {
    CStrOfNulFree(filename);
  }
}
