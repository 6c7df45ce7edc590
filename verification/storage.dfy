/**
 * The `storage` Lua module: typed key/value storage in NVS through the
 * Arduino Preferences handle, under a switchable namespace. Preferences
 * itself is abstracted as a map from (namespace, key) to a typed entry;
 * whether a write is accepted by the flash is a parameter. Key and
 * namespace strings arrive from C as C strings.
 */
module Storage {
  import opened Common
  import opened LuaValues

  /** NVS keys hold at most 15 characters. */
  const KEY_MAX: nat := 15
  const DEFAULT_NAMESPACE: string := "lua_storage"

  /** An entry as NVS types it. Doubles are not modelled beyond their type. */
  datatype Stored =
    | IntVal(i: int)
    | NumVal
    | StrVal(s: string)
    | BoolVal(b: bool)
    | BlobVal(bytes: seq<byte>)

  type Entry = (string, string)  // (namespace, key)

  datatype Store = Store(
    initialized: bool,
    namespace: string,            // storage_current_namespace
    handle: string,               // the namespace Preferences was begun with
    prefs: map<Entry, Stored>)
  {
    /** An open handle always belongs to the current namespace, and NVS
        strings are C strings. */
    predicate Valid() {
      && (initialized ==> handle == namespace)
      && forall e :: e in prefs && prefs[e].StrVal? ==> '\0' !in prefs[e].s
    }
  }

  /** At boot nothing is open and the current namespace is an empty
      String (the statics of src/lua_modules/lua_storage/lua_storage.cpp:11-14);
      the Lua module sets it before anything else runs. */
  function Boot(prefs: map<Entry, Stored>): (r: Store)
    requires forall e :: e in prefs && prefs[e].StrVal? ==> '\0' !in prefs[e].s
    ensures r.Valid() && !r.initialized && r.prefs == prefs
  {
    Store(false, "", "", prefs)
  }

  // ---------------------------------------------------------------------
  // Keys
  // ---------------------------------------------------------------------

  /** compress_key: the first 15 characters. */
  function CompressKey(key: string): (r: string)
    ensures |r| <= KEY_MAX
    ensures r <= key
    ensures |key| <= KEY_MAX ==> r == key
    ensures |key| > KEY_MAX ==> |r| == KEY_MAX
  {
    if |key| > KEY_MAX then key[..KEY_MAX] else key
  }

  lemma CompressKeyIdempotent(key: string)
    ensures CompressKey(CompressKey(key)) == CompressKey(key)
  {
  }

  /** Two keys address the same entry exactly when they agree on their
      first 15 characters (or are equal when shorter). */
  lemma SameEntryIff(a: string, b: string)
    requires |a| >= KEY_MAX && |b| >= KEY_MAX
    ensures CompressKey(a) == CompressKey(b) <==> a[..KEY_MAX] == b[..KEY_MAX]
  {
  }

  /** A key the C functions accept: not NULL and not empty as a C string. */
  predicate KeyOk(key: Option<string>) {
    key.Some? && |CStr(key.value)| > 0
  }

  function EntryOf(s: Store, key: string): Entry {
    (s.handle, CompressKey(CStr(key)))
  }

  // ---------------------------------------------------------------------
  // Lifecycle and namespaces
  // ---------------------------------------------------------------------

  /** storage_init_c: begins Preferences on the current namespace unless
      already open; always succeeds. */
  function Init(s: Store): (r: Store)
    requires s.Valid()
    ensures r.Valid() && r.initialized
    ensures s.initialized ==> r == s
    ensures r.namespace == s.namespace && r.prefs == s.prefs
  {
    if s.initialized then s else s.(initialized := true, handle := s.namespace)
  }

  /** storage_stop_c: ends Preferences if open. */
  function Stop(s: Store): (r: Store)
    requires s.Valid()
    ensures r.Valid() && !r.initialized
    ensures !s.initialized ==> r == s
    ensures r.namespace == s.namespace && r.prefs == s.prefs
  {
    if !s.initialized then s else s.(initialized := false)
  }

  datatype Switched = Switched(store: Store, ok: bool)

  /** storage_set_namespace_c: a NULL or empty name is refused and changes
      nothing; otherwise the handle is closed, the name (as a C string)
      becomes the namespace and storage is opened on it. */
  function SetNamespace(s: Store, name: Option<string>): (r: Switched)
    requires s.Valid()
    ensures r.store.Valid()
    ensures r.ok <==> KeyOk(name)
    ensures !r.ok ==> r.store == s
    ensures r.ok ==> r.store.initialized && r.store.namespace == CStr(name.value) && r.store.handle == CStr(name.value)
    ensures r.store.prefs == s.prefs
  {
    if !KeyOk(name) then Switched(s, false)
    else Switched(Init(Stop(s).(namespace := CStr(name.value))), true)
  }

  /** storage_reset_namespace_c: back to "lua_storage", opened. */
  function ResetNamespace(s: Store): (r: Switched)
    requires s.Valid()
    ensures r.store.Valid() && r.ok
    ensures r.store.initialized && r.store.namespace == DEFAULT_NAMESPACE
    ensures r.store.prefs == s.prefs
  {
    Switched(Init(Stop(s).(namespace := DEFAULT_NAMESPACE)), true)
  }

  /** l_storage_init, run whenever a Lua state loads the module: whatever
      namespace the previous run chose, the new run starts on the default
      one. */
  function LuaInit(s: Store): (r: Store)
    requires s.Valid()
    ensures r.Valid() && r.initialized
    ensures r.namespace == DEFAULT_NAMESPACE && r.handle == DEFAULT_NAMESPACE
    ensures r.prefs == s.prefs
  {
    var named := s.(namespace := DEFAULT_NAMESPACE);
    // the handle may still be open on the old namespace here
    var stopped := if named.initialized then named.(initialized := false) else named;
    Init(stopped)
  }

  /** A run that changed namespace leaves no trace on the next: loading
      the module again gives the same state as a reset. */
  lemma LuaInitIsReset(s: Store, name: Option<string>)
    requires s.Valid()
    ensures LuaInit(SetNamespace(s, name).store) == ResetNamespace(s).store
  {
  }

  // ---------------------------------------------------------------------
  // Setters
  // ---------------------------------------------------------------------

  /** What a setter is asked to store; None stands for a NULL pointer. */
  datatype Put =
    | PutInt(i: int)
    | PutNumber
    | PutString(value: Option<string>)
    | PutBool(b: bool)
    | PutBlob(data: Option<seq<byte>>)

  /** The entry a put writes: a NULL string stores "". */
  function StoredOf(p: Put): Stored
  {
    match p
    case PutInt(i) => IntVal(i)
    case PutNumber => NumVal
    case PutString(v) => StrVal(if v.Some? then CStr(v.value) else "")
    case PutBool(b) => BoolVal(b)
    case PutBlob(d) => BlobVal(if d.Some? then d.value else [])
  }

  /** The arguments a setter refuses before touching the flash. */
  predicate PutOk(key: Option<string>, p: Put) {
    KeyOk(key) && (p.PutBlob? ==> p.data.Some? && |p.data.value| > 0)
  }

  /** Whether the Preferences put reports a written value as more than
      zero bytes: putString returns the string's length, so an empty string
      is written and yet reported as nothing; the other puts return their
      (non-zero) size. */
  predicate ReportsWrite(p: Put) {
    StoredOf(p) != StrVal("")
  }

  datatype Written = Written(store: Store, ok: bool)

  /** storage_set_int_c, _number_c, _string_c, _bool_c and _blob_c: storage
      is opened first if needed; a bad key (or an empty blob) gives false
      and writes nothing; otherwise the entry under the compressed key in
      the current namespace is written when `accepted` says the flash took
      it, and the result is whether the put reported a non-zero size. */
  function Set(s: Store, key: Option<string>, p: Put, accepted: bool): (r: Written)
    requires s.Valid()
    ensures r.store.Valid() && r.store.initialized
    ensures r.store.namespace == s.namespace
    ensures r.ok <==> PutOk(key, p) && accepted && ReportsWrite(p)
    ensures !(PutOk(key, p) && accepted) ==> r.store.prefs == s.prefs
    ensures PutOk(key, p) && accepted ==>
              r.store.prefs == s.prefs[(s.namespace, CompressKey(CStr(key.value))) := StoredOf(p)]
    // an empty string is stored even though the setter answers false
    ensures PutOk(key, p) && accepted && p.PutString? && !r.ok ==>
              (s.namespace, CompressKey(CStr(key.value))) in r.store.prefs
  {
    var o := Init(s);
    if !PutOk(key, p) || !accepted then Written(o, false)
    else Written(o.(prefs := o.prefs[EntryOf(o, key.value) := StoredOf(p)]), ReportsWrite(p))
  }

  /** storage_remove_c: true when the entry was there and is now gone. */
  function Remove(s: Store, key: Option<string>): (r: Written)
    requires s.Valid()
    ensures r.store.Valid() && r.store.initialized && r.store.namespace == s.namespace
    ensures !KeyOk(key) ==> !r.ok && r.store.prefs == s.prefs
    ensures KeyOk(key) ==>
              var e := (s.namespace, CompressKey(CStr(key.value)));
              && (r.ok <==> e in s.prefs)
              && e !in r.store.prefs
              && r.store.prefs == s.prefs - {e}
  {
    var o := Init(s);
    if !KeyOk(key) then Written(o, false)
    else
      var e := EntryOf(o, key.value);
      Written(o.(prefs := o.prefs - {e}), e in o.prefs)
  }

  /** storage_clear_c: every entry of the current namespace goes; other
      namespaces are untouched. */
  function Clear(s: Store): (r: Store)
    requires s.Valid()
    ensures r.Valid() && r.initialized && r.namespace == s.namespace
    ensures forall e :: e in r.prefs <==> e in s.prefs && e.0 != s.namespace
    ensures forall e :: e in r.prefs ==> r.prefs[e] == s.prefs[e]
  {
    var o := Init(s);
    o.(prefs := map e | e in o.prefs && e.0 != o.handle :: o.prefs[e])
  }

  // ---------------------------------------------------------------------
  // Getters
  // ---------------------------------------------------------------------

  /** The entry a getter reads, None for a bad key or a missing entry. */
  function Lookup(s: Store, key: Option<string>): (r: Option<Stored>)
    requires s.Valid()
    ensures !KeyOk(key) ==> r.None?
    ensures KeyOk(key) ==>
              var e := (s.namespace, CompressKey(CStr(key.value)));
              r == (if e in s.prefs then Some(s.prefs[e]) else None)
  {
    var o := Init(s);
    if !KeyOk(key) then None
    else
      var e := EntryOf(o, key.value);
      if e in o.prefs then Some(o.prefs[e]) else None
  }

  /** storage_get_int_c: the stored integer, or the default when the key is
      bad, missing or of another type. */
  function GetInt(s: Store, key: Option<string>, default: int): (r: int)
    requires s.Valid()
    ensures Lookup(s, key).Some? && Lookup(s, key).value.IntVal? ==> r == Lookup(s, key).value.i
    ensures !(Lookup(s, key).Some? && Lookup(s, key).value.IntVal?) ==> r == default
  {
    match Lookup(s, key)
    case Some(IntVal(i)) => i
    case _ => default
  }

  /** storage_get_string_c: the stored string, else the default as a C
      string, with NULL read as "". */
  function GetString(s: Store, key: Option<string>, default: Option<string>): (r: string)
    requires s.Valid()
    ensures '\0' !in r
    ensures Lookup(s, key).Some? && Lookup(s, key).value.StrVal? ==> r == Lookup(s, key).value.s
    ensures !(Lookup(s, key).Some? && Lookup(s, key).value.StrVal?) ==>
              r == (if default.Some? then CStr(default.value) else "")
  {
    match Lookup(s, key)
    case Some(StrVal(v)) => v
    case _ => if default.Some? then CStr(default.value) else ""
  }

  function GetBool(s: Store, key: Option<string>, default: bool): (r: bool)
    requires s.Valid()
    ensures Lookup(s, key).Some? && Lookup(s, key).value.BoolVal? ==> r == Lookup(s, key).value.b
    ensures !(Lookup(s, key).Some? && Lookup(s, key).value.BoolVal?) ==> r == default
  {
    match Lookup(s, key)
    case Some(BoolVal(b)) => b
    case _ => default
  }

  /** storage_get_blob_c: the number of bytes copied. A bad key, a NULL
      buffer or a zero size gives 0; so does a blob longer than the
      buffer, which Preferences refuses to copy. */
  function GetBlob(s: Store, key: Option<string>, bufferOk: bool, bufferSize: nat): (r: seq<byte>)
    requires s.Valid()
    ensures |r| <= bufferSize
    ensures !KeyOk(key) || !bufferOk || bufferSize == 0 ==> r == []
    ensures r != [] ==> Lookup(s, key) == Some(BlobVal(r))
    // a stored blob that fits is read whole
    ensures (bufferOk && Lookup(s, key).Some? && Lookup(s, key).value.BlobVal?
             && 0 < |Lookup(s, key).value.bytes| <= bufferSize) ==>
              r == Lookup(s, key).value.bytes
    // one that does not fit, or an entry of another type, reads nothing
    ensures (Lookup(s, key).Some? && Lookup(s, key).value.BlobVal?
             && |Lookup(s, key).value.bytes| > bufferSize) ==> r == []
    ensures !(Lookup(s, key).Some? && Lookup(s, key).value.BlobVal?) ==> r == []
  {
    if !KeyOk(key) || !bufferOk || bufferSize == 0 then []
    else
      match Lookup(s, key)
      case Some(BlobVal(b)) => if |b| <= bufferSize then b else []
      case _ => []
  }

  // ---------------------------------------------------------------------
  // Round trips through the C functions
  // ---------------------------------------------------------------------

  /** An accepted integer write reads back under any key with the same
      first 15 characters. */
  lemma IntRoundTrip(s: Store, key: string, other: string, i: int, default: int)
    requires s.Valid() && KeyOk(Some(key)) && KeyOk(Some(other))
    requires CompressKey(CStr(key)) == CompressKey(CStr(other))
    ensures Set(s, Some(key), PutInt(i), true).ok
    ensures GetInt(Set(s, Some(key), PutInt(i), true).store, Some(other), default) == i
  {
  }

  /** An accepted blob write reads back whole through a buffer big enough
      for it. */
  lemma BlobRoundTrip(s: Store, key: string, data: seq<byte>, bufferSize: nat)
    requires s.Valid() && KeyOk(Some(key))
    requires 0 < |data| <= bufferSize
    ensures Set(s, Some(key), PutBlob(Some(data)), true).ok
    ensures GetBlob(Set(s, Some(key), PutBlob(Some(data)), true).store, Some(key), true, bufferSize) == data
  {
  }

  /** An empty string is stored, replacing what was there, but the setter
      reports false, and reading the key gives "" rather than the default. */
  lemma EmptyStringStoredButFalse(s: Store, key: string, default: string)
    requires s.Valid() && KeyOk(Some(key))
    ensures !Set(s, Some(key), PutString(Some("")), true).ok
    ensures GetString(Set(s, Some(key), PutString(Some("")), true).store, Some(key), Some(default)) == ""
  {
  }

  /** A refused key writes nothing and reads only defaults. */
  lemma BadKeyChangesNothing(s: Store, key: Option<string>, p: Put, accepted: bool, d: int)
    requires s.Valid() && !KeyOk(key)
    ensures Set(s, key, p, accepted) == Written(Init(s), false)
    ensures GetInt(s, key, d) == d && GetString(s, key, None) == ""
  {
  }

  /** Writing under one key leaves every entry with a different compressed
      key, and every other namespace, as it was. */
  lemma SetIsLocal(s: Store, key: string, p: Put, e: Entry)
    requires s.Valid() && KeyOk(Some(key))
    requires e != (s.namespace, CompressKey(CStr(key)))
    ensures var r := Set(s, Some(key), p, true).store;
            (e in r.prefs <==> e in s.prefs) && (e in s.prefs ==> r.prefs[e] == s.prefs[e])
  {
  }

  // ---------------------------------------------------------------------
  // The Lua functions
  // ---------------------------------------------------------------------

  datatype LuaResult = Returned(store: Store, value: Value) | Raised(message: string)

  /** The put a Lua value selects in storage.set, in the order the type
      tests are made: a string Lua reads as a number (`numeral`) passes
      lua_isnumber before lua_isstring and is stored as a number. */
  function PutOf(v: Value, numeral: bool): (p: Option<Put>)
    ensures p.Some? <==> v.Integer? || v.Float? || v.Str? || v.Boolean?
    ensures v.Str? ==> p == Some(if numeral then PutNumber else PutString(Some(v.s)))
  {
    match v
    case Integer(i) => Some(PutInt(i))
    case Float => Some(PutNumber)
    case Str(t) => Some(if numeral then PutNumber else PutString(Some(t)))
    case Boolean(b) => Some(PutBool(b))
    case _ => None
  }

  /** storage.set(key, value): the type of the value picks the setter; a
      table is stored as the JSON text `encoded` gives (None when json or
      json.encode is missing or fails); nil and the other types raise.
      `numeral` says whether Lua reads a string value as a number. */
  function LuaSet(s: Store, key: string, v: Value, numeral: bool, encoded: Option<string>, accepted: bool): (r: LuaResult)
    requires s.Valid()
    ensures r.Raised? <==> !(v.Integer? || v.Float? || v.Str? || v.Boolean? || v.Table?)
    ensures r.Raised? ==> r.message == "Unsupported data type for storage.set"
    ensures r.Returned? ==> r.value.Boolean? && r.store.Valid()
    // a scalar goes through the setter its type selects
    ensures PutOf(v, numeral).Some? ==>
              var w := Set(s, Some(key), PutOf(v, numeral).value, accepted);
              r == Returned(w.store, Boolean(w.ok))
    ensures v.Table? && encoded.Some? ==>
              var w := Set(s, Some(key), PutString(encoded), accepted);
              r == Returned(w.store, Boolean(w.ok))
    ensures v.Table? && encoded.None? ==> r == Returned(s, Boolean(false))
  {
    match v
    case Integer(i) => var w := Set(s, Some(key), PutInt(i), accepted); Returned(w.store, Boolean(w.ok))
    case Float => var w := Set(s, Some(key), PutNumber, accepted); Returned(w.store, Boolean(w.ok))
    case Str(t) =>
      var w := Set(s, Some(key), if numeral then PutNumber else PutString(Some(t)), accepted);
      Returned(w.store, Boolean(w.ok))
    case Boolean(b) => var w := Set(s, Some(key), PutBool(b), accepted); Returned(w.store, Boolean(w.ok))
    case Table(_) =>
      if encoded.None? then Returned(s, Boolean(false))
      else var w := Set(s, Some(key), PutString(encoded), accepted); Returned(w.store, Boolean(w.ok))
    case _ => Raised("Unsupported data type for storage.set")
  }

  /** storage.get(key [, default]): an integer, string or boolean default
      picks the typed getter; a table default reads the entry as a string
      and returns what json.decode makes of it (`decoded`, None when json,
      json.decode or the call fails), falling back to the default table;
      with no default (or any other one) the entry is read as a string, and
      an empty or missing string gives nil. A float default, and a string
      default Lua reads as a number (`numeral`), read a number, whose value
      is not modelled. */
  function LuaGet(s: Store, key: string, default: Option<Value>, numeral: bool, decoded: Option<Value>): (r: Value)
    requires s.Valid()
    ensures default.Some? && default.value.Integer? ==> r == Integer(GetInt(s, Some(key), default.value.i))
    ensures default.Some? && default.value.Str? && !numeral ==>
              r == Str(GetString(s, Some(key), Some(default.value.s)))
    ensures default.Some? && default.value.Boolean? ==> r == Boolean(GetBool(s, Some(key), default.value.b))
    ensures default.Some? && (default.value.Float? || (default.value.Str? && numeral)) ==> r == Float
    ensures default.Some? && default.value.Table? ==>
              r == (if |GetString(s, Some(key), None)| > 0 && decoded.Some? then decoded.value else default.value)
    ensures default.None? || !(default.value.Integer? || default.value.Str? || default.value.Boolean? || default.value.Float? || default.value.Table?) ==>
              var str := GetString(s, Some(key), None);
              r == (if |str| > 0 then Str(str) else Nil)
  {
    if default.Some? && default.value.Integer? then Integer(GetInt(s, Some(key), default.value.i))
    else if default.Some? && (default.value.Float? || (default.value.Str? && numeral)) then Float
    else if default.Some? && default.value.Str? then
      var str := GetString(s, Some(key), Some(default.value.s));
      CStrOfNulFree(str);
      Str(CStr(str))
    else if default.Some? && default.value.Boolean? then Boolean(GetBool(s, Some(key), default.value.b))
    else if default.Some? && default.value.Table? then
      var json := GetString(s, Some(key), None);
      if |json| > 0 && decoded.Some? then decoded.value else default.value
    else
      var str := GetString(s, Some(key), None);
      CStrOfNulFree(str);
      if |CStr(str)| > 0 then Str(CStr(str)) else Nil
  }

  /** A non-empty string without NUL that Lua does not read as a number,
      set from Lua, reads back from Lua without a default; an empty one is
      reported as not stored and reads back as nil. */
  lemma LuaStringRoundTrip(s: Store, key: string, text: string)
    requires s.Valid() && KeyOk(Some(key)) && '\0' !in text
    ensures var w := LuaSet(s, key, Str(text), false, None, true);
            && w == Returned(w.store, Boolean(|text| > 0))
            && LuaGet(w.store, key, None, false, None) == (if |text| > 0 then Str(text) else Nil)
  {
    CStrOfNulFree(text);
  }

  /** A string Lua reads as a number is stored as a number: it does not
      come back as a string, neither without a default nor with a
      non-numeric string default. */
  lemma LuaNumeralStringIsNumber(s: Store, key: string, text: string, default: string)
    requires s.Valid() && KeyOk(Some(key))
    ensures var w := LuaSet(s, key, Str(text), true, None, true);
            && w == Returned(w.store, Boolean(true))
            && LuaGet(w.store, key, None, false, None) == Nil
            && LuaGet(w.store, key, Some(Str(default)), false, None) == Str(CStr(default))
  {
  }

  /** Without a default only strings come back: an integer entry reads as
      nil. */
  lemma LuaIntWithoutDefaultIsNil(s: Store, key: string, i: int)
    requires s.Valid() && KeyOk(Some(key))
    ensures LuaGet(LuaSet(s, key, Integer(i), false, None, true).store, key, None, false, None) == Nil
  {
  }
}
