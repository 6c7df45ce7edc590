/**
 * Shared vocabulary: optional values, bytes, and the C-string view of a
 * byte or character sequence (everything up to the first NUL).
 */
module Common {

  datatype Option<+T> = None | Some(value: T)

  type byte = bv8


  /** The bytes a C API sees when handed `s` as a NUL-terminated string. */
  function CPrefix(s: seq<byte>): (r: seq<byte>)
    ensures |r| <= |s| && r == s[..|r|]
    ensures 0 !in r
    ensures |r| < |s| ==> s[|r|] == 0
  {
    if |s| == 0 then []
    else if s[0] == 0 then []
    else [s[0]] + CPrefix(s[1..])
  }

  /** The characters a C API sees when handed `s` as a NUL-terminated string. */
  function CStr(s: string): (r: string)
    ensures |r| <= |s| && r == s[..|r|]
    ensures '\0' !in r
    ensures |r| < |s| ==> s[|r|] == '\0'
  {
    if |s| == 0 then []
    else if s[0] == '\0' then []
    else [s[0]] + CStr(s[1..])
  }

  lemma {:induction false} CPrefixOfNulFree(s: seq<byte>)
    requires 0 !in s
    ensures CPrefix(s) == s
  {
    if |s| > 0 {
      assert s[0] != 0;
      CPrefixOfNulFree(s[1..]);
    }
  }

  lemma {:induction false} CStrOfNulFree(s: string)
    requires '\0' !in s
    ensures CStr(s) == s
  {
    if |s| > 0 {
      assert s[0] != '\0';
      CStrOfNulFree(s[1..]);
    }
  }

  /** Moving the head of `s` onto the end of `n` leaves the concatenation
      unchanged. */
  lemma AppendHead<T>(n: seq<T>, s: seq<T>)
    requires |s| > 0
    ensures n + [s[0]] + s[1..] == n + s
  {
  }

  /** Regrouping a seven-part concatenation. */
  lemma Regroup7<T>(a: seq<T>, b: seq<T>, c: seq<T>, d: seq<T>, e: seq<T>, f: seq<T>, g: seq<T>)
    ensures a + b + (c + d + e + f + g) == (a + b + c) + (d + e + f + g)
  {
  }

  lemma SplitLast7<T>(a: seq<T>, b: seq<T>, c: seq<T>, d: seq<T>, e: seq<T>, f: seq<T>, g: seq<T>)
    ensures (a + b + c) + (d + e + f + g) == (a + b + c + d + e + f) + g
  {
  }

  lemma DropLast<T>(a: seq<T>, x: T)
    ensures (a + [x])[..|a + [x]| - 1] == a
  {
  }

  lemma Assoc<T>(a: seq<T>, b: seq<T>, c: seq<T>)
    ensures a + b + c == a + (b + c)
  {
  }

  function Min(a: nat, b: nat): nat {
    if a < b then a else b
  }

  function Max(a: nat, b: nat): nat {
    if a < b then b else a
  }
}
