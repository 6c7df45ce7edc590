/**
 * The file-transfer session: a peer creates a file, appends to it in
 * chunks that are collected in a RAM buffer and written out whenever the
 * buffer fills, flushes, closes or deletes it.
 *
 * The filesystem is abstract: the open file is the sequence of bytes
 * written to it so far, and `room` is how many more bytes it will take
 * (a write of n bytes writes min(n, room)). Whether opening a file, a
 * PSRAM allocation or a heap allocation succeeds are parameters. JSON
 * replies, CRCs and timing are not modelled.
 */
module FileTransfer {
  import opened Common

  const STATIC_BUFFER_SIZE: nat := 4096
  const MAX_DYNAMIC_BUFFER: nat := 32768

  // ---------------------------------------------------------------------
  // Path sanitising
  // ---------------------------------------------------------------------

  /** No two consecutive dots. */
  predicate NoDoubleDot(s: string) {
    forall i :: 0 < i < |s| ==> !(s[i - 1] == '.' && s[i] == '.')
  }

  /** The characters of s that are not dots, in order. */
  function NonDots(s: string): string
    decreases |s|
  {
    if |s| == 0 then ""
    else (if s[0] == '.' then "" else [s[0]]) + NonDots(s[1..])
  }

  /** Arduino's String::replace("..", ""): occurrences are found left to
      right without overlapping, and each is deleted. */
  function RemoveDots(s: string): (r: string)
    ensures |r| <= |s|
    ensures NoDoubleDot(r)
    ensures |s| > 0 && s[0] != '.' ==> |r| > 0 && r[0] == s[0]
    decreases |s|
  {
    if |s| == 0 then ""
    else if |s| >= 2 && s[0] == '.' && s[1] == '.' then RemoveDots(s[2..])
    else [s[0]] + RemoveDots(s[1..])
  }

  /** Only dots are removed: every other character survives, in order. */
  lemma {:induction false} RemoveDotsKeepsOthers(s: string)
    ensures NonDots(RemoveDots(s)) == NonDots(s)
    decreases |s|
  {
    if |s| >= 2 && s[0] == '.' && s[1] == '.' {
      RemoveDotsKeepsOthers(s[2..]);
      assert NonDots(s) == NonDots(s[1..]);
      assert s[1..][1..] == s[2..];
    } else if |s| > 0 {
      RemoveDotsKeepsOthers(s[1..]);
      var r := RemoveDots(s);
      assert r == [s[0]] + RemoveDots(s[1..]);
      assert r[1..] == RemoveDots(s[1..]);
    }
  }

  /** A string without ".." is left as it is. */
  lemma {:induction false} RemoveDotsFixed(s: string)
    requires NoDoubleDot(s)
    ensures RemoveDots(s) == s
    decreases |s|
  {
    if |s| > 0 {
      assert !(|s| >= 2 && s[0] == '.' && s[1] == '.') by {
        if |s| >= 2 { assert !(s[0] == '.' && s[1] == '.'); }
      }
      assert NoDoubleDot(s[1..]) by {
        forall i | 0 < i < |s[1..]|
          ensures !(s[1..][i - 1] == '.' && s[1..][i] == '.')
        {
          assert s[1..][i - 1] == s[i] && s[1..][i] == s[i + 1];
        }
      }
      RemoveDotsFixed(s[1..]);
    }
  }

  /** The form every session filename has. */
  predicate Sanitized(p: string) {
    |p| > 0 && p[0] == '/' && NoDoubleDot(p)
  }

  /** sanitizePath: delete every "..", then make the path absolute. */
  function Sanitize(path: string): (r: string)
    ensures Sanitized(r)
  {
    var clean := RemoveDots(path);
    if |clean| > 0 && clean[0] == '/' then clean
    else
      var r := "/" + clean;
      assert |clean| > 0 ==> clean[0] != '.' || clean[0] == '.';
      assert NoDoubleDot(r) by {
        forall i | 0 < i < |r|
          ensures !(r[i - 1] == '.' && r[i] == '.')
        {
          if i > 1 { assert r[i - 1] == clean[i - 2] && r[i] == clean[i - 1]; }
        }
      }
      r
  }

  /** A sanitised path is its own sanitised form. */
  lemma SanitizeFixed(p: string)
    requires Sanitized(p)
    ensures Sanitize(p) == p
  {
    RemoveDotsFixed(p);
  }

  /** Sanitising twice is sanitising once. */
  lemma SanitizeIdempotent(p: string)
    ensures Sanitize(Sanitize(p)) == Sanitize(p)
  {
    SanitizeFixed(Sanitize(p));
  }

  // ---------------------------------------------------------------------
  // The session
  // ---------------------------------------------------------------------

  datatype Session = Session(
    isOpen: bool,
    fileOpen: bool,          // the File handle is valid
    filename: string,
    totalSize: nat,          // expected size announced by the peer
    writtenSize: nat,        // bytes flushed successfully
    buffered: seq<byte>,     // buffer[0 .. bufferPos)
    bufferSize: nat,
    dynamic: bool,           // usingDynamicBuffer
    flushCount: nat,
    file: seq<byte>,         // what the open file holds
    room: nat)               // how many more bytes the file will take
  {
    /** What every handler relies on. */
    predicate Valid() {
      && STATIC_BUFFER_SIZE <= bufferSize <= MAX_DYNAMIC_BUFFER
      && (!dynamic ==> bufferSize == STATIC_BUFFER_SIZE)
      // a dynamic buffer is held only while a session is open
      && (dynamic ==> isOpen)
      && (isOpen ==> fileOpen && |buffered| <= bufferSize && Sanitized(filename))
    }
  }

  /** The session after file_transfer_init (or a failed mount: unchanged). */
  function TransferInit(s: Session, mounted: bool): (r: Session)
    ensures mounted ==> r.Valid() && !r.isOpen && r.buffered == [] && r.writtenSize == 0
    ensures !mounted ==> r == s
  {
    if !mounted then s
    else s.(isOpen := false, dynamic := false, buffered := [], writtenSize := 0,
            bufferSize := STATIC_BUFFER_SIZE)
  }

  datatype Allocated = Allocated(session: Session, ok: bool, freedReuse: bool)

  /** What became of the PSRAM attempt: not made (no PSRAM, or too little
      free), made and answered NULL, or made and answered a block. */
  datatype PsramAttempt = NotTried | Failed | Got

  /** allocateBuffer(requestedSize); `heap` says whether `new` succeeds.
      A dynamic buffer held on entry is deleted but its pointer kept. A
      failed PSRAM attempt overwrites it with NULL, so `new` is tried; an
      attempt not made leaves it, and the freed pointer then passes the
      "not null, not static" test and is used again (`freedReuse`). */
  function AllocateBuffer(s: Session, requested: nat, psram: PsramAttempt, heap: bool): (r: Allocated)
    ensures STATIC_BUFFER_SIZE <= r.session.bufferSize <= MAX_DYNAMIC_BUFFER
    ensures !r.session.dynamic ==> r.session.bufferSize == STATIC_BUFFER_SIZE
    ensures requested <= STATIC_BUFFER_SIZE ==> r.ok && !r.session.dynamic && !r.freedReuse
    ensures requested > STATIC_BUFFER_SIZE && r.ok ==>
              r.session.dynamic && r.session.bufferSize == Min(requested, MAX_DYNAMIC_BUFFER)
    ensures !r.ok ==> !r.session.dynamic
    // a large request succeeds with a PSRAM block, with a heap block when
    // PSRAM gave none, or with the freed pointer when PSRAM was not tried
    ensures requested > STATIC_BUFFER_SIZE ==>
              (r.ok <==> psram.Got? || heap || (psram.NotTried? && s.dynamic))
    ensures r.freedReuse <==> requested > STATIC_BUFFER_SIZE && psram.NotTried? && s.dynamic
    ensures r.session.(bufferSize := s.bufferSize, dynamic := s.dynamic) == s
  {
    if requested <= STATIC_BUFFER_SIZE then
      Allocated(s.(bufferSize := STATIC_BUFFER_SIZE, dynamic := false), true, false)
    else
      var size := Min(requested, MAX_DYNAMIC_BUFFER);
      // the pointer after the PSRAM step still points at a block (the
      // freed one when the step was skipped)
      var held := psram.Got? || (psram.NotTried? && s.dynamic);
      if held || heap then
        Allocated(s.(bufferSize := size, dynamic := true), true, !psram.Got? && held)
      else
        Allocated(s.(bufferSize := STATIC_BUFFER_SIZE, dynamic := false), false, false)
  }

  /** Whenever PSRAM is tried, the outcome does not depend on whether a
      dynamic buffer was held before: only a skipped attempt reuses it. */
  lemma TriedPsramForgetsOldBuffer(s: Session, requested: nat, psram: PsramAttempt, heap: bool)
    requires !psram.NotTried?
    ensures AllocateBuffer(s, requested, psram, heap).ok == AllocateBuffer(s.(dynamic := !s.dynamic), requested, psram, heap).ok
    ensures !AllocateBuffer(s, requested, psram, heap).freedReuse
  {
  }

  /** freeBuffer: back to the static buffer. */
  function FreeBuffer(s: Session): (r: Session)
    ensures !r.dynamic
    ensures s.dynamic ==> r.bufferSize == STATIC_BUFFER_SIZE
    ensures !s.dynamic ==> r == s
    ensures r.(bufferSize := s.bufferSize, dynamic := s.dynamic) == s
  {
    if s.dynamic then s.(bufferSize := STATIC_BUFFER_SIZE, dynamic := false) else s
  }

  datatype Flushed = Flushed(session: Session, ok: bool)

  /** flushBuffer: write the buffer to the file. A short write fails and
      leaves the buffer and the counters as they were. */
  function Flush(s: Session): (r: Flushed)
    ensures |s.buffered| == 0 ==> r == Flushed(s, true)
    ensures r.ok <==> |s.buffered| <= s.room
    ensures r.ok ==> r.session.buffered == [] && r.session.file == s.file + s.buffered
    ensures r.ok ==> r.session.writtenSize == s.writtenSize + |s.buffered|
    ensures r.ok && |s.buffered| > 0 ==> r.session.flushCount == s.flushCount + 1
    ensures !r.ok ==> r.session.buffered == s.buffered && r.session.writtenSize == s.writtenSize
                      && r.session.flushCount == s.flushCount
    ensures r.session.(buffered := s.buffered, writtenSize := s.writtenSize, flushCount := s.flushCount,
                       file := s.file, room := s.room) == s
    ensures s.Valid() ==> r.session.Valid()
  {
    var pos := |s.buffered|;
    if pos == 0 then Flushed(s, true)
    else if s.room < pos then
      // the bytes that fit are still written
      Flushed(s.(file := s.file + s.buffered[..s.room], room := 0), false)
    else
      Flushed(s.(file := s.file + s.buffered, room := s.room - pos, writtenSize := s.writtenSize + pos,
                 buffered := [], flushCount := s.flushCount + 1), true)
  }

  /** handleFileFlush: refused when no session is open. */
  function FlushHandler(s: Session): (r: Flushed)
    ensures !s.isOpen ==> r == Flushed(s, false)
    ensures s.isOpen ==> r == Flush(s)
  {
    if !s.isOpen then Flushed(s, false) else Flush(s)
  }

  /** The fields an append never changes. */
  predicate SameSession(a: Session, b: Session) {
    && a.isOpen == b.isOpen && a.fileOpen == b.fileOpen && a.filename == b.filename
    && a.totalSize == b.totalSize && a.bufferSize == b.bufferSize && a.dynamic == b.dynamic
  }

  /** One round of the append loop: copy a chunk that fits into the buffer,
      then flush if the buffer is full. */
  function AppendRound(s: Session, chunk: seq<byte>): (r: Flushed)
    requires s.Valid() && s.isOpen && |s.buffered| + |chunk| <= s.bufferSize
    ensures r.session.Valid() && SameSession(r.session, s)
    ensures r.ok ==> r.session.file + r.session.buffered == s.file + (s.buffered + chunk)
    ensures r.ok ==> r.session.writtenSize + |r.session.buffered| == s.writtenSize + |s.buffered| + |chunk|
    ensures r.ok ==> |r.session.buffered| < r.session.bufferSize
    ensures |s.buffered| + |chunk| <= s.room ==>
              r.ok && r.session.room - |r.session.buffered| == s.room - |s.buffered| - |chunk|
  {
    var filled := s.(buffered := s.buffered + chunk);
    if |filled.buffered| >= filled.bufferSize then Flush(filled) else Flushed(filled, true)
  }

  /** handleFileAppend: copy the payload into the buffer, flushing each
      time it fills; stop at the first failed flush. */
  method Append(s: Session, data: seq<byte>) returns (r: Session, ok: bool)
    requires s.Valid()
    ensures r.Valid() && SameSession(r, s)
    ensures !(s.isOpen && s.fileOpen) ==> r == s && !ok
    ensures ok ==> r.file + r.buffered == s.file + s.buffered + data
    ensures ok ==> r.writtenSize + |r.buffered| == s.writtenSize + |s.buffered| + |data|
    ensures s.isOpen && s.fileOpen && |s.buffered| + |data| <= s.room ==> ok && |r.buffered| <= r.room
  {
    if !s.isOpen || !s.fileOpen {
      return s, false;
    }
    r := s;
    var i := 0;
    while i < |data|
      invariant 0 <= i <= |data|
      invariant r.Valid() && r.isOpen && SameSession(r, s)
      invariant r.file + r.buffered + data[i..] == s.file + s.buffered + data
      invariant r.writtenSize + |r.buffered| + (|data| - i) == s.writtenSize + |s.buffered| + |data|
      invariant |s.buffered| + |data| <= s.room ==> |r.buffered| + (|data| - i) <= r.room
      decreases 2 * (|data| - i) + (if |r.buffered| >= r.bufferSize then 1 else 0)
    {
      var n := Min(|data| - i, r.bufferSize - |r.buffered|);
      var chunk := data[i..i + n];
      assert data[i..] == chunk + data[i + n..];
      var f := AppendRound(r, chunk);
      if !f.ok {
        return f.session, false;
      }
      Assoc(r.file, r.buffered, chunk + data[i + n..]);
      Assoc(r.buffered, chunk, data[i + n..]);
      Assoc(r.file, r.buffered + chunk, data[i + n..]);
      r := f.session;
      i := i + n;
    }
    ok := true;
  }

  datatype CreateRequest = CreateRequest(filename: string, size: nat, bufferSize: nat)

  datatype CreateStatus = InvalidJson | NoFilename | Opened | OpenFailed

  datatype Created = Created(session: Session, status: CreateStatus, freedReuse: bool)

  /** The part of handleFileCreate after an existing session is closed:
      start a new session on the sanitised name, or report the failure. */
  function Open(s: Session, req: CreateRequest, psram: PsramAttempt, heap: bool, opens: bool, capacity: nat): (r: Created)
    requires req.filename != ""
  {
    var started := s.(filename := Sanitize(req.filename), totalSize := req.size, writtenSize := 0, buffered := []);
    var a := AllocateBuffer(started, req.bufferSize, psram, heap);
    if opens then
      Created(a.session.(isOpen := true, fileOpen := true, flushCount := 0, file := [], room := capacity),
              Opened, a.freedReuse)
    else
      Created(FreeBuffer(a.session).(isOpen := false, fileOpen := false), OpenFailed, a.freedReuse)
  }

  /** handleFileCreate as written: closing the previous session flushes it,
      closes its file and frees its buffer, but leaves isOpen set. */
  function CreateAsWritten(s: Session, req: Option<CreateRequest>, psram: PsramAttempt, heap: bool, opens: bool, capacity: nat): (r: Created)
    ensures req.None? ==> r == Created(s, InvalidJson, false)
    ensures req.Some? && req.value.filename == "" && s.isOpen && s.fileOpen ==>
              r.session.isOpen && !r.session.fileOpen && r.status == NoFilename
  {
    if req.None? then Created(s, InvalidJson, false)
    else
      var closed := if s.isOpen && s.fileOpen then FreeBuffer(Flush(s).session.(fileOpen := false)) else s;
      if req.value.filename == "" then Created(closed, NoFilename, false)
      else Open(closed, req.value, psram, heap, opens, capacity)
  }

  /** A session holding more bytes than the static buffer, whose final flush
      fails (the file is full), followed by a create without a filename:
      the session is still marked open but its buffer position lies past
      the end of the 4096-byte static buffer it now points at, which the
      next file_flush reads from. */
  lemma CreateWithoutNameBreaksSession(s: Session, size: nat, bufferSize: nat, psram: PsramAttempt, heap: bool, opens: bool, capacity: nat)
    requires s.Valid() && s.isOpen
    requires |s.buffered| > STATIC_BUFFER_SIZE && s.room < |s.buffered|
    ensures var r := CreateAsWritten(s, Some(CreateRequest("", size, bufferSize)), psram, heap, opens, capacity).session;
            r.isOpen && !r.fileOpen && |r.buffered| > r.bufferSize && !r.Valid()
  {
  }

  /** handleFileCreate as evidently intended: the previous session is
      closed entirely before the new request is looked at. */
  function Create(s: Session, req: Option<CreateRequest>, psram: PsramAttempt, heap: bool, opens: bool, capacity: nat): (r: Created)
    requires s.Valid()
    ensures r.session.Valid()
    // the freed-pointer path of allocateBuffer is never taken
    ensures !r.freedReuse
    ensures req.None? ==> r == Created(s, InvalidJson, false)
    ensures req.Some? && req.value.filename == "" ==> !r.session.isOpen && r.status == NoFilename
    ensures req.Some? && req.value.filename != "" ==>
              (r.status == Opened <==> opens)
              && (opens ==> && r.session.isOpen && r.session.filename == Sanitize(req.value.filename)
                            && r.session.buffered == [] && r.session.file == [] && r.session.writtenSize == 0
                            && r.session.totalSize == req.value.size && r.session.room == capacity)
              && (!opens ==> !r.session.isOpen && !r.session.dynamic)
  {
    if req.None? then Created(s, InvalidJson, false)
    else
      var closed := if s.isOpen && s.fileOpen then FreeBuffer(Flush(s).session.(fileOpen := false)) else s;
      if req.value.filename == "" then Created(closed.(isOpen := false), NoFilename, false)
      else Open(closed, req.value, psram, heap, opens, capacity)
  }

  /** The correction only concerns requests without a filename: with one,
      both versions reach the same session. */
  lemma CreateAgreesWhenNamed(s: Session, req: CreateRequest, psram: PsramAttempt, heap: bool, opens: bool, capacity: nat)
    requires s.Valid() && req.filename != ""
    ensures Create(s, Some(req), psram, heap, opens, capacity) == CreateAsWritten(s, Some(req), psram, heap, opens, capacity)
  {
  }

  /** handleFileClose: final flush (its result ignored), close, free. */
  function Close(s: Session): (r: Session)
    ensures !s.isOpen ==> r == s
    ensures s.isOpen ==> !r.isOpen && !r.fileOpen && !r.dynamic
    ensures s.isOpen && |s.buffered| <= s.room ==> r.file == s.file + s.buffered
                                                   && r.writtenSize == s.writtenSize + |s.buffered|
    ensures s.Valid() ==> r.Valid()
  {
    if !s.isOpen then s
    else FreeBuffer(Flush(s).session.(fileOpen := false)).(isOpen := false)
  }

  datatype DeleteStatus = BadRequest | FileIsOpen | Deleted(name: string) | DeleteFailed

  /** handleFileDelete. `name` is None when the request is not valid JSON;
      `removes` is whether the filesystem removes the file. The session is
      never changed. */
  function Delete(s: Session, name: Option<string>, removes: bool): (r: DeleteStatus)
    ensures name.None? <==> r == BadRequest
    ensures name.Some? ==> (r == FileIsOpen <==> s.isOpen && s.filename == Sanitize(name.value))
    ensures r.Deleted? ==> name.Some? && removes && r.name == Sanitize(name.value)
    ensures name.Some? && removes && r != FileIsOpen ==> r.Deleted?
  {
    if name.None? then BadRequest
    else
      var path := Sanitize(name.value);
      if s.isOpen && s.filename == path then FileIsOpen
      else if removes then Deleted(path)
      else DeleteFailed
  }

  /** The file being written can never be deleted under the session, under
      its own name or any spelling that sanitises to it. */
  lemma OpenFileNotDeleted(s: Session, removes: bool)
    requires s.Valid() && s.isOpen
    ensures Delete(s, Some(s.filename), removes) == FileIsOpen
    ensures forall name :: Sanitize(name) == s.filename ==> Delete(s, Some(name), removes) == FileIsOpen
  {
    SanitizeFixed(s.filename);
  }

  /** A whole transfer: create, append the payload, close. When the file
      has room for it, the file holds exactly the payload. */
  method Transfer(s: Session, req: CreateRequest, data: seq<byte>, psram: PsramAttempt, heap: bool, capacity: nat)
    returns (r: Session)
    requires s.Valid()
    requires req.filename != "" && |data| <= capacity
    ensures r.Valid() && !r.isOpen
    ensures r.file == data && r.writtenSize == |data|
  {
    var c := Create(s, Some(req), psram, heap, true, capacity);
    var appended, ok := Append(c.session, data);
    assert ok;
    r := Close(appended);
  }
}
