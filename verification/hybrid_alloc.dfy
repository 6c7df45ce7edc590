/**
 * The Lua allocator of the engine library: a 64 KiB bump pool for small
 * blocks, with the general heap (PSRAM first when present) for everything
 * else, plus the running statistics it keeps. Addresses are abstract: a
 * block is either an offset into the pool or an opaque heap identity, and
 * what the heap functions return is supplied by the caller.
 */
module HybridAlloc {
  import opened Common

  const POOL_SIZE: nat := 64 * 1024
  /** Requests smaller than this are tried in the pool first. */
  const SMALL_LIMIT: nat := 512

  datatype Ptr = Null | Pool(offset: nat) | Heap(id: nat)

  /** LuaMemStats. `psram` counts every heap block, PSRAM or not. Counters
      are mathematical integers (see the README for size_t wrap-around). */
  datatype Stats = Stats(total: int, sram: int, psram: int, peak: int, psramAvailable: bool)

  datatype Allocator = Allocator(poolOffset: nat, stats: Stats)
  {
    ghost predicate Valid() {
      && poolOffset <= POOL_SIZE
      && stats.peak >= stats.total
    }

    /** Every counted byte is in exactly one of the two regions. */
    ghost predicate Balanced() {
      stats.total == stats.sram + stats.psram
    }
  }

  /** What the heap does when asked: the result of heap_caps_malloc on
      PSRAM, of malloc, and of realloc (None for NULL). */
  datatype HeapAnswers = HeapAnswers(spiram: Option<nat>, malloc: Option<nat>, realloc: Option<nat>)

  /** The returned block and, for a pool block moved by a realloc, the
      number of bytes copied into it. */
  datatype AllocResult = AllocResult(alloc: Allocator, ptr: Ptr, copied: nat)

  /** create_lua_state: the pool restarts and every statistic is zeroed,
      except whether PSRAM exists. */
  function Fresh(a: Allocator): (r: Allocator)
    ensures r.Valid() && r.Balanced()
    ensures r.poolOffset == 0
    ensures r.stats.total == 0 && r.stats.peak == 0
    ensures r.stats.psramAvailable == a.stats.psramAvailable
  {
    Allocator(0, Stats(0, 0, 0, 0, a.stats.psramAvailable))
  }

  function RaisePeak(s: Stats): (r: Stats)
    ensures r.peak >= r.total && r.peak >= s.peak
    ensures r.(peak := s.peak) == s
  {
    if s.total > s.peak then s.(peak := s.total) else s
  }

  /** A new block (ptr == NULL). Small requests that fit take the next pool
      bytes; anything else goes to PSRAM when present, then to malloc. */
  function NewBlock(a: Allocator, nsize: nat, heap: HeapAnswers): (r: AllocResult)
    requires a.Valid()
    requires nsize > 0
    ensures r.alloc.Valid()
    ensures a.Balanced() ==> r.alloc.Balanced()
    ensures r.copied == 0
    ensures r.alloc.stats.psramAvailable == a.stats.psramAvailable
    // the pool is used exactly for small requests that still fit
    ensures r.ptr.Pool? <==> nsize < SMALL_LIMIT && a.poolOffset + nsize <= POOL_SIZE
    ensures r.ptr.Pool? ==>
              && r.ptr.offset == a.poolOffset
              && r.alloc.poolOffset == a.poolOffset + nsize
              && r.alloc.stats.sram == a.stats.sram + nsize
              && r.alloc.stats.total == a.stats.total + nsize
              && r.alloc.stats.psram == a.stats.psram
    // otherwise the PSRAM attempt is made only when PSRAM exists
    ensures !r.ptr.Pool? ==> r.alloc.poolOffset == a.poolOffset
    ensures r.ptr.Heap? ==>
              && (a.stats.psramAvailable && heap.spiram.Some? ==> r.ptr.id == heap.spiram.value)
              && (!(a.stats.psramAvailable && heap.spiram.Some?) ==> heap.malloc == Some(r.ptr.id))
              && r.alloc.stats.psram == a.stats.psram + nsize
              && r.alloc.stats.total == a.stats.total + nsize
              && r.alloc.stats.sram == a.stats.sram
    ensures r.ptr.Null? <==>
              !(nsize < SMALL_LIMIT && a.poolOffset + nsize <= POOL_SIZE)
              && !(a.stats.psramAvailable && heap.spiram.Some?) && heap.malloc.None?
    ensures r.ptr.Null? ==> r.alloc == a
  {
    if nsize < SMALL_LIMIT && a.poolOffset + nsize <= POOL_SIZE then
      var s := a.stats.(sram := a.stats.sram + nsize, total := a.stats.total + nsize);
      AllocResult(Allocator(a.poolOffset + nsize, RaisePeak(s)), Pool(a.poolOffset), 0)
    else
      var p := if a.stats.psramAvailable && heap.spiram.Some? then Some(heap.spiram.value)
               else heap.malloc;
      if p.None? then AllocResult(a, Null, 0)
      else
        var s := a.stats.(psram := a.stats.psram + nsize, total := a.stats.total + nsize);
        AllocResult(a.(stats := RaisePeak(s)), Heap(p.value), 0)
  }

  /** lua_hybrid_alloc as written. A pool block is never released (its bytes
      come back only when the pool restarts); a pool block that Lua resizes
      is moved into a new block, and only the SRAM counter is reduced by
      the old size. */
  function AllocAsWritten(a: Allocator, ptr: Ptr, osize: nat, nsize: nat, heap: HeapAnswers): (r: AllocResult)
    requires a.Valid()
    ensures r.alloc.Valid()
    ensures r.alloc.stats.psramAvailable == a.stats.psramAvailable
    ensures r.alloc.poolOffset >= a.poolOffset
    // freeing always answers NULL; freeing NULL changes nothing
    ensures nsize == 0 ==> r.ptr.Null? && r.copied == 0
    ensures nsize == 0 && ptr.Null? ==> r.alloc == a
    ensures nsize == 0 && ptr.Pool? ==> r.alloc.poolOffset == a.poolOffset
    ensures nsize > 0 && ptr.Null? ==> r == NewBlock(a, nsize, heap)
    // a pool block is moved: the new block receives min(osize, nsize) bytes
    ensures nsize > 0 && ptr.Pool? && !r.ptr.Null? ==> r.copied == if osize < nsize then osize else nsize
    ensures nsize > 0 && ptr.Heap? ==>
              (r.ptr.Null? <==> heap.realloc.None?) && r.alloc.poolOffset == a.poolOffset
    // freeing a pool block gives its size back to the SRAM count, a heap
    // block to the PSRAM count; the pool itself is not reclaimed
    ensures nsize == 0 && ptr.Pool? ==>
              && r.alloc.stats.sram == a.stats.sram - osize
              && r.alloc.stats.total == a.stats.total - osize
              && r.alloc.stats.psram == a.stats.psram
              && r.alloc.stats.peak == a.stats.peak
    ensures nsize == 0 && ptr.Heap? ==>
              && r.alloc.stats.psram == a.stats.psram - osize
              && r.alloc.stats.total == a.stats.total - osize
              && r.alloc.stats.sram == a.stats.sram
              && r.alloc.stats.peak == a.stats.peak
              && r.alloc.poolOffset == a.poolOffset
    // a heap block is handed to realloc: on failure nothing changes, on
    // success the counts move by the difference and the peak follows
    ensures nsize > 0 && ptr.Heap? && heap.realloc.None? ==> r.alloc == a
    ensures nsize > 0 && ptr.Heap? && heap.realloc.Some? ==>
              var total := a.stats.total - osize + nsize;
              && r.ptr == Heap(heap.realloc.value)
              && r.alloc.stats.total == total
              && r.alloc.stats.psram == a.stats.psram - osize + nsize
              && r.alloc.stats.sram == a.stats.sram
              && r.alloc.stats.peak == (if total > a.stats.peak then total else a.stats.peak)
    // a pool block is moved to a new block; once that exists the old
    // size comes off the SRAM count only, and the total keeps it
    ensures nsize > 0 && ptr.Pool? ==>
              var n := NewBlock(a, nsize, heap);
              && r.ptr == n.ptr
              && r.alloc.poolOffset == n.alloc.poolOffset
              && (n.ptr.Null? ==> r.alloc == a)
              && (!n.ptr.Null? ==>
                    && r.alloc.stats.sram == n.alloc.stats.sram - osize
                    && r.alloc.stats.total == n.alloc.stats.total
                    && r.alloc.stats.psram == n.alloc.stats.psram
                    && r.alloc.stats.peak == n.alloc.stats.peak)
  {
    if nsize == 0 then
      match ptr
      case Null => AllocResult(a, Null, 0)
      case Pool(_) =>
        AllocResult(a.(stats := a.stats.(sram := a.stats.sram - osize, total := a.stats.total - osize)), Null, 0)
      case Heap(_) =>
        AllocResult(a.(stats := a.stats.(psram := a.stats.psram - osize, total := a.stats.total - osize)), Null, 0)
    else
      match ptr
      case Null => NewBlock(a, nsize, heap)
      case Pool(_) =>
        var n := NewBlock(a, nsize, heap);
        if n.ptr.Null? then n
        else
          var st := n.alloc.stats.(sram := n.alloc.stats.sram - osize);
          AllocResult(n.alloc.(stats := st), n.ptr, if osize < nsize then osize else nsize)
      case Heap(_) =>
        if heap.realloc.None? then AllocResult(a, Null, 0)
        else
          var s := a.stats.(total := a.stats.total - osize + nsize, psram := a.stats.psram - osize + nsize);
          AllocResult(a.(stats := RaisePeak(s)), Heap(heap.realloc.value), 0)
  }

  /** Allocating a small pool block and then growing it (for instance 100
      bytes, then 200) leaves the total counting the old size more than the
      SRAM and heap counters together, although the state before was
      balanced. */
  lemma PoolReallocUnbalances(a: Allocator, osize: nat, nsize: nat, heap: HeapAnswers)
    requires a.Valid() && a.Balanced()
    requires 0 < osize < SMALL_LIMIT && 0 < nsize < SMALL_LIMIT
    requires a.poolOffset + osize + nsize <= POOL_SIZE
    ensures var b := AllocAsWritten(a, Null, 0, osize, heap);
            var c := AllocAsWritten(b.alloc, b.ptr, osize, nsize, heap);
            && b.ptr == Pool(a.poolOffset)
            && b.alloc.Balanced()
            && c.ptr == Pool(a.poolOffset + osize)
            && c.alloc.stats.total == c.alloc.stats.sram + c.alloc.stats.psram + osize
            && !c.alloc.Balanced()
  {
    var b := AllocAsWritten(a, Null, 0, osize, heap);
    var n := NewBlock(b.alloc, nsize, heap);
    assert n.ptr == Pool(a.poolOffset + osize);
  }

  /** lua_hybrid_alloc with the moved pool block's old size also taken off
      the total, as the free path does. */
  function Alloc(a: Allocator, ptr: Ptr, osize: nat, nsize: nat, heap: HeapAnswers): (r: AllocResult)
    requires a.Valid()
    ensures r.alloc.Valid()
    ensures a.Balanced() ==> r.alloc.Balanced()
    ensures r.ptr == AllocAsWritten(a, ptr, osize, nsize, heap).ptr
    ensures r.copied == AllocAsWritten(a, ptr, osize, nsize, heap).copied
    ensures r.alloc.poolOffset == AllocAsWritten(a, ptr, osize, nsize, heap).alloc.poolOffset
    ensures r.alloc.stats.psramAvailable == a.stats.psramAvailable
    ensures !(nsize > 0 && ptr.Pool?) ==> r == AllocAsWritten(a, ptr, osize, nsize, heap)
  {
    if nsize > 0 && ptr.Pool? then
      var n := NewBlock(a, nsize, heap);
      if n.ptr.Null? then n
      else
        var st := n.alloc.stats.(sram := n.alloc.stats.sram - osize, total := n.alloc.stats.total - osize);
        AllocResult(n.alloc.(stats := st), n.ptr, if osize < nsize then osize else nsize)
    else AllocAsWritten(a, ptr, osize, nsize, heap)
  }

  /** One call Lua makes to its allocator. */
  datatype Request = Request(ptr: Ptr, osize: nat, nsize: nat, heap: HeapAnswers)

  /** The allocator after a run of requests, with every block it handed out
      from the pool, in order. */
  datatype Run = Run(alloc: Allocator, poolBlocks: seq<(nat, nat)>)

  function RunRequests(a: Allocator, rs: seq<Request>): (r: Run)
    requires a.Valid()
    ensures r.alloc.Valid()
    ensures a.Balanced() ==> r.alloc.Balanced()
    ensures r.alloc.poolOffset >= a.poolOffset
    ensures r.alloc.stats.psramAvailable == a.stats.psramAvailable
    decreases |rs|
  {
    if |rs| == 0 then Run(a, [])
    else
      var q := rs[0];
      var one := Alloc(a, q.ptr, q.osize, q.nsize, q.heap);
      var rest := RunRequests(one.alloc, rs[1..]);
      var mine := if one.ptr.Pool? then [(one.ptr.offset, q.nsize)] else [];
      Run(rest.alloc, mine + rest.poolBlocks)
  }

  /** Pool blocks handed out by a run lie, in order, between the starting
      offset and the final one, without overlapping. */
  ghost predicate Packed(blocks: seq<(nat, nat)>, lo: nat, hi: nat) {
    && (forall i :: 0 <= i < |blocks| ==> lo <= blocks[i].0 && blocks[i].0 + blocks[i].1 <= hi)
    && (forall i, j :: 0 <= i < j < |blocks| ==> blocks[i].0 + blocks[i].1 <= blocks[j].0)
  }

  lemma PackedPrepend(mine: seq<(nat, nat)>, rest: seq<(nat, nat)>, lo: nat, mid: nat, hi: nat)
    requires lo <= mid <= hi
    requires Packed(mine, lo, mid) && Packed(rest, mid, hi)
    ensures Packed(mine + rest, lo, hi)
  {
    var all := mine + rest;
    forall i | 0 <= i < |all|
      ensures lo <= all[i].0 && all[i].0 + all[i].1 <= hi
    {
      if i >= |mine| {
        assert all[i] == rest[i - |mine|];
      } else {
        assert all[i] == mine[i];
      }
    }
    forall i, j | 0 <= i < j < |all|
      ensures all[i].0 + all[i].1 <= all[j].0
    {
      if i >= |mine| {
        assert all[i] == rest[i - |mine|];
        assert all[j] == rest[j - |mine|];
      } else if j >= |mine| {
        assert all[i] == mine[i];
        assert all[j] == rest[j - |mine|];
      } else {
        assert all[i] == mine[i];
        assert all[j] == mine[j];
      }
    }
  }

  lemma {:induction false} PoolBlocksDisjoint(a: Allocator, rs: seq<Request>)
    requires a.Valid()
    ensures Packed(RunRequests(a, rs).poolBlocks, a.poolOffset, RunRequests(a, rs).alloc.poolOffset)
    ensures RunRequests(a, rs).alloc.poolOffset <= POOL_SIZE
    decreases |rs|
  {
    if |rs| > 0 {
      var q := rs[0];
      var one := Alloc(a, q.ptr, q.osize, q.nsize, q.heap);
      var rest := RunRequests(one.alloc, rs[1..]);
      PoolBlocksDisjoint(one.alloc, rs[1..]);
      var mine: seq<(nat, nat)> := if one.ptr.Pool? then [(one.ptr.offset, q.nsize)] else [];
      if one.ptr.Pool? {
        assert one.ptr.offset == a.poolOffset && one.alloc.poolOffset == a.poolOffset + q.nsize by {
          assert q.nsize > 0;
        }
      }
      PackedPrepend(mine, rest.poolBlocks, a.poolOffset, one.alloc.poolOffset, rest.alloc.poolOffset);
    }
  }
}
