/** Runs of clients on the booted heap: what is sound, and what never happens. */
module BootRuns {
  import opened Backing
  import opened Frames
  import opened Memory
  import opened OrderedArrays
  import K = KHeap
  import opened Chunks
  import opened HeapAlloc
  import opened HeapFree
  import opened HeapRuns
  import opened HeapFailures
  import HP = HeapPages
  import O = Owners
  import P = Paging
  import opened Boot
  import opened BootHeap

  // ----- what a step does to frames and pages

  /** A guarded request changes frames only by growth, and by exactly the new pages; of those, the ones
      that had no frame are present, closed to user mode, and writable unless the heap is read-only. */
  lemma AllocPool(h: K.Heap, live: set<Chunk>, size: int)
    requires Good(h, live) && Modelled(h, size) && AllocGuard(h, size)
    ensures var r := K.Alloc(h, size);
            && r.Done?
            && if Fits(h, size) then r.heap.end == h.end && r.heap.pool == h.pool
               else
                 && r.heap.end == NewEnd(h, size + K.TAGS_SIZE) > h.end && r.heap.end % K.PAGE_SIZE == 0
                 && r.heap.pool == BackRange(h.pool, h.end / K.PAGE_SIZE, r.heap.end / K.PAGE_SIZE, !h.readonly)
                 && (forall p :: p in Bare(h.pool, h.end / K.PAGE_SIZE, r.heap.end / K.PAGE_SIZE) ==>
                       && p in r.heap.pool.pages && r.heap.pool.pages[p].present
                       && r.heap.pool.pages[p].writable == !h.readonly && !r.heap.pool.pages[p].user)
  {
    hide Word, Byte, Represents, Blocks, K.Carve, K.Grow, BackRange, FramesFor, K.RoundUp;
    var need := size + K.TAGS_SIZE;
    var it := K.FirstFit(h.mem, h.index, need);
    if Fits(h, size) {
      CarveFields(h, it, size);
    } else {
      var cs: seq<Chunk> :| Represents(h, cs) && Blocks(cs) == live;
      GrowsAtMostOnce(h, live, size);
      var g := K.Grow(h, need).value;
      GoodPlaced(h, live);
      GrowPool(h, need, g);
      assert K.Alloc(h, size) == K.Alloc(g, size);
      CarveFields(g, K.FirstFit(g.mem, g.index, need), size);
      hide Bare;
      forall p | p in Bare(h.pool, h.end / K.PAGE_SIZE, g.end / K.PAGE_SIZE)
        ensures p in g.pool.pages && g.pool.pages[p].present && g.pool.pages[p].writable == !h.readonly && !g.pool.pages[p].user
      {
        BackRangeEntries(h.pool, h.end / K.PAGE_SIZE, g.end / K.PAGE_SIZE, !h.readonly, p);
      }
    }
  }

  lemma GoodPlaced(h: K.Heap, live: set<Chunk>)
    requires Good(h, live)
    ensures Placed(h)
  {
    var cs: seq<Chunk> :| Represents(h, cs) && Blocks(cs) == live;
  }

  /** A release of a block that does not end the heap changes neither its end nor its frames. */
  lemma FreeInside(h: K.Heap, live: set<Chunk>, c: Chunk)
    requires Good(h, live) && c in live && c.End() != h.end
    ensures var r := K.Free(h, c.addr + K.HEADER_SIZE);
            r.Done? && r.heap.end == h.end && r.heap.pool == h.pool
  {
    hide Represents, K.Free, AfterRight, K.Reindex, AfterLeft, Removed;
    var cs: seq<Chunk> :| Represents(h, cs) && Blocks(cs) == live;
    var k := ChunkOf(cs, c);
    NeighboursRead(h, cs, k);
    var head, indexed := LeftMerged(cs, k).addr, HoleBefore(cs, k);
    if HoleAfter(cs, k) {
      FreeRight(h, cs, k);
      var g: K.Heap := h.(mem := AfterRight(h, cs, k), index := Removed(h.index, K.Find(h.index, cs[k + 1].addr)));
      ReindexMultiset(g, g.index, head, indexed, K.Reindex(g, head, indexed));
    } else {
      FreePlain(h, cs, k);
      var g: K.Heap := h.(mem := AfterLeft(h, cs[k]).mem);
      ReindexMultiset(g, g.index, head, indexed, K.Reindex(g, head, indexed));
    }
  }

  /** A release of the block that ends the heap stops the kernel when the page past it is not present. */
  lemma FreeAtEnd(h: K.Heap, live: set<Chunk>, c: Chunk)
    requires Good(h, live) && c in live && c.End() == h.end && !K.Readable(h, h.end)
    ensures K.Free(h, c.addr + K.HEADER_SIZE) == K.Panic
    ensures !FreeGuard(h, c.addr + K.HEADER_SIZE)
  {
    hide Represents, K.Free, K.Readable, AfterLeft, RightHole;
    var cs: seq<Chunk> :| Represents(h, cs) && Blocks(cs) == live;
    var k := ChunkOf(cs, c);
    NeighboursRead(h, cs, k);
    FreeUnfolds(h, cs, k);
  }

  // ----- growth from boot

  /** The loop over pages without frames hands out the next frames in their order. */
  lemma {:induction false} BackRangeLaid(s: O.Pool, first: int, last: int, n: nat, isWrite: bool)
    requires 0 < n && n + last - first <= s.count && first <= last && Tabled(s, first, last)
    requires forall f :: f in s.used <==> 0 <= f < n
    requires forall p :: p in s.pages && first <= p ==> s.pages[p].frame == 0
    ensures forall f :: f in BackRange(s, first, last, isWrite).used <==> 0 <= f < n + last - first
    decreases last - first
  {
    if first < last {
      assert InRange(first, first, last);
      LeastUnique(s.used, s.count, n);
      var t := Back(s, first, isWrite);
      hide LeastFree, Back;
      forall p | InRange(p, first + 1, last)
        ensures InRange(p, first, last)
      {
      }
      BackRangeLaid(t, first + 1, last, n + 1, isWrite);
    }
  }

  lemma BareCount(s: O.Pool, first: int, last: int)
    requires first <= last && Tabled(s, first, last)
    requires forall p :: p in s.pages && first <= p ==> s.pages[p].frame == 0
    ensures |Bare(s, first, last)| == last - first
  {
    assert Bare(s, first, last) == HP.Pages(first, last);
    HP.PagesCount(first, last);
  }

  lemma PoolGrown(s: O.Pool, k: nat, mid: int, high: int, isWrite: bool)
    requires PoolLaid(s, k, mid) && 0 < k && HEAP_PAGE <= mid <= high && k + mid - HEAP_PAGE <= s.count
    requires Tabled(s, mid, high) && EnoughFrames(s, mid, high)
    ensures PoolLaid(BackRange(s, mid, high, isWrite), k, high)
  {
    hide BackRange, Bare, Unused;
    var n := k + mid - HEAP_PAGE;
    BareCount(s, mid, high);
    UnusedCount(s, n);
    BackRangeGrows(s, mid, high, isWrite);
    BackRangeLaid(s, mid, high, n, isWrite);
    forall p | p in s.pages && high <= p
      ensures !InRange(p, mid, high)
    {
    }
  }

  lemma LaidCount(h: K.Heap, k: nat)
    requires Placed(h) && BootLaid(h, k) && 0 < k
    ensures k + h.end / P.PAGE_SIZE - HEAP_PAGE <= h.pool.count
    ensures h.end <= KHEAP_TABLED
  {
    var f := k + h.end / P.PAGE_SIZE - HEAP_PAGE - 1;
    assert f in h.pool.used;
    assert InRange(h.end / P.PAGE_SIZE - 1, h.start / P.PAGE_SIZE - 1, h.end / P.PAGE_SIZE);
    assert InRange(h.end / P.PAGE_SIZE - 1, HEAP_PAGE, KHEAP_TABLED / P.PAGE_SIZE);
  }

  lemma AllocLaid(h: K.Heap, live: set<Chunk>, size: int, k: nat)
    requires Good(h, live) && Modelled(h, size) && AllocGuard(h, size) && BootLaid(h, k) && 0 < k
    ensures var r := K.Alloc(h, size);
            r.Done? && BootLaid(r.heap, k) && h.end <= r.heap.end
  {
    hide Good, K.Alloc, BackRange, PoolLaid, EnoughFrames, Tabled, Granted, K.RoundUp;
    GoodPlaced(h, live);
    LaidCount(h, k);
    AllocPool(h, live, size);
    AllocSafe(h, live, size);
    if !Fits(h, size) {
      PoolGrown(h.pool, k, h.end / P.PAGE_SIZE, K.Alloc(h, size).heap.end / P.PAGE_SIZE, !h.readonly);
    }
  }

  // ----- steps and runs

  /** The step releases the block that ends the heap. */
  predicate ReleasesEnd(w: World, op: Op) {
    op.Release? && op.p != 0 && Granted(w.heap, op.p).End() == w.heap.end
  }

  lemma NotPresent(h: K.Heap, k: nat)
    requires BootLaid(h, k)
    ensures !K.Readable(h, h.end)
  {
  }

  /** On a heap laid out by boot the release of the block that ends it stops the kernel. */
  lemma EndReleaseStops(w: World, op: Op, k: nat)
    requires Sound(w) && BootLaid(w.heap, k) && Allowed(w, op) && ReleasesEnd(w, op)
    ensures Step(w, op) == K.None && !Guard(w, op)
  {
    hide Good, K.Free, FreeGuard, Granted, BootLaid, K.Readable;
    NotPresent(w.heap, k);
    var c := Granted(w.heap, op.p);
    StoredChunk(w.heap, w.live, c);
    GrantedAddr(w.heap, op.p);
    FreeAtEnd(w.heap, w.live, c);
  }

  /** Every guarded step keeps the layout, and the heap never shrinks. */
  lemma StepLaid(w: World, op: Op, k: nat)
    requires Sound(w) && BootLaid(w.heap, k) && 0 < k && Allowed(w, op) && Guard(w, op)
    ensures !ReleasesEnd(w, op)
    ensures Step(w, op).Some? && BootLaid(Step(w, op).value.heap, k) && w.heap.end <= Step(w, op).value.heap.end
    ensures SamePlace(w.heap, Step(w, op).value.heap)
  {
    hide Good, K.Alloc, K.Free, AllocGuard, FreeGuard, Granted, Modelled, PoolLaid;
    match op
    case Malloc(size) =>
      AllocLaid(w.heap, w.live, size, k);
      AllocSafe(w.heap, w.live, size);
      ModelledSums(w.heap, size);
    case Release(p) =>
      if p == 0 {
        NullRelease(w.heap);
      } else {
        var c := Granted(w.heap, p);
        StoredChunk(w.heap, w.live, c);
        GrantedAddr(w.heap, p);
        if c.End() == w.heap.end {
          EndReleaseStops(w, op, k);
        }
        FreeInside(w.heap, w.live, c);
        HeapFree.FreeExact(w.heap, w.live, c);
      }
    case Scribble(a, v) =>
  }

  lemma ModelledSums(h: K.Heap, size: int)
    requires Modelled(h, size)
    ensures K.NoWrap(h, size)
  {
  }

  /** No step of the run releases the block that ends the heap. */
  predicate AllInside(w: World, ops: seq<Op>)
    decreases |ops|
  {
    ops != [] ==>
      && !ReleasesEnd(w, ops[0])
      && (Step(w, ops[0]).Some? ==> AllInside(Step(w, ops[0]).value, ops[1..]))
  }

  /** A sound run on a heap laid out by boot never releases the block that ends it, never shrinks it,
      takes frames in their order only, and stays below the end of boot's page table. */
  lemma {:induction false} RunLaid(w: World, ops: seq<Op>, k: nat)
    requires Sound(w) && BootLaid(w.heap, k) && 0 < k && AllAllowed(w, ops) && AllGuarded(w, ops)
    ensures AllInside(w, ops)
    ensures Run(w, ops).Some?
    ensures var v := Run(w, ops).value;
            && Sound(v) && BootLaid(v.heap, k) && w.heap.end <= v.heap.end <= KHEAP_TABLED
            && v.heap.pool.count == w.heap.pool.count
    decreases |ops|
  {
    hide Sound, Guard, Step, Allowed, BootLaid, ReleasesEnd, Placed;
    if ops != [] {
      StepLaid(w, ops[0], k);
      StepExact(w, ops[0]);
      var w' := Step(w, ops[0]).value;
      RunLaid(w', ops[1..], k);
    } else {
      SoundPlaced(w);
      LaidCount(w.heap, k);
    }
  }

  lemma SoundPlaced(w: World)
    requires Sound(w)
    ensures Placed(w.heap)
  {
    GoodPlaced(w.heap, w.live);
  }

  // ----- runs from boot

  /** The step is one that clients may take, and a request does not make the heap grow past the space
      whose page table boot made. */
  ghost predicate Within(w: World, op: Op) {
    match op
    case Malloc(size) =>
      && K.NoWrap(w.heap, size)
      && (!Fits(w.heap, size) && RoomToGrow(w.heap, size) ==> NewEnd(w.heap, size + K.TAGS_SIZE) <= KHEAP_TABLED)
    case Release(p) => Allowed(w, op)
    case Scribble(a, v) => Allowed(w, op)
  }

  ghost predicate AllWithin(w: World, ops: seq<Op>)
    decreases |ops|
  {
    ops != [] ==>
      && Within(w, ops[0])
      && (Step(w, ops[0]).Some? ==> AllWithin(Step(w, ops[0]).value, ops[1..]))
  }

  /** On a heap laid out by boot these are exactly the steps that are modelled. */
  lemma WithinAllowed(w: World, op: Op, k: nat)
    requires Sound(w) && BootLaid(w.heap, k)
    ensures Within(w, op) <==> Allowed(w, op)
  {
    hide Fits, K.RoundUp, Represents;
    if op.Malloc? && !Fits(w.heap, op.size) && RoomToGrow(w.heap, op.size) && K.NoWrap(w.heap, op.size) {
      GrowthAligned(w, op.size);
      var mid, high := w.heap.end / P.PAGE_SIZE, NewEnd(w.heap, op.size + K.TAGS_SIZE) / P.PAGE_SIZE;
      if high <= KHEAP_TABLED / P.PAGE_SIZE {
        forall p | InRange(p, mid, high)
          ensures InRange(p, HEAP_PAGE, KHEAP_TABLED / P.PAGE_SIZE)
        {
        }
      } else {
        assert InRange(high - 1, mid, high) && !InRange(high - 1, HEAP_PAGE, KHEAP_TABLED / P.PAGE_SIZE);
      }
    }
  }

  lemma GrowthAligned(w: World, size: int)
    requires Sound(w) && K.NoWrap(w.heap, size)
    ensures NewEnd(w.heap, size + K.TAGS_SIZE) % P.PAGE_SIZE == 0
    ensures w.heap.end < NewEnd(w.heap, size + K.TAGS_SIZE)
  {
    hide Represents, O.Owned, HeldRange;
    GoodPlaced(w.heap, w.live);
    RoundUpBounds(w.heap.end - w.heap.start + size + K.TAGS_SIZE);
  }

  lemma {:induction false} BootRunSound(w: World, ops: seq<Op>, k: nat)
    requires Sound(w) && BootLaid(w.heap, k) && 0 < k && AllWithin(w, ops)
    ensures StaysSound(w, ops) <==> AllGuarded(w, ops)
    ensures AllGuarded(w, ops) ==> AllAllowed(w, ops)
    decreases |ops|
  {
    hide Sound, Guard, Step, Allowed, Within, BootLaid;
    if ops != [] {
      WithinAllowed(w, ops[0], k);
      StepExact(w, ops[0]);
      if Guard(w, ops[0]) {
        StepLaid(w, ops[0], k);
        BootRunSound(Step(w, ops[0]).value, ops[1..], k);
      }
    }
  }

  /** The pages of the space whose page table boot makes. */
  const TABLED_PAGES := P.TABLE_PAGES

  /** Every run of clients on the booted heap that stays within boot's page table is sound exactly
      when every step of it meets its guard. Such a run never releases the block that ends the heap,
      so it never contracts, and it uses no frames but those boot took and the next ones. */
  lemma BootedRunExact(placement: nat, count: nat, mem: Mem, ops: seq<Op>)
    requires BootRoom(placement, count) && CleanBelow(mem)
    ensures BootedHeap(placement, count, mem).Some?
    ensures var w := World(BootedHeap(placement, count, mem).value, {});
            AllWithin(w, ops) ==>
              && (StaysSound(w, ops) <==> AllGuarded(w, ops))
              && (StaysSound(w, ops) ==>
                    && AllInside(w, ops) && Run(w, ops).Some?
                    && w.heap.end <= Run(w, ops).value.heap.end <= KHEAP_TABLED
                    && (forall f :: f in Run(w, ops).value.heap.pool.used ==>
                          0 <= f < IdentityPages(placement, count) + TABLED_PAGES))
  {
    hide StaysSound, AllGuarded, AllWithin, Sound, Fresh, BootedHeap, BootLaid, AllInside, Run, IdentityPages;
    BootedHeapGood(placement, count, mem);
    BootedLaid(placement, count, mem);
    var w := World(BootedHeap(placement, count, mem).value, {});
    var k := BootedPool(placement, count);
    if AllWithin(w, ops) {
      BootRunSound(w, ops, k);
      if AllGuarded(w, ops) {
        RunLaid(w, ops, k);
        UsedSmall(Run(w, ops).value.heap, k);
      }
    }
  }

  lemma UsedSmall(h: K.Heap, k: nat)
    requires BootLaid(h, k) && h.end <= KHEAP_TABLED
    ensures forall f :: f in h.pool.used ==> 0 <= f < k + TABLED_PAGES
  {
  }

  /** When the frames for all of that space are in the first quarter, no sound run on the booted heap
      ever marks a frame whose bit lies outside the bitmap's allocation. */
  lemma BootedRunReserved(placement: nat, count: nat, mem: Mem, ops: seq<Op>)
    requires BootRoom(placement, count) && CleanBelow(mem) && count % (4 * SECTION_SIZE) == 0
    requires IdentityPages(placement, count) + TABLED_PAGES <= count / 4
    ensures BootedHeap(placement, count, mem).Some?
    ensures var w := World(BootedHeap(placement, count, mem).value, {});
            AllWithin(w, ops) && StaysSound(w, ops) ==>
              && Run(w, ops).Some?
              && forall f :: f in Run(w, ops).value.heap.pool.used ==> 0 <= f && Reserved(count, f)
  {
    hide StaysSound, AllWithin, BootedHeap, Run, IdentityPages, Reserved;
    BootedRunExact(placement, count, mem, ops);
    var w := World(BootedHeap(placement, count, mem).value, {});
    if AllWithin(w, ops) && StaysSound(w, ops) {
      forall f | f in Run(w, ops).value.heap.pool.used
        ensures 0 <= f && Reserved(count, f)
      {
        ReservedQuarter(count, f);
      }
    }
  }

  /** On the booted heap the release of any block that ends it stops the kernel, after every run. */
  lemma BootedEndReleaseStops(placement: nat, count: nat, mem: Mem, ops: seq<Op>, op: Op)
    requires BootRoom(placement, count) && CleanBelow(mem)
    ensures BootedHeap(placement, count, mem).Some?
    ensures var w := World(BootedHeap(placement, count, mem).value, {});
            AllWithin(w, ops) && AllGuarded(w, ops) ==>
              && Run(w, ops).Some?
              && var v := Run(w, ops).value;
                 Allowed(v, op) && ReleasesEnd(v, op) ==> Step(v, op) == K.None
  {
    hide AllGuarded, AllWithin, Sound, Fresh, BootedHeap, BootLaid, Run, IdentityPages, Step, ReleasesEnd, Allowed;
    BootedHeapGood(placement, count, mem);
    BootedLaid(placement, count, mem);
    var w := World(BootedHeap(placement, count, mem).value, {});
    var k := BootedPool(placement, count);
    if AllWithin(w, ops) && AllGuarded(w, ops) {
      BootRunSound(w, ops, k);
      RunLaid(w, ops, k);
      var v := Run(w, ops).value;
      if Allowed(v, op) && ReleasesEnd(v, op) {
        EndReleaseStops(v, op, k);
      }
    }
  }

  /** The shortest such run: one block takes the whole heap. */
  lemma BootedLastBlockFaults(placement: nat, count: nat, mem: Mem)
    requires BootRoom(placement, count) && CleanBelow(mem)
    ensures var h := BootedHeap(placement, count, mem);
            && h.Some?
            && Run(World(h.value, {}), [Malloc(0x7_F000 - K.TAGS_SIZE), Release(KHEAP_FIRST + K.HEADER_SIZE)]) == K.None
  {
    hide Run, Sound, Fresh, BootedHeap, PoolLaid, IdentityPages, K.Readable;
    BootedHeapGood(placement, count, mem);
    BootedPlaced(placement, count, mem);
    BootedLaid(placement, count, mem);
    var h := BootedHeap(placement, count, mem).value;
    NotPresent(h, IdentityPages(placement, count));
    LastBlockFaults(h, 0x7_F000 - K.TAGS_SIZE);
  }
}
