/** From the first page table to the first request: the heap that boot creates is sound, and what its
    clients may rely on. */
module BootHeap {
  import opened Backing
  import opened Frames
  import opened Memory
  import opened OrderedArrays
  import K = KHeap
  import opened Chunks
  import opened HeapAlloc
  import opened HeapFree
  import opened HeapRuns
  import opened HeapStack
  import opened HeapFailures
  import HP = HeapPages
  import O = Owners
  import P = Paging
  import opened Boot

  const KHEAP_MAX := 0xCFFF_F000
  const KHEAP_FIRST := 0xC008_1000

  /** The end of the space whose page table boot makes. */
  const KHEAP_TABLED := 0xC040_0000

  /** What boot needs: room for everything it places, and no more frames than an entry can name. */
  predicate BootRoom(placement: nat, count: nat) {
    RoomAtBoot(placement, count) && count <= FRAME_LIMIT
  }

  /** The heap that boot creates, over the page entries boot leaves. */
  ghost function BootedHeap(placement: nat, count: nat, mem: Mem): K.Option<K.Heap>
    requires BootRoom(placement, count)
  {
    var pool := BootedPages(placement, count);
    K.CreateHeap(mem, P.KHEAP_START, P.KHEAP_START + P.KHEAP_INITIAL_SIZE, KHEAP_MAX, false, false, pool)
  }

  /** The page entries and the frames in use that boot leaves. */
  ghost function BootedPages(placement: nat, count: nat): O.Pool
    requires BootRoom(placement, count)
  {
    InitFormed(placement, count);
    PoolOf(InitPaging(placement, count))
  }

  lemma InitFormed(placement: nat, count: nat)
    requires BootRoom(placement, count)
    ensures P.Formed(InitPaging(placement, count))
  {
    hide InitPaging;
    var k := Booted(placement, count);
    HeapFormed(InitPaging(placement, count), k, HEAP_PAGES);
  }

  /** No stray tag lies in the bytes just below the heap. */
  ghost predicate CleanBelow(mem: Mem) {
    K.FootMagic(mem, KHEAP_FIRST - K.FOOTER_SIZE) != K.HEAP_MAGIC
  }

  /** The state of frames and pages when the heap's area is backed up to page `top`: the identity map
      and the heap's area hold the first frames in their order, no page from `top` on is present, and
      no page table but the first serves the area. */
  ghost predicate PoolLaid(s: O.Pool, k: nat, top: int) {
    && (forall f :: f in s.used <==> 0 <= f < k + top - HEAP_PAGE)
    && (forall n :: n in s.pages && top <= n ==> s.pages[n].frame == 0 && !s.pages[n].present)
    && (forall n :: n in s.pages && HEAP_PAGE <= n <==> InRange(n, HEAP_PAGE, KHEAP_TABLED / P.PAGE_SIZE))
  }

  /** The page entries boot leaves. */
  lemma BootedPool(placement: nat, count: nat) returns (k: nat)
    requires BootRoom(placement, count)
    ensures k == IdentityPages(placement, count)
    ensures 0 < k <= HEAP_PAGE && k + HEAP_PAGES <= count
    ensures var s := BootedPages(placement, count);
            && O.Owned(s) && s.count == count
            && PoolLaid(s, k, HEAP_PAGE + HEAP_PAGES)
            && (forall n :: n in s.pages ==> s.pages[n].frame == HeapFrame(k, HEAP_PAGES, n))
            && (forall n :: n in s.pages ==> !s.pages[n].writable && !s.pages[n].user)
            && (forall n :: InRange(n, 0, k) || InRange(n, HEAP_PAGE, HEAP_PAGE + HEAP_PAGES) ==> n in s.pages)
  {
    hide InitPaging, O.Owned, IdentityPages, MapEnd;
    k := Booted(placement, count);
    var q := InitPaging(placement, count);
    HeapFormed(q, k, HEAP_PAGES);
    PoolRead(q, k);
  }

  lemma PoolRead(q: P.Paging, k: nat)
    requires HeapUpTo(q, k, HEAP_PAGES) && 0 < k <= HEAP_PAGE
    requires forall t :: t in q.tables <==> TableIndex(t) && (t < TablesOf(k) || t == P.TableOf(HEAP_PAGE))
    ensures var s := PoolOf(q);
            && PoolLaid(s, k, HEAP_PAGE + HEAP_PAGES)
            && (forall n :: n in s.pages ==> s.pages[n].frame == HeapFrame(k, HEAP_PAGES, n))
            && (forall n :: n in s.pages ==> !s.pages[n].writable && !s.pages[n].user)
            && (forall n :: InRange(n, 0, k) || InRange(n, HEAP_PAGE, HEAP_PAGE + HEAP_PAGES) ==> n in s.pages)
  {
    hide O.Owned;
    var s := PoolOf(q);
    forall n
      ensures n in s.pages && HEAP_PAGE <= n <==> InRange(n, HEAP_PAGE, KHEAP_TABLED / P.PAGE_SIZE)
    {
      assert TableIndex(P.TableOf(HEAP_PAGE)) && TablesOf(k) <= P.TableOf(HEAP_PAGE);
      assert P.TableOf(n) == P.TableOf(HEAP_PAGE) <==> InRange(n, HEAP_PAGE, KHEAP_TABLED / P.PAGE_SIZE);
    }
    forall n | InRange(n, 0, k) || InRange(n, HEAP_PAGE, HEAP_PAGE + HEAP_PAGES)
      ensures n in s.pages
    {
      assert P.Mapped(q, n);
    }
  }

  lemma FirstPage()
    ensures K.RoundUp(P.KHEAP_START + 4 * K.HEAP_INDEX_SIZE) == KHEAP_FIRST
  {
  }

  lemma BelowUntouched(mem: Mem, first: int, size: int)
    ensures K.FootMagic(K.PutHeader(mem, first, 1, size), first - K.FOOTER_SIZE) == K.FootMagic(mem, first - K.FOOTER_SIZE)
  {
    hide Word, K.PutHeader;
  }

  /** The kernel's own constants give a heap that is placed. */
  lemma BootedPlaced(placement: nat, count: nat, mem: Mem)
    requires BootRoom(placement, count) && CleanBelow(mem)
    ensures var h := BootedHeap(placement, count, mem);
            && h.Some? && Placed(h.value)
            && h.value.start == KHEAP_FIRST && h.value.end == P.KHEAP_START + P.KHEAP_INITIAL_SIZE
            && h.value.max == KHEAP_MAX && !h.value.supervisor && !h.value.readonly && h.value.pool == BootedPages(placement, count)
  {
    hide K.FootMagic, K.PutHeader, K.RoundUp, K.SmallerThan, Inserted, BootedPages, O.Owned, HeldRange, IdentityPages;
    FirstPage();
    BelowUntouched(mem, KHEAP_FIRST, 0x7_F000);
    var k := BootedPool(placement, count);
    var s := BootedPages(placement, count);
    HeapHeld(s, k);
    HeldWithin(s, HEAP_PAGE, HEAP_PAGE + HEAP_PAGES, KHEAP_FIRST / P.PAGE_SIZE - 1);
  }

  lemma HeapHeld(s: O.Pool, k: nat)
    requires 0 < k <= HEAP_PAGE && forall n :: n in s.pages ==> s.pages[n].frame == HeapFrame(k, HEAP_PAGES, n)
    requires forall n :: InRange(n, 0, k) || InRange(n, HEAP_PAGE, HEAP_PAGE + HEAP_PAGES) ==> n in s.pages
    ensures HeldRange(s, HEAP_PAGE, HEAP_PAGE + HEAP_PAGES)
  {
  }

  lemma HeldWithin(s: O.Pool, low: int, high: int, mid: int)
    requires HeldRange(s, low, high) && low <= mid
    ensures HeldRange(s, mid, high)
  {
    forall p | InRange(p, mid, high)
      ensures InRange(p, low, high)
    {
    }
  }

  /** For any kernel size that leaves room, the heap created at the end of boot is one hole over
      frames of its own. As in `Boot.Booted` the bitmap is the full one. */
  lemma BootedHeapGood(placement: nat, count: nat, mem: Mem)
    requires BootRoom(placement, count) && CleanBelow(mem)
    ensures var h := BootedHeap(placement, count, mem);
            && h.Some? && h.value.start == KHEAP_FIRST && h.value.end - h.value.start == 0x7_F000
            && Sound(World(h.value, {})) && Fresh(h.value)
  {
    hide K.FootMagic, Good, InitPaging, K.CreateHeap, Placed, Represents;
    BootedPlaced(placement, count, mem);
    var s := BootedPages(placement, count);
    CreatedGood(mem, P.KHEAP_START, P.KHEAP_START + P.KHEAP_INITIAL_SIZE, KHEAP_MAX, false, false, s);
    FreshRefines(BootedHeap(placement, count, mem).value);
  }

  /** Boot leaves this many frames for growth, and the page table for the space up to 4 MiB past the
      start of the heap's area. */
  lemma BootSupply(placement: nat, count: nat)
    requires BootRoom(placement, count)
    ensures |Unused(BootedPages(placement, count))| == count - IdentityPages(placement, count) - HEAP_PAGES
    ensures Tabled(BootedPages(placement, count), HEAP_PAGE, KHEAP_TABLED / P.PAGE_SIZE)
  {
    hide BootedPages, O.Owned, IdentityPages;
    var k := BootedPool(placement, count);
    UnusedCount(BootedPages(placement, count), k + HEAP_PAGES);
  }

  /** When the used frames are the first `n`, the others are free. */
  lemma UnusedCount(s: O.Pool, n: nat)
    requires n <= s.count && forall f :: f in s.used <==> 0 <= f < n
    ensures |Unused(s)| == s.count - n
  {
    forall f: int
      ensures f in Unused(s) <==> InRange(f, n, s.count)
    {
    }
    assert Unused(s) == HP.Pages(n, s.count);
    HP.PagesCount(n, s.count);
  }

  /** What the booted heap looks like to its clients. */
  ghost predicate BootLaid(h: K.Heap, k: nat) {
    && h.start == KHEAP_FIRST && h.end % P.PAGE_SIZE == 0 && h.start < h.end
    && PoolLaid(h.pool, k, h.end / P.PAGE_SIZE)
  }

  lemma BootedLaid(placement: nat, count: nat, mem: Mem)
    requires BootRoom(placement, count) && CleanBelow(mem)
    ensures var h := BootedHeap(placement, count, mem);
            h.Some? && BootLaid(h.value, IdentityPages(placement, count)) && h.value.pool.count == count
  {
    hide BootedPages, BootedHeap, PoolLaid, Placed, O.Owned, IdentityPages;
    BootedPlaced(placement, count, mem);
    var k := BootedPool(placement, count);
  }

  // ----- releasing what boot took

  /** On the pages as boot leaves them, the release as written is wrong for every page that holds a
      frame: the bit it clears is that of frame 0 or of a page of the identity map. */
  lemma BootedReleaseBreaks(placement: nat, count: nat, page: int)
    requires BootRoom(placement, count)
    requires page in BootedPages(placement, count).pages && BootedPages(placement, count).pages[page].frame != 0
    ensures !Clean(BootedPages(placement, count), page)
    ensures !O.Owned(O.FreeFrame(BootedPages(placement, count), page))
  {
    hide BootedPages, O.Owned, O.FreeFrame, IdentityPages;
    var k := BootedPool(placement, count);
    var s := BootedPages(placement, count);
    var f := s.pages[page].frame;
    assert f < k + HEAP_PAGES;
    if f >= FRAME_SIZE {
      var q := f / FRAME_SIZE;
      assert InRange(q, 0, k);
      assert s.pages[q].frame == q;
      assert O.Holds(s, q, q);
    }
    O.FreeExact(s, page);
  }

  /** So the booted heap cannot contract soundly, whatever the size of the kernel. */
  lemma BootedContractionBreaks(placement: nat, count: nat, mem: Mem)
    requires BootRoom(placement, count) && CleanBelow(mem)
    ensures var h := BootedHeap(placement, count, mem);
            && h.Some? && HP.Framed(h.value) && !ContractClean(h.value)
            && !HP.StaysFramed(h.value, [HP.Narrow(0, false)])
  {
    hide BootedPages, BootedHeap, Placed, HP.Framed, Clean, O.FreeFrame, IdentityPages, PoolLaid;
    BootedPlaced(placement, count, mem);
    var h := BootedHeap(placement, count, mem).value;
    PlacedFramed(h);
    var k := BootedPool(placement, count);
    var page := HEAP_PAGE + HEAP_PAGES - 1;
    assert InRange(page, HEAP_PAGE, HEAP_PAGE + HEAP_PAGES);
    BootedReleaseBreaks(placement, count, page);
    assert InRange(page, (h.start + K.HEAP_MIN_SIZE) / K.PAGE_SIZE + 1, h.end / K.PAGE_SIZE);
    ContractTo(h);
    HP.ContractFramed(h, 0, false, K.Contract(h, 0).value);
    assert InRange(page, HP.LowestTaken(h, 0), h.end / K.PAGE_SIZE);
    assert !CleanRange(h.pool, HP.LowestTaken(h, 0), h.end / K.PAGE_SIZE);
    assert [HP.Narrow(0, false)][1..] == [];
  }

  lemma ContractTo(h: K.Heap)
    requires h.start + K.HEAP_MIN_SIZE < h.end
    ensures K.Contract(h, 0).Some? && K.Contract(h, 0).value.end == h.start + K.HEAP_MIN_SIZE
  {
    hide K.UnbackDown;
  }

  /** A placed heap has its pages framed. */
  lemma PlacedFramed(h: K.Heap)
    requires Placed(h)
    ensures HP.Framed(h)
  {
    forall p | InRange(p, HP.FirstPage(h), HP.LastPage(h))
      ensures InRange(p, h.start / K.PAGE_SIZE - 1, h.end / K.PAGE_SIZE)
    {
    }
  }

  /** The first page that contraction of the booted heap takes, counted from the start of its area. */
  const FIRST_TAKEN := 0xF2

  /** For kernels small enough that this page has a low frame, shrinking the booted heap and growing it
      back gives it frame 0, and it counts as not backed. */
  lemma BootedRegrowthBreaks(placement: nat, count: nat, mem: Mem)
    requires BootRoom(placement, count) && CleanBelow(mem)
    requires IdentityPages(placement, count) + FIRST_TAKEN < FRAME_SIZE
    ensures var h := BootedHeap(placement, count, mem);
            && h.Some? && K.Contract(h.value, 0).Some?
            && var r := K.Expand(K.Contract(h.value, 0).value, 0x7_F000 - 1);
               && r.Some? && r.value.end == h.value.end
               && HEAP_PAGE + FIRST_TAKEN in r.value.pool.pages
               && r.value.pool.pages[HEAP_PAGE + FIRST_TAKEN].frame == 0
               && r.value.pool.pages[HEAP_PAGE + FIRST_TAKEN].present
  {
    hide BootedPages, BootedHeap, Placed, HP.Framed, K.Contract, K.Expand, IdentityPages, PoolLaid, O.Owned;
    BootedPlaced(placement, count, mem);
    var h := BootedHeap(placement, count, mem).value;
    PlacedFramed(h);
    var k := BootedPool(placement, count);
    var low := HEAP_PAGE + FIRST_TAKEN;
    assert InRange(low, HEAP_PAGE, HEAP_PAGE + HEAP_PAGES);
    ContractTo(h);
    var c := K.Contract(h, 0).value;
    assert c.end / P.PAGE_SIZE + 1 == low;
    assert InRange(low, c.end / P.PAGE_SIZE + 1, h.end / P.PAGE_SIZE);
    HP.RegrowthLosesPage(h, 0, c, low);
  }
}
