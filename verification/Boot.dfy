/** The boot-time mapping loops: the tables of the heap, the identity map whose own bound moves
    while it runs, and the heap's frames. */
module Boot {
  import opened Frames
  import opened Owners
  import opened Paging

  const SIZEOF_HEAP_T := 32
  const SIZEOF_DIRECTORY := 0x2000

  const HEAP_PAGE := KHEAP_START / PAGE_SIZE
  const HEAP_PAGES := KHEAP_INITIAL_SIZE / PAGE_SIZE

  // ----- the loops

  function MakeTables(p: Paging, addr: nat, end: nat): Paging
    decreases end - addr
  {
    if addr < end then MakeTables(GetPage(p, addr), addr + FRAME_SIZE, end) else p
  }

  predicate TableIndex(t: int) {
    0 <= t < TABLE_PAGES
  }

  /** The tables not made yet. */
  ghost function Absent(p: Paging): set<int> {
    set t | 0 <= t < TABLE_PAGES && TableIndex(t) && t !in p.tables
  }

  ghost function Missing(p: Paging): nat {
    |Absent(p)|
  }

  /** How far the placement address can still move, with a page beyond it: a new table takes a page,
      and up to a page to get to a boundary. */
  ghost function Reach(p: Paging): int {
    p.placement + 2 * PAGE_SIZE * Missing(p) + FRAME_SIZE
  }

  ghost predicate Bounded(p: Paging) {
    Formed(p) && Reach(p) <= ADDRESS_LIMIT
  }

  /** Making a table never raises the reach. */
  lemma ReachShrinks(p: Paging, addr: nat)
    requires Formed(p) && addr < ADDRESS_LIMIT
    ensures p.placement <= GetPage(p, addr).placement && Reach(GetPage(p, addr)) <= Reach(p)
  {
    var t := TableOf(addr / PAGE_SIZE);
    var q := GetPage(p, addr);
    if t !in p.tables {
      BumpAligned(p.placement, PAGE_SIZE);
      assert TableIndex(t);
      assert Absent(p) == Absent(q) + {t};
    }
  }

  /** One round of a mapping loop. */
  function MapPage(p: Paging, i: nat): (q: Paging)
    requires Formed(p) && i < ADDRESS_LIMIT
    ensures Formed(q) && p.placement <= q.placement && Reach(q) <= Reach(p) && q.count == p.count
  {
    GetPageFlat(p, i);
    ReachShrinks(p, i);
    var g := GetPage(p, i);
    BackPageFlat(g, i / PAGE_SIZE);
    BackPage(g, i / PAGE_SIZE)
  }

  /** The identity map, up to a page past a placement address that its own tables move. */
  function IdentityMap(p: Paging, i: nat): (q: Paging)
    requires Bounded(p)
    ensures Formed(q)
    decreases Reach(p) - i
  {
    if i < p.placement + FRAME_SIZE then IdentityMap(MapPage(p, i), i + FRAME_SIZE) else p
  }

  function BackPages(p: Paging, addr: nat, end: nat): Paging
    requires Formed(p) && end <= ADDRESS_LIMIT
    decreases end - addr
  {
    if addr < end then BackPages(MapPage(p, addr), addr + FRAME_SIZE, end) else p
  }

  /** The allocations before the loops: the bitmap, then the directory. */
  function Start(placement: nat, count: nat): Paging {
    var bitmap := Bump(placement, count / SECTION_SIZE, false);
    var directory := Bump(bitmap.next, SIZEOF_DIRECTORY, true);
    Paging(directory.next, map[], map[], {}, count)
  }

  // ----- what the identity map does

  /** The first `k` pages hold the frames of their own numbers, and nothing else is used. */
  ghost predicate IdentityUpTo(p: Paging, k: nat) {
    && Formed(p)
    && (forall f :: f in p.used <==> 0 <= f < k)
    && (forall n :: 0 <= n < k ==> Mapped(p, n))
    && (forall n :: Mapped(p, n) ==>
          && Entry(p, n).present == (0 <= n < k) && !Entry(p, n).writable && !Entry(p, n).user
          && Entry(p, n).frame == if 0 <= n < k then n else 0)
  }

  lemma IdentityStep(p: Paging, k: nat)
    requires IdentityUpTo(p, k) && k < p.count && k * PAGE_SIZE < ADDRESS_LIMIT
    ensures IdentityUpTo(MapPage(p, k * PAGE_SIZE), k + 1)
    ensures p.tables.Keys <= MapPage(p, k * PAGE_SIZE).tables.Keys
  {
    hide GetPage, BackPage, Missing;
    var i := k * PAGE_SIZE;
    var q := GetPage(p, i);
    assert i / PAGE_SIZE == k;
    GetPageFlat(p, i);
    KeysKept(p, i);
    assert IdentityUpTo(q, k);
    IdentityBacked(q, k);
  }

  lemma IdentityBacked(q: Paging, k: nat)
    requires IdentityUpTo(q, k) && k < q.count && Mapped(q, k)
    ensures IdentityUpTo(BackPage(q, k), k + 1) && BackPage(q, k).tables.Keys == q.tables.Keys
  {
    hide BackPage;
    LeastUnique(q.used, q.count, k);
    BackPageFlat(q, k);
    var r := BackPage(q, k);
    forall n
      ensures Mapped(r, n) <==> Mapped(q, n)
      ensures Mapped(r, n) ==> Entry(r, n).present == (0 <= n < k + 1) && !Entry(r, n).writable && !Entry(r, n).user
      ensures Mapped(r, n) ==> Entry(r, n).frame == if 0 <= n < k + 1 then n else 0
    {
      assert Mapped(q, n) && n != k ==> Entry(r, n) == Entry(q, n);
    }
  }

  lemma KeysKept(p: Paging, addr: nat)
    ensures p.tables.Keys <= GetPage(p, addr).tables.Keys
  {
  }

  /** The tables that the first `k` pages need. */
  function TablesOf(k: nat): nat {
    (k + TABLE_PAGES - 1) / TABLE_PAGES
  }

  /** The page that table `t` lies on: the heap's table was placed first. */
  function TablePage(s: nat, t: int): int {
    if t == TableOf(HEAP_PAGE) then s - 1 else s + 2 * t + 1
  }

  /** What the identity map has laid out when it comes to page `k`: two pages for each table, from
      page `s` on, and no tables but those and the heap's; the word of each table is its address and
      the three flags. */
  ghost predicate Laid(p: Paging, k: nat, s: nat) {
    && p.placement == (s + 2 * TablesOf(k)) * PAGE_SIZE
    && (forall t :: t in p.tables <==> TableIndex(t) && (t < TablesOf(k) || t == TableOf(HEAP_PAGE)))
    && Words(p, s)
  }

  ghost predicate Words(p: Paging, s: nat) {
    forall t :: t in p.physical ==> p.physical[t] == TablePage(s, t) * PAGE_SIZE + 7
  }

  /** Where the identity map ends: each table covers 1024 pages, and two of them are its own. */
  function MapEnd(s: nat): nat {
    s + 1 + 2 * ((s + TABLE_PAGES - 2) / (TABLE_PAGES - 2))
  }

  /** The loop goes on below that page, and stops there. */
  lemma MapEndLeast(s: nat, k: nat)
    ensures k < MapEnd(s) ==> k < s + 1 + 2 * TablesOf(k)
    ensures MapEnd(s) == s + 1 + 2 * TablesOf(MapEnd(s))
  {
  }

  lemma LaidStep(p: Paging, k: nat, s: nat)
    requires Bounded(p) && Laid(p, k, s) && 0 < s && k < HEAP_PAGE
    ensures var q := MapPage(p, k * PAGE_SIZE);
            Bounded(q) && Laid(q, k + 1, s)
  {
    hide BackPage, Missing;
    var i := k * PAGE_SIZE;
    assert i / PAGE_SIZE == k;
    var g := GetPage(p, i);
    GetPageFlat(p, i);
    BackPageFlat(g, k);
    if k % TABLE_PAGES == 0 {
      assert TableOf(k) == TablesOf(k) && TablesOf(k + 1) == TablesOf(k) + 1;
      assert TableOf(k) !in p.tables;
      NewTableWord(p, i);
      assert g.physical[TableOf(k)] == TablePage(s, TableOf(k)) * PAGE_SIZE + 7;
    } else {
      assert TablesOf(k + 1) == TablesOf(k) == TableOf(k) + 1;
      assert TableIndex(TableOf(k));
    }
  }

  /** The loop ends exactly at `MapEnd`, with every page below its own moved bound, and no other,
      mapped to its own frame. */
  lemma {:induction false} IdentityMapped(p: Paging, k: nat, s: nat)
    requires Bounded(p) && IdentityUpTo(p, k) && Laid(p, k, s) && 0 < s
    requires k <= MapEnd(s) <= p.count && MapEnd(s) <= HEAP_PAGE
    ensures var q := IdentityMap(p, k * PAGE_SIZE);
            && Bounded(q) && IdentityUpTo(q, MapEnd(s)) && Laid(q, MapEnd(s), s)
            && q.placement + FRAME_SIZE == MapEnd(s) * PAGE_SIZE && q.count == p.count
    decreases MapEnd(s) - k
  {
    hide MapPage, IdentityUpTo, Missing, MapEnd, TablesOf;
    var i := k * PAGE_SIZE;
    MapEndLeast(s, k);
    if k < MapEnd(s) {
      IdentityStep(p, k);
      LaidStep(p, k, s);
      IdentityMapped(MapPage(p, i), k + 1, s);
    }
  }

  // ----- the heap's pages

  /** The frame of page `n` in that state, or 0. */
  function HeapFrame(k: nat, j: nat, n: int): int {
    if 0 <= n < k then n else if HEAP_PAGE <= n < HEAP_PAGE + j then k + n - HEAP_PAGE else 0
  }

  /** The first `k` pages hold the frames of their own numbers, the first `j` heap pages the next
      frames, and nothing else is used. */
  ghost predicate HeapUpTo(p: Paging, k: nat, j: nat) {
    && Formed(p)
    && (forall f :: f in p.used <==> 0 <= f < k + j)
    && (forall n :: 0 <= n < k || HEAP_PAGE <= n < HEAP_PAGE + j ==> Mapped(p, n))
    && (forall n :: Mapped(p, n) ==>
          && Entry(p, n).present == (0 <= n < k || HEAP_PAGE <= n < HEAP_PAGE + j)
          && !Entry(p, n).writable && !Entry(p, n).user
          && Entry(p, n).frame == HeapFrame(k, j, n))
  }

  lemma HeapBacked(q: Paging, k: nat, j: nat)
    requires HeapUpTo(q, k, j) && 0 < k + j < q.count && k <= HEAP_PAGE && Mapped(q, HEAP_PAGE + j)
    ensures HeapUpTo(BackPage(q, HEAP_PAGE + j), k, j + 1)
    ensures BackPage(q, HEAP_PAGE + j).tables.Keys == q.tables.Keys
  {
    hide BackPage;
    LeastUnique(q.used, q.count, k + j);
    BackPageFlat(q, HEAP_PAGE + j);
    var r := BackPage(q, HEAP_PAGE + j);
    forall n
      ensures Mapped(r, n) <==> Mapped(q, n)
      ensures Mapped(q, n) && n != HEAP_PAGE + j ==> Entry(r, n) == Entry(q, n)
    {
    }
  }

  /** The heap's table exists already, so backing the heap's pages moves nothing. */
  lemma {:induction false} HeapPagesBacked(p: Paging, k: nat, j: nat)
    requires HeapUpTo(p, k, j) && 0 < k <= HEAP_PAGE && j <= HEAP_PAGES && k + HEAP_PAGES <= p.count
    requires TableOf(HEAP_PAGE) in p.tables
    ensures var q := BackPages(p, (HEAP_PAGE + j) * PAGE_SIZE, KHEAP_START + KHEAP_INITIAL_SIZE);
            && HeapUpTo(q, k, HEAP_PAGES) && q.placement == p.placement && q.count == p.count
            && q.tables.Keys == p.tables.Keys && q.physical == p.physical
    decreases HEAP_PAGES - j
  {
    hide HeapUpTo, BackPage, Missing;
    var i := (HEAP_PAGE + j) * PAGE_SIZE;
    if j < HEAP_PAGES {
      assert TableOf(HEAP_PAGE + j) == TableOf(HEAP_PAGE);
      assert i / PAGE_SIZE == HEAP_PAGE + j;
      assert GetPage(p, i) == p;
      HeapFormed(p, k, j);
      BackPageFlat(p, HEAP_PAGE + j);
      HeapBacked(p, k, j);
      HeapPagesBacked(MapPage(p, i), k, j + 1);
    }
  }

  lemma HeapFormed(p: Paging, k: nat, j: nat)
    requires HeapUpTo(p, k, j)
    ensures Formed(p)
  {
  }

  lemma {:induction false} TablesMade(p: Paging, addr: nat, end: nat)
    requires Formed(p) && addr < end <= ADDRESS_LIMIT
    requires p.used == {} && forall n :: Mapped(p, n) ==> Entry(p, n) == NO_PAGE
    ensures var q := MakeTables(p, addr, end);
            && Formed(q) && q.used == {} && q.count == p.count
            && (forall n :: Mapped(q, n) ==> Entry(q, n) == NO_PAGE)
            && Mapped(q, addr / PAGE_SIZE) && p.tables.Keys <= q.tables.Keys
            && p.placement <= q.placement && Reach(q) <= Reach(p)
    decreases end - addr
  {
    hide Missing;
    GetPageFlat(p, addr);
    ReachShrinks(p, addr);
    KeysKept(p, addr);
    var g := GetPage(p, addr);
    hide GetPage;
    if addr + FRAME_SIZE < end {
      TablesMade(g, addr + FRAME_SIZE, end);
    } else {
      assert MakeTables(g, addr + FRAME_SIZE, end) == g;
    }
  }

  // ----- the whole of it

  /** The page of the placement address when the identity map starts: the bitmap, the directory on a
      page boundary, and the heap's table on another have been placed. */
  function FirstPlaced(placement: nat, count: nat): nat {
    (placement + count / SECTION_SIZE) / PAGE_SIZE + 5
  }

  /** The number of pages of the identity map. */
  function IdentityPages(placement: nat, count: nat): nat {
    MapEnd(FirstPlaced(placement, count))
  }

  /** The kernel lies above the first page, and all it places stays below its heap. */
  predicate PlacedLow(placement: nat, count: nat) {
    PAGE_SIZE <= placement && IdentityPages(placement, count) <= HEAP_PAGE
  }

  /** There is a frame for everything that boot maps. */
  predicate RoomAtBoot(placement: nat, count: nat) {
    && PlacedLow(placement, count)
    && IdentityPages(placement, count) + HEAP_PAGES <= count
  }

  lemma {:induction false} RangeSize(s: set<int>, n: nat)
    requires forall t :: t in s ==> 0 <= t < n
    ensures |s| <= n
    decreases n
  {
    if n == 0 {
      assert forall t :: t !in s;
      assert |s| == 0;
    } else {
      RangeSize(s - {n - 1}, n - 1);
      assert |s| <= |s - {n - 1}| + 1;
    }
  }

  lemma StartPlaced(placement: nat, count: nat)
    requires PlacedLow(placement, count)
    ensures var p := Start(placement, count);
            && Formed(p) && p.tables == map[] && p.used == {} && p.count == count
            && p.placement == (FirstPlaced(placement, count) - 2) * PAGE_SIZE
            && Reach(p) <= ADDRESS_LIMIT
  {
    hide Missing;
    var p := Start(placement, count);
    RangeSize(Absent(p), TABLE_PAGES);
    BumpAligned(placement + count / SECTION_SIZE, SIZEOF_DIRECTORY);
    TablesMissing(p);
  }

  lemma TablesMissing(p: Paging)
    ensures Missing(p) <= TABLE_PAGES
  {
    RangeSize(Absent(p), TABLE_PAGES);
  }

  /** The heap's pages share one table: the first loop makes it and nothing else. */
  lemma {:induction false} OneTableMade(p: Paging, addr: nat)
    requires KHEAP_START <= addr <= KHEAP_START + KHEAP_INITIAL_SIZE && TableOf(HEAP_PAGE) in p.tables
    ensures MakeTables(p, addr, KHEAP_START + KHEAP_INITIAL_SIZE) == p
    decreases KHEAP_START + KHEAP_INITIAL_SIZE - addr
  {
    if addr + FRAME_SIZE <= KHEAP_START + KHEAP_INITIAL_SIZE {
      assert GetPage(p, addr) == p;
      OneTableMade(p, addr + FRAME_SIZE);
    } else if addr < KHEAP_START + KHEAP_INITIAL_SIZE {
      assert GetPage(p, addr) == p;
    }
  }

  /** The state when the identity loop starts. */
  lemma BeforeIdentity(placement: nat, count: nat)
    requires PlacedLow(placement, count)
    ensures var p := MakeTables(Start(placement, count), KHEAP_START, KHEAP_START + KHEAP_INITIAL_SIZE);
            && Bounded(p) && IdentityUpTo(p, 0) && Laid(p, 0, FirstPlaced(placement, count)) && p.count == count
            && TableOf(HEAP_PAGE) in p.tables
  {
    hide Missing, Start;
    StartPlaced(placement, count);
    var p := Start(placement, count);
    TablesMade(p, KHEAP_START, KHEAP_START + KHEAP_INITIAL_SIZE);
    var g := GetPage(p, KHEAP_START);
    assert TableOf(KHEAP_START / PAGE_SIZE) == TableOf(HEAP_PAGE);
    OneTableMade(g, KHEAP_START + FRAME_SIZE);
    assert MakeTables(p, KHEAP_START, KHEAP_START + KHEAP_INITIAL_SIZE) == g;
    assert g.placement == p.placement + 2 * PAGE_SIZE;
    NewTableWord(p, KHEAP_START);
    ReachShrinks(p, KHEAP_START);
  }

  /** `init_paging` from its first allocation to the heap's frames. */
  function InitPaging(placement: nat, count: nat): Paging
    requires PlacedLow(placement, count)
  {
    BeforeIdentity(placement, count);
    var p := MakeTables(Start(placement, count), KHEAP_START, KHEAP_START + KHEAP_INITIAL_SIZE);
    BackPages(IdentityMap(p, 0), KHEAP_START, KHEAP_START + KHEAP_INITIAL_SIZE)
  }

  /** The entries of all page numbers, as a pool of pages. */
  ghost function PoolOf(p: Paging): Pool
    requires Formed(p)
  {
    Pool(p.used, p.count,
         map n | 0 <= n < TABLE_PAGES * TABLE_PAGES && Mapped(p, n) :: Entry(p, n))
  }

  /** The directory's operations are the pool's: what holds of owners holds of page tables. */
  lemma PoolOperations(p: Paging, n: int)
    requires Formed(p) && 0 <= n < TABLE_PAGES * TABLE_PAGES && Mapped(p, n)
    ensures Formed(BackPage(p, n)) && PoolOf(BackPage(p, n)) == AllocFrame(PoolOf(p), n, false)
    ensures Formed(FreePage(p, n)) && PoolOf(FreePage(p, n)) == FreeFrame(PoolOf(p), n)
  {
    hide LeastFree;
    var b, f := BackPage(p, n), FreePage(p, n);
    forall m: int | Mapped(p, m)
      ensures Mapped(b, m) && Entry(b, m) == (if m == n then PoolOf(b).pages[n] else Entry(p, m))
      ensures Mapped(f, m) && Entry(f, m) == (if m == n then PoolOf(f).pages[n] else Entry(p, m))
    {
      assert m == TABLE_PAGES * TableOf(m) + SlotOf(m);
      assert n == TABLE_PAGES * TableOf(n) + SlotOf(n);
    }
    assert PoolOf(b).pages == AllocFrame(PoolOf(p), n, false).pages;
    assert PoolOf(f).pages == FreeFrame(PoolOf(p), n).pages;
  }

  /** After boot page k holds frame k for every page up to the placement address and a page beyond,
      which covers the tables made on the way and the heap descriptor placed next; the heap's pages
      hold the frames that follow, and ownership holds. The bitmap here has a word for every section;
      the allocated one is shorter, and agrees with it exactly under `BitmapReserved`. */
  lemma Booted(placement: nat, count: nat) returns (k: nat)
    requires RoomAtBoot(placement, count)
    ensures var q := InitPaging(placement, count);
            && k == IdentityPages(placement, count)
            && HeapUpTo(q, k, HEAP_PAGES) && 0 < k <= HEAP_PAGE
            && placement <= q.placement && q.placement + FRAME_SIZE == k * PAGE_SIZE
            && Bump(q.placement, SIZEOF_HEAP_T, false).next <= k * PAGE_SIZE
            && q.count == count && Owned(PoolOf(q))
            && (forall t :: t in q.tables <==> TableIndex(t) && (t < TablesOf(k) || t == TableOf(HEAP_PAGE)))
            && Words(q, FirstPlaced(placement, count))
  {
    hide MakeTables, Missing, IdentityMap, BackPages, IdentityUpTo, HeapUpTo, PoolOf, Owned, Start, Formed;
    BeforeIdentity(placement, count);
    var p := MakeTables(Start(placement, count), KHEAP_START, KHEAP_START + KHEAP_INITIAL_SIZE);
    var s := FirstPlaced(placement, count);
    k := MapEnd(s);
    IdentityMapped(p, 0, s);
    var m := IdentityMap(p, 0);
    IdentityIsHeap(m, k);
    assert TableIndex(TableOf(HEAP_PAGE));
    HeapPagesBacked(m, k, 0);
    PoolOwned(InitPaging(placement, count), k);
  }

  /** The directory words that boot leaves: every table has one, its flags are 7, its address is a page
      placed by boot, and no two tables share one. */
  lemma BootedWords(placement: nat, count: nat)
    requires RoomAtBoot(placement, count)
    ensures var q := InitPaging(placement, count);
            && q.physical.Keys == q.tables.Keys
            && (forall t :: t in q.physical ==>
                  && q.physical[t] % PAGE_SIZE == 7
                  && placement + count / SECTION_SIZE + SIZEOF_DIRECTORY <= q.physical[t] - 7
                  && q.physical[t] - 7 + PAGE_SIZE <= q.placement)
            && (forall t, u :: t in q.physical && u in q.physical && t != u ==>
                  q.physical[t] + PAGE_SIZE <= q.physical[u] || q.physical[u] + PAGE_SIZE <= q.physical[t])
  {
    hide InitPaging, MapEnd, Owned, HeapUpTo;
    var k := Booted(placement, count);
    var q := InitPaging(placement, count);
    HeapFormed(q, k, HEAP_PAGES);
    var s := FirstPlaced(placement, count);
    MapEndLeast(s, k);
    assert q.placement == (s + 2 * TablesOf(k)) * PAGE_SIZE;
    forall t | t in q.physical
      ensures q.physical[t] == TablePage(s, t) * PAGE_SIZE + 7 && s - 1 <= TablePage(s, t) < s + 2 * TablesOf(k)
      ensures forall u :: u in q.physical && u != t ==> TablePage(s, t) != TablePage(s, u)
    {
    }
  }

  lemma IdentityIsHeap(p: Paging, k: nat)
    requires IdentityUpTo(p, k) && k <= HEAP_PAGE
    ensures HeapUpTo(p, k, 0)
  {
  }

  lemma PoolOwned(p: Paging, k: nat)
    requires HeapUpTo(p, k, HEAP_PAGES) && 0 < k <= HEAP_PAGE && k + HEAP_PAGES <= p.count
    ensures Owned(PoolOf(p))
  {
    var s := PoolOf(p);
    forall n, f | Holds(s, n, f)
      ensures f in s.used && s.pages[n].present
      ensures (0 <= n < k && f == n) || (HEAP_PAGE <= n < HEAP_PAGE + HEAP_PAGES && f == k + n - HEAP_PAGE)
    {
    }
  }

  /** The word of the bitmap that holds the frame's bit lies in the space allocated for the bitmap,
      which has a byte for every section where a word is used. */
  predicate Reserved(count: nat, f: nat) {
    4 * (f / SECTION_SIZE) + 4 <= count / SECTION_SIZE
  }

  lemma ReservedQuarter(count: nat, f: nat)
    requires count % (4 * SECTION_SIZE) == 0
    ensures Reserved(count, f) <==> f < count / 4
  {
  }

  /** Boot writes the bitmap only inside its allocation exactly when the frames it takes, those of
      the identity map and those of the heap, are in the first quarter. */
  lemma BitmapReserved(placement: nat, count: nat)
    requires RoomAtBoot(placement, count) && count % (4 * SECTION_SIZE) == 0
    ensures (forall f :: f in InitPaging(placement, count).used ==> 0 <= f && Reserved(count, f))
       <==> IdentityPages(placement, count) + HEAP_PAGES <= count / 4
  {
    hide InitPaging, Reserved, Owned, IdentityPages;
    var k := Booted(placement, count);
    var q := InitPaging(placement, count);
    assert k + HEAP_PAGES - 1 in q.used;
    ReservedQuarter(count, k + HEAP_PAGES - 1);
    if k + HEAP_PAGES <= count / 4 {
      forall f | f in q.used
        ensures 0 <= f && Reserved(count, f)
      {
        ReservedQuarter(count, f);
      }
    }
  }

  /** The frames of the kernel's 256 MiB. */
  const KERNEL_FRAMES := 0x1_0000

  /** The first placement address from which boot writes past the kernel's bitmap. */
  const KERNEL_BITMAP_LIMIT := 0x3ED_A800

  /** With the kernel's own memory size, boot stays inside the bitmap's allocation exactly for
      kernels that end below `KERNEL_BITMAP_LIMIT`. */
  lemma KernelBitmap(placement: nat)
    requires RoomAtBoot(placement, KERNEL_FRAMES)
    ensures (forall f :: f in InitPaging(placement, KERNEL_FRAMES).used ==> 0 <= f && Reserved(KERNEL_FRAMES, f))
       <==> placement < KERNEL_BITMAP_LIMIT
  {
    hide InitPaging, Reserved;
    BitmapReserved(placement, KERNEL_FRAMES);
  }

  /** A kernel that ends there has room to boot, and writes past the bitmap. */
  lemma BitmapOverrun()
    ensures RoomAtBoot(KERNEL_BITMAP_LIMIT, KERNEL_FRAMES)
    ensures exists f :: f in InitPaging(KERNEL_BITMAP_LIMIT, KERNEL_FRAMES).used && 0 <= f && !Reserved(KERNEL_FRAMES, f)
  {
    hide InitPaging, Reserved, Owned;
    KernelBitmap(KERNEL_BITMAP_LIMIT);
    var k := Booted(KERNEL_BITMAP_LIMIT, KERNEL_FRAMES);
  }

  // ----- without room

  /** Mapping a page never gives a frame back. */
  lemma MapGrows(p: Paging, i: nat)
    requires Formed(p) && i < ADDRESS_LIMIT
    ensures p.used <= MapPage(p, i).used
  {
    hide LeastFree;
  }

  lemma {:induction false} IdentityGrows(p: Paging, i: nat)
    requires Bounded(p)
    ensures p.used <= IdentityMap(p, i).used && IdentityMap(p, i).count == p.count
    decreases Reach(p) - i
  {
    hide MapPage, Missing;
    if i < p.placement + FRAME_SIZE {
      MapGrows(p, i);
      IdentityGrows(MapPage(p, i), i + FRAME_SIZE);
    }
  }

  lemma {:induction false} BackGrows(p: Paging, addr: nat, end: nat)
    requires Formed(p) && end <= ADDRESS_LIMIT
    ensures p.used <= BackPages(p, addr, end).used && BackPages(p, addr, end).count == p.count
    ensures Formed(BackPages(p, addr, end))
    decreases end - addr
  {
    hide MapPage;
    if addr < end {
      MapGrows(p, addr);
      BackGrows(MapPage(p, addr), addr + FRAME_SIZE, end);
    }
  }

  /** The identity map past the last frame. */
  lemma {:induction false} IdentityStarves(p: Paging, k: nat, s: nat)
    requires Bounded(p) && IdentityUpTo(p, k) && Laid(p, k, s) && 0 < s
    requires k <= p.count < MapEnd(s) <= HEAP_PAGE
    ensures p.count in IdentityMap(p, k * PAGE_SIZE).used
    decreases p.count - k
  {
    hide MapPage, Missing, MapEnd, TablesOf, IdentityUpTo;
    var i := k * PAGE_SIZE;
    MapEndLeast(s, k);
    LaidStep(p, k, s);
    if k < p.count {
      IdentityStep(p, k);
      IdentityStarves(MapPage(p, i), k + 1, s);
    } else {
      StarvedPage(p, k);
      IdentityGrows(MapPage(p, i), i + FRAME_SIZE);
    }
  }

  lemma StarvedPage(p: Paging, k: nat)
    requires IdentityUpTo(p, k) && k == p.count && k * PAGE_SIZE < ADDRESS_LIMIT
    ensures k in MapPage(p, k * PAGE_SIZE).used
  {
    hide BackPage;
    var i := k * PAGE_SIZE;
    assert i / PAGE_SIZE == k;
    GetPageFlat(p, i);
    LeastUnique(p.used, p.count, k);
    BackPageFlat(GetPage(p, i), k);
  }

  /** The heap's pages past the last frame. */
  lemma {:induction false} HeapStarves(p: Paging, k: nat, j: nat)
    requires HeapUpTo(p, k, j) && 0 < k <= HEAP_PAGE && j < HEAP_PAGES && k + j <= p.count < k + HEAP_PAGES
    requires TableOf(HEAP_PAGE) in p.tables
    ensures p.count in BackPages(p, (HEAP_PAGE + j) * PAGE_SIZE, KHEAP_START + KHEAP_INITIAL_SIZE).used
    decreases HEAP_PAGES - j
  {
    hide HeapUpTo, BackPage, Missing;
    var i := (HEAP_PAGE + j) * PAGE_SIZE;
    assert TableOf(HEAP_PAGE + j) == TableOf(HEAP_PAGE);
    assert i / PAGE_SIZE == HEAP_PAGE + j;
    assert GetPage(p, i) == p;
    HeapFormed(p, k, j);
    BackPageFlat(p, HEAP_PAGE + j);
    if k + j < p.count {
      HeapBacked(p, k, j);
      HeapStarves(MapPage(p, i), k, j + 1);
    } else {
      HeapFull(p, k, j);
      BackGrows(MapPage(p, i), i + FRAME_SIZE, KHEAP_START + KHEAP_INITIAL_SIZE);
    }
  }

  lemma HeapFull(p: Paging, k: nat, j: nat)
    requires HeapUpTo(p, k, j) && k <= HEAP_PAGE && j < HEAP_PAGES && k + j == p.count && Mapped(p, HEAP_PAGE + j)
    ensures Entry(p, HEAP_PAGE + j).frame == 0 && LeastFree(p.used, p.count) == p.count
  {
    LeastUnique(p.used, p.count, p.count);
  }

  /** Boot leaves every page a frame of its own exactly when there is room for all of them. */
  lemma BootExact(placement: nat, count: nat)
    requires PlacedLow(placement, count)
    ensures Formed(InitPaging(placement, count))
    ensures Owned(PoolOf(InitPaging(placement, count))) <==> RoomAtBoot(placement, count)
  {
    hide MakeTables, Missing, IdentityMap, BackPages, IdentityUpTo, HeapUpTo, PoolOf, Owned, Start, MapEnd;
    BeforeIdentity(placement, count);
    var p := MakeTables(Start(placement, count), KHEAP_START, KHEAP_START + KHEAP_INITIAL_SIZE);
    var s := FirstPlaced(placement, count);
    var k := IdentityPages(placement, count);
    assert k == MapEnd(s);
    var m := IdentityMap(p, 0);
    BackGrows(m, KHEAP_START, KHEAP_START + KHEAP_INITIAL_SIZE);
    if RoomAtBoot(placement, count) {
      var _ := Booted(placement, count);
    } else {
      if count < k {
        IdentityStarves(p, 0, s);
        IdentityGrows(p, 0);
      } else {
        MapEndPositive(s);
        IdentityMapped(p, 0, s);
        IdentityIsHeap(m, k);
        assert TableIndex(TableOf(HEAP_PAGE));
        if count < k + HEAP_PAGES {
          HeapStarves(m, k, 0);
        }
      }
      Overused(InitPaging(placement, count));
    }
  }

  lemma MapEndPositive(s: nat)
    ensures MapEnd(s) > 0
  {
  }

  lemma Overused(q: Paging)
    requires Formed(q) && q.count in q.used
    ensures !Owned(PoolOf(q))
  {
  }
}
