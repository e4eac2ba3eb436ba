/** The page directory with its tables made on demand by the boot-time bump allocator, and the
    loops that map the kernel and its heap. */
module Paging {
  import opened Bits
  import opened Frames
  import opened Owners

  const PAGE_SIZE := 0x1000
  const TABLE_PAGES := 1024
  const KHEAP_START := 0xC000_0000
  const KHEAP_INITIAL_SIZE := 0x10_0000
  const ADDRESS_LIMIT := 0x1_0000_0000

  // ----- the bump allocator

  datatype Bumped = Bumped(addr: int, next: int)

  /** `kmalloc_int` before the heap exists; an address already on a page boundary moves a page on. */
  function Bump(placement: int, size: int, align: bool): Bumped {
    var at := if align && placement >= PAGE_SIZE then placement / PAGE_SIZE * PAGE_SIZE + PAGE_SIZE else placement;
    Bumped(at, at + size)
  }

  datatype Request = Request(size: nat, align: bool)

  function BumpRun(placement: int, rs: seq<Request>): seq<Bumped>
    decreases |rs|
  {
    if rs == [] then []
    else
      var b := Bump(placement, rs[0].size, rs[0].align);
      [b] + BumpRun(b.next, rs[1..])
  }

  /** An aligned request is answered on a page boundary exactly when the allocator starts at one
      page or more, or at 0; at most a page is wasted. */
  lemma BumpAligned(placement: nat, size: nat)
    ensures Bump(placement, size, true).addr % PAGE_SIZE == 0 <==> placement >= PAGE_SIZE || placement == 0
    ensures placement <= Bump(placement, size, true).addr <= placement + PAGE_SIZE
    ensures placement >= PAGE_SIZE ==> placement < Bump(placement, size, true).addr
    ensures Bump(placement, size, true).next == Bump(placement, size, true).addr + size
    ensures Bump(placement, size, false) == Bumped(placement, placement + size)
  {
  }

  /** Over a run the ranges handed out follow one another and never overlap. */
  lemma {:induction false} BumpRunDisjoint(placement: nat, rs: seq<Request>, i: nat, j: nat)
    requires i < j < |rs|
    ensures var bs := BumpRun(placement, rs);
            && |bs| == |rs|
            && bs[i].addr + rs[i].size == bs[i].next <= bs[j].addr
    decreases |rs|
  {
    var b := Bump(placement, rs[0].size, rs[0].align);
    if i > 0 {
      BumpRunDisjoint(b.next, rs[1..], i - 1, j - 1);
    } else {
      BumpRunAbove(b.next, rs[1..], j - 1);
    }
  }

  /** Everything is handed out above the start, on page boundaries where asked for, with at most a
      page lost to each request for alignment. */
  lemma {:induction false} BumpRunAbove(placement: nat, rs: seq<Request>, j: nat)
    requires j < |rs|
    ensures var bs := BumpRun(placement, rs);
            && |bs| == |rs|
            && placement <= bs[j].addr && bs[j].next == bs[j].addr + rs[j].size
            && bs[j].addr <= (if j == 0 then placement else bs[j - 1].next) + (if rs[j].align then PAGE_SIZE else 0)
            && (placement >= PAGE_SIZE && rs[j].align ==> bs[j].addr % PAGE_SIZE == 0)
    decreases |rs|
  {
    var b := Bump(placement, rs[0].size, rs[0].align);
    BumpAligned(placement, rs[0].size);
    if j > 0 {
      BumpRunAbove(b.next, rs[1..], j - 1);
    } else if |rs| > 1 {
      BumpRunAbove(b.next, rs[1..], 0);
    }
  }

  // ----- the directory

  /** `tables` are the tables made so far, `physical` the words the processor reads. */
  datatype Paging = Paging(placement: int, tables: map<int, seq<Page>>, physical: map<int, int>,
                           used: set<int>, count: nat)

  function TableOf(n: int): int { n / TABLE_PAGES }
  function SlotOf(n: int): int { n % TABLE_PAGES }

  /** The word for a table at `addr`: present, writable, user. */
  function TableWord(addr: nat): nat {
    Or(addr, 7)
  }

  ghost predicate Formed(p: Paging) {
    && (forall t :: t in p.tables ==> 0 <= t < TABLE_PAGES && |p.tables[t]| == TABLE_PAGES)
    && p.physical.Keys == p.tables.Keys
    && 0 <= p.placement
  }

  /** The entry of page number `n`, as a flat map over all page numbers. */
  function Entry(p: Paging, n: int): Page
    requires TableOf(n) in p.tables && |p.tables[TableOf(n)]| == TABLE_PAGES
  {
    p.tables[TableOf(n)][SlotOf(n)]
  }

  predicate Mapped(p: Paging, n: int) {
    TableOf(n) in p.tables
  }

  /** `get_page` with `make`, at boot: afterwards the table of the address exists. */
  function GetPage(p: Paging, addr: nat): Paging {
    var t := TableOf(addr / PAGE_SIZE);
    if t in p.tables then p
    else
      var b := Bump(p.placement, PAGE_SIZE, true);
      p.(placement := b.next,
         tables := p.tables[t := seq(TABLE_PAGES, _ => NO_PAGE)],
         physical := p.physical[t := if b.addr >= 0 then TableWord(b.addr) else 0])
  }

  /** `alloc_frame` on the entry of page number `n`. */
  function BackPage(p: Paging, n: int): Paging
    requires TableOf(n) in p.tables && |p.tables[TableOf(n)]| == TABLE_PAGES
  {
    var page := Entry(p, n);
    if page.frame != 0 then p
    else
      var f := LeastFree(p.used, p.count);
      var table := p.tables[TableOf(n)][SlotOf(n) := Backed(page, false, f)];
      p.(used := p.used + {f}, tables := p.tables[TableOf(n) := table])
  }

  /** `free_frame` on the entry of page number `n`: the bit cleared is that of the frame's number
      taken as an address. */
  function FreePage(p: Paging, n: int): Paging
    requires TableOf(n) in p.tables && |p.tables[TableOf(n)]| == TABLE_PAGES
  {
    var page := Entry(p, n);
    if page.frame == 0 then p
    else
      var table := p.tables[TableOf(n)][SlotOf(n) := page.(frame := 0)];
      p.(used := p.used - {page.frame / FRAME_SIZE}, tables := p.tables[TableOf(n) := table])
  }

  // ----- the directory as a flat map

  /** Two addresses share an entry exactly when they lie in the same page. */
  lemma SameEntry(a: nat, b: nat)
    ensures TableOf(a / PAGE_SIZE) == TableOf(b / PAGE_SIZE) && SlotOf(a / PAGE_SIZE) == SlotOf(b / PAGE_SIZE)
       <==> a / PAGE_SIZE == b / PAGE_SIZE
    ensures TableOf(a / PAGE_SIZE) == a / 0x40_0000 && SlotOf(a / PAGE_SIZE) == a / 0x1000 % 1024
  {
    assert a / PAGE_SIZE == TABLE_PAGES * TableOf(a / PAGE_SIZE) + SlotOf(a / PAGE_SIZE);
    assert b / PAGE_SIZE == TABLE_PAGES * TableOf(b / PAGE_SIZE) + SlotOf(b / PAGE_SIZE);
  }

  /** Making a page's entry available adds at most one zeroed table and changes no entry. */
  lemma GetPageFlat(p: Paging, addr: nat)
    requires Formed(p) && addr < ADDRESS_LIMIT
    ensures var q := GetPage(p, addr);
            && Formed(q) && Mapped(q, addr / PAGE_SIZE)
            && q.used == p.used && q.count == p.count
            && (forall n :: Mapped(p, n) ==> Mapped(q, n) && Entry(q, n) == Entry(p, n))
            && (forall n :: Mapped(q, n) && !Mapped(p, n) ==>
                  && TableOf(n) == TableOf(addr / PAGE_SIZE)
                  && Entry(q, n) == Page(false, false, false, 0))
            && (forall t :: t in p.physical ==> t in q.physical && q.physical[t] == p.physical[t])
            && (forall t :: t in q.physical && t !in p.physical ==> t == TableOf(addr / PAGE_SIZE))
  {
  }

  /** Backing a page changes its own entry only. */
  lemma BackPageFlat(p: Paging, n: int)
    requires Formed(p) && Mapped(p, n)
    ensures var q := BackPage(p, n);
            && Formed(q) && q.placement == p.placement && q.tables.Keys == p.tables.Keys && q.physical == p.physical
            && q.count == p.count
            && (forall m :: Mapped(p, m) && m != n ==> Entry(q, m) == Entry(p, m))
            && (if Entry(p, n).frame != 0 then q == p
                else
                  && Entry(q, n).present && !Entry(q, n).writable && !Entry(q, n).user
                  && Entry(q, n).frame == LeastFree(p.used, p.count)
                  && q.used == p.used + {LeastFree(p.used, p.count)})
  {
    forall m | Mapped(p, m) && m != n
      ensures Entry(BackPage(p, n), m) == Entry(p, m)
    {
      assert m == TABLE_PAGES * TableOf(m) + SlotOf(m);
      assert n == TABLE_PAGES * TableOf(n) + SlotOf(n);
    }
  }

  /** The flags of a page-aligned table word can be taken off again. */
  lemma TableWordSplit(addr: nat)
    requires addr % PAGE_SIZE == 0
    ensures TableWord(addr) / PAGE_SIZE * PAGE_SIZE == addr && TableWord(addr) % PAGE_SIZE == 7
  {
    hide Or;
    var k := addr / PAGE_SIZE;
    assert addr == 8 * (512 * k);
    OrSeven(512 * k);
    assert TableWord(addr) == PAGE_SIZE * k + 7;
  }

  /** The word of a new table is its address, a page past the boundary the allocator stood on or before,
      and the three flags. */
  lemma NewTableWord(p: Paging, addr: nat)
    requires Formed(p) && p.placement >= PAGE_SIZE && !Mapped(p, addr / PAGE_SIZE)
    ensures var q := GetPage(p, addr);
            && q.placement == (p.placement / PAGE_SIZE + 2) * PAGE_SIZE
            && TableOf(addr / PAGE_SIZE) in q.physical
            && q.physical[TableOf(addr / PAGE_SIZE)] == (p.placement / PAGE_SIZE + 1) * PAGE_SIZE + 7
  {
    hide TableWord;
    TableWordSplit((p.placement / PAGE_SIZE + 1) * PAGE_SIZE);
  }

  /** A new table's physical address is recoverable from its word, because the bump allocator
      returned it on a page boundary. */
  lemma TableAddress(p: Paging, addr: nat)
    requires Formed(p) && addr < ADDRESS_LIMIT && p.placement >= PAGE_SIZE && !Mapped(p, addr / PAGE_SIZE)
    ensures var q := GetPage(p, addr);
            var word := q.physical[TableOf(addr / PAGE_SIZE)];
            word / PAGE_SIZE * PAGE_SIZE == q.placement - PAGE_SIZE && word % PAGE_SIZE == 7
  {
    BumpAligned(p.placement, PAGE_SIZE);
    TableWordSplit(Bump(p.placement, PAGE_SIZE, true).addr);
  }
}
