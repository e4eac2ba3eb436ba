/** The paging objects of the kernel, updated in place: the placement address, the frame bitmap, and
    the directory as an array of tables that may be missing. */
module KernelPaging {
  import opened Frames
  import opened Owners
  import P = Paging
  import opened Boot

  class Kernel {
    var placement: int
    var frames: FrameBitmap
    var virt: array<array?<Page>>
    var phys: array<int>
    ghost var Repr: set<object>

    ghost predicate Valid()
      reads this, Repr
    {
      && this in Repr && frames in Repr && frames.words in Repr && virt in Repr && phys in Repr
      && (frames.words as object) != phys
      && virt.Length == P.TABLE_PAGES && phys.Length == P.TABLE_PAGES
      && 0 <= placement && frames.Count() < NO_FRAME
      && (forall t :: 0 <= t < P.TABLE_PAGES && virt[t] != null ==> virt[t] in Repr && virt[t].Length == P.TABLE_PAGES)
      && (forall t, u :: 0 <= t < u < P.TABLE_PAGES && virt[t] != null ==> virt[t] != virt[u])
    }

    /** The contents of the tables that exist. */
    ghost function Tables(): map<int, seq<Page>>
      requires Valid()
      reads this, Repr
    {
      map t | 0 <= t < P.TABLE_PAGES && virt[t] != null :: virt[t][..]
    }

    ghost function Physical(): map<int, int>
      requires Valid()
      reads this, Repr
    {
      map t | 0 <= t < P.TABLE_PAGES && virt[t] != null :: phys[t]
    }

    ghost function Model(): P.Paging
      requires Valid()
      reads this, Repr
    {
      P.Paging(placement, Tables(), Physical(), frames.Frames(), frames.Count())
    }

    /** Only one table, new or not, differs. */
    twostate lemma OneTable(table: nat)
      requires old(Valid()) && Valid() && virt == old(virt)
      requires table < P.TABLE_PAGES && virt[table] != null
      requires forall t :: 0 <= t < P.TABLE_PAGES && t != table ==> virt[t] == old(virt[t])
      requires forall t :: 0 <= t < P.TABLE_PAGES && t != table && virt[t] != null ==> virt[t][..] == old(virt[t][..])
      ensures Tables() == old(Tables())[table := virt[table][..]]
    {
    }

    twostate lemma OneWord(table: nat)
      requires old(Valid()) && Valid() && virt == old(virt) && phys == old(phys)
      requires table < P.TABLE_PAGES && virt[table] != null
      requires forall t :: 0 <= t < P.TABLE_PAGES && t != table ==> virt[t] == old(virt[t]) && phys[t] == old(phys[t])
      ensures Physical() == old(Physical())[table := phys[table]]
    {
    }

    /** The allocations that open `init_paging`: a bitmap of clear bits, then an empty directory. */
    constructor (start: nat, nframes: nat)
      requires nframes % SECTION_SIZE == 0 && nframes < NO_FRAME
      ensures Valid() && fresh(Repr)
      ensures Model() == Start(start, nframes)
    {
      placement := start;
      frames := new FrameBitmap(nframes);
      virt := new array?<Page>[P.TABLE_PAGES](_ => null);
      phys := new int[P.TABLE_PAGES](_ => 0);
      new;
      var bitmap, _ := Kmalloc(nframes / SECTION_SIZE, false);
      var directory, _ := Kmalloc(SIZEOF_DIRECTORY, true);
      Repr := {this, frames, frames.words, virt, phys};
      assert Tables() == map[] && Physical() == map[];
    }

    /** The boot allocator: `kmalloc_int` while there is no heap. */
    method Kmalloc(size: int, align: bool) returns (addr: int, physical: int)
      modifies this`placement
      ensures P.Bumped(addr, placement) == P.Bump(old(placement), size, align) && physical == addr
    {
      if align && placement >= P.PAGE_SIZE {
        placement := placement / P.PAGE_SIZE * P.PAGE_SIZE;
        placement := placement + P.PAGE_SIZE;
      }
      physical := placement;
      addr := placement;
      placement := placement + size;
    }

    /** The entry of the address is `virt[table][slot]`. Without a table there is none unless it is to
        be made; with `make` the table exists afterwards. */
    method GetPage(addr: nat, make: bool) returns (found: bool, table: nat, slot: nat)
      requires Valid() && addr < P.ADDRESS_LIMIT
      modifies Repr
      ensures Valid() && fresh(Repr - old(Repr))
      ensures frames == old(frames) && virt == old(virt)
      ensures found <==> make || P.Mapped(old(Model()), addr / P.PAGE_SIZE)
      ensures Model() == if make then P.GetPage(old(Model()), addr) else old(Model())
      ensures table == P.TableOf(addr / P.PAGE_SIZE) && slot == P.SlotOf(addr / P.PAGE_SIZE)
      ensures found ==> table < virt.Length && virt[table] != null && slot < virt[table].Length
    {
      var n := addr / P.PAGE_SIZE;
      table, slot := n / P.TABLE_PAGES, n % P.TABLE_PAGES;
      found := true;
      if virt[table] == null {
        if make {
          MakeTable(table);
        } else {
          found := false;
        }
      }
    }

    /** The `make` branch of `get_page`. */
    method MakeTable(table: nat)
      requires Valid() && table < P.TABLE_PAGES && virt[table] == null
      modifies this`placement, this`Repr, virt, phys
      ensures Valid() && fresh(Repr - old(Repr))
      ensures virt[table] != null
      ensures var b := P.Bump(old(placement), P.PAGE_SIZE, true);
              Model() == old(Model()).(placement := b.next,
                                       tables := old(Model()).tables[table := seq(P.TABLE_PAGES, _ => NO_PAGE)],
                                       physical := old(Model()).physical[table := if b.addr >= 0 then P.TableWord(b.addr) else 0])
    {
      hide P.TableWord, Used;
      var _, tmp := Kmalloc(P.PAGE_SIZE, true);
      var made := new Page[P.TABLE_PAGES](_ => NO_PAGE);
      virt[table] := made;
      phys[table] := P.TableWord(tmp);
      Repr := Repr + {made};
      assert made[..] == seq(P.TABLE_PAGES, _ => NO_PAGE);
      OneTable(table);
      OneWord(table);
      hide Tables, Physical;
    }

    twostate lemma SameWords()
      requires old(Valid()) && Valid() && virt == old(virt) && phys == old(phys)
      requires forall t :: 0 <= t < P.TABLE_PAGES ==> virt[t] == old(virt[t]) && phys[t] == old(phys[t])
      ensures Physical() == old(Physical())
    {
    }

    lemma EntryRead(table: nat, slot: nat)
      requires Valid() && table < P.TABLE_PAGES && virt[table] != null && slot < P.TABLE_PAGES
      ensures table in Tables() && |Tables()[table]| == P.TABLE_PAGES && Tables()[table][slot] == virt[table][slot]
    {
    }

    /** Replaces one entry of a table. */
    method PutEntry(table: nat, slot: nat, page: Page)
      requires Valid() && table < P.TABLE_PAGES && virt[table] != null && slot < P.TABLE_PAGES
      modifies virt[table]
      ensures Valid() && frames.Frames() == old(frames.Frames()) && Physical() == old(Physical())
      ensures table in old(Tables()) && |old(Tables())[table]| == P.TABLE_PAGES
      ensures old(Tables())[table][slot] == old(virt[table][slot])
      ensures Tables() == old(Tables())[table := old(Tables())[table][slot := page]]
      ensures slot < virt[table].Length && virt[table][slot] == page
    {
      hide Used;
      virt[table][slot] := page;
      OneTable(table);
      SameWords();
    }

    /** Gives the page a frame unless it has one. */
    method AllocFrame(table: nat, slot: nat)
      requires Valid() && table < P.TABLE_PAGES && virt[table] != null && slot < P.TABLE_PAGES
      requires virt[table][slot].frame == 0 ==> LeastFree(frames.Frames(), frames.Count()) < frames.Count()
      modifies frames.words, virt[table]
      ensures Valid()
      ensures Model() == P.BackPage(old(Model()), P.TABLE_PAGES * table + slot)
      ensures virt[table] != null && slot < virt[table].Length
      ensures old(virt[table][slot].frame) == 0 ==>
                virt[table][slot].present && !virt[table][slot].writable && !virt[table][slot].user
    {
      hide Used, LeastFree, Tables, Physical;
      ghost var n := P.TABLE_PAGES * table + slot;
      assert P.TableOf(n) == table && P.SlotOf(n) == slot;
      EntryRead(table, slot);
      var page := virt[table][slot];
      if page.frame == 0 {
        var f := frames.FirstFrame();
        if f == NO_FRAME {
          // Where the kernel would stop for want of a frame.
          assert false;
        }
        PutEntry(table, slot, page.(present := true, writable := false, user := false, frame := f));
        label entry:
        var physical := f * FRAME_SIZE;
        frames.SetFrame(physical);
        TablesFramed@entry();
      }
    }

    /** Takes the frame from the page; the bit cleared belongs to another frame. */
    method FreeFrame(table: nat, slot: nat)
      requires Valid() && table < P.TABLE_PAGES && virt[table] != null && slot < P.TABLE_PAGES
      requires 0 <= virt[table][slot].frame < FRAME_SIZE * frames.Count()
      modifies frames.words, virt[table]
      ensures Valid()
      ensures Model() == P.FreePage(old(Model()), P.TABLE_PAGES * table + slot)
    {
      hide Used, Tables, Physical;
      ghost var n := P.TABLE_PAGES * table + slot;
      assert P.TableOf(n) == table && P.SlotOf(n) == slot;
      EntryRead(table, slot);
      var page := virt[table][slot];
      if page.frame != 0 {
        frames.ClearFrame(page.frame);
        TablesFramed();
        PutEntry(table, slot, page.(frame := 0));
      }
    }

    /** Changing the bitmap leaves the directory alone. */
    twostate lemma TablesFramed()
      requires old(Valid()) && Valid() && virt == old(virt) && phys == old(phys)
      requires unchanged(virt) && unchanged(phys)
      requires forall t :: 0 <= t < P.TABLE_PAGES && virt[t] != null ==> virt[t][..] == old(virt[t][..])
      ensures Tables() == old(Tables()) && Physical() == old(Physical())
    {
    }

    /** One round of a mapping loop: `alloc_frame(get_page(i, 1, dir), 0, 0)`. */
    method MapPage(i: nat)
      requires Valid() && i < P.ADDRESS_LIMIT && P.Formed(Model())
      requires LeastFree(frames.Frames(), frames.Count()) < frames.Count()
      modifies Repr
      ensures Valid() && fresh(Repr - old(Repr)) && frames == old(frames) && frames.Count() == old(frames.Count())
      ensures Model() == Boot.MapPage(old(Model()), i)
    {
      hide Used, LeastFree, P.GetPage, P.BackPage;
      P.GetPageFlat(Model(), i);
      var _, table, slot := GetPage(i, true);
      assert i / P.PAGE_SIZE == P.TABLE_PAGES * table + slot;
      AllocFrame(table, slot);
    }

    /** The identity map; its bound is read afresh in every round. */
    method IdentityMap(ghost s: nat)
      requires Valid() && Bounded(Model()) && IdentityUpTo(Model(), 0) && Laid(Model(), 0, s) && 0 < s
      requires MapEnd(s) <= frames.Count() && MapEnd(s) <= HEAP_PAGE
      modifies Repr
      ensures Valid() && fresh(Repr - old(Repr)) && frames == old(frames) && frames.Count() == old(frames.Count())
      ensures Model() == Boot.IdentityMap(old(Model()), 0)
    {
      hide Used, LeastFree, IdentityUpTo, Boot.MapPage, Missing, Laid, MapEnd, TablesOf;
      MapEndLeast(s, MapEnd(s));
      var i := 0;
      ghost var k: nat := 0;
      ghost var was := Model();
      while i < placement + FRAME_SIZE
        invariant Valid() && fresh(Repr - old(Repr)) && frames == old(frames) && frames.Count() == old(frames.Count())
        invariant i == k * P.PAGE_SIZE && Bounded(Model()) && IdentityUpTo(Model(), k)
        invariant Laid(Model(), k, s) && k <= MapEnd(s)
        invariant Boot.IdentityMap(Model(), i) == Boot.IdentityMap(was, 0)
        decreases Reach(Model()) - i
      {
        MapGoesOn(Model(), k, s);
        IdentityFree(Model(), k);
        IdentityStep(Model(), k);
        LaidStep(Model(), k, s);
        MapPage(i);
        i := i + FRAME_SIZE;
        k := k + 1;
      }
    }

    /** The loop that makes the heap's tables before anything is mapped. */
    method MakeTables(start: nat, end: nat)
      requires Valid() && P.Formed(Model()) && start < end <= P.ADDRESS_LIMIT
      modifies Repr
      ensures Valid() && fresh(Repr - old(Repr)) && frames == old(frames)
      ensures Model() == Boot.MakeTables(old(Model()), start, end)
    {
      hide Used, P.GetPage;
      var i := start;
      ghost var was := Model();
      while i < end
        invariant Valid() && fresh(Repr - old(Repr)) && frames == old(frames) && P.Formed(Model())
        invariant Boot.MakeTables(Model(), i, end) == Boot.MakeTables(was, start, end)
        decreases end - i
      {
        P.GetPageFlat(Model(), i);
        var _, table, slot := GetPage(i, true);
        i := i + FRAME_SIZE;
      }
    }

    /** The loop that gives the heap's pages their frames. */
    method BackHeap(ghost k: nat)
      requires Valid() && HeapUpTo(Model(), k, 0) && 0 < k <= HEAP_PAGE && k + HEAP_PAGES <= frames.Count()
      requires P.TableOf(HEAP_PAGE) in Model().tables
      modifies Repr
      ensures Valid() && fresh(Repr - old(Repr)) && frames == old(frames)
      ensures Model() == BackPages(old(Model()), P.KHEAP_START, P.KHEAP_START + P.KHEAP_INITIAL_SIZE)
    {
      hide Used, LeastFree, HeapUpTo, Boot.MapPage, P.BackPage, Missing;
      var end := P.KHEAP_START + P.KHEAP_INITIAL_SIZE;
      var i := P.KHEAP_START;
      ghost var j: nat := 0;
      ghost var was := Model();
      while i < end
        invariant Valid() && fresh(Repr - old(Repr)) && frames == old(frames)
        invariant j <= HEAP_PAGES && i == (HEAP_PAGE + j) * P.PAGE_SIZE && HeapUpTo(Model(), k, j) && P.Formed(Model())
        invariant P.TableOf(HEAP_PAGE) in Model().tables
        invariant BackPages(Model(), i, end) == BackPages(was, P.KHEAP_START, end)
        decreases end - i
      {
        HeapStep(Model(), k, j);
        MapPage(i);
        i := i + FRAME_SIZE;
        j := j + 1;
      }
    }
  }

  /** `init_paging`, from the first allocation to the frames of the heap. */
  method InitPaging(start: nat, nframes: nat) returns (kernel: Kernel)
    requires nframes % SECTION_SIZE == 0 && nframes < NO_FRAME && RoomAtBoot(start, nframes)
    ensures fresh(kernel) && kernel.Valid() && kernel.Model() == Boot.InitPaging(start, nframes)
  {
    hide Boot.MakeTables, Boot.IdentityMap, BackPages, IdentityUpTo, HeapUpTo, Missing, Start;
    BeforeIdentity(start, nframes);
    ghost var s := FirstPlaced(start, nframes);
    kernel := new Kernel(start, nframes);
    kernel.MakeTables(P.KHEAP_START, P.KHEAP_START + P.KHEAP_INITIAL_SIZE);
    ghost var p := kernel.Model();
    kernel.IdentityMap(s);
    IdentityMapped(p, 0, s);
    IdentityIsHeap(kernel.Model(), MapEnd(s));
    TableThere(kernel.Model(), MapEnd(s), s);
    kernel.BackHeap(MapEnd(s));
  }

  /** While the heap's pages are backed, the next frame is free and no table is made. */
  lemma HeapStep(p: P.Paging, k: nat, j: nat)
    requires HeapUpTo(p, k, j) && 0 < k <= HEAP_PAGE && j < HEAP_PAGES && k + HEAP_PAGES <= p.count
    requires P.TableOf(HEAP_PAGE) in p.tables
    ensures LeastFree(p.used, p.count) == k + j && P.Formed(p)
    ensures var q := Boot.MapPage(p, (HEAP_PAGE + j) * P.PAGE_SIZE);
            HeapUpTo(q, k, j + 1) && P.Formed(q) && P.TableOf(HEAP_PAGE) in q.tables
  {
    hide P.BackPage, Missing;
    LeastUnique(p.used, p.count, k + j);
    var i := (HEAP_PAGE + j) * P.PAGE_SIZE;
    assert P.TableOf(HEAP_PAGE + j) == P.TableOf(HEAP_PAGE);
    assert i / P.PAGE_SIZE == HEAP_PAGE + j;
    assert P.GetPage(p, i) == p;
    P.BackPageFlat(p, HEAP_PAGE + j);
    HeapBacked(p, k, j);
  }

  lemma MapGoesOn(p: P.Paging, k: nat, s: nat)
    requires Laid(p, k, s) && k <= MapEnd(s) && k * P.PAGE_SIZE < p.placement + FRAME_SIZE
    ensures k < MapEnd(s)
  {
    hide MapEnd, TablesOf;
    MapEndLeast(s, k);
  }

  lemma TableThere(p: P.Paging, k: nat, s: nat)
    requires Laid(p, k, s)
    ensures P.TableOf(HEAP_PAGE) in p.tables
  {
    assert TableIndex(P.TableOf(HEAP_PAGE));
  }

  /** While the identity map runs, the next frame is free. */
  lemma IdentityFree(p: P.Paging, k: nat)
    requires IdentityUpTo(p, k) && k < p.count
    ensures LeastFree(p.used, p.count) == k
  {
    LeastUnique(p.used, p.count, k);
  }
}
