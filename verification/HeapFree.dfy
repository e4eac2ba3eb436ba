/** Release keeps the heap a tiling of coalesced chunks exactly when a right merge only happens
    with the last hole, and a release at the end of the heap finds the page past it present, cuts
    within the minimum size, and gives back only frames whose release clears no other frame's bit. */
module HeapFree {
  import opened Backing
  import opened Memory
  import opened OrderedArrays
  import opened KHeap
  import opened Chunks
  import opened HeapAlloc
  import opened Owners

  // ----- what a caller has to check before a release

  predicate LeftHole(h: Heap, block: int) {
    FootMagic(h.mem, block - FOOTER_SIZE) == HEAP_MAGIC
    && HoleFlag(h.mem, FootHeader(h.mem, block - FOOTER_SIZE)) == 1
  }

  function MergedHead(h: Heap, block: int): int {
    if LeftHole(h, block) then FootHeader(h.mem, block - FOOTER_SIZE) else block
  }

  predicate RightHole(h: Heap, block: int) {
    var right := block + Size(h.mem, block);
    Readable(h, right) && Magic(h.mem, Seen(h, right)) == HEAP_MAGIC && HoleFlag(h.mem, Seen(h, right)) != 0
  }

  /** The frames that a contraction to the minimum size takes are released without harm. */
  predicate ContractClean(h: Heap, atAddress: bool := false) {
    atAddress || CleanRange(h.pool, (h.start + HEAP_MIN_SIZE) / PAGE_SIZE + 1, h.end / PAGE_SIZE)
  }

  predicate FreeGuard(h: Heap, p: int, atAddress: bool := false) {
    var block := p - HEADER_SIZE;
    var right := block + Size(h.mem, block);
    && (right == h.end ==>
          && Readable(h, right) && !RightHole(h, block)
          && MergedHead(h, block) + TAGS_SIZE <= h.start + HEAP_MIN_SIZE && ContractClean(h, atAddress))
    && (right != h.end && RightHole(h, block) ==> right + Size(h.mem, right) == h.end)
    && (!LeftHole(h, block) && !RightHole(h, block) ==> |h.index| < HEAP_INDEX_SIZE)
  }

  // ----- the chunks around the released one

  ghost predicate HoleBefore(cs: seq<Chunk>, k: nat)
    requires k < |cs|
  {
    k > 0 && cs[k - 1].hole
  }

  ghost predicate HoleAfter(cs: seq<Chunk>, k: nat)
    requires k < |cs|
  {
    k + 1 < |cs| && cs[k + 1].hole
  }

  /** The released chunk joined to a hole on its left. */
  ghost function LeftMerged(cs: seq<Chunk>, k: nat): Chunk
    requires k < |cs|
  {
    var head := if HoleBefore(cs, k) then cs[k - 1].addr else cs[k].addr;
    Chunk(head, cs[k].End() - head, true)
  }

  /** The guards read the neighbours off the tags. */
  lemma NeighboursRead(h: Heap, cs: seq<Chunk>, k: nat)
    requires Represents(h, cs) && k < |cs| && !cs[k].hole
    ensures Size(h.mem, cs[k].addr) == cs[k].size
    ensures LeftHole(h, cs[k].addr) == HoleBefore(cs, k)
    ensures MergedHead(h, cs[k].addr) == LeftMerged(cs, k).addr
    ensures k + 1 < |cs| ==> RightHole(h, cs[k].addr) == HoleAfter(cs, k)
    ensures k + 1 < |cs| ==> Readable(h, cs[k].End()) && Seen(h, cs[k].End()) == cs[k].End()
    ensures Seen(h, cs[k].End()) == cs[k].End() || Seen(h, cs[k].End()) == 0 < PAGE_SIZE <= h.start
    ensures HoleAfter(cs, k) ==> Size(h.mem, cs[k + 1].addr) == cs[k + 1].size
    ensures k + 1 < |cs| ==> cs[k + 1].addr == cs[k].End() < h.end
    ensures k + 1 == |cs| ==> cs[k].End() == h.end
    ensures 0 < h.start && h.end < WORD_LIMIT
    ensures HeaderOf(h.mem, cs[k]) && FooterOf(h.mem, cs[k])
    ensures k > 0 ==> cs[k - 1].End() == cs[k].addr && HeaderOf(h.mem, cs[k - 1]) && FooterOf(h.mem, cs[k - 1])
    ensures FootMagic(h.mem, cs[k].addr - FOOTER_SIZE) == HEAP_MAGIC ==>
              FootHeader(h.mem, cs[k].addr - FOOTER_SIZE) < cs[k].addr
    ensures forall i :: 0 <= i < |cs| ==> h.start <= cs[i].addr && cs[i].size >= TAGS_SIZE && cs[i].End() <= h.end
  {
    hide Word, Byte;
    TilesLayout(cs, h.start, h.end);
    assert Stored(h.mem, cs[k], h.end);
    if k > 0 {
      assert Stored(h.mem, cs[k - 1], h.end);
      assert cs[k].addr == cs[k - 1].End();
    }
    if k + 1 < |cs| {
      assert Stored(h.mem, cs[k + 1], h.end);
      assert cs[k + 1].addr == cs[k].End();
      PlacedReadable(h, cs[k].End());
    }
  }

  lemma JoinLeft(m: Mem, b: Chunk, c: Chunk)
    requires 0 <= b.addr && b.End() == c.addr && c.End() < WORD_LIMIT && TAGS_SIZE <= b.size && TAGS_SIZE <= c.size
    requires b.hole && HeaderOf(m, b) && FooterOf(m, b) && !c.hole && HeaderOf(m, c) && FooterOf(m, c)
    ensures var d := Chunk(b.addr, b.size + c.size, true);
            var r := MergeLeft(PutByte(m, c.addr + 4, 1), c.addr, c.End() - FOOTER_SIZE);
            && r.head == b.addr && r.indexed
            && HeaderOf(r.mem, d) && FooterOf(r.mem, d)
            && (forall a :: !(d.addr <= a < d.End()) ==> Byte(r.mem, a) == Byte(m, a))
  {
    hide Word, Byte, Load, PutByte, PutWord;
    var m0 := PutByte(m, c.addr + 4, 1);
    assert HoleFlag(m0, b.addr) == HoleFlag(m, b.addr);
    var m1 := PutWord(m0, c.End() - 4, b.addr);
    var r := PutWord(m1, b.addr + 8, b.size + c.size);
    assert HoleFlag(r, b.addr) == HoleFlag(m1, b.addr) == HoleFlag(m0, b.addr);
    assert Size(m1, b.addr) == Size(m0, b.addr) == b.size;
  }

  lemma KeepLeft(m: Mem, c: Chunk)
    requires 0 <= c.addr && TAGS_SIZE <= c.size && !c.hole && HeaderOf(m, c) && FooterOf(m, c)
    requires FootMagic(m, c.addr - FOOTER_SIZE) == HEAP_MAGIC ==>
               FootHeader(m, c.addr - FOOTER_SIZE) < c.addr && HoleFlag(m, FootHeader(m, c.addr - FOOTER_SIZE)) != 1
    ensures var d := Chunk(c.addr, c.size, true);
            var r := MergeLeft(PutByte(m, c.addr + 4, 1), c.addr, c.End() - FOOTER_SIZE);
            && r.head == c.addr && !r.indexed
            && HeaderOf(r.mem, d) && FooterOf(r.mem, d)
            && (forall a :: !(d.addr <= a < d.End()) ==> Byte(r.mem, a) == Byte(m, a))
  {
    hide Word, Byte, Load, PutByte, PutWord;
    var m0 := PutByte(m, c.addr + 4, 1);
    var left := FootHeader(m, c.addr - FOOTER_SIZE);
    assert left < c.addr ==> HoleFlag(m0, left) == HoleFlag(m, left);
  }

  /** The left merge leaves the tags of the merged hole. */
  lemma MergeLeftWrites(h: Heap, cs: seq<Chunk>, k: nat)
    requires Represents(h, cs) && k < |cs| && !cs[k].hole
    ensures var d := LeftMerged(cs, k);
            var r := MergeLeft(PutByte(h.mem, cs[k].addr + 4, 1), cs[k].addr, cs[k].End() - FOOTER_SIZE);
            && r.head == d.addr && r.indexed == HoleBefore(cs, k)
            && HeaderOf(r.mem, d) && FooterOf(r.mem, d)
            && (forall a :: !(d.addr <= a < d.End()) ==> Byte(r.mem, a) == Byte(h.mem, a))
  {
    hide Represents, MergeLeft, Word, Byte, PutByte, RightHole, MergedHead, HeaderOf, FooterOf;
    NeighboursRead(h, cs, k);
    if HoleBefore(cs, k) {
      assert LeftMerged(cs, k) == Chunk(cs[k - 1].addr, cs[k - 1].size + cs[k].size, true);
      JoinLeft(h.mem, cs[k - 1], cs[k]);
    } else {
      assert LeftMerged(cs, k) == Chunk(cs[k].addr, cs[k].size, true);
      KeepLeft(h.mem, cs[k]);
    }
  }

  // ----- where the release ends

  /** The chunks after the release: the joined hole replaces the run from `From` up to `To`. */
  ghost function From(cs: seq<Chunk>, k: nat): nat
    requires k < |cs|
  {
    if HoleBefore(cs, k) then k - 1 else k
  }

  /** The hole left in the index: the left neighbour stays, the released chunk is added. */
  lemma ReindexMultiset(h: Heap, index: seq<int>, head: int, indexed: bool, g: Heap)
    requires g == Reindex(h, head, indexed) && h.index == index
    ensures multiset(g.index) == multiset(index) + (if indexed then multiset{} else multiset{head})
    ensures |g.index| == |index| + (if indexed then 0 else 1)
    ensures g == h.(index := g.index)
  {
    hide Size, SmallerThan;
    if !indexed {
      InsertMultiset(index, head, SmallerThan(h.mem));
    }
  }

  lemma TwoHoles(b: Chunk, c: Chunk)
    ensures Holes([b, c]) == (if b.hole then [b.addr] else []) + (if c.hole then [c.addr] else [])
  {
    assert [b, c][1..] == [c];
    OneHole(c);
  }

  /** The holes among the chunks that a release without a right merge replaces. */
  lemma HolesLeft(cs: seq<Chunk>, k: nat)
    requires k < |cs| && !cs[k].hole
    ensures Holes(cs[From(cs, k)..k + 1]) == if HoleBefore(cs, k) then [cs[k - 1].addr] else []
  {
    if HoleBefore(cs, k) {
      assert cs[k - 1..k + 1] == [cs[k - 1], cs[k]];
      TwoHoles(cs[k - 1], cs[k]);
    } else {
      assert cs[k..k + 1] == [cs[k]];
      OneHole(cs[k]);
    }
  }

  lemma HolesRight(cs: seq<Chunk>, k: nat)
    requires k < |cs| && !cs[k].hole && HoleAfter(cs, k)
    ensures Holes(cs[From(cs, k)..k + 2])
         == (if HoleBefore(cs, k) then [cs[k - 1].addr] else []) + [cs[k + 1].addr]
  {
    HolesLeft(cs, k);
    OneHole(cs[k + 1]);
    HolesConcat(cs[From(cs, k)..k + 1], [cs[k + 1]]);
    assert cs[From(cs, k)..k + 1] + [cs[k + 1]] == cs[From(cs, k)..k + 2];
  }

  /** A release whose joined hole `d` replaces the chunks `From`..`j`. */
  lemma JoinedRepresents(h: Heap, cs: seq<Chunk>, k: nat, j: nat, d: Chunk, g: Heap)
    requires Represents(h, cs) && k < |cs| && !cs[k].hole
    requires j == if HoleAfter(cs, k) then k + 2 else k + 1
    requires d == Chunk(LeftMerged(cs, k).addr, (if j < |cs| then cs[j].addr else g.end) - LeftMerged(cs, k).addr, true)
    requires d.size >= TAGS_SIZE
    requires g.start == h.start && (j < |cs| ==> g.end == h.end)
    requires forall a :: a < d.addr || (j < |cs| && d.End() <= a) ==> Byte(g.mem, a) == Byte(h.mem, a)
    requires Stored(g.mem, d, g.end)
    requires multiset(g.index) == multiset(h.index) - multiset(Holes(cs[From(cs, k)..j])) + multiset{d.addr}
    requires |g.index| <= HEAP_INDEX_SIZE && Placed(g)
    ensures Represents(g, cs[..From(cs, k)] + [d] + cs[j..])
    ensures Good(g, Blocks(cs) - {cs[k]})
  {
    hide Word, Byte, Holes, Blocks, Stored;
    var i := From(cs, k);
    OneHole(d);
    NoBlocks(d);
    JoinedSeams(cs, k, j, d);
    Splice(h, g, cs, i, j, [d]);
    BlocksSpliced(cs, h.start, h.end, i, j, [d]);
    JoinedBlocks(cs, k, j);
  }

  lemma JoinedSeams(cs: seq<Chunk>, k: nat, j: nat, d: Chunk)
    requires k < |cs| && !cs[k].hole && Coalesced(cs)
    requires j == if HoleAfter(cs, k) then k + 2 else k + 1
    ensures SeamsOpen(cs, From(cs, k), j, [d])
  {
    if HoleBefore(cs, k) {
      assert k - 1 > 0 ==> !(cs[k - 2].hole && cs[k - 1].hole);
    }
    if j == k + 2 && j < |cs| {
      assert !(cs[k + 1].hole && cs[k + 2].hole);
    }
  }

  lemma JoinedBlocks(cs: seq<Chunk>, k: nat, j: nat)
    requires k < |cs| && !cs[k].hole
    requires j == if HoleAfter(cs, k) then k + 2 else k + 1
    ensures Blocks(cs[From(cs, k)..j]) == {cs[k]}
  {
    var run := cs[From(cs, k)..j];
    assert run[k - From(cs, k)] == cs[k];
  }

  // ----- the call, neighbour by neighbour

  /** The state after the left merge. */
  ghost function AfterLeft(h: Heap, c: Chunk): Merge {
    MergeLeft(PutByte(h.mem, c.addr + 4, 1), c.addr, c.End() - FOOTER_SIZE)
  }

  /** Which pages can be read does not depend on the memory. */
  lemma SeenSame(h: Heap, m: Mem, a: int)
    ensures Readable(h.(mem := m), a) == Readable(h, a) && Seen(h.(mem := m), a) == Seen(h, a)
  {
  }

  /** The right merge, for a chunk `c` that the left merge has made part of `d` in the memory `m`. */
  lemma RightUnfolds(h: Heap, c: Chunk, d: Chunk, m: Mem, indexed: bool, atAddress: bool := false)
    requires d.End() == c.End() && Size(m, d.addr) == d.size
    requires forall a :: !(d.addr <= a < d.End()) ==> Byte(m, a) == Byte(h.mem, a)
    requires d.End() <= Seen(h, c.End()) || Seen(h, c.End()) + HEADER_SIZE <= d.addr
    requires TAGS_SIZE <= d.size && Size(h.mem, c.addr) == c.size
    ensures MergeRight(h.(mem := m), d.addr, c.End() - FOOTER_SIZE, c.addr - FOOTER_SIZE, indexed, atAddress) ==
              if !Readable(h, c.End()) then Panic
              else if RightHole(h, c.addr) then
                var m1 := PutWord(m, d.addr + 8, d.size + Size(h.mem, Seen(h, c.End())));
                var it := Find(h.index, c.End());
                if it == |h.index| then Panic
                else Settle(h.(mem := m1, index := Removed(h.index, it)), d.addr,
                            c.addr - 2 * FOOTER_SIZE + Size(h.mem, Seen(h, c.End())), c.End(), indexed, atAddress)
              else Settle(h.(mem := m), d.addr, c.End() - FOOTER_SIZE, c.End(), indexed, atAddress)
  {
    hide Settle, Byte, Word, PutWord, Readable, Seen;
    SeenSame(h, m, c.End());
    var at := Seen(h, c.End());
    WordSame(h.mem, m, at);
    WordSame(h.mem, m, at + 8);
    assert HoleFlag(m, at) == HoleFlag(h.mem, at);
    var m1 := PutWord(m, d.addr + 8, d.size + Size(h.mem, at));
    assert Size(m1, at) == Size(m, at);
  }

  lemma FreeUnfolds(h: Heap, cs: seq<Chunk>, k: nat, atAddress: bool := false)
    requires Represents(h, cs) && k < |cs| && !cs[k].hole
    ensures var c, d, r := cs[k], LeftMerged(cs, k), AfterLeft(h, cs[k]);
            Free(h, c.addr + HEADER_SIZE, atAddress) ==
              if !Readable(h, c.End()) then Panic
              else if RightHole(h, c.addr) then
                var m1 := PutWord(r.mem, d.addr + 8, d.size + Size(h.mem, Seen(h, c.End())));
                var it := Find(h.index, c.End());
                if it == |h.index| then Panic
                else Settle(h.(mem := m1, index := Removed(h.index, it)), d.addr,
                            c.addr - 2 * FOOTER_SIZE + Size(h.mem, Seen(h, c.End())), c.End(), HoleBefore(cs, k), atAddress)
              else Settle(h.(mem := r.mem), d.addr, c.End() - FOOTER_SIZE, c.End(), HoleBefore(cs, k), atAddress)
  {
    hide Represents, MergeLeft, MergeRight, Settle, Byte, Word, PutByte, PutWord, LeftHole, MergedHead, Readable, Seen;
    hide RightHole, Find, Removed;
    NeighboursRead(h, cs, k);
    MergeLeftWrites(h, cs, k);
    RightUnfolds(h, cs[k], LeftMerged(cs, k), AfterLeft(h, cs[k]).mem, HoleBefore(cs, k), atAddress);
  }

  /** No bytes outside the released chunk and its neighbours change. */
  lemma JoinedUntouched(h: Heap, cs: seq<Chunk>, k: nat, j: nat, m: Mem)
    requires Tiles(cs, h.start, h.end) && k < |cs| && !cs[k].hole
    requires j == if HoleAfter(cs, k) then k + 2 else k + 1
    requires forall a :: a < LeftMerged(cs, k).addr || (j < |cs| && cs[j].addr <= a) ==> Byte(m, a) == Byte(h.mem, a)
    ensures Untouched(h.mem, m, Blocks(cs) - {cs[k]})
  {
    hide Byte, Tiles;
    forall c | c in Blocks(cs) && c != cs[k]
      ensures c.End() <= LeftMerged(cs, k).addr || (j < |cs| && cs[j].addr <= c.addr)
    {
      OtherBlock(cs, h.start, h.end, k, c);
    }
  }

  /** Every other block lies before the joined hole or after it. */
  lemma OtherBlock(cs: seq<Chunk>, lo: int, hi: int, k: nat, c: Chunk)
    requires Tiles(cs, lo, hi) && k < |cs| && !cs[k].hole && c in Blocks(cs) && c != cs[k]
    ensures var j := if HoleAfter(cs, k) then k + 2 else k + 1;
            c.End() <= LeftMerged(cs, k).addr || (j < |cs| && cs[j].addr <= c.addr)
  {
    TilesLayout(cs, lo, hi);
    var l :| 0 <= l < |cs| && cs[l] == c;
    assert l < k && HoleBefore(cs, k) ==> l < k - 1;
  }

  lemma FreePlain(h: Heap, cs: seq<Chunk>, k: nat, atAddress: bool := false)
    requires Represents(h, cs) && k + 1 < |cs| && !cs[k].hole && !HoleAfter(cs, k)
    ensures Free(h, cs[k].addr + HEADER_SIZE, atAddress)
         == Done(Reindex(h.(mem := AfterLeft(h, cs[k]).mem), LeftMerged(cs, k).addr, HoleBefore(cs, k)), 0)
  {
    hide Represents, Byte, Word, PutByte, PutWord, MergedHead, LeftHole, RightHole, Reindex, AfterLeft, Free, Contract;
    hide Readable, Seen, Find;
    NeighboursRead(h, cs, k);
    FreeUnfolds(h, cs, k, atAddress);
  }

  /** The middle of the heap, no hole to the right: the joined hole takes the chunk's place. */
  lemma FreeMiddle(h: Heap, cs: seq<Chunk>, k: nat, atAddress: bool := false)
    requires Represents(h, cs) && k + 1 < |cs| && !cs[k].hole && !HoleAfter(cs, k)
    requires HoleBefore(cs, k) || |h.index| < HEAP_INDEX_SIZE
    ensures var r := Free(h, cs[k].addr + HEADER_SIZE, atAddress);
            && r.Done? && SamePlace(h, r.heap)
            && Represents(r.heap, cs[..From(cs, k)] + [LeftMerged(cs, k)] + cs[k + 1..])
            && Good(r.heap, Blocks(cs) - {cs[k]}) && Untouched(h.mem, r.heap.mem, Blocks(cs) - {cs[k]})
  {
    hide Represents, MergeLeft, Byte, Word, PutByte, PutWord, Holes, Blocks, MergedHead, LeftHole, RightHole;
    hide Good, Reindex, Free;
    var d := LeftMerged(cs, k);
    NeighboursRead(h, cs, k);
    MergeLeftWrites(h, cs, k);
    FreePlain(h, cs, k, atAddress);
    var m := AfterLeft(h, cs[k]).mem;
    var r := Free(h, cs[k].addr + HEADER_SIZE, atAddress);
    ReindexMultiset(h.(mem := m), h.index, d.addr, HoleBefore(cs, k), r.heap);
    HolesLeft(cs, k);
    RepresentsParts(h, cs);
    IndexedLeft(h, cs, k);
    PlacedSame(h, r.heap);
    JoinedRepresents(h, cs, k, k + 1, d, r.heap);
    JoinedUntouched(h, cs, k, k + 1, m);
  }

  lemma RepresentsParts(h: Heap, cs: seq<Chunk>)
    requires Represents(h, cs)
    ensures Tiles(cs, h.start, h.end) && Placed(h) && |h.index| <= HEAP_INDEX_SIZE
  {
  }

  lemma IndexedLeft(h: Heap, cs: seq<Chunk>, k: nat)
    requires Represents(h, cs) && k < |cs|
    ensures HoleBefore(cs, k) ==> multiset(h.index)[cs[k - 1].addr] == 1
    ensures HoleAfter(cs, k) ==> multiset(h.index)[cs[k + 1].addr] == 1
    ensures HoleBefore(cs, k) && HoleAfter(cs, k) ==> cs[k - 1].addr != cs[k + 1].addr
  {
    TilesLayout(cs, h.start, h.end);
    if HoleBefore(cs, k) {
      IndexedOnce(h, cs, cs[k - 1].addr);
    }
    if HoleAfter(cs, k) {
      IndexedOnce(h, cs, cs[k + 1].addr);
    }
  }

  /** The memory after a right merge: the header covers both, no footer is written. */
  ghost function AfterRight(h: Heap, cs: seq<Chunk>, k: nat): Mem
    requires k + 1 < |cs|
  {
    var d := LeftMerged(cs, k);
    PutWord(AfterLeft(h, cs[k]).mem, d.addr + 8, d.size + cs[k + 1].size)
  }

  ghost function RightMerged(cs: seq<Chunk>, k: nat): Chunk
    requires k + 1 < |cs|
  {
    var d := LeftMerged(cs, k);
    Chunk(d.addr, d.size + cs[k + 1].size, true)
  }

  lemma RightWrites(h: Heap, cs: seq<Chunk>, k: nat)
    requires Represents(h, cs) && k < |cs| && !cs[k].hole && HoleAfter(cs, k)
    ensures var e, m := RightMerged(cs, k), AfterRight(h, cs, k);
            && HeaderOf(m, e)
            && (forall a :: !(e.addr <= a < cs[k].End()) ==> Byte(m, a) == Byte(h.mem, a))
  {
    hide Represents, MergeLeft, Byte, Word, PutByte, PutWord, MergedHead, LeftHole, RightHole;
    NeighboursRead(h, cs, k);
    MergeLeftWrites(h, cs, k);
    var e := RightMerged(cs, k);
    var m := AfterLeft(h, cs[k]).mem;
    var m1 := PutWord(m, e.addr + 8, e.size);
    assert m1 == AfterRight(h, cs, k);
    assert HoleFlag(m1, e.addr) == HoleFlag(m, e.addr);
    assert e.End() == cs[k + 1].End() <= h.end;
  }

  /** A right merge never contracts: the footer it looks at is inside the merged hole. */
  lemma FreeRight(h: Heap, cs: seq<Chunk>, k: nat, atAddress: bool := false)
    requires Represents(h, cs) && k < |cs| && !cs[k].hole && HoleAfter(cs, k)
    ensures var th := cs[k + 1].addr;
            && Find(h.index, th) < |h.index|
            && var g := h.(mem := AfterRight(h, cs, k), index := Removed(h.index, Find(h.index, th)));
               Free(h, cs[k].addr + HEADER_SIZE, atAddress) == Done(Reindex(g, LeftMerged(cs, k).addr, HoleBefore(cs, k)), 0)
  {
    hide Represents, MergeLeft, Byte, Word, PutByte, PutWord, MergedHead, LeftHole, Reindex;
    NeighboursRead(h, cs, k);
    FreeUnfolds(h, cs, k, atAddress);
    IndexedLeft(h, cs, k);
    assert cs[k + 1].addr in multiset(h.index);
  }

  lemma RightIndex(h: Heap, cs: seq<Chunk>, k: nat, g: Heap, atAddress: bool := false)
    requires Represents(h, cs) && k < |cs| && !cs[k].hole && HoleAfter(cs, k)
    requires Free(h, cs[k].addr + HEADER_SIZE, atAddress) == Done(g, 0)
    ensures g == h.(mem := AfterRight(h, cs, k), index := g.index)
    ensures multiset(g.index) == multiset(h.index) - multiset(Holes(cs[From(cs, k)..k + 2])) + multiset{LeftMerged(cs, k).addr}
    ensures |g.index| <= |h.index|
  {
    hide Represents, MergeLeft, Byte, Word, PutByte, PutWord, MergedHead, LeftHole, RightHole, Reindex, Holes;
    hide Free, AfterRight, Removed, Readable, Seen;
    FreeRight(h, cs, k, atAddress);
    var th := cs[k + 1].addr;
    var it := Find(h.index, th);
    RemoveMultiset(h.index, it);
    var was := h.(mem := AfterRight(h, cs, k), index := Removed(h.index, it));
    ReindexMultiset(was, was.index, LeftMerged(cs, k).addr, HoleBefore(cs, k), g);
    IndexedLeft(h, cs, k);
    HolesRight(cs, k);
  }

  /** A right merge with the last hole. */
  lemma FreeRightLast(h: Heap, cs: seq<Chunk>, k: nat, atAddress: bool := false)
    requires Represents(h, cs) && k + 2 == |cs| && !cs[k].hole && HoleAfter(cs, k)
    ensures var r := Free(h, cs[k].addr + HEADER_SIZE, atAddress);
            && r.Done? && SamePlace(h, r.heap)
            && Represents(r.heap, cs[..From(cs, k)] + [RightMerged(cs, k)] + cs[k + 2..])
            && Good(r.heap, Blocks(cs) - {cs[k]}) && Untouched(h.mem, r.heap.mem, Blocks(cs) - {cs[k]})
  {
    hide Represents, MergeLeft, Byte, Word, PutByte, PutWord, Holes, Blocks, MergedHead, LeftHole, RightHole;
    hide Good, Free, AfterRight;
    NeighboursRead(h, cs, k);
    RightWrites(h, cs, k);
    FreeRight(h, cs, k, atAddress);
    var r := Free(h, cs[k].addr + HEADER_SIZE, atAddress);
    RightIndex(h, cs, k, r.heap, atAddress);
    RepresentsParts(h, cs);
    LastEnds(h, cs);
    PlacedSame(h, r.heap);
    var e := RightMerged(cs, k);
    assert e.End() == h.end;
    JoinedRepresents(h, cs, k, k + 2, e, r.heap);
    JoinedUntouched(h, cs, k, k + 2, r.heap.mem);
  }

  lemma LastEnds(h: Heap, cs: seq<Chunk>)
    requires Represents(h, cs)
    ensures cs[|cs| - 1].End() == h.end
  {
  }

  /** A right merge further inside leaves a footer that names the swallowed header. */
  lemma FreeRightInner(h: Heap, cs: seq<Chunk>, k: nat, atAddress: bool := false)
    requires Represents(h, cs) && k + 2 < |cs| && !cs[k].hole && HoleAfter(cs, k)
    ensures var r := Free(h, cs[k].addr + HEADER_SIZE, atAddress);
            r.Done? && forall live :: !Good(r.heap, live)
  {
    hide Represents, MergeLeft, Byte, Word, PutByte, PutWord, Blocks, Holes, MergedHead, LeftHole, RightHole;
    hide Free, AfterRight, Good, Find, Reindex;
    NeighboursRead(h, cs, k);
    RightWrites(h, cs, k);
    FreeRight(h, cs, k, atAddress);
    var g := Free(h, cs[k].addr + HEADER_SIZE, atAddress).heap;
    RightIndex(h, cs, k, g, atAddress);
    var e := RightMerged(cs, k);
    assert e.addr in multiset(g.index);
    InnerFooter(h, cs, k + 1);
    WordSame(h.mem, g.mem, e.End() - 4);
    StaleFooter(g, e.addr);
  }

  /** A hole inside the heap whose footer names another header. */
  lemma StaleFooter(g: Heap, a: int)
    requires a in g.index && a + Size(g.mem, a) < g.end
    requires FootHeader(g.mem, a + Size(g.mem, a) - FOOTER_SIZE) != a
    ensures forall live :: !Good(g, live)
  {
    hide Represents, Word, Blocks;
    forall live
      ensures !Good(g, live)
    {
      if Good(g, live) {
        var ds :| Represents(g, ds) && Blocks(ds) == live;
        ChunkAt(g, ds, a);
      }
    }
  }

  lemma InnerFooter(h: Heap, cs: seq<Chunk>, i: nat)
    requires Represents(h, cs) && i + 1 < |cs|
    ensures FooterOf(h.mem, cs[i]) && cs[i].End() < h.end
  {
    TilesLayout(cs, h.start, h.end);
    assert Stored(h.mem, cs[i], h.end);
    assert cs[i].End() <= cs[i + 1].addr;
  }

  /** An indexed address is that of a stored hole within the heap. */
  lemma ChunkAt(g: Heap, ds: seq<Chunk>, a: int)
    requires Represents(g, ds) && a in g.index
    ensures a + TAGS_SIZE <= a + Size(g.mem, a) <= g.end
    ensures a + Size(g.mem, a) < g.end ==> FootHeader(g.mem, a + Size(g.mem, a) - FOOTER_SIZE) == a
  {
    hide Word;
    Indexed(g, ds, a);
    var i :| 0 <= i < |ds| && ds[i].hole && ds[i].addr == a;
    assert Stored(g.mem, ds[i], g.end);
    TilesLayout(ds, g.start, g.end);
  }

  // ----- the end of the heap: contraction

  /** The loop of `contract` over addresses is the loop over page numbers. */
  lemma {:induction false} UnbackDownPages(s: Pool, start: int, size: int, it: int, atAddress: bool)
    ensures var last := (start + it) / PAGE_SIZE + 1;
            UnbackDown(s, start, size, it, atAddress) == UnbackRange(s, last - Steps(size, it), last, atAddress)
    decreases it - size
  {
    hide Unback;
    if size < it {
      var page := (start + it) / PAGE_SIZE;
      assert (start + it - PAGE_SIZE) / PAGE_SIZE == page - 1;
      assert Steps(size, it) == 1 + Steps(size, it - PAGE_SIZE);
      UnbackDownPages(Unback(s, page, atAddress), start, size, it - PAGE_SIZE, atAddress);
    }
  }

  /** Contraction to the minimum takes the frames of exactly the pages above the one at the new end. */
  lemma ContractPool(h: Heap, wanted: int, c: Heap, atAddress: bool := false)
    requires Placed(h) && 0 <= wanted <= HEAP_MIN_SIZE && Contract(h, wanted, atAddress) == Some(c)
    ensures c == h.(end := h.start + HEAP_MIN_SIZE, pool := c.pool)
    ensures c.pool == UnbackRange(h.pool, c.end / PAGE_SIZE + 1, h.end / PAGE_SIZE, atAddress)
  {
    hide Word, UnbackDown, UnbackRange, Owned, HeldRange;
    var len := h.end - h.start;
    UnbackDownPages(h.pool, h.start, HEAP_MIN_SIZE, len - PAGE_SIZE, atAddress);
    var last := (h.start + len - PAGE_SIZE) / PAGE_SIZE + 1;
    assert last == h.end / PAGE_SIZE;
    var n := Steps(HEAP_MIN_SIZE, len - PAGE_SIZE);
    if HEAP_MIN_SIZE < len - PAGE_SIZE {
      assert last - n == c.end / PAGE_SIZE + 1;
    } else {
      EmptyRange(h.pool, last, last, atAddress);
      EmptyRange(h.pool, c.end / PAGE_SIZE + 1, h.end / PAGE_SIZE, atAddress);
    }
  }

  lemma EmptyRange(s: Pool, first: int, last: int, atAddress: bool := false)
    requires last <= first
    ensures UnbackRange(s, first, last, atAddress) == s
  {
  }

  lemma ContractPlaced(h: Heap, wanted: int, c: Heap, atAddress: bool := false)
    requires Placed(h) && 0 <= wanted <= HEAP_MIN_SIZE && Contract(h, wanted, atAddress) == Some(c)
    ensures c == h.(end := h.start + HEAP_MIN_SIZE, pool := c.pool)
    ensures c.pool.pages.Keys == h.pool.pages.Keys && c.pool.count == h.pool.count
    ensures Placed(c) <==> ContractClean(h, atAddress)
  {
    hide Word, Contract, Owned, CleanRange, UnbackRange, Cleared;
    ContractPool(h, wanted, c, atAddress);
    var low, mid, high := h.start / PAGE_SIZE - 1, c.end / PAGE_SIZE + 1, h.end / PAGE_SIZE;
    forall p | InRange(p, mid, high)
      ensures InRange(p, low, high)
    {
    }
    UnbackRangeEffect(h.pool, mid, high, atAddress);
    if atAddress {
      UnbackAtAddress(h.pool, mid, high);
    } else {
      UnbackRangeExact(h.pool, mid, high);
    }
    forall p | InRange(p, low, c.end / PAGE_SIZE)
      ensures p in c.pool.pages && c.pool.pages[p].frame != 0
    {
      assert InRange(p, low, high) && !InRange(p, mid, high);
    }
  }

  /** The memory after the last hole has been cut to `size` bytes. */
  ghost function ShrunkMem(m: Mem, d: Chunk, size: int): Mem {
    PutFooter(PutWord(m, d.addr + 8, size), d.addr + size - FOOTER_SIZE, d.addr)
  }

  lemma ShrunkTags(m: Mem, d: Chunk, size: int)
    requires d.hole && HeaderOf(m, d) && 0 <= d.addr && TAGS_SIZE <= size && d.addr + size < WORD_LIMIT
    ensures var e, r := Chunk(d.addr, size, true), ShrunkMem(m, d, size);
            HeaderOf(r, e) && FooterOf(r, e) && forall a :: a < d.addr ==> Byte(r, a) == Byte(m, a)
  {
    hide Byte, Word, PutWord, PutFooter;
    var m1 := PutWord(m, d.addr + 8, size);
    var r := ShrunkMem(m, d, size);
    assert HoleFlag(r, d.addr) == HoleFlag(m1, d.addr) == HoleFlag(m, d.addr);
  }

  lemma SettleUnfolds(h: Heap, d: Chunk, right: int, indexed: bool, atAddress: bool, c: Heap)
    requires Contract(h, d.addr - h.start, atAddress) == Some(c) && c.start == h.start
    requires d.End() == h.end && 0 <= d.addr < c.end < WORD_LIMIT && c.end <= h.end && Size(h.mem, d.addr) == d.size
    requires FOOTER_SIZE <= c.end - d.addr
    ensures Settle(h, d.addr, d.End() - FOOTER_SIZE, right, indexed, atAddress)
         == Done(Reindex(c.(mem := ShrunkMem(h.mem, d, c.end - d.addr)), d.addr, indexed), 0)
  {
    hide Byte, Word, PutWord, PutFooter, Reindex, UnbackDown;
    assert (d.size - (h.end - c.end)) % WORD_LIMIT == c.end - d.addr;
  }

  /** Contraction within the minimum size: the last hole is cut to end at the minimum. */
  lemma SettleShrinks(h: Heap, d: Chunk, right: int, indexed: bool, atAddress: bool := false)
    requires Placed(h) && d.End() == h.end && h.start <= d.addr && d.addr + TAGS_SIZE <= h.start + HEAP_MIN_SIZE
    requires d.hole && HeaderOf(h.mem, d)
    ensures var r := Settle(h, d.addr, d.End() - FOOTER_SIZE, right, indexed, atAddress);
            var end := h.start + HEAP_MIN_SIZE;
            var e := Chunk(d.addr, end - d.addr, true);
            && r.Done?
            && r.heap == Reindex(h.(mem := r.heap.mem, end := end, pool := r.heap.pool), d.addr, indexed)
            && SamePlace(h, r.heap)
            && (Placed(r.heap) <==> ContractClean(h, atAddress))
            && HeaderOf(r.heap.mem, e) && FooterOf(r.heap.mem, e)
            && (forall a :: a < d.addr ==> Byte(r.heap.mem, a) == Byte(h.mem, a))
  {
    hide Byte, Word, PutWord, PutFooter, Inserted, Placed, ContractClean, Contract, Settle, ShrunkMem, FooterOf;
    var wanted := d.addr - h.start;
    PlacedBounds(h);
    ContractHappens(h, wanted, atAddress);
    var c := Contract(h, wanted, atAddress).value;
    ContractPlaced(h, wanted, c, atAddress);
    var size := c.end - d.addr;
    SettleUnfolds(h, d, right, indexed, atAddress, c);
    ShrunkTags(h.mem, d, size);
    PlacedBoth(c, Settle(h, d.addr, d.End() - FOOTER_SIZE, right, indexed, atAddress).heap);
  }

  lemma ContractHappens(h: Heap, wanted: int, atAddress: bool := false)
    requires wanted < h.end - h.start
    ensures Contract(h, wanted, atAddress).Some?
  {
  }

  lemma PlacedBoth(c: Heap, g: Heap)
    requires 0 < c.start && g == c.(mem := g.mem, index := g.index)
    requires forall a :: a < c.start ==> Byte(g.mem, a) == Byte(c.mem, a)
    ensures Placed(g) <==> Placed(c)
  {
    WordSame(c.mem, g.mem, c.start - FOOTER_SIZE);
  }

  lemma PlacedBounds(h: Heap)
    requires Placed(h)
    ensures 0 < h.start && h.start + HEAP_MIN_SIZE <= h.end < WORD_LIMIT
  {
  }

  lemma PlacedElsewhere(c: Heap, g: Heap)
    requires Placed(c) && g == c.(mem := g.mem, index := g.index)
    requires forall a :: a < c.start ==> Byte(g.mem, a) == Byte(c.mem, a)
    ensures Placed(g)
  {
    PlacedSame(c, g);
  }

  /** The last chunk, with contraction inside the minimum size. */
  lemma FreeLast(h: Heap, cs: seq<Chunk>, k: nat, atAddress: bool := false)
    requires Represents(h, cs) && k + 1 == |cs| && !cs[k].hole && !RightHole(h, cs[k].addr)
    requires Readable(h, h.end) && ContractClean(h, atAddress)
    requires LeftMerged(cs, k).addr + TAGS_SIZE <= h.start + HEAP_MIN_SIZE
    requires HoleBefore(cs, k) || |h.index| < HEAP_INDEX_SIZE
    ensures var r := Free(h, cs[k].addr + HEADER_SIZE, atAddress);
            && r.Done? && SamePlace(h, r.heap)
            && Good(r.heap, Blocks(cs) - {cs[k]}) && Untouched(h.mem, r.heap.mem, Blocks(cs) - {cs[k]})
  {
    hide Represents, MergeLeft, Byte, Word, PutByte, PutWord, Holes, Blocks, MergedHead, LeftHole, RightHole;
    hide Good, Inserted, Settle, Placed;
    var d := LeftMerged(cs, k);
    NeighboursRead(h, cs, k);
    MergeLeftWrites(h, cs, k);
    FreeUnfolds(h, cs, k, atAddress);
    var was := h.(mem := AfterLeft(h, cs[k]).mem);
    RepresentsParts(h, cs);
    PlacedElsewhere(h, was);
    PlacedBounds(h);
    SettleShrinks(was, d, cs[k].End(), HoleBefore(cs, k), atAddress);
    var g := Free(h, cs[k].addr + HEADER_SIZE, atAddress).heap;
    ReindexMultiset(was.(mem := g.mem, end := g.end, pool := g.pool), h.index, d.addr, HoleBefore(cs, k), g);
    HolesLeft(cs, k);
    IndexedLeft(h, cs, k);
    JoinedRepresents(h, cs, k, k + 1, Chunk(d.addr, g.end - d.addr, true), g);
    JoinedUntouched(h, cs, k, k + 1, g.mem);
  }

  /** The last chunk, when a frame taken by the contraction clears the bit of another. */
  lemma FreeLastUnclean(h: Heap, cs: seq<Chunk>, k: nat, atAddress: bool := false)
    requires Represents(h, cs) && k + 1 == |cs| && !cs[k].hole && !RightHole(h, cs[k].addr)
    requires Readable(h, h.end) && !ContractClean(h, atAddress)
    requires LeftMerged(cs, k).addr + TAGS_SIZE <= h.start + HEAP_MIN_SIZE
    ensures var r := Free(h, cs[k].addr + HEADER_SIZE, atAddress);
            r.Done? && forall live :: !Good(r.heap, live)
  {
    hide MergeLeft, Byte, Word, PutByte, PutWord, Holes, Blocks, MergedHead, LeftHole, RightHole, Inserted, Settle, Placed;
    hide ContractClean, Readable;
    NeighboursRead(h, cs, k);
    MergeLeftWrites(h, cs, k);
    FreeUnfolds(h, cs, k, atAddress);
    var was := h.(mem := AfterLeft(h, cs[k]).mem);
    PlacedElsewhere(h, was);
    PlacedBounds(h);
    CleanSame(h, was, atAddress);
    SettleShrinks(was, LeftMerged(cs, k), cs[k].End(), HoleBefore(cs, k), atAddress);
  }

  lemma CleanSame(h: Heap, g: Heap, atAddress: bool := false)
    requires g == h.(mem := g.mem)
    ensures ContractClean(g, atAddress) == ContractClean(h, atAddress)
  {
  }

  /** Contraction to a size that leaves no room for the joined hole: it stays indexed beyond the end. */
  lemma SettleBeyond(h: Heap, d: Chunk, right: int, indexed: bool, atAddress: bool := false)
    requires Placed(h) && d.End() == h.end && h.start + HEAP_MIN_SIZE < d.addr + TAGS_SIZE && TAGS_SIZE <= d.size
    requires indexed ==> d.addr in h.index
    requires right !in h.index
    ensures var r := Settle(h, d.addr, d.End() - FOOTER_SIZE, right, indexed, atAddress);
            r.Done? && forall live :: !Good(r.heap, live)
  {
    hide Byte, Word, PutWord, PutFooter, Blocks, Represents, Inserted, Size;
    var wanted := d.addr - h.start;
    PlacedBounds(h);
    assert Contract(h, wanted, atAddress).Some?;
    var c := Contract(h, wanted, atAddress).value;
    assert c.end < d.addr + TAGS_SIZE;
    var r := Settle(h, d.addr, d.End() - FOOTER_SIZE, right, indexed, atAddress);
    var was := c.(mem := r.heap.mem);
    assert r.heap == Reindex(was, d.addr, indexed);
    ReindexMultiset(was, h.index, d.addr, indexed, r.heap);
    assert d.addr in multiset(r.heap.index);
    forall live
      ensures !Good(r.heap, live)
    {
      if Good(r.heap, live) {
        var ds :| Represents(r.heap, ds) && Blocks(ds) == live;
        ChunkAt(r.heap, ds, d.addr);
      }
    }
  }

  /** The address just past the heap is never indexed. */
  lemma EndNotIndexed(h: Heap, cs: seq<Chunk>)
    requires Represents(h, cs)
    ensures h.end !in h.index
  {
    if h.end in h.index {
      ChunkAt(h, cs, h.end);
    }
  }

  /** The last chunk, when contraction is reached and would cut elsewhere. */
  lemma FreeLastBeyond(h: Heap, cs: seq<Chunk>, k: nat, atAddress: bool := false)
    requires Represents(h, cs) && k + 1 == |cs| && !cs[k].hole
    requires Readable(h, h.end) && !RightHole(h, cs[k].addr)
    requires h.start + HEAP_MIN_SIZE < LeftMerged(cs, k).addr + TAGS_SIZE
    ensures var r := Free(h, cs[k].addr + HEADER_SIZE, atAddress);
            r.Done? && forall live :: !Good(r.heap, live)
  {
    hide Represents, MergeLeft, Byte, Word, PutByte, PutWord, Holes, Blocks, MergedHead, LeftHole, RightHole;
    hide Good, Settle, Placed, Readable;
    NeighboursRead(h, cs, k);
    FreeUnfolds(h, cs, k, atAddress);
    EndNotIndexed(h, cs);
    MergeLeftWrites(h, cs, k);
    var was := h.(mem := AfterLeft(h, cs[k]).mem);
    RepresentsParts(h, cs);
    PlacedElsewhere(h, was);
    IndexedLeft(h, cs, k);
    assert HoleBefore(cs, k) ==> cs[k - 1].addr in multiset(h.index);
    SettleBeyond(was, LeftMerged(cs, k), cs[k].End(), HoleBefore(cs, k), atAddress);
  }

  /** The last chunk, when contraction would cut elsewhere or stray tags lie past the end. */
  lemma FreeLastFails(h: Heap, cs: seq<Chunk>, k: nat, atAddress: bool := false)
    requires Represents(h, cs) && k + 1 == |cs| && !cs[k].hole
    requires !Readable(h, h.end) || RightHole(h, cs[k].addr)
          || h.start + HEAP_MIN_SIZE < LeftMerged(cs, k).addr + TAGS_SIZE
    ensures var r := Free(h, cs[k].addr + HEADER_SIZE, atAddress);
            r.Panic? || forall live :: !Good(r.heap, live)
  {
    hide Represents, MergeLeft, Byte, Word, PutByte, PutWord, Holes, Blocks, MergedHead, LeftHole, RightHole;
    hide Good, Settle, Placed;
    NeighboursRead(h, cs, k);
    FreeUnfolds(h, cs, k, atAddress);
    EndNotIndexed(h, cs);
    if Readable(h, h.end) && !RightHole(h, cs[k].addr) {
      FreeLastBeyond(h, cs, k, atAddress);
    }
  }

  /** A full index has no place for one more hole: it is written behind the index. */
  lemma FreeOverflows(h: Heap, cs: seq<Chunk>, k: nat, atAddress: bool := false)
    requires Represents(h, cs) && k + 1 < |cs| && !cs[k].hole && !HoleAfter(cs, k) && !HoleBefore(cs, k)
    requires |h.index| == HEAP_INDEX_SIZE
    ensures var r := Free(h, cs[k].addr + HEADER_SIZE, atAddress);
            r.Done? && forall live :: !Good(r.heap, live)
  {
    hide MergeLeft, Byte, Word, PutByte, PutWord, Holes, Blocks, MergedHead, LeftHole, RightHole, Reindex;
    NeighboursRead(h, cs, k);
    FreeUnfolds(h, cs, k, atAddress);
    var was := h.(mem := AfterLeft(h, cs[k]).mem);
    var r := Free(h, cs[k].addr + HEADER_SIZE, atAddress);
    ReindexMultiset(was, h.index, LeftMerged(cs, k).addr, false, r.heap);
  }

  lemma ChunkOf(cs: seq<Chunk>, c: Chunk) returns (k: nat)
    requires c in Blocks(cs)
    ensures k < |cs| && cs[k] == c && !c.hole
  {
    k :| 0 <= k < |cs| && cs[k] == c;
  }

  lemma FreeDecided(h: Heap, cs: seq<Chunk>, k: nat, atAddress: bool := false)
    requires Represents(h, cs) && k < |cs| && !cs[k].hole
    ensures var r := Free(h, cs[k].addr + HEADER_SIZE, atAddress);
            var live := Blocks(cs) - {cs[k]};
            if FreeGuard(h, cs[k].addr + HEADER_SIZE, atAddress)
            then r.Done? && SamePlace(h, r.heap) && Good(r.heap, live) && Untouched(h.mem, r.heap.mem, live)
            else r.Panic? || !Good(r.heap, live)
  {
    hide Represents, Byte, Word, Blocks, Holes, MergedHead, LeftHole, RightHole, Good, Free, Untouched;
    NeighboursRead(h, cs, k);
    RepresentsParts(h, cs);
    LastEnds(h, cs);
    if k + 1 == |cs| {
      if
        Readable(h, h.end) && !RightHole(h, cs[k].addr) && LeftMerged(cs, k).addr + TAGS_SIZE <= h.start + HEAP_MIN_SIZE
      {
        if !ContractClean(h, atAddress) {
          FreeLastUnclean(h, cs, k, atAddress);
        } else if HoleBefore(cs, k) || |h.index| < HEAP_INDEX_SIZE {
          FreeLast(h, cs, k, atAddress);
        } else {
          FreeLastOverflows(h, cs, k, atAddress);
        }
      } else {
        FreeLastFails(h, cs, k, atAddress);
      }
    } else if !HoleAfter(cs, k) {
      if HoleBefore(cs, k) || |h.index| < HEAP_INDEX_SIZE {
        FreeMiddle(h, cs, k, atAddress);
      } else {
        FreeOverflows(h, cs, k, atAddress);
      }
    } else if k + 2 == |cs| {
      FreeRightLast(h, cs, k, atAddress);
    } else {
      InnerFooter(h, cs, k + 1);
      FreeRightInner(h, cs, k, atAddress);
    }
  }

  lemma FreeLastOverflows(h: Heap, cs: seq<Chunk>, k: nat, atAddress: bool := false)
    requires Represents(h, cs) && k + 1 == |cs| && !cs[k].hole && !RightHole(h, cs[k].addr) && !HoleBefore(cs, k)
    requires Readable(h, h.end)
    requires cs[k].addr + TAGS_SIZE <= h.start + HEAP_MIN_SIZE && |h.index| == HEAP_INDEX_SIZE
    ensures var r := Free(h, cs[k].addr + HEADER_SIZE, atAddress);
            r.Done? && forall live :: !Good(r.heap, live)
  {
    hide MergeLeft, Byte, Word, PutByte, PutWord, Holes, Blocks, MergedHead, LeftHole, RightHole, Inserted;
    hide Settle, Placed;
    NeighboursRead(h, cs, k);
    MergeLeftWrites(h, cs, k);
    FreeUnfolds(h, cs, k, atAddress);
    var was := h.(mem := AfterLeft(h, cs[k]).mem);
    PlacedElsewhere(h, was);
    var d := LeftMerged(cs, k);
    SettleShrinks(was, d, cs[k].End(), false, atAddress);
    var g := Free(h, cs[k].addr + HEADER_SIZE, atAddress).heap;
    ReindexMultiset(was.(mem := g.mem, end := g.end, pool := g.pool), h.index, d.addr, false, g);
  }

  /** A release keeps the heap sound exactly under the guard. */
  lemma FreeExact(h: Heap, live: set<Chunk>, c: Chunk, atAddress: bool := false)
    requires Good(h, live) && c in live
    ensures var r := Free(h, c.addr + HEADER_SIZE, atAddress);
            FreeGuard(h, c.addr + HEADER_SIZE, atAddress) <==> r.Done? && Good(r.heap, live - {c})
    ensures var r := Free(h, c.addr + HEADER_SIZE, atAddress);
            FreeGuard(h, c.addr + HEADER_SIZE, atAddress) ==>
              r.Done? && SamePlace(h, r.heap) && Untouched(h.mem, r.heap.mem, live - {c})
  {
    hide Represents, Free, FreeGuard, Untouched, SamePlace;
    var cs :| Represents(h, cs) && Blocks(cs) == live;
    var k := ChunkOf(cs, c);
    FreeDecided(h, cs, k, atAddress);
  }

  // ----- what a release checks and writes

  /** What the release of the last block sees past the heap: nothing without a present page, the bytes
      at address 0 when that page has lost its frame, and otherwise the bytes that are there. */
  lemma PastEndRead(h: Heap, cs: seq<Chunk>, k: nat)
    requires Represents(h, cs) && k + 1 == |cs| && !cs[k].hole
    ensures var page := h.end / PAGE_SIZE;
            RightHole(h, cs[k].addr) <==>
              && page in h.pool.pages && h.pool.pages[page].present
              && var at := if h.pool.pages[page].frame == 0 then 0 else h.end;
                 Word(h.mem, at) == 0x123890AB && Byte(h.mem, at + 4) != 0
  {
    hide Word, Byte;
    NeighboursRead(h, cs, k);
    RepresentsParts(h, cs);
  }

  /** A release stops the kernel, whatever the heap, when the header or the footer it finds through the
      given address has no magic. */
  lemma FreeRejects(h: Heap, p: int, atAddress: bool := false)
    requires p != 0
    requires var block := p - HEADER_SIZE;
             Magic(h.mem, block) != HEAP_MAGIC || FootMagic(h.mem, block + Size(h.mem, block) - FOOTER_SIZE) != HEAP_MAGIC
    ensures Free(h, p, atAddress) == Panic
  {
    hide Word, MergeRight, MergeLeft;
  }

  /** The cells a release may write: the block's hole flag, the header's address in its footer, and the
      size of the joined hole. */
  predicate ReleaseCell(c: Chunk, head: int, a: int) {
    a == c.addr + 4 || c.End() - 4 <= a < c.End() || head + 8 <= a < head + 12
  }

  lemma MergeLeftCells(h: Heap, c: Chunk, a: int)
    requires !ReleaseCell(c, AfterLeft(h, c).head, a)
    ensures Byte(AfterLeft(h, c).mem, a) == Byte(h.mem, a)
  {
    hide Word, Byte, PutWord, PutByte;
  }

  /** A guarded release writes into those cells only, and into a new footer when the heap contracts. */
  lemma FreeWrites(h: Heap, cs: seq<Chunk>, k: nat, a: int, atAddress: bool := false)
    requires Represents(h, cs) && k < |cs| && !cs[k].hole && FreeGuard(h, cs[k].addr + HEADER_SIZE, atAddress)
    requires !ReleaseCell(cs[k], LeftMerged(cs, k).addr, a)
    requires k + 1 == |cs| ==> !(h.start + HEAP_MIN_SIZE - FOOTER_SIZE <= a < h.start + HEAP_MIN_SIZE)
    ensures var r := Free(h, cs[k].addr + HEADER_SIZE, atAddress);
            r.Done? && Byte(r.heap.mem, a) == Byte(h.mem, a)
  {
    hide Represents, MergeLeft, Byte, Word, PutByte, PutWord, PutFooter, MergedHead, LeftHole, Free, Settle, Contract, Placed;
    hide AfterLeft, ContractClean, Readable, Reindex;
    NeighboursRead(h, cs, k);
    MergeLeftWrites(h, cs, k);
    LeftHead(h, cs[k], LeftMerged(cs, k).addr);
    MergeLeftCells(h, cs[k], a);
    if k + 1 == |cs| {
      LastWrites(h, cs, k, a, atAddress);
    } else if HoleAfter(cs, k) {
      FreeRight(h, cs, k, atAddress);
      ReindexMemory(h, AfterRight(h, cs, k), Removed(h.index, Find(h.index, cs[k + 1].addr)), LeftMerged(cs, k).addr, HoleBefore(cs, k));
    } else {
      InnerWrites(h, cs, k, atAddress);
    }
  }

  lemma LeftHead(h: Heap, c: Chunk, head: int)
    requires MergeLeft(PutByte(h.mem, c.addr + 4, 1), c.addr, c.End() - FOOTER_SIZE).head == head
    ensures AfterLeft(h, c).head == head
  {
    hide MergeLeft;
  }

  lemma ReindexMemory(h: Heap, m: Mem, index: seq<int>, head: int, indexed: bool)
    ensures Reindex(h.(mem := m, index := index), head, indexed).mem == m
  {
  }

  lemma InnerWrites(h: Heap, cs: seq<Chunk>, k: nat, atAddress: bool)
    requires Represents(h, cs) && k + 1 < |cs| && !cs[k].hole && !HoleAfter(cs, k)
    ensures var r := Free(h, cs[k].addr + HEADER_SIZE, atAddress);
            r.Done? && r.heap.mem == AfterLeft(h, cs[k]).mem
  {
    hide Represents, Free, AfterLeft, HoleBefore, HoleAfter, LeftMerged;
    FreePlain(h, cs, k, atAddress);
  }

  lemma LastWrites(h: Heap, cs: seq<Chunk>, k: nat, a: int, atAddress: bool)
    requires Represents(h, cs) && k + 1 == |cs| && !cs[k].hole && FreeGuard(h, cs[k].addr + HEADER_SIZE, atAddress)
    requires var head := LeftMerged(cs, k).addr;
             !(head + 8 <= a < head + 12) && !(h.start + HEAP_MIN_SIZE - FOOTER_SIZE <= a < h.start + HEAP_MIN_SIZE)
    ensures var r := Free(h, cs[k].addr + HEADER_SIZE, atAddress);
            r.Done? && Byte(r.heap.mem, a) == Byte(AfterLeft(h, cs[k]).mem, a)
  {
    hide Represents, MergeLeft, Byte, Word, PutByte, PutWord, PutFooter, MergedHead, LeftHole, Settle, Contract, Placed;
    hide ContractClean, Readable, Reindex, RightHole, Find, Free;
    NeighboursRead(h, cs, k);
    MergeLeftWrites(h, cs, k);
    FreeUnfolds(h, cs, k, atAddress);
    RepresentsParts(h, cs);
    var was := h.(mem := AfterLeft(h, cs[k]).mem);
    PlacedElsewhere(h, was);
    PlacedBounds(h);
    var d := LeftMerged(cs, k);
    ContractHappens(was, d.addr - h.start, atAddress);
    var c := Contract(was, d.addr - h.start, atAddress).value;
    ContractPlaced(was, d.addr - h.start, c, atAddress);
    SettleUnfolds(was, d, cs[k].End(), HoleBefore(cs, k), atAddress, c);
    ReindexMemory(c, ShrunkMem(was.mem, d, c.end - d.addr), c.index, d.addr, HoleBefore(cs, k));
    ShrunkCells(was.mem, d, c.end - d.addr, a);
  }

  lemma ShrunkCells(m: Mem, d: Chunk, size: int, a: int)
    requires !(d.addr + 8 <= a < d.addr + 12) && !(d.addr + size - FOOTER_SIZE <= a < d.addr + size)
    ensures Byte(ShrunkMem(m, d, size), a) == Byte(m, a)
  {
    hide Byte, Word, PutWord, PutFooter;
  }
}
