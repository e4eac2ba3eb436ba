/** Allocation keeps the heap a tiling of coalesced chunks exactly when growth, if it happens,
    finds the space next to the old end free and a frame for every new page. */
module HeapAlloc {
  import opened Backing
  import opened Memory
  import opened OrderedArrays
  import opened KHeap
  import opened Chunks
  import opened Owners

  // ----- cutting a block out of a hole

  ghost function Cut(c: Chunk, size: int): seq<Chunk> {
    var need := BlockSize(size, c.size);
    [Chunk(c.addr, need, false)]
    + if need < c.size then [Chunk(c.addr + need, c.size - need, true)] else []
  }

  /** The memory after both tags of a chunk have been written. */
  ghost function TaggedMem(m: Mem, c: Chunk): Mem {
    PutFooter(PutHeader(m, c.addr, if c.hole then 1 else 0, c.size), c.End() - FOOTER_SIZE, c.addr)
  }

  /** Writing the two tags of a chunk stores it and touches nothing outside them. */
  lemma Tagged(m: Mem, c: Chunk)
    requires 0 <= c.addr && TAGS_SIZE <= c.size && c.End() < WORD_LIMIT
    ensures var r := TaggedMem(m, c);
            && HeaderOf(r, c) && FooterOf(r, c)
            && (forall a :: !(c.addr <= a < c.addr + HEADER_SIZE) && !(c.End() - FOOTER_SIZE <= a < c.End())
                  ==> Byte(r, a) == Byte(m, a))
  {
    hide PutHeader, PutFooter, Word, Byte;
    var m1 := PutHeader(m, c.addr, if c.hole then 1 else 0, c.size);
    var r := PutFooter(m1, c.End() - FOOTER_SIZE, c.addr);
    assert HoleFlag(r, c.addr) == HoleFlag(m1, c.addr);
  }

  /** The memory `Carve` leaves: the tags of the block, then those of the rest. */
  lemma CarveMemory(h: Heap, it: nat, size: int, c: Chunk)
    requires it < |h.index| && h.index[it] == c.addr && Size(h.mem, c.addr) == c.size
    requires 0 <= size && size + TAGS_SIZE <= c.size && c.End() <= h.end
    ensures var need := BlockSize(size, c.size);
            var m := TaggedMem(h.mem, Chunk(c.addr, need, false));
            Carve(h, it, size).mem ==
              if need < c.size then TaggedMem(m, Chunk(c.addr + need, c.size - need, true)) else m
  {
    hide PutHeader, PutFooter, Word, Byte, Inserted, Removed;
  }

  /** The bytes and cells written by `Carve`. */
  lemma CarveWrites(h: Heap, it: nat, size: int, c: Chunk)
    requires it < |h.index| && h.index[it] == c.addr && Size(h.mem, c.addr) == c.size
    requires 0 <= size && size + TAGS_SIZE <= c.size && 0 <= c.addr && c.End() <= h.end < WORD_LIMIT
    ensures var g := Carve(h, it, size);
            && (forall a :: !(c.addr <= a < c.End()) ==> Byte(g.mem, a) == Byte(h.mem, a))
            && (forall k :: 0 <= k < |Cut(c, size)| ==> Stored(g.mem, Cut(c, size)[k], g.end))
  {
    hide Carve, TaggedMem, Word, Load, Byte;
    CarveMemory(h, it, size, c);
    CarveFields(h, it, size);
    var need := BlockSize(size, c.size);
    var block := Chunk(c.addr, need, false);
    var rest := Chunk(c.addr + need, c.size - need, true);
    Tagged(h.mem, block);
    if need < c.size {
      var m2 := TaggedMem(h.mem, block);
      Tagged(m2, rest);
      StoredSame(m2, TaggedMem(m2, rest), block, h.end, h.end);
    }
  }

  lemma CarveIndex(h: Heap, it: nat, size: int, c: Chunk)
    requires it < |h.index| && h.index[it] == c.addr && Size(h.mem, c.addr) == c.size && c.hole
    requires 0 <= size && size + TAGS_SIZE <= c.size
    ensures var g := Carve(h, it, size);
            && multiset(g.index) == multiset(h.index) - multiset(Holes([c])) + multiset(Holes(Cut(c, size)))
            && |g.index| <= |h.index|
  {
    hide Holes, Cut, PutHeader, PutFooter, Size, Inserted, Removed, Place;
    var g := Carve(h, it, size);
    var need := BlockSize(size, c.size);
    var index := Removed(h.index, it);
    OneHole(c);
    CutHoles(c, size);
    RemoveMultiset(h.index, it);
    assert |index| == |h.index| - 1;
    if need < c.size {
      InsertMultiset(index, c.addr + need, SmallerThan(g.mem));
      assert g.index == Inserted(index, c.addr + need, SmallerThan(g.mem));
    } else {
      assert g.index == index;
    }
  }

  lemma OneHole(c: Chunk)
    ensures Holes([c]) == if c.hole then [c.addr] else []
  {
  }

  lemma CutHoles(c: Chunk, size: int)
    requires size + TAGS_SIZE <= c.size
    ensures Holes(Cut(c, size)) == if BlockSize(size, c.size) < c.size then [c.addr + BlockSize(size, c.size)] else []
  {
    var need := BlockSize(size, c.size);
    if need < c.size {
      var rest := Chunk(c.addr + need, c.size - need, true);
      assert Cut(c, size)[1..] == [rest];
      assert Holes([rest]) == [rest.addr];
    }
  }

  lemma CutTiles(c: Chunk, size: int)
    requires 0 <= size && size + TAGS_SIZE <= c.size
    ensures Tiles(Cut(c, size), c.addr, c.End()) && Coalesced(Cut(c, size)) && !Cut(c, size)[0].hole
  {
  }

  lemma CarveFields(h: Heap, it: nat, size: int)
    requires it < |h.index|
    ensures var g := Carve(h, it, size);
            g == h.(mem := g.mem, index := g.index)
  {
  }

  /** The word below the heap is out of reach of writes at or above its start. */
  lemma PlacedSame(h: Heap, g: Heap)
    requires Placed(h)
    requires forall a :: a < h.start ==> Byte(g.mem, a) == Byte(h.mem, a)
    ensures FootMagic(g.mem, h.start - FOOTER_SIZE) != HEAP_MAGIC
  {
    LoadSame(h.mem, g.mem, h.start - 8, h.start - 4);
  }

  lemma CarveRepresents(h: Heap, cs: seq<Chunk>, it: nat, size: int, i: nat)
    requires Represents(h, cs) && it < |h.index| && i < |cs|
    requires cs[i].hole && cs[i].addr == h.index[it]
    requires 0 <= size && size + TAGS_SIZE <= cs[i].size
    ensures Represents(Carve(h, it, size), cs[..i] + Cut(cs[i], size) + cs[i + 1..])
  {
    hide Carve, Cut, Word, Byte, Holes;
    TilesLayout(cs, h.start, h.end);
    assert Stored(h.mem, cs[i], h.end);
    CarveWrites(h, it, size, cs[i]);
    CarveIndex(h, it, size, cs[i]);
    CarveFields(h, it, size);
    CutTiles(cs[i], size);
    var g := Carve(h, it, size);
    assert cs[i..i + 1] == [cs[i]];
    assert i + 1 < |cs| ==> cs[i + 1].addr == cs[i].End();
    PlacedSame(h, g);
    Splice(h, g, cs, i, i + 1, Cut(cs[i], size));
  }

  // ----- growth

  /** The pages a loop visits that steps from `it` up to `limit`, or from `limit` down to `it`. */
  function Steps(it: int, limit: int): nat {
    if it < limit then (limit - it + PAGE_SIZE - 1) / PAGE_SIZE else 0
  }

  /** The loop of `expand` over addresses is the loop over page numbers. */
  lemma {:induction false} BackFromPages(s: Pool, start: int, it: int, limit: int, w: bool)
    ensures var first := (start + it) / PAGE_SIZE;
            BackFrom(s, start, it, limit, w) == BackRange(s, first, first + Steps(it, limit), w)
    decreases limit - it
  {
    hide Back;
    if it < limit {
      var first := (start + it) / PAGE_SIZE;
      assert (start + it + PAGE_SIZE) / PAGE_SIZE == first + 1;
      assert Steps(it, limit) == 1 + Steps(it + PAGE_SIZE, limit);
      BackFromPages(Back(s, first, w), start, it + PAGE_SIZE, limit, w);
    }
  }

  /** Page rounding always adds more than was asked for, by at most one page. */
  lemma RoundUpBounds(size: int)
    ensures size >= PAGE_SIZE ==> RoundUp(size) % PAGE_SIZE == 0 && size < RoundUp(size) <= size + PAGE_SIZE
    ensures size < PAGE_SIZE ==> RoundUp(size) == size
  {
  }

  ghost predicate LastIsHole(cs: seq<Chunk>) {
    |cs| > 0 && cs[|cs| - 1].hole
  }

  /** The chunks after growth by `extra` bytes at the end of the heap. */
  ghost function Grown(cs: seq<Chunk>, end: int, extra: int): seq<Chunk> {
    if LastIsHole(cs) then
      var last := cs[|cs| - 1];
      cs[..|cs| - 1] + [Chunk(last.addr, last.size + extra, true)]
    else
      cs + [Chunk(end, extra, true)]
  }

  /** The highest indexed hole is the last one. */
  lemma HighestHole(h: Heap, cs: seq<Chunk>)
    requires Represents(h, cs)
    ensures Highest(h.index, 0) == 0 <==> h.index == []
    ensures LastIsHole(cs) ==> Highest(h.index, 0) == cs[|cs| - 1].addr
    ensures h.index != [] ==>
              exists i :: 0 <= i < |cs| && cs[i].hole && cs[i].addr == Highest(h.index, 0)
  {
    TilesLayout(cs, h.start, h.end);
    var top := Highest(h.index, 0);
    if h.index != [] {
      Indexed(h, cs, h.index[0]);
      assert h.index[0] > 0;
      Indexed(h, cs, top);
    }
    if LastIsHole(cs) {
      var last := cs[|cs| - 1];
      Indexed(h, cs, last.addr);
      var i :| 0 <= i < |h.index| && h.index[i] == last.addr;
    }
  }

  /** Where growth by `need` bytes puts the end. */
  function NewEnd(h: Heap, need: int): int {
    h.start + RoundUp(h.end - h.start + need)
  }

  /** The tables of the pages to be added exist. */
  ghost predicate TablesFor(h: Heap, need: int) {
    Tabled(h.pool, h.end / PAGE_SIZE, NewEnd(h, need) / PAGE_SIZE)
  }

  /** There is a frame for each page to be added that has none. */
  predicate FramesFor(h: Heap, need: int) {
    EnoughFrames(h.pool, h.end / PAGE_SIZE, NewEnd(h, need) / PAGE_SIZE)
  }

  lemma GrowFields(h: Heap, need: int, g: Heap)
    requires h.start <= h.end && PAGE_SIZE <= h.end - h.start && 0 <= need && Grow(h, need) == Some(g)
    ensures g == h.(end := g.end, mem := g.mem, index := g.index, pool := g.pool)
    ensures g.end == NewEnd(h, need) <= h.max
    ensures g.pool == BackFrom(h.pool, h.start, h.end - h.start, RoundUp(h.end - h.start + need), !h.readonly)
  {
    hide PutHeader, PutFooter, PutWord, Word, Byte, Inserted, RoundUp, BackFrom;
  }

  lemma GrowPool(h: Heap, need: int, g: Heap)
    requires Placed(h) && 0 <= need && Grow(h, need) == Some(g)
    ensures g == h.(end := g.end, mem := g.mem, index := g.index, pool := g.pool)
    ensures g.end == NewEnd(h, need) <= h.max && g.end % PAGE_SIZE == 0
    ensures need < g.end - h.end <= need + PAGE_SIZE
    ensures g.pool == BackRange(h.pool, h.end / PAGE_SIZE, g.end / PAGE_SIZE, !h.readonly)
  {
    hide Grow, Word, RoundUp, BackFrom, BackRange, Owned, HeldRange;
    var oldLen := h.end - h.start;
    RoundUpBounds(oldLen + need);
    GrowFields(h, need, g);
    BackFromPages(h.pool, h.start, oldLen, RoundUp(oldLen + need), !h.readonly);
    assert h.end / PAGE_SIZE + Steps(oldLen, RoundUp(oldLen + need)) == g.end / PAGE_SIZE;
  }

  /** Growth moves the end by more than `need`; it puts a frame of its own behind all of the new
      space exactly when there are frames enough. */
  lemma GrowPlaced(h: Heap, need: int, g: Heap)
    requires Placed(h) && 0 <= need && Grow(h, need) == Some(g) && TablesFor(h, need)
    requires forall a :: a < h.start ==> Byte(g.mem, a) == Byte(h.mem, a)
    ensures Placed(g) <==> FramesFor(h, need)
  {
    hide Grow, Word, Byte, BackRange, Owned, HeldRange, EnoughFrames;
    GrowPool(h, need, g);
    PlacedSame(h, g);
    var low, mid, high := h.start / PAGE_SIZE - 1, h.end / PAGE_SIZE, g.end / PAGE_SIZE;
    BackRangeGrows(h.pool, mid, high, !h.readonly);
    BackRangeExact(h.pool, mid, high, !h.readonly);
    if FramesFor(h, need) {
      HeldJoined(h.pool, g.pool, low, mid, high);
    }
  }

  lemma HeldJoined(s: Pool, r: Pool, low: int, mid: int, high: int)
    requires HeldRange(s, low, mid) && HeldRange(r, mid, high) && r.pages.Keys == s.pages.Keys
    requires forall p :: p in s.pages && (s.pages[p].frame != 0 || !InRange(p, mid, high)) ==> r.pages[p] == s.pages[p]
    ensures HeldRange(r, low, high)
  {
    forall p | InRange(p, low, high)
      ensures p in r.pages && r.pages[p].frame != 0
    {
      assert InRange(p, low, mid) || InRange(p, mid, high);
    }
  }

  /** The cells growth writes: a larger size and a footer for the highest hole, or a new hole. */
  lemma GrowWrites(h: Heap, need: int, g: Heap, c: Chunk)
    requires Grow(h, need) == Some(g) && 0 <= need && h.start < h.end < g.end < WORD_LIMIT
    requires var top := Highest(h.index, 0);
             c == if top == 0 then Chunk(h.end, g.end - h.end, true)
                  else Chunk(top, Size(h.mem, top) + g.end - h.end, true)
    requires TAGS_SIZE <= c.size && 0 <= c.addr && c.End() <= g.end
    requires Highest(h.index, 0) != 0 ==> Magic(h.mem, c.addr) == HEAP_MAGIC && HoleFlag(h.mem, c.addr) == 1
    ensures HeaderOf(g.mem, c) && FooterOf(g.mem, c)
    ensures forall a :: !(c.addr <= a < c.addr + HEADER_SIZE) && !(c.End() - FOOTER_SIZE <= a < c.End())
              ==> Byte(g.mem, a) == Byte(h.mem, a)
    ensures g.index == if Highest(h.index, 0) == 0 then Inserted(h.index, h.end, SmallerThan(g.mem)) else h.index
  {
    hide PutHeader, PutFooter, Word, Load, Byte, Inserted;
    Tagged(h.mem, c);
    var m1 := if Highest(h.index, 0) == 0 then PutHeader(h.mem, c.addr, 1, c.size) else PutWord(h.mem, c.addr + 8, c.size);
    var r := PutFooter(m1, c.End() - FOOTER_SIZE, c.addr);
    assert g.mem == r;
    assert HoleFlag(r, c.addr) == HoleFlag(m1, c.addr);
  }

  lemma ExtendRepresents(h: Heap, cs: seq<Chunk>, g: Heap, c: Chunk)
    requires Represents(h, cs) && LastIsHole(cs) && Placed(g)
    requires g == h.(end := g.end, mem := g.mem, pool := g.pool) && h.end < g.end
    requires c == Chunk(cs[|cs| - 1].addr, cs[|cs| - 1].size + g.end - h.end, true)
    requires HeaderOf(g.mem, c) && FooterOf(g.mem, c)
    requires forall a :: !(c.addr <= a < c.End()) ==> Byte(g.mem, a) == Byte(h.mem, a)
    ensures Represents(g, cs[..|cs| - 1] + [c])
  {
    hide Word, Byte, Holes;
    var n := |cs|;
    OneHole(c);
    OneHole(cs[n - 1]);
    assert cs[n - 1..n] == [cs[n - 1]];
    Indexed(h, cs, c.addr);
    assert c.addr in multiset(h.index);
    Splice(h, g, cs, n - 1, n, [c]);
    assert cs[..n - 1] + [c] + cs[n..] == cs[..n - 1] + [c];
  }

  lemma AppendRepresents(h: Heap, cs: seq<Chunk>, g: Heap, c: Chunk)
    requires Represents(h, cs) && !cs[|cs| - 1].hole && Placed(g) && |g.index| <= HEAP_INDEX_SIZE
    requires g == h.(end := g.end, mem := g.mem, pool := g.pool, index := g.index)
    requires c == Chunk(h.end, g.end - h.end, true) && TAGS_SIZE <= c.size
    requires multiset(g.index) == multiset(h.index) + multiset{c.addr}
    requires HeaderOf(g.mem, c) && FooterOf(g.mem, c)
    requires forall a :: !(c.addr <= a < c.End()) ==> Byte(g.mem, a) == Byte(h.mem, a)
    ensures Represents(g, cs + [c])
  {
    hide Word, Byte;
    var n := |cs|;
    OneHole(c);
    assert cs[n..n] == [];
    hide Holes;
    Splice(h, g, cs, n, n, [c]);
    assert cs[..n] + [c] + cs[n..] == cs + [c];
  }

  /** Growth next to a last chunk that is a hole, or on a heap without holes. */
  lemma GrowRepresents(h: Heap, cs: seq<Chunk>, need: int, g: Heap)
    requires Represents(h, cs) && TAGS_SIZE <= need && Grow(h, need) == Some(g)
    requires TablesFor(h, need) && FramesFor(h, need)
    requires LastIsHole(cs) || h.index == []
    ensures need < g.end - h.end <= need + PAGE_SIZE
    ensures Represents(g, Grown(cs, h.end, g.end - h.end))
  {
    var extra := g.end - h.end;
    var last := cs[|cs| - 1];
    var c := if LastIsHole(cs) then Chunk(last.addr, last.size + extra, true) else Chunk(h.end, extra, true);
    GrowSetting(h, cs, need, g);
    hide Grow, Word, Byte, Holes, Inserted, Represents, Placed, TablesFor, FramesFor;
    GrowWrites(h, need, g, c);
    GrowUntouched(h, cs, g, c);
    GrowPool(h, need, g);
    GrowPlaced(h, need, g);
    if LastIsHole(cs) {
      ExtendRepresents(h, cs, g, c);
    } else {
      InsertMultiset(h.index, h.end, SmallerThan(g.mem));
      AppendRepresents(h, cs, g, c);
    }
  }

  lemma GrowUntouched(h: Heap, cs: seq<Chunk>, g: Heap, c: Chunk)
    requires Represents(h, cs) && h.start <= c.addr && TAGS_SIZE <= c.size
    requires forall a :: !(c.addr <= a < c.addr + HEADER_SIZE) && !(c.End() - FOOTER_SIZE <= a < c.End())
               ==> Byte(g.mem, a) == Byte(h.mem, a)
    ensures Placed(h)
    ensures forall a :: a < h.start ==> Byte(g.mem, a) == Byte(h.mem, a)
    ensures forall a :: !(c.addr <= a < c.End()) ==> Byte(g.mem, a) == Byte(h.mem, a)
  {
  }

  lemma GrowSetting(h: Heap, cs: seq<Chunk>, need: int, g: Heap)
    requires Represents(h, cs) && 0 <= need && Grow(h, need) == Some(g)
    requires LastIsHole(cs) || h.index == []
    ensures h.end + need < g.end < WORD_LIMIT
    ensures var last := cs[|cs| - 1];
            && last.End() == h.end && 0 < h.start <= last.addr && last.size >= TAGS_SIZE
            && HeaderOf(h.mem, last)
            && Highest(h.index, 0) == (if last.hole then last.addr else 0)
            && (last.hole || h.index == [])
  {
    RoundUpBounds(h.end - h.start + need);
    TilesLayout(cs, h.start, h.end);
    HighestHole(h, cs);
    assert Stored(h.mem, cs[|cs| - 1], h.end);
    hide PutHeader, PutFooter, PutWord, Word, Byte, Inserted;
    if LastIsHole(cs) {
      Indexed(h, cs, cs[|cs| - 1].addr);
    }
  }

  // ----- the whole call

  /** `live` are the chunks handed out and not yet released. */
  ghost predicate Good(h: Heap, live: set<Chunk>) {
    exists cs :: Represents(h, cs) && Blocks(cs) == live
  }

  /** Some indexed hole ends where the heap ends. */
  predicate EndsInHole(h: Heap) {
    exists k :: 0 <= k < |h.index| && h.index[k] + Size(h.mem, h.index[k]) == h.end
  }

  predicate Fits(h: Heap, size: int) {
    FirstFit(h.mem, h.index, size + TAGS_SIZE) < |h.index|
  }

  predicate RoomToGrow(h: Heap, size: int) {
    NewEnd(h, size + TAGS_SIZE) <= h.max
  }

  /** The requests that are modelled: the sums stay below 2^32, and if the heap has to grow the page
      tables of the new space exist. */
  ghost predicate Modelled(h: Heap, size: int) {
    NoWrap(h, size) && (!Fits(h, size) && RoomToGrow(h, size) ==> TablesFor(h, size + TAGS_SIZE))
  }

  /** What a caller has to check before a request. */
  predicate AllocGuard(h: Heap, size: int) {
    || Fits(h, size)
    || (RoomToGrow(h, size) && (h.index == [] || EndsInHole(h)) && FramesFor(h, size + TAGS_SIZE))
  }

  /** The chunk behind a returned payload address. */
  function Granted(g: Heap, ptr: int): Chunk {
    Chunk(ptr - HEADER_SIZE, Size(g.mem, ptr - HEADER_SIZE), false)
  }

  lemma EndsInHoleExact(h: Heap, cs: seq<Chunk>)
    requires Represents(h, cs)
    ensures EndsInHole(h) <==> LastIsHole(cs)
  {
    TilesLayout(cs, h.start, h.end);
    if LastIsHole(cs) {
      var last := cs[|cs| - 1];
      Indexed(h, cs, last.addr);
      assert Stored(h.mem, last, h.end);
      var k :| 0 <= k < |h.index| && h.index[k] == last.addr;
    }
    if EndsInHole(h) {
      var k :| 0 <= k < |h.index| && h.index[k] + Size(h.mem, h.index[k]) == h.end;
      Indexed(h, cs, h.index[k]);
      var i :| 0 <= i < |cs| && cs[i].hole && cs[i].addr == h.index[k];
      assert Stored(h.mem, cs[i], h.end);
    }
  }

  /** The indexed hole at a position, as a chunk. */
  lemma HoleAt(h: Heap, cs: seq<Chunk>, it: nat) returns (i: nat)
    requires Represents(h, cs) && it < |h.index|
    ensures i < |cs| && cs[i].hole && cs[i].addr == h.index[it] && cs[i].size == Size(h.mem, h.index[it])
    ensures h.start <= cs[i].addr && cs[i].End() <= h.end
  {
    Indexed(h, cs, h.index[it]);
    i :| 0 <= i < |cs| && cs[i].hole && cs[i].addr == h.index[it];
    assert Stored(h.mem, cs[i], h.end);
    TilesLayout(cs, h.start, h.end);
  }

  /** Blocks lie outside every hole. */
  lemma BlocksOutside(cs: seq<Chunk>, lo: int, hi: int, i: nat)
    requires Tiles(cs, lo, hi) && i < |cs| && cs[i].hole
    ensures forall c :: c in Blocks(cs) ==> c.End() <= cs[i].addr || cs[i].End() <= c.addr
  {
    TilesLayout(cs, lo, hi);
    forall c | c in Blocks(cs)
      ensures c.End() <= cs[i].addr || cs[i].End() <= c.addr
    {
      var k :| 0 <= k < |cs| && cs[k] == c;
    }
  }

  /** The bytes of the chunks in `live` are the same in both memories. */
  ghost predicate Untouched(m: Mem, r: Mem, live: set<Chunk>) {
    forall c, a :: c in live && c.addr <= a < c.End() ==> Byte(r, a) == Byte(m, a)
  }

  /** Carving turns one hole into one new block of the right size; no byte of another block changes. */
  lemma CarveGood(h: Heap, cs: seq<Chunk>, it: nat, size: int)
    requires Represents(h, cs) && it < |h.index| && 0 <= size && size + TAGS_SIZE <= Size(h.mem, h.index[it])
    ensures var g := Carve(h, it, size);
            var block := Granted(g, h.index[it] + HEADER_SIZE);
            && Good(g, Blocks(cs) + {block}) && block !in Blocks(cs)
            && block.size == BlockSize(size, Size(h.mem, h.index[it]))
            && Untouched(h.mem, g.mem, Blocks(cs))
  {
    hide Carve, Word, Byte, Cut;
    var i := HoleAt(h, cs, it);
    var g := Carve(h, it, size);
    var mid := Cut(cs[i], size);
    CarveRepresents(h, cs, it, size, i);
    CarveWrites(h, it, size, cs[i]);
    BlocksSpliced(cs, h.start, h.end, i, i + 1, mid);
    CutBlocks(cs[i], size);
    assert Stored(g.mem, mid[0], g.end);
    assert cs[i..i + 1] == [cs[i]];
    BlocksOutside(cs, h.start, h.end, i);
    hide Represents, Blocks;
    assert Granted(g, h.index[it] + HEADER_SIZE) == mid[0];
  }

  lemma CutBlocks(c: Chunk, size: int)
    requires c.hole && 0 <= size && size + TAGS_SIZE <= c.size
    ensures Blocks([c]) == {}
    ensures Cut(c, size)[0] == Chunk(c.addr, BlockSize(size, c.size), false)
    ensures Blocks(Cut(c, size)) == {Cut(c, size)[0]}
  {
    assert Cut(c, size)[0] == Chunk(c.addr, BlockSize(size, c.size), false);
  }

  lemma GrowthFitsFresh(h: Heap, size: int, g: Heap)
    requires Placed(h) && h.index == [] && 0 <= size && Grow(h, size + TAGS_SIZE) == Some(g)
    ensures Fits(g, size)
  {
    var need := size + TAGS_SIZE;
    RoundUpBounds(h.end - h.start + need);
    GrownEnd(h, need, g);
    GrowWrites(h, need, g, Chunk(h.end, g.end - h.end, true));
    InsertMultiset(h.index, h.end, SmallerThan(g.mem));
    hide Grow, Word, Byte, Inserted;
    assert h.end in multiset(g.index);
    var k :| 0 <= k < |g.index| && g.index[k] == h.end;
    assert Size(g.mem, g.index[k]) >= need;
  }

  lemma GrowthFitsHighest(h: Heap, cs: seq<Chunk>, size: int, g: Heap)
    requires Represents(h, cs) && h.index != [] && 0 <= size && Grow(h, size + TAGS_SIZE) == Some(g)
    ensures Fits(g, size) && g.index == h.index
    ensures !Fits(h, size) ==>
              var it := FirstFit(g.mem, g.index, size + TAGS_SIZE);
              && g.index[it] == Highest(h.index, 0)
              && Size(g.mem, g.index[it]) == Size(h.mem, g.index[it]) + g.end - h.end
  {
    hide Grow, Word, Byte;
    var need := size + TAGS_SIZE;
    RoundUpBounds(h.end - h.start + need);
    GrownEnd(h, need, g);
    HighestHole(h, cs);
    var top := Highest(h.index, 0);
    var k :| 0 <= k < |h.index| && h.index[k] == top;
    var i := HoleAt(h, cs, k);
    assert Stored(h.mem, cs[i], h.end);
    var c := Chunk(top, cs[i].size + g.end - h.end, true);
    GrowWrites(h, need, g, c);
    assert Size(g.mem, g.index[k]) >= need;
    LowerSizesKept(h, cs, g, c, FirstFit(g.mem, g.index, need));
  }

  /** After growth a hole fits; if none did before, it is the highest one, longer by the growth. */
  lemma GrowthFits(h: Heap, cs: seq<Chunk>, size: int, g: Heap)
    requires Represents(h, cs) && 0 <= size && Grow(h, size + TAGS_SIZE) == Some(g)
    ensures Fits(g, size)
    ensures !Fits(h, size) && h.index != [] ==>
              var it := FirstFit(g.mem, g.index, size + TAGS_SIZE);
              && g.index == h.index
              && g.index[it] == Highest(h.index, 0)
              && Size(g.mem, g.index[it]) == Size(h.mem, g.index[it]) + g.end - h.end
  {
    hide Grow, Word, Byte;
    if h.index == [] {
      GrowthFitsFresh(h, size, g);
    } else {
      GrowthFitsHighest(h, cs, size, g);
    }
  }

  lemma LowerSizesKept(h: Heap, cs: seq<Chunk>, g: Heap, c: Chunk, it: nat)
    requires Represents(h, cs) && it < |h.index| && c.addr == Highest(h.index, 0)
    requires c.addr in h.index && c.size >= Size(h.mem, c.addr)
    requires forall a :: !(c.addr <= a < c.addr + HEADER_SIZE) && !(c.End() - FOOTER_SIZE <= a < c.End())
               ==> Byte(g.mem, a) == Byte(h.mem, a)
    ensures h.index[it] != c.addr ==> Size(g.mem, h.index[it]) == Size(h.mem, h.index[it])
  {
    hide Word, Byte;
    var a := h.index[it];
    if a != c.addr {
      var i := HoleAt(h, cs, it);
      Indexed(h, cs, c.addr);
      var j :| 0 <= j < |cs| && cs[j].hole && cs[j].addr == c.addr;
      assert Stored(h.mem, cs[j], h.end);
      TilesLayout(cs, h.start, h.end);
      assert i < j;
      WordSame(h.mem, g.mem, a + 8);
    }
  }

  /** Growth succeeds at once: the second search finds a hole, so a request grows the heap at
      most once, and it stops the kernel only when nothing fits and the maximum is reached. */
  lemma GrowsAtMostOnce(h: Heap, live: set<Chunk>, size: int)
    requires Good(h, live) && Modelled(h, size)
    ensures Alloc(h, size).Panic? <==> !Fits(h, size) && !RoomToGrow(h, size)
    ensures !Fits(h, size) && RoomToGrow(h, size) ==>
              var g := Grow(h, size + TAGS_SIZE);
              g.Some? && Fits(g.value, size) && g.value.end - h.end > size + TAGS_SIZE
  {
    hide PutHeader, PutFooter, PutWord, Word, Byte, Carve, Blocks, Inserted;
    var cs :| Represents(h, cs) && Blocks(cs) == live;
    assert HEAP_MIN_SIZE <= h.end - h.start;
    hide Represents;
    var need := size + TAGS_SIZE;
    RoundUpBounds(h.end - h.start + need);
    if !Fits(h, size) {
      assert RoomToGrow(h, size) <==> Grow(h, need).Some?;
      if RoomToGrow(h, size) {
        GrowthFits(h, cs, size, Grow(h, need).value);
      }
    }
  }

  lemma UntouchedTransitive(m1: Mem, m2: Mem, m3: Mem, live: set<Chunk>)
    requires Untouched(m1, m2, live) && Untouched(m2, m3, live)
    ensures Untouched(m1, m3, live)
  {
  }

  lemma GrowthUntouched(h: Heap, cs: seq<Chunk>, need: int, g: Heap)
    requires Represents(h, cs) && TAGS_SIZE <= need && Grow(h, need) == Some(g)
    requires LastIsHole(cs) || h.index == []
    ensures Untouched(h.mem, g.mem, Blocks(cs))
  {
    hide Grow, Word, Byte, Blocks;
    var extra := g.end - h.end;
    var n := |cs|;
    var last := cs[n - 1];
    var c := if LastIsHole(cs) then Chunk(last.addr, last.size + extra, true) else Chunk(h.end, extra, true);
    GrowSetting(h, cs, need, g);
    GrowWrites(h, need, g, c);
    GrowUntouched(h, cs, g, c);
    if LastIsHole(cs) {
      BlocksOutside(cs, h.start, h.end, n - 1);
    }
    BlocksBefore(cs, h.start, h.end);
  }

  lemma BlocksBefore(cs: seq<Chunk>, lo: int, hi: int)
    requires Tiles(cs, lo, hi)
    ensures forall c :: c in Blocks(cs) ==> lo <= c.addr && c.End() <= hi && c.size >= TAGS_SIZE
  {
    TilesLayout(cs, lo, hi);
  }

  lemma GrownBlocks(h: Heap, cs: seq<Chunk>, extra: int)
    requires Represents(h, cs)
    ensures Blocks(Grown(cs, h.end, extra)) == Blocks(cs)
  {
    var n := |cs|;
    var last := cs[n - 1];
    if LastIsHole(cs) {
      var c := Chunk(last.addr, last.size + extra, true);
      assert cs[n - 1..n] == [last];
      NoBlocks(c);
      NoBlocks(last);
      hide Blocks;
      BlocksSpliced(cs, h.start, h.end, n - 1, n, [c]);
      assert cs[..n - 1] + [c] + cs[n..] == cs[..n - 1] + [c];
    } else {
      NoBlocks(Chunk(h.end, extra, true));
      BlocksConcat(cs, [Chunk(h.end, extra, true)]);
    }
  }

  lemma NoBlocks(c: Chunk)
    requires c.hole
    ensures Blocks([c]) == {}
  {
  }

  lemma AllocGrowing(h: Heap, cs: seq<Chunk>, size: int)
    requires Represents(h, cs) && Modelled(h, size) && !Fits(h, size) && RoomToGrow(h, size)
    requires (LastIsHole(cs) || h.index == []) && FramesFor(h, size + TAGS_SIZE)
    ensures var r := Alloc(h, size);
            && r.Done? && SamePlace(h, r.heap)
            && Good(r.heap, Blocks(cs) + {Granted(r.heap, r.ptr)})
            && Granted(r.heap, r.ptr) !in Blocks(cs)
            && size + TAGS_SIZE <= Granted(r.heap, r.ptr).size < size + 2 * TAGS_SIZE
            && Untouched(h.mem, r.heap.mem, Blocks(cs))
  {
    hide Word, Byte, Represents, Grown, Blocks, Carve, Grow;
    var need := size + TAGS_SIZE;
    assert Good(h, Blocks(cs));
    GrowsAtMostOnce(h, Blocks(cs), size);
    var g := Grow(h, need).value;
    var ds := Grown(cs, h.end, g.end - h.end);
    GrowRepresents(h, cs, need, g);
    GrowthUntouched(h, cs, need, g);
    GrownBlocks(h, cs, g.end - h.end);
    GrownFields(h, need, g);
    CarveGood(g, ds, FirstFit(g.mem, g.index, need), size);
    var r := Alloc(h, size);
    assert r == Alloc(g, size);
    UntouchedTransitive(h.mem, g.mem, r.heap.mem, Blocks(cs));
    CarveFields(g, FirstFit(g.mem, g.index, need), size);
    GrownKeys(h, cs, need, g);
  }

  lemma GrownFields(h: Heap, need: int, g: Heap)
    requires Grow(h, need) == Some(g)
    ensures g.start == h.start && g.max == h.max
  {
    hide Word, Byte, PutHeader, PutFooter;
  }

  /** The heap is where it was, with the same limit and the same page tables. */
  ghost predicate SamePlace(h: Heap, g: Heap) {
    g.start == h.start && g.max == h.max && g.pool.pages.Keys == h.pool.pages.Keys && g.pool.count == h.pool.count
  }

  lemma GrownKeys(h: Heap, cs: seq<Chunk>, need: int, g: Heap)
    requires Represents(h, cs) && 0 <= need && Grow(h, need) == Some(g)
    ensures g.pool.pages.Keys == h.pool.pages.Keys && g.pool.count == h.pool.count
  {
    hide Grow, BackRange, Word;
    GrowPool(h, need, g);
    BackRangeGrows(h.pool, h.end / PAGE_SIZE, g.end / PAGE_SIZE, !h.readonly);
  }

  /** A guarded request: one new block, at least as large as asked for, apart from all others. */
  lemma AllocSafe(h: Heap, live: set<Chunk>, size: int)
    requires Good(h, live) && Modelled(h, size) && AllocGuard(h, size)
    ensures var r := Alloc(h, size);
            && r.Done? && SamePlace(h, r.heap)
            && Good(r.heap, live + {Granted(r.heap, r.ptr)})
            && Granted(r.heap, r.ptr) !in live
            && size + TAGS_SIZE <= Granted(r.heap, r.ptr).size < size + 2 * TAGS_SIZE
            && Untouched(h.mem, r.heap.mem, live)
  {
    hide Word, Byte, Represents, Blocks, Carve, Grow;
    var cs :| Represents(h, cs) && Blocks(cs) == live;
    if Fits(h, size) {
      CarveGood(h, cs, FirstFit(h.mem, h.index, size + TAGS_SIZE), size);
      CarveFields(h, FirstFit(h.mem, h.index, size + TAGS_SIZE), size);
    } else {
      EndsInHoleExact(h, cs);
      AllocGrowing(h, cs, size);
    }
  }

  lemma GoodOf(h: Heap, cs: seq<Chunk>)
    requires Represents(h, cs)
    ensures Good(h, Blocks(cs))
  {
  }

  /** Growth past a last block overlaps that block: the highest hole swallows what follows it. */
  lemma GrowthSwallows(h: Heap, cs: seq<Chunk>, size: int)
    requires Represents(h, cs) && Modelled(h, size) && !Fits(h, size) && RoomToGrow(h, size)
    requires !LastIsHole(cs) && h.index != []
    ensures var r := Alloc(h, size);
            r.Done? && !Good(r.heap, Blocks(cs) + {Granted(r.heap, r.ptr)})
  {
    hide Word, Byte, Grow, Carve, Good;
    var need := size + TAGS_SIZE;
    GoodOf(h, cs);
    GrowsAtMostOnce(h, Blocks(cs), size);
    var g := Grow(h, need).value;
    GrownFields(h, need, g);
    GrowthFits(h, cs, size, g);
    var r := Alloc(h, size);
    assert r == Alloc(g, size);
    var it := FirstFit(g.mem, g.index, need);
    HighestHole(h, cs);
    var i :| 0 <= i < |cs| && cs[i].hole && cs[i].addr == Highest(h.index, 0);
    assert r.ptr == cs[i].addr + HEADER_SIZE;
    TilesLayout(cs, h.start, h.end);
    assert cs[i + 1].addr == cs[i].End() && !cs[i + 1].hole;
    SwallowedSize(h, cs, size, g, it, i);
    TwoBlocksOverlap(r.heap, Blocks(cs), Granted(r.heap, r.ptr), cs[i + 1]);
  }

  /** No sound heap has a block that reaches into another. */
  lemma TwoBlocksOverlap(g: Heap, live: set<Chunk>, b: Chunk, c: Chunk)
    requires c in live && b.addr < c.addr < b.End()
    ensures !Good(g, live + {b})
  {
    hide Represents;
    if Good(g, live + {b}) {
      var ds :| Represents(g, ds) && Blocks(ds) == live + {b};
      OverlapIn(g, ds, b, c);
    }
  }

  lemma OverlapIn(g: Heap, ds: seq<Chunk>, b: Chunk, c: Chunk)
    requires Represents(g, ds) && b in Blocks(ds) && c in Blocks(ds) && b.addr < c.addr
    ensures b.End() <= c.addr
  {
    Overlap(ds, g.start, g.end, b, c);
  }

  /** Two different blocks of a tiling do not overlap. */
  lemma Overlap(ds: seq<Chunk>, lo: int, hi: int, b: Chunk, c: Chunk)
    requires Tiles(ds, lo, hi) && b in Blocks(ds) && c in Blocks(ds) && b.addr < c.addr
    ensures b.End() <= c.addr
  {
    TilesLayout(ds, lo, hi);
    var i :| 0 <= i < |ds| && ds[i] == b;
    var j :| 0 <= j < |ds| && ds[j] == c;
    assert i < j;
  }

  lemma SwallowedSize(h: Heap, cs: seq<Chunk>, size: int, g: Heap, it: nat, i: nat)
    requires Represents(h, cs) && 0 <= size && !Fits(h, size) && Grow(h, size + TAGS_SIZE) == Some(g)
    requires it < |g.index| && i < |cs| && cs[i].hole && cs[i].addr == g.index[it] == Highest(h.index, 0)
    requires Size(g.mem, g.index[it]) == Size(h.mem, g.index[it]) + g.end - h.end >= size + TAGS_SIZE
    ensures Size(Carve(g, it, size).mem, g.index[it]) > cs[i].size
  {
    hide Word, Byte, Grow, Carve;
    RoundUpBounds(h.end - h.start + size + TAGS_SIZE);
    assert Stored(h.mem, cs[i], h.end);
    TilesLayout(cs, h.start, h.end);
    var c := Chunk(cs[i].addr, cs[i].size + g.end - h.end, true);
    GrownEnd(h, size + TAGS_SIZE, g);
    CarveWrites(g, it, size, c);
    assert Stored(Carve(g, it, size).mem, Cut(c, size)[0], g.end);
    Indexed(h, cs, cs[i].addr);
    var k :| 0 <= k < |h.index| && h.index[k] == cs[i].addr;
  }

  lemma GrownEnd(h: Heap, need: int, g: Heap)
    requires Placed(h) && 0 <= need && Grow(h, need) == Some(g)
    ensures g.end == h.start + RoundUp(h.end - h.start + need) <= h.max
  {
    hide Word, Byte, PutHeader, PutFooter;
  }

  /** Growth without frames enough marks a frame that does not exist and gives it to a page. */
  lemma GrowthStarves(h: Heap, cs: seq<Chunk>, size: int)
    requires Represents(h, cs) && Modelled(h, size) && !Fits(h, size) && RoomToGrow(h, size)
    requires (LastIsHole(cs) || h.index == []) && !FramesFor(h, size + TAGS_SIZE)
    ensures var r := Alloc(h, size);
            r.Done? && forall live :: !Good(r.heap, live)
  {
    hide Word, Byte, Grow, Carve, Blocks, EnoughFrames, Owned, BackRange;
    var need := size + TAGS_SIZE;
    assert Good(h, Blocks(cs));
    GrowsAtMostOnce(h, Blocks(cs), size);
    var g := Grow(h, need).value;
    GrowPool(h, need, g);
    BackRangeExact(h.pool, h.end / PAGE_SIZE, g.end / PAGE_SIZE, !h.readonly);
    var r := Alloc(h, size);
    assert r == Alloc(g, size);
    CarveFields(g, FirstFit(g.mem, g.index, need), size);
    assert !Owned(r.heap.pool);
  }

  /** A request keeps the heap sound exactly under the guard. */
  lemma AllocExact(h: Heap, live: set<Chunk>, size: int)
    requires Good(h, live) && Modelled(h, size)
    ensures AllocGuard(h, size)
       <==> Alloc(h, size).Done? && Good(Alloc(h, size).heap, live + {Granted(Alloc(h, size).heap, Alloc(h, size).ptr)})
  {
    hide Word, Byte, Represents, Blocks, Carve, Grow;
    var cs :| Represents(h, cs) && Blocks(cs) == live;
    if AllocGuard(h, size) {
      AllocSafe(h, live, size);
    } else {
      GrowsAtMostOnce(h, live, size);
      EndsInHoleExact(h, cs);
      if RoomToGrow(h, size) {
        if LastIsHole(cs) || h.index == [] {
          GrowthStarves(h, cs, size);
        } else {
          GrowthSwallows(h, cs, size);
        }
      }
    }
  }
}
