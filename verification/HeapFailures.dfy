/** Short runs from a new heap, for all sizes that fit, in which a guard fails and the heap breaks. */
module HeapFailures {
  import opened Memory
  import opened KHeap
  import opened Chunks
  import opened HeapAlloc
  import opened HeapFree
  import opened HeapRuns
  import opened HeapStack

  /** A heap that is one hole, as created. */
  ghost predicate Fresh(h: Heap) {
    Shape(h, [])
  }

  /** The chunks after three requests. */
  ghost function Three(start: int, end: int, a: int, b: int, c: int): seq<Chunk> {
    var top := start + a + b + c + 3 * TAGS_SIZE;
    [Chunk(start, a + TAGS_SIZE, false), Chunk(start + a + TAGS_SIZE, b + TAGS_SIZE, false),
     Chunk(start + a + b + 2 * TAGS_SIZE, c + TAGS_SIZE, false), Chunk(top, end - top, true)]
  }

  /** Releasing the second and then the first of three blocks: the second release joins two holes
      with a block still behind them. */
  lemma TwoReleases(h: Heap, a: int, b: int, c: int)
    requires Represents(h, Three(h.start, h.end, a, b, c)) && |h.index| == 1
    ensures var r := Free(h, h.start + a + TAGS_SIZE + HEADER_SIZE);
            && r.Done?
            && var r' := Free(r.heap, h.start + HEADER_SIZE);
               r'.Done? && forall live :: !Good(r'.heap, live)
    ensures 0 < h.start && 0 <= a
  {
    hide Free, Good, Represents, HoleFlag, Word;
    var cs := Three(h.start, h.end, a, b, c);
    NeighboursRead(h, cs, 1);
    FreeMiddle(h, cs, 1);
    var r := Free(h, cs[1].addr + HEADER_SIZE);
    var ds := cs[..1] + [LeftMerged(cs, 1)] + cs[2..];
    FreeRightInner(r.heap, ds, 0);
  }

  /** Three requests, then the second and the first released: the right merge leaves a footer that
      names a header inside the merged hole. */
  lemma InnerMergeBreaks(h: Heap, a: int, b: int, c: int)
    requires Fresh(h) && NoWrap(h, a) && NoWrap(h, b) && NoWrap(h, c) && a + b + c + 4 * TAGS_SIZE <= h.end - h.start
    ensures var p := h.start + HEADER_SIZE;
            var r := Run(World(h, {}), [Malloc(a), Malloc(b), Malloc(c), Release(p + a + TAGS_SIZE), Release(p)]);
            r.Some? && !Sound(r.value)
  {
    hide Alloc, Free, Good, Represents, Granted, HoleFlag;
    var s1, s2, s3 := [a + TAGS_SIZE], [a + TAGS_SIZE, b + TAGS_SIZE], [a + TAGS_SIZE, b + TAGS_SIZE, c + TAGS_SIZE];
    ThreePiled(h.start, h.end, a, b, c);
    PushShape(h, [], a);
    var r1 := Alloc(h, a);
    PushShape(r1.heap, s1, b);
    var r2 := Alloc(r1.heap, b);
    PushShape(r2.heap, s2, c);
    var r3 := Alloc(r2.heap, c);
    TwoReleases(r3.heap, a, b, c);
    hide Shape, Stacked, Piled, Becomes;
    var p := h.start + HEADER_SIZE;
    var q := p + a + TAGS_SIZE;
    var r4 := Free(r3.heap, q);
    var r5 := Free(r4.heap, p);
    var w1 := World(r1.heap, {} + {Granted(r1.heap, r1.ptr)});
    var w2 := World(r2.heap, w1.live + {Granted(r2.heap, r2.ptr)});
    var w3 := World(r3.heap, w2.live + {Granted(r3.heap, r3.ptr)});
    var w4 := World(r4.heap, w3.live - {Granted(r3.heap, q)});
    var w5 := World(r5.heap, w4.live - {Granted(r4.heap, p)});
    RunFive(World(h, {}), Malloc(a), Malloc(b), Malloc(c), Release(q), Release(p), w1, w2, w3, w4, w5);
    assert !Good(r5.heap, w5.live);
  }

  lemma ThreePiled(start: int, end: int, a: int, b: int, c: int)
    ensures var s1, s2, s3 := [a + TAGS_SIZE], [a + TAGS_SIZE, b + TAGS_SIZE], [a + TAGS_SIZE, b + TAGS_SIZE, c + TAGS_SIZE];
            && [] + [a + TAGS_SIZE] == s1 && s1 + [b + TAGS_SIZE] == s2 && s2 + [c + TAGS_SIZE] == s3
            && Sum([]) == 0 && Sum(s1) == a + TAGS_SIZE && Sum(s2) == a + b + 2 * TAGS_SIZE
            && Stacked(start, end, s3) == Three(start, end, a, b, c)
  {
    var s1, s2, s3 := [a + TAGS_SIZE], [a + TAGS_SIZE, b + TAGS_SIZE], [a + TAGS_SIZE, b + TAGS_SIZE, c + TAGS_SIZE];
    assert s1[..0] == [] && s2[..1] == s1 && s3[..2] == s2;
    assert Sum(s1) == a + TAGS_SIZE && Sum(s2) == a + b + 2 * TAGS_SIZE;
    assert Piled(start, s1) == [Chunk(start, a + TAGS_SIZE, false)];
    assert Piled(start, s2) == Piled(start, s1) + [Chunk(start + a + TAGS_SIZE, b + TAGS_SIZE, false)];
  }

  lemma RunFive(w: World, o1: Op, o2: Op, o3: Op, o4: Op, o5: Op, w1: World, w2: World, w3: World, w4: World, w5: World)
    requires Step(w, o1) == Some(w1) && Step(w1, o2) == Some(w2) && Step(w2, o3) == Some(w3)
    requires Step(w3, o4) == Some(w4) && Step(w4, o5) == Some(w5)
    ensures Run(w, [o1, o2, o3, o4, o5]) == Some(w5)
  {
    hide Step;
    assert [o1, o2, o3, o4, o5][1..] == [o2, o3, o4, o5];
    assert [o2, o3, o4, o5][1..] == [o3, o4, o5];
    assert [o3, o4, o5][1..] == [o4, o5];
    assert [o4, o5][1..] == [o5];
    assert Run(w4, [o5]) == Some(w5);
    assert Run(w3, [o4, o5]) == Some(w5);
    assert Run(w2, [o3, o4, o5]) == Some(w5);
  }

  /** One request takes the whole heap and is released: the release looks for a header past the end
      and faults when that page was never present. */
  lemma LastBlockFaults(h: Heap, size: int)
    requires Fresh(h) && NoWrap(h, size) && size + TAGS_SIZE == h.end - h.start && !Readable(h, h.end)
    ensures Run(World(h, {}), [Malloc(size), Release(h.start + HEADER_SIZE)]) == None
  {
    hide Alloc, Free, Represents, HoleFlag, Word, Byte, Carve, Granted;
    var cs := Stacked(h.start, h.end, []);
    assert cs == [Chunk(h.start, h.end - h.start, true)];
    StoredSize(h, cs, 0);
    assert FirstFit(h.mem, h.index, size + TAGS_SIZE) == 0;
    CarveRepresents(h, cs, 0, size, 0);
    CarveFields(h, 0, size);
    assert Alloc(h, size) == Done(Carve(h, 0, size), h.start + HEADER_SIZE) by { FirstAlloc(h, size); }
    var g := Carve(h, 0, size);
    var ds := [Chunk(h.start, h.end - h.start, false)];
    assert cs[..0] + Cut(cs[0], size) + cs[1..] == ds;
    FreeUnfolds(g, ds, 0);
    var r := Alloc(h, size);
    var w := World(r.heap, {} + {Granted(r.heap, r.ptr)});
    var p := h.start + HEADER_SIZE;
    assert [Malloc(size), Release(p)][1..] == [Release(p)];
    assert Step(World(h, {}), Malloc(size)) == Some(w);
  }

  lemma FirstAlloc(h: Heap, size: int)
    requires NoWrap(h, size) && h.index != [] && FirstFit(h.mem, h.index, size + TAGS_SIZE) == 0
    ensures Alloc(h, size) == Done(Carve(h, 0, size), h.index[0] + HEADER_SIZE)
  {
    hide Carve, Grow;
  }

  // ----- a heap filled by two requests

  ghost function Pair(start: int, end: int, a: int): seq<Chunk> {
    [Chunk(start, a + TAGS_SIZE, false), Chunk(start + a + TAGS_SIZE, end - start - a - TAGS_SIZE, false)]
  }

  /** A second request that takes exactly the rest leaves two blocks and no hole. */
  lemma Filled(h: Heap, a: int, b: int)
    requires Fresh(h) && NoWrap(h, a) && NoWrap(h, b) && a + b + 2 * TAGS_SIZE == h.end - h.start
    ensures var r1 := Alloc(h, a);
            && r1.Done? && r1.heap.max == h.max
            && var r2 := Alloc(r1.heap, b);
               && r2.Done? && r2.heap.start == h.start && r2.heap.end == h.end && r2.heap.max == h.max && r2.heap.pool == h.pool
               && r1.ptr == h.start + HEADER_SIZE && r2.ptr == r1.ptr + a + TAGS_SIZE
               && Represents(r2.heap, Pair(h.start, h.end, a)) && r2.heap.index == []
               && WritesInside(h, r2.heap)
  {
    hide Represents, Word, Byte, Carve, Alloc;
    ThreePiled(h.start, h.end, a, 0, 0);
    PushShape(h, [], a);
    var g := Alloc(h, a).heap;
    PushStacked(h.start, h.end, [], a);
    assert Stacked(h.start, h.end, []) == [Chunk(h.start, h.end - h.start, true)];
    FillRest(g, Stacked(h.start, h.end, [a + TAGS_SIZE]), b);
  }

  lemma FillRest(g: Heap, cs: seq<Chunk>, b: int)
    requires Represents(g, cs) && |cs| == 2 && cs[1].hole && g.index == [cs[1].addr]
    requires NoWrap(g, b) && cs[1].size == b + TAGS_SIZE
    ensures var r := Alloc(g, b);
            && r.Done? && r.ptr == cs[1].addr + HEADER_SIZE
            && r.heap.start == g.start && r.heap.end == g.end && r.heap.max == g.max && r.heap.pool == g.pool
            && Represents(r.heap, [cs[0], Chunk(cs[1].addr, cs[1].size, false)]) && r.heap.index == []
            && WritesInside(g, r.heap)
  {
    hide Represents, Word, Byte, Carve;
    StoredSize(g, cs, 1);
    assert FirstFit(g.mem, g.index, b + TAGS_SIZE) == 0;
    CarveRepresents(g, cs, 0, b, 1);
    CarveFields(g, 0, b);
    CarveInside(g, cs, 0, b, 1);
    assert cs[..1] + Cut(cs[1], b) + cs[2..] == [cs[0], Chunk(cs[1].addr, cs[1].size, false)];
    FilledIndex(g, b, cs[1].addr, cs[1].size);
  }

  lemma FilledIndex(g: Heap, b: int, top: int, avail: int)
    requires g.index == [top] && Size(g.mem, top) == avail && b + TAGS_SIZE == avail
    ensures Carve(g, 0, b).index == []
  {
    hide Size, PutHeader, PutFooter;
  }

  /** Two blocks fill the heap and the first is released: a request that does not fit into it grows
      it over the second. */
  lemma GrowthBreaks(h: Heap, a: int, b: int, c: int)
    requires Fresh(h) && NoWrap(h, a) && NoWrap(h, b) && NoWrap(h, c) && a + b + 2 * TAGS_SIZE == h.end - h.start
    requires a < c && RoomToGrow(h, c) && TablesFor(h, c + TAGS_SIZE)
    ensures var p := h.start + HEADER_SIZE;
            var r := Run(World(h, {}), [Malloc(a), Malloc(b), Release(p), Malloc(c)]);
            r.Some? && !Sound(r.value)
  {
    hide Alloc, Free, Good, Represents, HoleFlag, Word, Byte;
    Filled(h, a, b);
    var r1 := Alloc(h, a);
    var r2 := Alloc(r1.heap, b);
    ReleaseFirst(r2.heap, a, c);
    var p := h.start + HEADER_SIZE;
    var r3 := Free(r2.heap, p);
    var r4 := Alloc(r3.heap, c);
    var w1 := World(r1.heap, {} + {Granted(r1.heap, r1.ptr)});
    var w2 := World(r2.heap, w1.live + {Granted(r2.heap, r2.ptr)});
    var w3 := World(r3.heap, w2.live - {Granted(r2.heap, p)});
    var w4 := World(r4.heap, w3.live + {Granted(r4.heap, r4.ptr)});
    PairHeld(h, a, b);
    hide Granted, Fresh;
    var cs := Pair(h.start, h.end, a);
    assert w3.live == {cs[1]};
    RunFour(World(h, {}), Malloc(a), Malloc(b), Release(p), Malloc(c), w1, w2, w3, w4);
  }

  /** The clients hold exactly the two blocks. */
  lemma PairHeld(h: Heap, a: int, b: int)
    requires Fresh(h) && NoWrap(h, a) && NoWrap(h, b) && a + b + 2 * TAGS_SIZE == h.end - h.start
    ensures var r1 := Alloc(h, a);
            && r1.Done? && r1.heap.max == h.max
            && var r2 := Alloc(r1.heap, b);
               && r2.Done?
               && var cs := Pair(h.start, h.end, a);
                  && Granted(r1.heap, r1.ptr) == cs[0] == Granted(r2.heap, r1.ptr)
                  && Granted(r2.heap, r2.ptr) == cs[1]
  {
    hide Alloc, Represents, Word, Byte;
    Filled(h, a, b);
    ThreePiled(h.start, h.end, a, 0, 0);
    PushShape(h, [], a);
    var r1 := Alloc(h, a);
    var r2 := Alloc(r1.heap, b);
    var cs := Pair(h.start, h.end, a);
    StoredSize(r2.heap, cs, 0);
    StoredSize(r2.heap, cs, 1);
    PushStacked(h.start, h.end, [], a);
    assert Stacked(h.start, h.end, []) == [Chunk(h.start, h.end - h.start, true)];
    StoredSize(r1.heap, Stacked(h.start, h.end, [a + TAGS_SIZE]), 0);
  }

  lemma ReleaseFirst(h: Heap, a: int, c: int)
    requires Represents(h, Pair(h.start, h.end, a)) && h.index == [] && NoWrap(h, c) && a < c && RoomToGrow(h, c)
    requires TablesFor(h, c + TAGS_SIZE)
    ensures 0 < h.start
    ensures var cs := Pair(h.start, h.end, a);
            var r := Free(h, h.start + HEADER_SIZE);
            && r.Done? && NoWrap(r.heap, c)
            && var r' := Alloc(r.heap, c);
               r'.Done? && !Good(r'.heap, {cs[1]} + {Granted(r'.heap, r'.ptr)})
  {
    hide Free, Alloc, Good, Represents, Word, Byte;
    var cs := Pair(h.start, h.end, a);
    NeighboursRead(h, cs, 0);
    FreeMiddle(h, cs, 0);
    FirstReleased(h, cs);
    var g := Free(h, h.start + HEADER_SIZE).heap;
    var ds := [LeftMerged(cs, 0), cs[1]];
    assert cs[..0] + [LeftMerged(cs, 0)] + cs[1..] == ds;
    StoredSize(g, ds, 0);
    assert !Fits(g, c);
    GrowthSwallows(g, ds, c);
    assert ds[1] == cs[1];
    assert Blocks(ds) == {cs[1]};
  }

  /** Releasing the first of two blocks leaves it as the only indexed hole. */
  lemma FirstReleased(h: Heap, cs: seq<Chunk>)
    requires Represents(h, cs) && 1 < |cs| && !cs[0].hole && !cs[1].hole && h.index == []
    ensures var r := Free(h, cs[0].addr + HEADER_SIZE);
            && r.Done? && r.heap.index == [cs[0].addr]
            && r.heap.start == h.start && r.heap.end == h.end && r.heap.max == h.max && r.heap.pool == h.pool
  {
    hide Represents, MergeLeft, Byte, Word, PutByte, PutWord, MergedHead, LeftHole, RightHole;
    NeighboursRead(h, cs, 0);
    FreeUnfolds(h, cs, 0);
  }

  lemma RunFour(w: World, o1: Op, o2: Op, o3: Op, o4: Op, w1: World, w2: World, w3: World, w4: World)
    requires Step(w, o1) == Some(w1) && Step(w1, o2) == Some(w2) && Step(w2, o3) == Some(w3)
    requires Step(w3, o4) == Some(w4)
    ensures Run(w, [o1, o2, o3, o4]) == Some(w4)
  {
    hide Step;
    assert [o1, o2, o3, o4][1..] == [o2, o3, o4];
    assert [o2, o3, o4][1..] == [o3, o4];
    assert [o3, o4][1..] == [o4];
    assert Run(w3, [o4]) == Some(w4);
    assert Run(w2, [o3, o4]) == Some(w4);
  }

  /** A read past the end of the heap finds a stray hole. */
  predicate TagPastEnd(h: Heap) {
    Readable(h, h.end) && Magic(h.mem, Seen(h, h.end)) == HEAP_MAGIC && HoleFlag(h.mem, Seen(h, h.end)) != 0
  }

  /** Two blocks fill the heap and the last one, which starts beyond the minimum size, is released:
      contraction cuts at the wrong place. It is reached when the page past the heap is present, with
      no stray hole on it; otherwise the release stops the kernel before. */
  lemma ContractionBreaks(h: Heap, a: int, b: int)
    requires Fresh(h) && NoWrap(h, a) && NoWrap(h, b) && a + b + 2 * TAGS_SIZE == h.end - h.start
    requires HEAP_MIN_SIZE < a + 2 * TAGS_SIZE
    ensures var q := h.start + a + TAGS_SIZE + HEADER_SIZE;
            var r := Run(World(h, {}), [Malloc(a), Malloc(b), Release(q)]);
            if Readable(h, h.end) && !TagPastEnd(h) then r.Some? && !Sound(r.value) else r == None
  {
    hide Alloc, Free, Good, Represents, HoleFlag, Word, Byte, Granted, Readable, Seen;
    Filled(h, a, b);
    var r1 := Alloc(h, a);
    var r2 := Alloc(r1.heap, b);
    PastEndSame(h, r2.heap, a);
    ReleaseSecond(r2.heap, a);
    var q := h.start + a + TAGS_SIZE + HEADER_SIZE;
    var r3 := Free(r2.heap, q);
    var w1 := World(r1.heap, {} + {Granted(r1.heap, r1.ptr)});
    var w2 := World(r2.heap, w1.live + {Granted(r2.heap, r2.ptr)});
    RunThree(World(h, {}), Malloc(a), Malloc(b), Release(q), w1, w2);
  }

  /** What lies past the end is not touched by requests. */
  lemma PastEndSame(h: Heap, g: Heap, a: int)
    requires WritesInside(h, g) && g.start == h.start && g.end == h.end && g.pool == h.pool
    requires Represents(g, Pair(h.start, h.end, a))
    ensures Readable(g, g.end) == Readable(h, h.end)
    ensures RightHole(g, Pair(h.start, h.end, a)[1].addr) == TagPastEnd(h)
  {
    hide Word, Byte;
    var cs := Pair(h.start, h.end, a);
    NeighboursRead(g, cs, 1);
    SeenSame(h, g.mem, h.end);
    assert Seen(g, h.end) == Seen(h, h.end) && Readable(g, h.end) == Readable(h, h.end);
    WordSame(h.mem, g.mem, Seen(h, h.end));
    assert HoleFlag(g.mem, Seen(h, h.end)) == HoleFlag(h.mem, Seen(h, h.end));
  }

  lemma ReleaseSecond(g: Heap, a: int)
    requires Represents(g, Pair(g.start, g.end, a)) && HEAP_MIN_SIZE < a + 2 * TAGS_SIZE
    ensures var cs := Pair(g.start, g.end, a);
            var r := Free(g, g.start + a + TAGS_SIZE + HEADER_SIZE);
            if Readable(g, g.end) && !RightHole(g, cs[1].addr) then r.Done? && forall live :: !Good(r.heap, live) else r.Panic?
    ensures g.start + a + TAGS_SIZE > 0
  {
    hide Free, Good, Represents, HoleFlag, Word, Byte, Readable, RightHole, Find;
    var cs := Pair(g.start, g.end, a);
    NeighboursRead(g, cs, 1);
    assert !HoleBefore(cs, 1);
    if Readable(g, g.end) && !RightHole(g, cs[1].addr) {
      FreeLastBeyond(g, cs, 1);
    } else {
      FreeUnfolds(g, cs, 1);
      EndNotIndexed(g, cs);
      NotFound(g.index, g.end);
    }
  }

  lemma NotFound(s: seq<int>, item: int)
    requires item !in s
    ensures Find(s, item) == |s|
  {
  }

  lemma RunThree(w: World, o1: Op, o2: Op, o3: Op, w1: World, w2: World)
    requires Step(w, o1) == Some(w1) && Step(w1, o2) == Some(w2)
    ensures Run(w, [o1, o2, o3]) == Step(w2, o3)
  {
    hide Step;
    assert [o1, o2, o3][1..] == [o2, o3];
    assert [o2, o3][1..] == [o3];
    assert [o3][1..] == [];
    assert Run(w1, [o2, o3]) == Run(w2, [o3]);
  }
}
