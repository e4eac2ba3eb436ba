/** Whole runs of a heap and its clients: requests, releases, and arbitrary writes by the clients
    into the bytes they were given, and by anyone into bytes that are not the heap's. */
module HeapRuns {
  import opened Memory
  import opened OrderedArrays
  import opened KHeap
  import opened Chunks
  import opened HeapAlloc
  import opened HeapFree
  import O = Owners

  datatype Op = Malloc(size: int) | Release(p: int) | Scribble(a: int, v: byte)

  /** A heap together with what its clients hold. */
  datatype World = World(heap: Heap, live: set<Chunk>)

  ghost predicate Sound(w: World) {
    Good(w.heap, w.live)
  }

  predicate InPayload(c: Chunk, a: int) {
    c.addr + HEADER_SIZE <= a < c.End() - FOOTER_SIZE
  }

  /** Bytes that belong to no tag and to no client: inside an indexed hole, which also covers what a
      new frame brings with it and what is written after a release; on the page below the heap, past
      its end, and on page 0, which a page without its frame shows. */
  predicate Spare(h: Heap, a: int) {
    || (exists i :: 0 <= i < |h.index| && h.index[i] + HEADER_SIZE <= a < h.index[i] + Size(h.mem, h.index[i]) - FOOTER_SIZE)
    || h.start - PAGE_SIZE <= a < h.start - FOOTER_SIZE
    || h.end <= a
    || (0 <= a < PAGE_SIZE && a < h.start - FOOTER_SIZE)
  }

  /** What clients may do: release what they hold, write into what they hold; and anyone may write
      into spare bytes. */
  ghost predicate Allowed(w: World, op: Op) {
    match op
    case Malloc(size) => Modelled(w.heap, size)
    case Release(p) => p == 0 || Granted(w.heap, p) in w.live
    case Scribble(a, v) => Spare(w.heap, a) || exists c :: c in w.live && InPayload(c, a)
  }

  predicate Guard(w: World, op: Op) {
    match op
    case Malloc(size) => AllocGuard(w.heap, size)
    case Release(p) => p == 0 || FreeGuard(w.heap, p)
    case Scribble(a, v) => true
  }

  /** One step; no world comes out of it when an assertion stops the kernel. */
  function Step(w: World, op: Op): Option<World> {
    match op
    case Malloc(size) =>
      if !NoWrap(w.heap, size) then None
      else
        (match Alloc(w.heap, size)
         case Done(g, p) => Some(World(g, w.live + {Granted(g, p)}))
         case Panic => None)
    case Release(p) =>
      (match Free(w.heap, p)
       case Done(g, _) => Some(World(g, if p == 0 then w.live else w.live - {Granted(w.heap, p)}))
       case Panic => None)
    case Scribble(a, v) => Some(w.(heap := w.heap.(mem := PutByte(w.heap.mem, a, v))))
  }

  function Run(w: World, ops: seq<Op>): Option<World>
    decreases |ops|
  {
    if ops == [] then Some(w)
    else
      match Step(w, ops[0])
      case None => None
      case Some(w') => Run(w', ops[1..])
  }

  /** Every world on the way is sound. */
  ghost predicate StaysSound(w: World, ops: seq<Op>)
    decreases |ops|
  {
    && Sound(w)
    && (ops != [] ==>
          && Step(w, ops[0]).Some?
          && StaysSound(Step(w, ops[0]).value, ops[1..]))
  }

  /** Every step on the way is one that clients may take. */
  ghost predicate AllAllowed(w: World, ops: seq<Op>)
    decreases |ops|
  {
    ops != [] ==>
      && Allowed(w, ops[0])
      && (Step(w, ops[0]).Some? ==> AllAllowed(Step(w, ops[0]).value, ops[1..]))
  }

  /** Every step on the way meets its guard. */
  predicate AllGuarded(w: World, ops: seq<Op>)
    decreases |ops|
  {
    ops != [] ==>
      && Guard(w, ops[0])
      && (Step(w, ops[0]).Some? ==> AllGuarded(Step(w, ops[0]).value, ops[1..]))
  }

  // ----- single steps

  lemma StoredChunk(h: Heap, live: set<Chunk>, c: Chunk)
    requires Good(h, live) && c in live
    ensures Granted(h, c.addr + HEADER_SIZE) == c && !c.hole
    ensures h.start <= c.addr && c.End() <= h.end && TAGS_SIZE <= c.size
  {
    hide Word, Byte;
    var cs :| Represents(h, cs) && Blocks(cs) == live;
    var k := ChunkOf(cs, c);
    TilesLayout(cs, h.start, h.end);
    assert Stored(h.mem, cs[k], h.end);
  }

  /** What clients hold never overlaps. */
  lemma LiveDisjoint(h: Heap, live: set<Chunk>, b: Chunk, c: Chunk)
    requires Good(h, live) && b in live && c in live && b != c
    ensures b.End() <= c.addr || c.End() <= b.addr
  {
    var cs :| Represents(h, cs) && Blocks(cs) == live;
    var i := ChunkOf(cs, b);
    var j := ChunkOf(cs, c);
    TilesLayout(cs, h.start, h.end);
  }

  lemma {:induction false} ScribbleStored(h: Heap, cs: seq<Chunk>, k: nat, a: int, v: byte, i: nat)
    requires Represents(h, cs) && k < |cs| && InPayload(cs[k], a) && i < |cs|
    ensures Stored(PutByte(h.mem, a, v), cs[i], h.end)
  {
    hide PutByte, Word;
    TilesLayout(cs, h.start, h.end);
    assert Stored(h.mem, cs[i], h.end);
    var r := PutByte(h.mem, a, v);
    if cs[i].hole && cs[i].End() == h.end {
      LastStoredSame(h.mem, r, cs[i], h.end);
    } else {
      StoredSame(h.mem, r, cs[i], h.end, h.end);
    }
  }

  /** A client's write into its own bytes cannot hurt the heap, whatever it writes. */
  lemma ScribbleGood(h: Heap, live: set<Chunk>, a: int, v: byte, c: Chunk)
    requires Good(h, live) && c in live && InPayload(c, a)
    ensures Good(h.(mem := PutByte(h.mem, a, v)), live)
    ensures forall cs :: Represents(h, cs) ==> Represents(h.(mem := PutByte(h.mem, a, v)), cs)
    ensures Untouched(h.mem, PutByte(h.mem, a, v), live - {c})
  {
    var cs :| Represents(h, cs) && Blocks(cs) == live;
    var g := h.(mem := PutByte(h.mem, a, v));
    var k := ChunkOf(cs, c);
    StoredChunk(h, live, c);
    forall i | 0 <= i < |cs|
      ensures Stored(g.mem, cs[i], g.end)
    {
      ScribbleStored(h, cs, k, a, v, i);
    }
    hide PutByte, Word, Stored;
    PlacedElsewhere(h, g);
    assert Represents(g, cs);
    hide Represents;
    forall ds | Represents(h, ds)
      ensures Represents(g, ds)
    {
      ChunksDetermined(h, cs, ds);
    }
    forall b, x | b in live - {c} && b.addr <= x < b.End()
      ensures Byte(g.mem, x) == Byte(h.mem, x)
    {
      LiveDisjoint(h, live, b, c);
    }
  }

  /** The hole a spare byte of the heap lies in. */
  ghost function SpareChunk(h: Heap, cs: seq<Chunk>, a: int): (k: nat)
    requires Represents(h, cs) && Spare(h, a) && h.start <= a < h.end
    ensures k < |cs| && cs[k].hole && InPayload(cs[k], a)
  {
    var i :| 0 <= i < |h.index| && h.index[i] + HEADER_SIZE <= a < h.index[i] + Size(h.mem, h.index[i]) - FOOTER_SIZE;
    Indexed(h, cs, h.index[i]);
    var k :| 0 <= k < |cs| && cs[k].hole && cs[k].addr == h.index[i];
    assert Stored(h.mem, cs[k], h.end);
    k
  }

  lemma AwayStored(h: Heap, cs: seq<Chunk>, a: int, v: byte, i: nat)
    requires Represents(h, cs) && i < |cs| && !(h.start <= a < h.end)
    ensures Stored(PutByte(h.mem, a, v), cs[i], h.end)
  {
    hide PutByte, Word;
    TilesLayout(cs, h.start, h.end);
    assert Stored(h.mem, cs[i], h.end);
    var r := PutByte(h.mem, a, v);
    if cs[i].hole && cs[i].End() == h.end {
      LastStoredSame(h.mem, r, cs[i], h.end);
    } else {
      StoredSame(h.mem, r, cs[i], h.end, h.end);
    }
  }

  lemma SpareOutside(h: Heap, cs: seq<Chunk>, a: int)
    requires Represents(h, cs) && Spare(h, a)
    ensures a < h.start - FOOTER_SIZE || h.start <= a
  {
    hide Word;
    if i :| 0 <= i < |h.index| && h.index[i] + HEADER_SIZE <= a < h.index[i] + Size(h.mem, h.index[i]) - FOOTER_SIZE {
      var k := HoleAt(h, cs, i);
    }
  }

  lemma SpareBelow(h: Heap, a: int, v: byte)
    requires Placed(h) && (a < h.start - FOOTER_SIZE || h.start <= a)
    ensures Placed(h.(mem := PutByte(h.mem, a, v)))
  {
    hide PutByte, Byte;
    WordSame(h.mem, PutByte(h.mem, a, v), h.start - FOOTER_SIZE);
  }

  /** Nor can a write by anyone into spare bytes, and no client's bytes change. */
  lemma SpareGood(h: Heap, live: set<Chunk>, a: int, v: byte)
    requires Good(h, live) && Spare(h, a)
    ensures Good(h.(mem := PutByte(h.mem, a, v)), live)
    ensures forall cs :: Represents(h, cs) ==> Represents(h.(mem := PutByte(h.mem, a, v)), cs)
    ensures Untouched(h.mem, PutByte(h.mem, a, v), live)
  {
    hide PutByte, Word, Byte;
    var cs :| Represents(h, cs) && Blocks(cs) == live;
    var g := h.(mem := PutByte(h.mem, a, v));
    TilesLayout(cs, h.start, h.end);
    var k := if h.start <= a < h.end then SpareChunk(h, cs, a) else |cs|;
    forall i | 0 <= i < |cs|
      ensures Stored(g.mem, cs[i], g.end)
    {
      if k < |cs| {
        ScribbleStored(h, cs, k, a, v, i);
      } else {
        AwayStored(h, cs, a, v, i);
      }
    }
    hide Stored;
    SpareOutside(h, cs, a);
    SpareBelow(h, a, v);
    assert Represents(g, cs);
    hide Represents;
    forall ds | Represents(h, ds)
      ensures Represents(g, ds)
    {
      ChunksDetermined(h, cs, ds);
    }
    forall b, x | b in live && b.addr <= x < b.End()
      ensures Byte(g.mem, x) == Byte(h.mem, x)
    {
      var i := ChunkOf(cs, b);
      assert x != a;
    }
  }

  /** One step keeps a world sound exactly when it meets its guard. */
  lemma StepExact(w: World, op: Op)
    requires Sound(w) && Allowed(w, op)
    ensures Guard(w, op) <==> Step(w, op).Some? && Sound(Step(w, op).value)
  {
    hide Good, Alloc, Free, AllocGuard, FreeGuard, Granted;
    match op
    case Malloc(size) => AllocExact(w.heap, w.live, size);
    case Release(p) =>
      if p == 0 {
        NullRelease(w.heap);
      } else {
        var c := Granted(w.heap, p);
        StoredChunk(w.heap, w.live, c);
        GrantedAddr(w.heap, p);
        FreeExact(w.heap, w.live, c);
      }
    case Scribble(a, v) =>
      if Spare(w.heap, a) {
        SpareGood(w.heap, w.live, a, v);
      } else {
        var c :| c in w.live && InPayload(c, a);
        ScribbleGood(w.heap, w.live, a, v, c);
      }
  }

  lemma NullRelease(h: Heap)
    ensures Free(h, 0) == Done(h, 0)
  {
  }

  lemma GrantedAddr(h: Heap, p: int)
    ensures Granted(h, p).addr + HEADER_SIZE == p
  {
  }

  // ----- runs

  /** A run stays sound at every step exactly when every step of it meets its guard. */
  lemma {:induction false} RunExact(w: World, ops: seq<Op>)
    requires Sound(w) && AllAllowed(w, ops)
    ensures StaysSound(w, ops) <==> AllGuarded(w, ops)
    decreases |ops|
  {
    hide Sound, Guard, Step, Allowed;
    if ops != [] {
      StepExact(w, ops[0]);
      if Step(w, ops[0]).Some? {
        var w' := Step(w, ops[0]).value;
        if Sound(w') {
          RunExact(w', ops[1..]);
        }
      }
    }
  }

  /** No step of the run releases `c` or writes into it. */
  ghost predicate LeavesAlone(ops: seq<Op>, c: Chunk) {
    forall i :: 0 <= i < |ops| ==>
      ops[i] != Release(c.addr + HEADER_SIZE) && !(ops[i].Scribble? && InPayload(c, ops[i].a))
  }

  lemma StepKeeps(w: World, op: Op, c: Chunk)
    requires Sound(w) && Allowed(w, op) && Guard(w, op) && c in w.live && LeavesAlone([op], c)
    ensures Step(w, op).Some? && c in Step(w, op).value.live
    ensures Untouched(w.heap.mem, Step(w, op).value.heap.mem, {c})
  {
    hide Good, Alloc, Free, AllocGuard, FreeGuard, Granted, Byte;
    assert [op][0] == op;
    match op
    case Malloc(size) => AllocSafe(w.heap, w.live, size);
    case Release(p) =>
      if p == 0 {
        NullRelease(w.heap);
      } else {
        var b := Granted(w.heap, p);
        StoredChunk(w.heap, w.live, b);
        GrantedAddr(w.heap, p);
        FreeExact(w.heap, w.live, b);
      }
    case Scribble(a, v) =>
      if Spare(w.heap, a) {
        SpareGood(w.heap, w.live, a, v);
      } else {
        var b :| b in w.live && InPayload(b, a);
        ScribbleGood(w.heap, w.live, a, v, b);
      }
  }

  /** What a client holds and does not touch is byte for byte the same at the end of a run. */
  lemma {:induction false} RunKeeps(w: World, ops: seq<Op>, c: Chunk)
    requires Sound(w) && AllAllowed(w, ops) && AllGuarded(w, ops) && c in w.live && LeavesAlone(ops, c)
    ensures Run(w, ops).Some? && Sound(Run(w, ops).value) && c in Run(w, ops).value.live
    ensures Untouched(w.heap.mem, Run(w, ops).value.heap.mem, {c})
    decreases |ops|
  {
    hide Sound, Guard, Step, Allowed, Byte;
    if ops != [] {
      assert LeavesAlone([ops[0]], c) && LeavesAlone(ops[1..], c);
      StepKeeps(w, ops[0], c);
      StepExact(w, ops[0]);
      var w' := Step(w, ops[0]).value;
      RunKeeps(w', ops[1..], c);
      UntouchedTransitive(w.heap.mem, w'.heap.mem, Run(w, ops).value.heap.mem, {c});
    }
  }

  // ----- the start of every run

  lemma CreatedWhere(start: int)
    requires start % PAGE_SIZE == 0
    ensures start >= 0 ==> RoundUp(start + 4 * HEAP_INDEX_SIZE) == start + 0x8_1000
  {
  }

  /** The heap as created is one hole, sound exactly when its space is large enough, has frames
      behind it, and has no stray footer just below it. */
  lemma CreatedGood(mem: Mem, start: int, end: int, max: int, supervisor: bool, readonly: bool, pool: O.Pool)
    requires CreateHeap(mem, start, end, max, supervisor, readonly, pool).Some?
    ensures var h := CreateHeap(mem, start, end, max, supervisor, readonly, pool).value;
            && (Good(h, {}) <==> Placed(h))
            && (Placed(h) ==> Represents(h, [Chunk(h.start, h.end - h.start, true)]) && h.index == [h.start])
            && (start >= 0 ==> h.start == start + 0x8_1000)
            && h.end == end && h.max == max && h.supervisor == supervisor && h.readonly == readonly && h.pool == pool
            && (forall a :: !(h.start <= a < h.start + HEADER_SIZE) ==> Byte(h.mem, a) == Byte(mem, a))
  {
    hide Word, Byte, PutHeader, Place, RoundUp;
    CreatedWhere(start);
    var h := CreateHeap(mem, start, end, max, supervisor, readonly, pool).value;
    var c := Chunk(h.start, h.end - h.start, true);
    if Placed(h) {
      hide Holes, Blocks;
      OneHole(c);
      NoBlocks(c);
      assert Represents(h, [c]);
    }
  }
}
