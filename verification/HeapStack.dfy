/** Clients that release in the opposite order of their requests see a plain stack allocator. */
module HeapStack {
  import opened Memory
  import opened OrderedArrays
  import opened KHeap
  import opened Chunks
  import opened HeapAlloc
  import opened HeapFree

  /** The specification: a stack of chunk sizes. */
  datatype StackOp = Push(size: int) | Pop

  function Sum(sizes: seq<int>): int {
    if sizes == [] then 0 else Sum(sizes[..|sizes| - 1]) + sizes[|sizes| - 1]
  }

  function StackStep(sizes: seq<int>, op: StackOp): seq<int> {
    match op
    case Push(size) => sizes + [size + TAGS_SIZE]
    case Pop => if sizes == [] then [] else sizes[..|sizes| - 1]
  }

  function StackRun(sizes: seq<int>, ops: seq<StackOp>): seq<int>
    decreases |ops|
  {
    if ops == [] then sizes else StackRun(StackStep(sizes, ops[0]), ops[1..])
  }

  /** Every push leaves room for one more header and footer, every pop has something to pop. */
  predicate StackFits(h: Heap, sizes: seq<int>, ops: seq<StackOp>)
    decreases |ops|
  {
    ops != [] ==>
      && (match ops[0]
          case Push(size) => NoWrap(h, size) && Sum(sizes) + size + 2 * TAGS_SIZE <= h.end - h.start
          case Pop => sizes != [])
      && StackFits(h, StackStep(sizes, ops[0]), ops[1..])
  }

  /** The payload addresses a stack of these sizes has handed out, oldest first. */
  function Payloads(start: int, sizes: seq<int>): seq<int> {
    if sizes == [] then []
    else
      var below := sizes[..|sizes| - 1];
      Payloads(start, below) + [start + Sum(below) + HEADER_SIZE]
  }

  /** The kernel's heap driven by such a client, who holds the addresses it was given. */
  datatype Machine = Machine(heap: Heap, held: seq<int>)

  function MachineStep(m: Machine, op: StackOp): Option<Machine> {
    match op
    case Push(size) =>
      if !NoWrap(m.heap, size) then None
      else
        (match Alloc(m.heap, size)
         case Done(g, p) => Some(Machine(g, m.held + [p]))
         case Panic => None)
    case Pop =>
      if m.held == [] then None
      else
        (match Free(m.heap, m.held[|m.held| - 1])
         case Done(g, _) => Some(Machine(g, m.held[..|m.held| - 1]))
         case Panic => None)
  }

  function MachineRun(m: Machine, ops: seq<StackOp>): Option<Machine>
    decreases |ops|
  {
    if ops == [] then Some(m)
    else
      match MachineStep(m, ops[0])
      case None => None
      case Some(m') => MachineRun(m', ops[1..])
  }

  // ----- the shape of the heap

  ghost function Piled(start: int, sizes: seq<int>): seq<Chunk> {
    if sizes == [] then []
    else
      var below := sizes[..|sizes| - 1];
      Piled(start, below) + [Chunk(start + Sum(below), sizes[|sizes| - 1], false)]
  }

  ghost function Stacked(start: int, end: int, sizes: seq<int>): seq<Chunk> {
    Piled(start, sizes) + [Chunk(start + Sum(sizes), end - start - Sum(sizes), true)]
  }

  /** Blocks of the given sizes from the start, then one hole, the only one indexed. */
  ghost predicate Shape(h: Heap, sizes: seq<int>) {
    Represents(h, Stacked(h.start, h.end, sizes)) && h.index == [h.start + Sum(sizes)]
  }

  ghost predicate Refines(m: Machine, sizes: seq<int>) {
    Shape(m.heap, sizes) && m.held == Payloads(m.heap.start, sizes)
  }

  lemma {:induction false} PiledLength(start: int, sizes: seq<int>)
    ensures |Piled(start, sizes)| == |sizes| == |Payloads(start, sizes)|
  {
    if sizes != [] {
      PiledLength(start, sizes[..|sizes| - 1]);
    }
  }

  /** The outcome of a call that leaves the heap in place with a stack of the given sizes. */
  ghost predicate Becomes(h: Heap, r: Outcome, sizes: seq<int>) {
    && r.Done? && Shape(r.heap, sizes)
    && r.heap.start == h.start && r.heap.end == h.end && r.heap.max == h.max && r.heap.pool == h.pool
  }

  lemma PushShape(h: Heap, sizes: seq<int>, size: int)
    requires Shape(h, sizes) && NoWrap(h, size) && Sum(sizes) + size + 2 * TAGS_SIZE <= h.end - h.start
    ensures var r := Alloc(h, size);
            && Becomes(h, r, sizes + [size + TAGS_SIZE]) && r.ptr == h.start + Sum(sizes) + HEADER_SIZE
            && WritesInside(h, r.heap)
  {
    hide Word, Byte, Represents, Piled, Carve, Good, Sum, Cut, Removed;
    var cs := Stacked(h.start, h.end, sizes);
    var n := |sizes|;
    PiledLength(h.start, sizes);
    StoredSize(h, cs, n);
    assert FirstFit(h.mem, h.index, size + TAGS_SIZE) == 0;
    CarveRepresents(h, cs, 0, size, n);
    CarveFields(h, 0, size);
    CarveInside(h, cs, 0, size, n);
    var more := sizes + [size + TAGS_SIZE];
    PiledMore(h.start, sizes, size + TAGS_SIZE);
    PushStacked(h.start, h.end, sizes, size);
    PushIndex(h, size, h.start + Sum(sizes), h.end - h.start - Sum(sizes));
  }

  /** No byte outside the heap changes. */
  ghost predicate WritesInside(h: Heap, g: Heap) {
    forall a :: !(h.start <= a < h.end) ==> Byte(g.mem, a) == Byte(h.mem, a)
  }

  lemma CarveInside(h: Heap, cs: seq<Chunk>, it: nat, size: int, i: nat)
    requires Represents(h, cs) && it < |h.index| && i < |cs| && cs[i].addr == h.index[it]
    requires 0 <= size && size + TAGS_SIZE <= cs[i].size
    ensures WritesInside(h, Carve(h, it, size))
  {
    hide Carve, Word, Byte;
    TilesLayout(cs, h.start, h.end);
    StoredSize(h, cs, i);
    CarveWrites(h, it, size, cs[i]);
  }

  lemma PiledMore(start: int, sizes: seq<int>, s: int)
    ensures Piled(start, sizes + [s]) == Piled(start, sizes) + [Chunk(start + Sum(sizes), s, false)]
    ensures Sum(sizes + [s]) == Sum(sizes) + s
  {
    assert (sizes + [s])[..|sizes|] == sizes;
  }

  lemma PushStacked(start: int, end: int, sizes: seq<int>, size: int)
    requires Sum(sizes) + size + 2 * TAGS_SIZE <= end - start
    ensures var cs := Stacked(start, end, sizes);
            |cs| == |sizes| + 1 &&
            Stacked(start, end, sizes + [size + TAGS_SIZE]) == cs[..|sizes|] + Cut(cs[|sizes|], size) + cs[|sizes| + 1..]
  {
    hide Piled, Sum;
    PiledMore(start, sizes, size + TAGS_SIZE);
    PiledLength(start, sizes);
    var low := Piled(start, sizes);
    var top := start + Sum(sizes);
    var hole := Chunk(top, end - top, true);
    var block := Chunk(top, size + TAGS_SIZE, false);
    var rest := Chunk(top + size + TAGS_SIZE, end - top - size - TAGS_SIZE, true);
    assert Cut(hole, size) == [block, rest];
    assert (low + [hole])[..|low|] == low && (low + [hole])[|low| + 1..] == [];
    assert (low + [block]) + [rest] == low + [block, rest] + [];
  }

  lemma PushIndex(h: Heap, size: int, top: int, avail: int)
    requires h.index == [top] && Size(h.mem, top) == avail && 0 <= size && size + 2 * TAGS_SIZE <= avail
    ensures Carve(h, 0, size).index == [top + size + TAGS_SIZE]
  {
    hide Size, PutHeader, PutFooter;
    assert Removed(h.index, 0) == [];
  }

  lemma PopShape(h: Heap, sizes: seq<int>)
    requires Shape(h, sizes) && sizes != []
    ensures Becomes(h, Free(h, h.start + Sum(sizes[..|sizes| - 1]) + HEADER_SIZE), sizes[..|sizes| - 1])
  {
    hide Word, Byte, Represents, Free, Good, Reindex, Blocks, AfterRight, Holes, Piled, Sum, Find, RightMerged;
    var cs := Stacked(h.start, h.end, sizes);
    var n := |sizes|;
    var below := sizes[..n - 1];
    PopStacked(h.start, h.end, sizes);
    FreeRightLast(h, cs, n - 1);
    FreeRight(h, cs, n - 1);
    var g := Free(h, cs[n - 1].addr + HEADER_SIZE).heap;
    RightIndex(h, cs, n - 1, g);
    PopIndex(h.(mem := AfterRight(h, cs, n - 1)), h.start + Sum(sizes), h.start + Sum(below));
  }

  /** A block joined to the final hole behind it. */
  lemma TopMerges(low: seq<Chunk>, b: Chunk, h: Chunk)
    requires !b.hole && h.hole && forall i :: 0 <= i < |low| ==> !low[i].hole
    ensures var cs, n := low + [b, h], |low|;
            && |cs| == n + 2 && cs[n] == b && cs[n + 1] == h
            && !HoleBefore(cs, n) && HoleAfter(cs, n)
            && cs[..n] + [RightMerged(cs, n)] + cs[n + 2..] == low + [Chunk(b.addr, b.size + h.size, true)]
  {
    var cs, n := low + [b, h], |low|;
    assert n > 0 ==> cs[n - 1] == low[n - 1];
    assert RightMerged(cs, n) == Chunk(b.addr, b.size + h.size, true);
    assert cs[..n] == low && cs[n + 2..] == [];
  }

  lemma PopStacked(start: int, end: int, sizes: seq<int>)
    requires sizes != []
    ensures var cs, n := Stacked(start, end, sizes), |sizes|;
            && |cs| == n + 1 && !cs[n - 1].hole && !HoleBefore(cs, n - 1) && HoleAfter(cs, n - 1)
            && cs[n - 1].addr == start + Sum(sizes[..n - 1]) && cs[n].addr == start + Sum(sizes)
            && cs[..n - 1] + [RightMerged(cs, n - 1)] + cs[n + 1..] == Stacked(start, end, sizes[..n - 1])
  {
    hide Piled, Sum, HoleBefore, HoleAfter, RightMerged, Stacked;
    var n := |sizes|;
    var below := sizes[..n - 1];
    StackedTop(start, end, sizes);
    StackedBelow(start, end, sizes);
    PiledLength(start, below);
    PiledBlocks(start, below);
    TopMerges(Piled(start, below), TopBlock(start, sizes), TopHole(start, end, sizes));
  }

  ghost function TopBlock(start: int, sizes: seq<int>): Chunk
    requires sizes != []
  {
    Chunk(start + Sum(sizes[..|sizes| - 1]), sizes[|sizes| - 1], false)
  }

  ghost function TopHole(start: int, end: int, sizes: seq<int>): Chunk {
    Chunk(start + Sum(sizes), end - start - Sum(sizes), true)
  }

  lemma StackedTop(start: int, end: int, sizes: seq<int>)
    requires sizes != []
    ensures Stacked(start, end, sizes)
         == Piled(start, sizes[..|sizes| - 1]) + [TopBlock(start, sizes), TopHole(start, end, sizes)]
  {
    hide Sum;
    var low := Piled(start, sizes[..|sizes| - 1]);
    assert Piled(start, sizes) == low + [TopBlock(start, sizes)];
    hide Piled;
  }

  lemma StackedBelow(start: int, end: int, sizes: seq<int>)
    requires sizes != []
    ensures (var b, h := TopBlock(start, sizes), TopHole(start, end, sizes);
             Stacked(start, end, sizes[..|sizes| - 1]) ==
             Piled(start, sizes[..|sizes| - 1]) + [Chunk(b.addr, b.size + h.size, true)])
  {
    hide Piled;
  }

  lemma PopIndex(h: Heap, top: int, head: int)
    requires h.index == [top]
    ensures Reindex(h.(index := Removed(h.index, Find(h.index, top))), head, false).index == [head]
  {
    hide Size;
    assert Removed(h.index, 0) == [];
  }

  lemma {:induction false} PiledBlocks(start: int, sizes: seq<int>)
    ensures forall i :: 0 <= i < |Piled(start, sizes)| ==> !Piled(start, sizes)[i].hole
  {
    if sizes != [] {
      PiledBlocks(start, sizes[..|sizes| - 1]);
    }
  }

  // ----- runs

  /** The heap does what the stack does, for every run of pushes and pops. */
  lemma {:induction false} StackRefined(m: Machine, sizes: seq<int>, ops: seq<StackOp>)
    requires Refines(m, sizes) && StackFits(m.heap, sizes, ops)
    ensures var r := MachineRun(m, ops);
            && r.Some? && Refines(r.value, StackRun(sizes, ops)) && r.value.heap.pool == m.heap.pool
            && r.value.heap.start == m.heap.start && r.value.heap.end == m.heap.end
    decreases |ops|
  {
    hide Shape, Alloc, Free;
    if ops != [] {
      PiledLength(m.heap.start, sizes);
      match ops[0] {
        case Push(size) =>
          PushShape(m.heap, sizes, size);
          assert (sizes + [size + TAGS_SIZE])[..|sizes|] == sizes;
        case Pop =>
          PopShape(m.heap, sizes);
      }
      var m' := MachineStep(m, ops[0]).value;
      FitsSame(m.heap, m'.heap, StackStep(sizes, ops[0]), ops[1..]);
      StackRefined(m', StackStep(sizes, ops[0]), ops[1..]);
    }
  }

  lemma {:induction false} FitsSame(h: Heap, g: Heap, sizes: seq<int>, ops: seq<StackOp>)
    requires g.start == h.start && g.end == h.end && g.max == h.max && StackFits(h, sizes, ops)
    ensures StackFits(g, sizes, ops)
    decreases |ops|
  {
    if ops != [] {
      FitsSame(h, g, StackStep(sizes, ops[0]), ops[1..]);
    }
  }

  lemma FreshRefines(h: Heap)
    requires Represents(h, [Chunk(h.start, h.end - h.start, true)]) && h.index == [h.start]
    ensures Refines(Machine(h, []), [])
  {
    assert Stacked(h.start, h.end, []) == [Chunk(h.start, h.end - h.start, true)];
  }

  /** When everything has been popped again, the heap is one hole of its full size again. */
  lemma EmptiedIsWhole(m: Machine, ops: seq<StackOp>)
    requires Refines(m, []) && StackFits(m.heap, [], ops) && StackRun([], ops) == []
    ensures var r := MachineRun(m, ops);
            && r.Some? && r.value.held == []
            && r.value.heap.index == m.heap.index && Size(r.value.heap.mem, m.heap.start) == m.heap.end - m.heap.start
  {
    hide Word, MachineRun;
    StackRefined(m, [], ops);
    var g := MachineRun(m, ops).value.heap;
    var cs := Stacked(g.start, g.end, []);
    StoredSize(g, cs, 0);
  }

  predicate RoomFor(h: Heap, sizes: seq<int>, size: int) {
    NoWrap(h, size) && Sum(sizes) + size + 2 * TAGS_SIZE <= h.end - h.start
  }

  /** The boot self-test for all sizes and depths: a request after a release gets the address that
      was released. */
  lemma SelfTest(m: Machine, sizes: seq<int>, a: int, b: int)
    requires Refines(m, sizes) && RoomFor(m.heap, sizes, a) && RoomFor(m.heap, sizes, b)
    ensures var r1 := MachineStep(m, Push(a));
            r1.Some? &&
            var r2 := MachineStep(r1.value, Pop);
            r2.Some? &&
            var r3 := MachineStep(r2.value, Push(b));
            && r3.Some? && r3.value.held == r1.value.held
            && |r3.value.held| == |m.held| + 1
  {
    hide Shape, Alloc, Free;
    PushShape(m.heap, sizes, a);
    var top := sizes + [a + TAGS_SIZE];
    assert top[..|top| - 1] == sizes;
    var m1 := MachineStep(m, Push(a)).value;
    PopShape(m1.heap, top);
    var m2 := MachineStep(m1, Pop).value;
    assert m2.held == m.held;
    PushShape(m2.heap, sizes, b);
  }
}
