/** The boundary-tag heap, as functions from one state to the next: every branch,
    every read and every write of the unaligned allocator and of its release. */
module KHeap {
  import opened Backing
  import opened Memory
  import opened OrderedArrays
  import opened Owners

  const HEAP_MAGIC := 0x123890AB
  const HEAP_MIN_SIZE := 0x70000
  const HEAP_INDEX_SIZE := 0x20000
  const HEADER_SIZE := 12
  const FOOTER_SIZE := 8
  const TAGS_SIZE := HEADER_SIZE + FOOTER_SIZE
  const PAGE_SIZE := 0x1000
  const WORD_LIMIT := 0x1_0000_0000

  // Header cells: magic at +0, the hole flag at +4, the size at +8.

  function Magic(m: Mem, head: int): nat { Word(m, head) }
  function HoleFlag(m: Mem, head: int): byte { Byte(m, head + 4) }
  function Size(m: Mem, head: int): nat { Word(m, head + 8) }

  // Footer cells: magic at +0, the header's address at +4.

  function FootMagic(m: Mem, foot: int): nat { Word(m, foot) }
  function FootHeader(m: Mem, foot: int): nat { Word(m, foot + 4) }

  function PutHeader(m: Mem, head: int, flag: byte, size: int): (r: Mem)
    ensures Magic(r, head) == HEAP_MAGIC && HoleFlag(r, head) == flag && Size(r, head) == size % WORD_LIMIT
    ensures forall a {:trigger Byte(r, a)} :: !(head <= a < head + HEADER_SIZE) ==> Byte(r, a) == Byte(m, a)
    ensures forall a {:trigger Word(r, a)} :: a + 4 <= head || head + HEADER_SIZE <= a ==> Word(r, a) == Word(m, a)
  {
    PutWord(PutByte(PutWord(m, head, HEAP_MAGIC), head + 4, flag), head + 8, size)
  }

  function PutFooter(m: Mem, foot: int, head: int): (r: Mem)
    ensures FootMagic(r, foot) == HEAP_MAGIC && FootHeader(r, foot) == head % WORD_LIMIT
    ensures forall a {:trigger Byte(r, a)} :: !(foot <= a < foot + FOOTER_SIZE) ==> Byte(r, a) == Byte(m, a)
    ensures forall a {:trigger Word(r, a)} :: a + 4 <= foot || foot + FOOTER_SIZE <= a ==> Word(r, a) == Word(m, a)
  {
    PutWord(PutWord(m, foot, HEAP_MAGIC), foot + 4, head)
  }

  /** `index` holds the addresses of the indexed headers; `pool` the page entries of the directory,
      by page number, and the frames in use. */
  datatype Heap = Heap(mem: Mem, start: int, end: int, max: int, supervisor: bool, readonly: bool,
                       index: seq<int>, pool: Pool)

  datatype Option<T> = None | Some(value: T)

  /** What a call does: it completes, or an assertion or a page fault stops the kernel. */
  datatype Outcome = Done(heap: Heap, ptr: int) | Panic

  /** The index orders headers by the size stored in them. */
  function SmallerThan(m: Mem): (int, int) -> bool {
    (a: int, b: int) => Size(m, a) < Size(m, b)
  }

  /** The loop of `expand`, a page at a time from the old size on. */
  function BackFrom(s: Pool, start: int, it: int, limit: int, isWrite: bool): Pool
    decreases limit - it
  {
    if it < limit then BackFrom(Back(s, (start + it) / PAGE_SIZE, isWrite), start, it + PAGE_SIZE, limit, isWrite) else s
  }

  /** Rounding in `expand`: a size already on a page boundary still gains a page. */
  function RoundUp(size: int): int {
    if size >= PAGE_SIZE then size / PAGE_SIZE * PAGE_SIZE + PAGE_SIZE else size
  }

  function Expand(h: Heap, wanted: int): Option<Heap> {
    if wanted <= h.end - h.start then None
    else
      var size := RoundUp(wanted);
      if h.start + size > h.max then None
      else Some(h.(end := h.start + size, pool := BackFrom(h.pool, h.start, h.end - h.start, size, !h.readonly)))
  }

  /** Rounding in `contract`: the mask is 0x1000 itself, so a size with bit 12 set becomes 0x2000
      and any other size is left alone; then the minimum size applies. */
  function ContractedSize(size: int): int {
    var rounded := if (size / PAGE_SIZE) % 2 == 1 then 2 * PAGE_SIZE else size;
    if rounded < HEAP_MIN_SIZE then HEAP_MIN_SIZE else rounded
  }

  /** The loop of `contract`, a page at a time down from the last one. */
  function UnbackDown(s: Pool, start: int, size: int, it: int, atAddress: bool): Pool
    decreases it - size
  {
    if size < it then UnbackDown(Unback(s, (start + it) / PAGE_SIZE, atAddress), start, size, it - PAGE_SIZE, atAddress) else s
  }

  /** `contract`, with the release of frames as it is written, or with the frame's address where the
      code passes its number. */
  function Contract(h: Heap, wanted: int, atAddress: bool := false): Option<Heap> {
    if wanted >= h.end - h.start then None
    else
      var size := ContractedSize(wanted);
      Some(h.(end := h.start + size,
              pool := UnbackDown(h.pool, h.start, size, h.end - h.start - PAGE_SIZE, atAddress)))
  }

  /** The position of the first indexed hole of at least `need` bytes, or the index's length. */
  function FirstFit(m: Mem, index: seq<int>, need: int): (it: nat)
    ensures it <= |index|
    ensures forall k :: 0 <= k < it ==> Size(m, index[k]) < need
    ensures it < |index| ==> Size(m, index[it]) >= need
  {
    if index == [] || Size(m, index[0]) >= need then 0 else 1 + FirstFit(m, index[1..], need)
  }

  /** The highest indexed address above `value`, or `value`. */
  function Highest(index: seq<int>, value: int): (r: int)
    ensures r == value || r in index
    ensures r >= value && forall i :: 0 <= i < |index| ==> index[i] <= r
  {
    if index == [] then value else Highest(index[1..], if index[0] > value then index[0] else value)
  }

  /** Growth: expand, then give the new space to the highest hole, or make a hole of it. */
  function Grow(h: Heap, need: int): Option<Heap> {
    var oldLen := h.end - h.start;
    match Expand(h, oldLen + need)
    case None => None
    case Some(g) =>
      var extra := g.end - g.start - oldLen;
      var head := Highest(h.index, 0);
      if head == 0 then
        var m1 := PutHeader(g.mem, h.end, 1, extra);
        var m2 := PutFooter(m1, h.end + Size(m1, h.end) - FOOTER_SIZE, h.end);
        Some(g.(mem := m2, index := Inserted(g.index, h.end, SmallerThan(m2))))
      else
        var m1 := PutWord(g.mem, head + 8, Size(g.mem, head) + extra);
        var m2 := PutFooter(m1, head + Size(m1, head) - FOOTER_SIZE, head);
        Some(g.(mem := m2))
  }

  /** The bytes a block takes from a hole of `avail` bytes: a rest too small for a header
      and a footer goes to the block. */
  function BlockSize(size: int, avail: int): int {
    if avail - (size + TAGS_SIZE) < TAGS_SIZE then avail else size + TAGS_SIZE
  }

  /** Writes and indexes a hole of `size` bytes; its footer is written only below the heap's end. */
  function PutHole(h: Heap, at: int, size: int): Heap {
    var foot := at + size - FOOTER_SIZE;
    var m1 := PutHeader(h.mem, at, 1, size);
    var m2 := if foot < h.end then PutFooter(m1, foot, at) else m1;
    h.(mem := m2, index := Inserted(h.index, at, SmallerThan(m2)))
  }

  /** Cuts a block for `size` bytes out of the hole at index position `it`. */
  function Carve(h: Heap, it: nat, size: int): Heap
    requires it < |h.index|
  {
    var p := h.index[it];
    var avail := Size(h.mem, p);
    var need := BlockSize(size, avail);
    var payload := need - TAGS_SIZE;
    var index := Removed(h.index, it);
    var m1 := PutHeader(h.mem, p, 0, need);
    var m2 := PutFooter(m1, p + HEADER_SIZE + payload, p);
    if avail - need > 0 then
      PutHole(h.(mem := m2, index := index), p + HEADER_SIZE + payload + FOOTER_SIZE, avail - need)
    else
      h.(mem := m2, index := index)
  }

  /** The sums a request makes stay below 2^32. */
  predicate NoWrap(h: Heap, size: int) {
    0 <= size && h.max + size + TAGS_SIZE + PAGE_SIZE < WORD_LIMIT
  }

  function Alloc(h: Heap, size: int): Outcome
    requires NoWrap(h, size)
    decreases h.max - h.end
  {
    var need := size + TAGS_SIZE;
    var it := FirstFit(h.mem, h.index, need);
    if it == |h.index| then
      match Grow(h, need)
      case None => Panic
      case Some(g) => Alloc(g, size)
    else
      Done(Carve(h, it, size), h.index[it] + HEADER_SIZE)
  }

  function Find(index: seq<int>, item: int): (it: nat)
    ensures it <= |index|
    ensures it < |index| ==> index[it] == item
    ensures forall k :: 0 <= k < it ==> index[k] != item
  {
    if index == [] || index[0] == item then 0 else 1 + Find(index[1..], item)
  }

  /** The state after the left merge: the memory, the header and whether it is already indexed. */
  datatype Merge = Merge(mem: Mem, head: int, indexed: bool)

  function MergeLeft(m: Mem, head: int, foot: int): Merge {
    var testFoot := head - FOOTER_SIZE;
    var left := FootHeader(m, testFoot);
    if FootMagic(m, testFoot) == HEAP_MAGIC && HoleFlag(m, left) == 1 then
      var m1 := PutWord(m, foot + 4, left);
      Merge(PutWord(m1, left + 8, Size(m1, left) + Size(m, head)), left, true)
    else
      Merge(m, head, false)
  }

  /** The end of a release: contraction when `foot` closes the heap, then insertion. */
  function Settle(h: Heap, head: int, foot: int, right: int, indexed: bool, atAddress: bool := false): Outcome {
    if foot + FOOTER_SIZE == h.end then
      var oldLen := h.end - h.start;
      match Contract(h, head - h.start, atAddress)
      case None => Panic
      case Some(c) =>
        var newLen := c.end - c.start;
        var left := (Size(h.mem, head) - (oldLen - newLen)) % WORD_LIMIT;
        if left > 0 then
          var m1 := PutWord(c.mem, head + 8, left);
          var m2 := PutFooter(m1, (head + left - FOOTER_SIZE) % WORD_LIMIT, head);
          Done(Reindex(c.(mem := m2), head, indexed), 0)
        else
          var it := Find(c.index, right);
          var index := if it < |c.index| then Removed(c.index, it) else c.index;
          Done(Reindex(c.(index := index), head, indexed), 0)
    else
      Done(Reindex(h, head, indexed), 0)
  }

  function Reindex(h: Heap, head: int, indexed: bool): Heap {
    if indexed then h else h.(index := Inserted(h.index, head, SmallerThan(h.mem)))
  }

  /** A read at `a` does not fault. */
  predicate Readable(h: Heap, a: int) {
    a / PAGE_SIZE in h.pool.pages && h.pool.pages[a / PAGE_SIZE].present
  }

  /** Where a read at `a` finds its byte: a page whose frame was taken away is still present, and
      shows frame 0, which is page 0. */
  function Seen(h: Heap, a: int): int {
    if Readable(h, a) && h.pool.pages[a / PAGE_SIZE].frame == 0 then a % PAGE_SIZE else a
  }

  /** Right merge, then the rest of the release. The header looked at may lie past the heap. */
  function MergeRight(h: Heap, head: int, foot: int, testFoot: int, indexed: bool, atAddress: bool := false): Outcome {
    var right := foot + FOOTER_SIZE;
    var at := Seen(h, right);
    if !Readable(h, right) then Panic
    else if Magic(h.mem, at) == HEAP_MAGIC && HoleFlag(h.mem, at) != 0 then
      var m := PutWord(h.mem, head + 8, Size(h.mem, head) + Size(h.mem, at));
      // The footer to look at next is computed from the left neighbour's footer.
      var foot1 := testFoot + Size(m, at) - FOOTER_SIZE;
      var it := Find(h.index, right);
      if it == |h.index| then Panic
      else Settle(h.(mem := m, index := Removed(h.index, it)), head, foot1, right, indexed, atAddress)
    else
      Settle(h, head, foot, right, indexed, atAddress)
  }

  /** `free`; `atAddress` is the release a kernel would run that passes the frame's address. */
  function Free(h: Heap, p: int, atAddress: bool := false): Outcome {
    if p == 0 then Done(h, 0)
    else
      var block := p - HEADER_SIZE;
      var foot := block + Size(h.mem, block) - FOOTER_SIZE;
      if Magic(h.mem, block) != HEAP_MAGIC || FootMagic(h.mem, foot) != HEAP_MAGIC then Panic
      else
        var Merge(m, head, indexed) := MergeLeft(PutByte(h.mem, block + 4, 1), block, foot);
        MergeRight(h.(mem := m), head, foot, block - FOOTER_SIZE, indexed, atAddress)
  }

  /** A new heap: one hole over the whole space, without a footer. The index takes the space
      before it, and the start is then moved up to the next page, a whole one if it is aligned. */
  function CreateHeap(mem: Mem, start: int, end: int, max: int, supervisor: bool, readonly: bool, pool: Pool): Option<Heap> {
    if start % PAGE_SIZE != 0 || end % PAGE_SIZE != 0 then None
    else
      var first := RoundUp(start + 4 * HEAP_INDEX_SIZE);
      var m := PutHeader(mem, first, 1, end - first);
      Some(Heap(m, first, end, max, supervisor, readonly, Inserted([], first, SmallerThan(m)), pool))
  }
}
