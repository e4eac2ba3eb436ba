/** The heap object: its fields are updated in place, call by call, as KHeap's functions say. */
module KernelHeap {
  import opened Backing
  import opened Memory
  import opened OrderedArrays
  import K = KHeap
  import opened Chunks
  import opened HeapAlloc
  import opened HeapFree
  import opened HeapStack
  import O = Owners

  class Heap {
    var mem: Mem
    var startAddress: int
    var endAddress: int
    var maxAddress: int
    var index: OrderedArray<int>
    var pool: O.Pool
    var supervisor: bool
    var readonly: bool

    ghost predicate Valid()
      reads this, index
    {
      index.Valid() && index.maxSize == K.HEAP_INDEX_SIZE
    }

    ghost function Model(): K.Heap
      requires Valid()
      reads this, index, index.items
    {
      K.Heap(mem, startAddress, endAddress, maxAddress, supervisor, readonly, index.Live(), pool)
    }

    constructor (mem: Mem, start: int, end: int, max: int, supervisor: bool, readonly: bool, pool: O.Pool)
      requires start % K.PAGE_SIZE == 0 && end % K.PAGE_SIZE == 0
      ensures Valid() && fresh(index) && fresh(index.items)
      ensures K.Some(Model()) == K.CreateHeap(mem, start, end, max, supervisor, readonly, pool)
    {
      var first := K.RoundUp(start + 4 * K.HEAP_INDEX_SIZE);
      this.mem := K.PutHeader(mem, first, 1, end - first);
      startAddress := first;
      endAddress := end;
      maxAddress := max;
      this.supervisor, this.readonly := supervisor, readonly;
      this.pool := pool;
      index := new OrderedArray<int>.PlaceAt(K.HEAP_INDEX_SIZE, 0);
      new;
      index.Insert(first, K.SmallerThan(this.mem));
    }

    /** False when one of the assertions stops the kernel; nothing has changed then. A page whose
        table is missing is left alone: requests that need one are not modelled. */
    method Expand(wanted: int) returns (ok: bool)
      requires Valid()
      modifies this`endAddress, this`pool
      ensures Valid() && index == old(index)
      ensures K.Expand(old(Model()), wanted) == if ok then K.Some(Model()) else K.None
      ensures !ok ==> Model() == old(Model())
    {
      if wanted <= endAddress - startAddress {
        return false;
      }
      var size := wanted;
      if size >= K.PAGE_SIZE {
        size := size / K.PAGE_SIZE * K.PAGE_SIZE;
        size := size + K.PAGE_SIZE;
      }
      if startAddress + size > maxAddress {
        return false;
      }
      var oldSize := endAddress - startAddress;
      var it := oldSize;
      while it < size
        invariant K.BackFrom(pool, startAddress, it, size, !readonly)
               == K.BackFrom(old(pool), startAddress, oldSize, size, !readonly)
        decreases size - it
      {
        pool := Back(pool, (startAddress + it) / K.PAGE_SIZE, !readonly);
        it := it + K.PAGE_SIZE;
      }
      endAddress := startAddress + size;
      ok := true;
    }

    method Contract(wanted: int) returns (ok: bool)
      requires Valid()
      modifies this`endAddress, this`pool
      ensures Valid() && index == old(index)
      ensures K.Contract(old(Model()), wanted) == if ok then K.Some(Model()) else K.None
    {
      if wanted >= endAddress - startAddress {
        return false;
      }
      var size := wanted;
      if (size / K.PAGE_SIZE) % 2 == 1 {
        size := K.PAGE_SIZE;
        size := size + K.PAGE_SIZE;
      }
      if size < K.HEAP_MIN_SIZE {
        size := K.HEAP_MIN_SIZE;
      }
      var oldSize := endAddress - startAddress;
      var it := oldSize - K.PAGE_SIZE;
      while size < it
        invariant K.UnbackDown(pool, startAddress, size, it, false)
               == K.UnbackDown(old(pool), startAddress, size, oldSize - K.PAGE_SIZE, false)
        decreases it - size
      {
        pool := Unback(pool, (startAddress + it) / K.PAGE_SIZE, false);
        it := it - K.PAGE_SIZE;
      }
      endAddress := startAddress + size;
      ok := true;
    }

    method FindSmallestHole(need: int) returns (it: nat)
      requires Valid()
      ensures it == K.FirstFit(mem, index.Live(), need)
    {
      it := 0;
      while it < index.size
        invariant it <= K.FirstFit(mem, index.Live(), need)
      {
        var head := index.Lookup(it);
        if K.Size(mem, head) >= need {
          break;
        }
        it := it + 1;
      }
    }

    /** The highest indexed address, or 0. */
    method HighestHole() returns (value: int)
      requires Valid()
      ensures value == K.Highest(index.Live(), 0)
    {
      var it := 0;
      value := 0;
      while it < index.size
        invariant it <= index.size
        invariant K.Highest(index.Live(), 0) == K.Highest(index.Live()[it..], value)
      {
        var tmp := index.Lookup(it);
        assert index.Live()[it..][1..] == index.Live()[it + 1..];
        if tmp > value {
          value := tmp;
        }
        it := it + 1;
      }
    }

    method Find(item: int) returns (it: nat)
      requires Valid()
      ensures it == K.Find(index.Live(), item)
    {
      it := 0;
      while it < index.size
        invariant it <= K.Find(index.Live(), item)
      {
        var head := index.Lookup(it);
        if head == item {
          break;
        }
        it := it + 1;
      }
    }

    method Grow(need: int) returns (ok: bool)
      requires Valid() && index.size <= index.maxSize
      modifies this, index, index.items
      ensures Valid() && index == old(index) && index.items == old(index.items)
      ensures K.Grow(old(Model()), need) == if ok then K.Some(Model()) else K.None
    {
      hide K.PutHeader, K.PutFooter, PutWord, K.Size, Inserted, K.Highest, K.Expand;
      var oldLen := endAddress - startAddress;
      var oldEnd := endAddress;
      ok := Expand(oldLen + need);
      if !ok {
        return;
      }
      var newLen := endAddress - startAddress;
      var head := HighestHole();
      if head == 0 {
        mem := K.PutHeader(mem, oldEnd, 1, newLen - oldLen);
        mem := K.PutFooter(mem, oldEnd + K.Size(mem, oldEnd) - K.FOOTER_SIZE, oldEnd);
        index.Insert(oldEnd, K.SmallerThan(mem));
      } else {
        mem := PutWord(mem, head + 8, K.Size(mem, head) + (newLen - oldLen));
        mem := K.PutFooter(mem, head + K.Size(mem, head) - K.FOOTER_SIZE, head);
      }
    }

    method Alloc(size: int) returns (ok: bool, p: int)
      requires Valid() && index.size <= index.maxSize
      requires K.NoWrap(Model(), size) && 0 < endAddress
      requires forall i :: 0 <= i < index.size ==> 0 < index.items[i]
      modifies this, index, index.items
      ensures Valid() && index == old(index) && index.items == old(index.items)
      ensures K.Alloc(old(Model()), size).Done? == ok
      ensures ok ==> K.Alloc(old(Model()), size) == K.Done(Model(), p)
      decreases maxAddress - endAddress
    {
      hide K.Carve, K.Grow, K.Size;
      var need := size + K.TAGS_SIZE;
      var it := FindSmallestHole(need);
      if it == index.size {
        ghost var was := Model();
        ok := Grow(need);
        if !ok {
          return false, 0;
        }
        GrowthIndex(was, need);
        ok, p := Alloc(size);
      } else {
        var head := index.Lookup(it);
        Carve(it, size);
        ok, p := true, head + K.HEADER_SIZE;
      }
    }

    method PutHole(at: int, size: int)
      requires Valid() && index.size <= index.maxSize
      modifies this`mem, index`size, index.items
      ensures Valid() && index == old(index) && index.items == old(index.items)
      ensures Model() == K.PutHole(old(Model()), at, size)
    {
      hide K.PutHeader, K.PutFooter, Inserted;
      mem := K.PutHeader(mem, at, 1, size);
      var foot := at + size - K.FOOTER_SIZE;
      if foot < endAddress {
        mem := K.PutFooter(mem, foot, at);
      }
      index.Insert(at, K.SmallerThan(mem));
    }

    /** Cuts the block out of the hole at index position `it`. */
    method Carve(it: nat, size: int)
      requires Valid() && it < index.size <= index.maxSize
      modifies this`mem, index`size, index.items
      ensures Valid() && index == old(index) && index.items == old(index.items)
      ensures Model() == K.Carve(old(Model()), it, size)
    {
      hide K.PutHeader, K.PutFooter, K.PutHole, K.Size, Removed;
      var head := index.Lookup(it);
      var avail := K.Size(mem, head);
      var payload := size;
      var need := size + K.TAGS_SIZE;
      if avail - need < K.HEADER_SIZE + K.FOOTER_SIZE {
        payload := payload + (avail - need);
        need := avail;
      }
      index.Remove(it);
      mem := K.PutHeader(mem, head, 0, need);
      mem := K.PutFooter(mem, head + K.HEADER_SIZE + payload, head);
      if avail - need > 0 {
        PutHole(head + K.HEADER_SIZE + payload + K.FOOTER_SIZE, avail - need);
      }
    }

    method MergeLeft(block: int, foot: int) returns (head: int, indexed: bool)
      requires Valid()
      modifies this`mem
      ensures K.Merge(mem, head, indexed) == K.MergeLeft(old(mem), block, foot)
    {
      hide K.Size, K.HoleFlag, PutWord;
      var testFoot := block - K.FOOTER_SIZE;
      if K.FootMagic(mem, testFoot) == K.HEAP_MAGIC && K.HoleFlag(mem, K.FootHeader(mem, testFoot)) == 1 {
        var cached := K.Size(mem, block);
        head := K.FootHeader(mem, testFoot);
        mem := PutWord(mem, foot + 4, head);
        mem := PutWord(mem, head + 8, K.Size(mem, head) + cached);
        indexed := true;
      } else {
        head, indexed := block, false;
      }
    }

    method Settle(head: int, foot: int, right: int, indexed: bool) returns (ok: bool)
      requires Valid() && index.size <= index.maxSize
      modifies this, index, index.items
      ensures Valid() && index == old(index) && index.items == old(index.items)
      ensures K.Settle(old(Model()), head, foot, right, indexed).Done? == ok
      ensures ok ==> K.Settle(old(Model()), head, foot, right, indexed) == K.Done(Model(), 0)
    {
      hide K.Size, K.PutFooter, PutWord, K.Contract, Inserted, Removed;
      if foot + K.FOOTER_SIZE == endAddress {
        var oldLen := endAddress - startAddress;
        ok := Contract(head - startAddress);
        if !ok {
          return;
        }
        var newLen := endAddress - startAddress;
        var left := (K.Size(mem, head) - (oldLen - newLen)) % K.WORD_LIMIT;
        if left > 0 {
          mem := PutWord(mem, head + 8, left);
          mem := K.PutFooter(mem, (head + left - K.FOOTER_SIZE) % K.WORD_LIMIT, head);
        } else {
          var it := Find(right);
          if it < index.size {
            index.Remove(it);
          }
        }
      }
      if !indexed {
        index.Insert(head, K.SmallerThan(mem));
      }
      ok := true;
    }

    method MergeRight(head: int, foot: int, testFoot: int, indexed: bool) returns (ok: bool)
      requires Valid() && index.size <= index.maxSize
      modifies this, index, index.items
      ensures Valid() && index == old(index) && index.items == old(index.items)
      ensures K.MergeRight(old(Model()), head, foot, testFoot, indexed).Done? == ok
      ensures ok ==> K.MergeRight(old(Model()), head, foot, testFoot, indexed) == K.Done(Model(), 0)
    {
      hide K.Size, K.HoleFlag, PutWord, K.Settle, Removed;
      var right := foot + K.FOOTER_SIZE;
      var last := foot;
      var readable := right / K.PAGE_SIZE in pool.pages && pool.pages[right / K.PAGE_SIZE].present;
      if !readable {
        return false;
      }
      var at := if pool.pages[right / K.PAGE_SIZE].frame == 0 then right % K.PAGE_SIZE else right;
      if K.Magic(mem, at) == K.HEAP_MAGIC && K.HoleFlag(mem, at) != 0 {
        mem := PutWord(mem, head + 8, K.Size(mem, head) + K.Size(mem, at));
        last := testFoot + K.Size(mem, at) - K.FOOTER_SIZE;
        var it := Find(right);
        if it == index.size {
          return false;
        }
        index.Remove(it);
      }
      ok := Settle(head, last, right, indexed);
    }

    method Free(p: int) returns (ok: bool)
      requires Valid() && index.size <= index.maxSize
      modifies this, index, index.items
      ensures Valid() && index == old(index) && index.items == old(index.items)
      ensures K.Free(old(Model()), p).Done? == ok
      ensures ok ==> K.Free(old(Model()), p) == K.Done(Model(), 0)
    {
      hide K.Size, K.HoleFlag, PutWord, PutByte, K.MergeLeft, K.MergeRight;
      if p == 0 {
        return true;
      }
      var block := p - K.HEADER_SIZE;
      var foot := block + K.Size(mem, block) - K.FOOTER_SIZE;
      if K.Magic(mem, block) != K.HEAP_MAGIC || K.FootMagic(mem, foot) != K.HEAP_MAGIC {
        return false;
      }
      mem := PutByte(mem, block + 4, 1);
      var head, indexed := MergeLeft(block, foot);
      ok := MergeRight(head, foot, block - K.FOOTER_SIZE, indexed);
    }
  }

  /** Growth indexes at most the first hole. */
  lemma GrowthIndex(h: K.Heap, need: int)
    requires K.Grow(h, need).Some? && (forall i :: 0 <= i < |h.index| ==> 0 < h.index[i]) && 0 < h.end
    ensures var g := K.Grow(h, need).value;
            && h.end < g.end <= g.max
            && (forall i :: 0 <= i < |g.index| ==> 0 < g.index[i])
            && (|g.index| == 1 || g.index == h.index)
            && g.start == h.start && g.max == h.max
  {
    hide K.PutHeader, K.PutFooter, K.Size;
    if h.index != [] {
      assert K.Highest(h.index, 0) >= h.index[0];
    }
  }

  /** A sound heap has room in its index, and only indexes addresses inside itself. */
  lemma SoundIndex(h: K.Heap, live: set<Chunk>)
    requires Good(h, live)
    ensures |h.index| <= K.HEAP_INDEX_SIZE && 0 < h.end
    ensures forall i :: 0 <= i < |h.index| ==> 0 < h.index[i]
  {
    var cs :| Represents(h, cs) && Blocks(cs) == live;
    forall i | 0 <= i < |h.index|
      ensures 0 < h.index[i]
    {
      var j := HoleAt(h, cs, i);
    }
  }

  /** `kmalloc` once there is a heap: a guarded request is granted and hurts no other block. */
  method Kmalloc(heap: Heap, size: int, ghost live: set<Chunk>) returns (p: int)
    requires heap.Valid() && Good(heap.Model(), live)
    requires Modelled(heap.Model(), size) && AllocGuard(heap.Model(), size)
    modifies heap, heap.index, heap.index.items
    ensures heap.Valid() && heap.index == old(heap.index) && heap.index.items == old(heap.index.items)
    ensures K.Alloc(old(heap.Model()), size) == K.Done(heap.Model(), p)
    ensures Good(heap.Model(), live + {Granted(heap.Model(), p)}) && Granted(heap.Model(), p) !in live
    ensures size + K.TAGS_SIZE <= Granted(heap.Model(), p).size && Untouched(old(heap.mem), heap.mem, live)
  {
    hide Good, K.Alloc, AllocGuard, Granted, Untouched;
    AllocSafe(heap.Model(), live, size);
    SoundIndex(heap.Model(), live);
    var ok;
    ok, p := heap.Alloc(size);
  }

  /** `kfree`: a guarded release gives the block back and hurts no other block; 0 is ignored. */
  method Kfree(heap: Heap, p: int, ghost live: set<Chunk>, ghost c: Chunk)
    requires heap.Valid() && Good(heap.Model(), live)
    requires p == 0 || (c in live && p == c.addr + K.HEADER_SIZE && FreeGuard(heap.Model(), p))
    modifies heap, heap.index, heap.index.items
    ensures heap.Valid() && heap.index == old(heap.index) && heap.index.items == old(heap.index.items)
    ensures K.Free(old(heap.Model()), p) == K.Done(heap.Model(), 0)
    ensures p == 0 ==> heap.Model() == old(heap.Model())
    ensures p != 0 ==> Good(heap.Model(), live - {c}) && Untouched(old(heap.mem), heap.mem, live - {c})
  {
    hide Good, K.Free, FreeGuard, Untouched;
    if p == 0 {
      NullIgnored(heap.Model());
    } else {
      FreeExact(heap.Model(), live, c);
    }
    SoundIndex(heap.Model(), live);
    var ok := heap.Free(p);
  }

  lemma NullIgnored(h: K.Heap)
    ensures K.Free(h, 0) == K.Done(h, 0)
  {
  }

  /** `create_heap`; null when one of its assertions stops the kernel. */
  method CreateHeap(mem: Mem, start: int, end: int, max: int, supervisor: bool, readonly: bool, pool: O.Pool)
    returns (heap: Heap?)
    ensures heap == null <==> start % K.PAGE_SIZE != 0 || end % K.PAGE_SIZE != 0
    ensures heap == null ==> K.CreateHeap(mem, start, end, max, supervisor, readonly, pool) == K.None
    ensures heap != null ==>
              && fresh(heap) && fresh(heap.index) && fresh(heap.index.items) && heap.Valid()
              && K.Some(heap.Model()) == K.CreateHeap(mem, start, end, max, supervisor, readonly, pool)
  {
    if start % K.PAGE_SIZE != 0 || end % K.PAGE_SIZE != 0 {
      return null;
    }
    heap := new Heap(mem, start, end, max, supervisor, readonly, pool);
  }

  /** The self-test at the end of boot: two requests, the second released, a third gets its address,
      and when all is released the heap is as it was created. */
  method SelfTest(heap: Heap) returns (x: int, y: int, z: int)
    requires heap.Valid() && Shape(heap.Model(), []) && RoomFor(heap.Model(), [], 72 + K.TAGS_SIZE)
    modifies heap, heap.index, heap.index.items
    ensures heap.Valid() && Shape(heap.Model(), [])
    ensures z == y != x
  {
    hide Shape, K.Alloc, K.Free, Represents;
    ghost var s1, s2, s3 := [32 + K.TAGS_SIZE], [32 + K.TAGS_SIZE, 32 + K.TAGS_SIZE], [32 + K.TAGS_SIZE, 8 + K.TAGS_SIZE];
    Sums();
    x := Push(heap, [], 32);
    y := Push(heap, s1, 32);
    Pop(heap, y, s2);
    z := Push(heap, s1, 8);
    Pop(heap, z, s3);
    Pop(heap, x, s1);
  }

  lemma Sums()
    ensures var a, b := 32 + K.TAGS_SIZE, 8 + K.TAGS_SIZE;
            && [] + [a] == [a] && [a] + [a] == [a, a] && [a] + [b] == [a, b]
            && [a, a][..1] == [a] && [a, b][..1] == [a] && [a][..0] == []
            && Sum([]) == 0 && Sum([a]) == a
  {
  }

  method Push(heap: Heap, ghost sizes: seq<int>, size: int) returns (p: int)
    requires heap.Valid() && Shape(heap.Model(), sizes) && RoomFor(heap.Model(), sizes, size)
    modifies heap, heap.index, heap.index.items
    ensures heap.Valid() && heap.index == old(heap.index) && heap.index.items == old(heap.index.items)
    ensures Becomes(old(heap.Model()), K.Done(heap.Model(), p), sizes + [size + K.TAGS_SIZE])
    ensures p == heap.startAddress + Sum(sizes) + K.HEADER_SIZE
  {
    hide K.Alloc, Represents;
    PushShape(heap.Model(), sizes, size);
    ShapeIndex(heap.Model(), sizes);
    var ok;
    ok, p := heap.Alloc(size);
  }

  method Pop(heap: Heap, p: int, ghost sizes: seq<int>)
    requires heap.Valid() && Shape(heap.Model(), sizes) && sizes != []
    requires p == heap.startAddress + Sum(sizes[..|sizes| - 1]) + K.HEADER_SIZE
    modifies heap, heap.index, heap.index.items
    ensures heap.Valid() && heap.index == old(heap.index) && heap.index.items == old(heap.index.items)
    ensures Becomes(old(heap.Model()), K.Done(heap.Model(), 0), sizes[..|sizes| - 1])
  {
    hide K.Free, Represents;
    PopShape(heap.Model(), sizes);
    ShapeIndex(heap.Model(), sizes);
    var ok := heap.Free(p);
  }

  lemma ShapeIndex(h: K.Heap, sizes: seq<int>)
    requires Shape(h, sizes)
    ensures |h.index| <= K.HEAP_INDEX_SIZE && 0 < h.end
    ensures forall i :: 0 <= i < |h.index| ==> 0 < h.index[i]
  {
    SoundIndex(h, Blocks(Stacked(h.start, h.end, sizes)));
  }
}
