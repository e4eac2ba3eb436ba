/** The index as a search structure, and the bytes it accounts for. */
module HeapOrder {
  import opened Memory
  import opened OrderedArrays
  import opened KHeap
  import opened Chunks
  import opened HeapAlloc
  import opened HeapFree
  import opened HeapRuns

  // ----- searching

  ghost predicate BySize(h: Heap) {
    Sorted(h.index, SmallerThan(h.mem))
  }

  /** The search fails exactly when no hole is large enough, whatever the order of the index. */
  lemma SearchComplete(h: Heap, cs: seq<Chunk>, size: int)
    requires Represents(h, cs)
    ensures Fits(h, size) <==> exists i :: 0 <= i < |cs| && cs[i].hole && cs[i].size >= size + TAGS_SIZE
  {
    hide Word;
    if Fits(h, size) {
      var i := HoleAt(h, cs, FirstFit(h.mem, h.index, size + TAGS_SIZE));
    }
    if exists i :: 0 <= i < |cs| && cs[i].hole && cs[i].size >= size + TAGS_SIZE {
      var i :| 0 <= i < |cs| && cs[i].hole && cs[i].size >= size + TAGS_SIZE;
      assert Stored(h.mem, cs[i], h.end);
      Indexed(h, cs, cs[i].addr);
      var k :| 0 <= k < |h.index| && h.index[k] == cs[i].addr;
    }
  }

  /** On a sorted index the hole found is a smallest one that is large enough. */
  lemma SearchBestFit(h: Heap, cs: seq<Chunk>, size: int, i: nat)
    requires Represents(h, cs) && BySize(h) && Fits(h, size)
    requires i < |cs| && cs[i].hole && cs[i].size >= size + TAGS_SIZE
    ensures Size(h.mem, h.index[FirstFit(h.mem, h.index, size + TAGS_SIZE)]) <= cs[i].size
  {
    hide Word;
    assert Stored(h.mem, cs[i], h.end);
    Indexed(h, cs, cs[i].addr);
    var k :| 0 <= k < |h.index| && h.index[k] == cs[i].addr;
    var it := FirstFit(h.mem, h.index, size + TAGS_SIZE);
    assert it < k ==> !SmallerThan(h.mem)(h.index[k], h.index[it]);
  }

  // ----- which hole a request gets

  /** Sorted by size means that sizes do not fall along the index. */
  lemma BySizeExact(h: Heap)
    ensures BySize(h) <==> forall i, j :: 0 <= i < j < |h.index| ==> Size(h.mem, h.index[i]) <= Size(h.mem, h.index[j])
  {
    hide Size;
    forall i, j | 0 <= i < j < |h.index|
      ensures !SmallerThan(h.mem)(h.index[j], h.index[i]) <==> Size(h.mem, h.index[i]) <= Size(h.mem, h.index[j])
    {
    }
    if BySize(h) {
      forall i, j | 0 <= i < j < |h.index|
        ensures Size(h.mem, h.index[i]) <= Size(h.mem, h.index[j])
      {
        assert !SmallerThan(h.mem)(h.index[j], h.index[i]);
      }
    }
  }

  /** The indexed position `k` holds enough bytes for the request and none before it does. */
  ghost predicate FirstEnough(h: Heap, size: int, k: nat) {
    && k < |h.index|
    && Size(h.mem, h.index[k]) >= size + TAGS_SIZE
    && forall j :: 0 <= j < k ==> Size(h.mem, h.index[j]) < size + TAGS_SIZE
  }

  /** A request returns the payload of the first indexed hole that is large enough, whatever the order
      of the index. */
  lemma AllocFirst(h: Heap, cs: seq<Chunk>, size: int) returns (k: nat)
    requires Represents(h, cs) && NoWrap(h, size)
    requires exists i :: 0 <= i < |cs| && cs[i].hole && cs[i].size >= size + TAGS_SIZE
    ensures FirstEnough(h, size, k)
    ensures Alloc(h, size).Done? && Alloc(h, size).ptr == h.index[k] + HEADER_SIZE
  {
    hide Represents, Size, Carve, Grow;
    SearchComplete(h, cs, size);
    k := FirstFit(h.mem, h.index, size + TAGS_SIZE);
  }

  /** On a sorted index the block comes from a hole no larger than any other that is large enough. */
  lemma AllocBestFit(h: Heap, cs: seq<Chunk>, size: int, i: nat) returns (j: nat)
    requires Represents(h, cs) && BySize(h) && NoWrap(h, size)
    requires i < |cs| && cs[i].hole && cs[i].size >= size + TAGS_SIZE
    ensures j < |cs| && cs[j].hole && size + TAGS_SIZE <= cs[j].size <= cs[i].size
    ensures Alloc(h, size).Done? && Alloc(h, size).ptr == cs[j].addr + HEADER_SIZE
  {
    hide Represents, Size, Carve, Grow, BySize, SmallerThan;
    SearchComplete(h, cs, size);
    SearchBestFit(h, cs, size, i);
    j := HoleAt(h, cs, FirstFit(h.mem, h.index, size + TAGS_SIZE));
  }

  /** When nothing fits, a guarded request is answered at the old end of the heap, or at the hole that
      ends there. */
  lemma AllocGrown(h: Heap, cs: seq<Chunk>, size: int)
    requires Represents(h, cs) && Modelled(h, size) && AllocGuard(h, size)
    requires forall i :: 0 <= i < |cs| && cs[i].hole ==> cs[i].size < size + TAGS_SIZE
    ensures var r, last := Alloc(h, size), cs[|cs| - 1];
            && r.Done?
            && r.ptr == (if last.hole then last.addr else h.end) + HEADER_SIZE
            && h.end + size + TAGS_SIZE < r.heap.end <= h.end + size + TAGS_SIZE + PAGE_SIZE
  {
    hide Represents, Size, Carve, Grow, FramesFor, TablesFor, Blocks;
    SearchComplete(h, cs, size);
    assert !Fits(h, size);
    EndsInHoleExact(h, cs);
    assert Good(h, Blocks(cs));
    GrowsAtMostOnce(h, Blocks(cs), size);
    var need := size + TAGS_SIZE;
    var g := Grow(h, need).value;
    GrownFields(h, need, g);
    assert Alloc(h, size) == Alloc(g, size);
    var it := FirstFit(g.mem, g.index, need);
    CarveFields(g, it, size);
    RepresentsParts(h, cs);
    hide Placed;
    GrowPool(h, need, g);
    GrownChoice(h, cs, size, g);
  }

  lemma GrownChoice(h: Heap, cs: seq<Chunk>, size: int, g: Heap)
    requires Represents(h, cs) && 0 <= size && !Fits(h, size) && Grow(h, size + TAGS_SIZE) == Some(g)
    requires LastIsHole(cs) || h.index == []
    ensures var it := FirstFit(g.mem, g.index, size + TAGS_SIZE);
            it < |g.index| && g.index[it] == if cs[|cs| - 1].hole then cs[|cs| - 1].addr else h.end
  {
    hide Represents, Size, Grow, FirstFit, Inserted;
    GrowthFits(h, cs, size, g);
    if h.index == [] {
      NoHoleLast(h, cs);
      FreshIndexAt(h, size + TAGS_SIZE, g);
    } else {
      HighestHole(h, cs);
    }
  }

  lemma NoHoleLast(h: Heap, cs: seq<Chunk>)
    requires Represents(h, cs) && h.index == []
    ensures !cs[|cs| - 1].hole
  {
    Indexed(h, cs, cs[|cs| - 1].addr);
  }

  lemma FreshIndexAt(h: Heap, need: int, g: Heap)
    requires h.index == [] && Grow(h, need) == Some(g)
    ensures g.index == [h.end]
  {
    hide PutHeader, PutFooter, Size;
  }

  // ----- what a request writes

  /** A request that fits writes the two tags of the block, and of the rest if there is one, and not
      one byte more. */
  lemma AllocWrites(h: Heap, cs: seq<Chunk>, size: int) returns (i: nat)
    requires Represents(h, cs) && NoWrap(h, size)
    requires exists i :: 0 <= i < |cs| && cs[i].hole && cs[i].size >= size + TAGS_SIZE
    ensures i < |cs| && cs[i].hole && size + TAGS_SIZE <= cs[i].size
    ensures var r := Alloc(h, size);
            && r.Done? && r.ptr == cs[i].addr + HEADER_SIZE
            && (if cs[i].size < size + 2 * TAGS_SIZE then
                  var block := Chunk(cs[i].addr, cs[i].size, false);
                  && Represents(r.heap, cs[..i] + [block] + cs[i + 1..])
                  && HeaderOf(r.heap.mem, block) && FooterOf(r.heap.mem, block)
                  && TagsOnly(h.mem, r.heap.mem, block, block)
                else
                  var block := Chunk(cs[i].addr, size + TAGS_SIZE, false);
                  var rest := Chunk(block.End(), cs[i].size - block.size, true);
                  && Represents(r.heap, cs[..i] + [block, rest] + cs[i + 1..])
                  && HeaderOf(r.heap.mem, block) && FooterOf(r.heap.mem, block)
                  && HeaderOf(r.heap.mem, rest) && FooterOf(r.heap.mem, rest)
                  && TagsOnly(h.mem, r.heap.mem, block, rest))
  {
    hide Represents, Carve, Grow, Word, Byte, HeaderOf, FooterOf, TagsOnly;
    SearchComplete(h, cs, size);
    var it := FirstFit(h.mem, h.index, size + TAGS_SIZE);
    i := HoleAt(h, cs, it);
    CarveRepresents(h, cs, it, size, i);
    CarveRoom(h, cs, i);
    HoleAddress(h, cs, i);
    CarveTags(h, it, size, cs[i]);
    CutInto(cs[i], size);
  }

  lemma HoleAddress(h: Heap, cs: seq<Chunk>, i: nat)
    requires Represents(h, cs) && i < |cs|
    ensures 0 <= cs[i].addr && cs[i].End() <= h.end < WORD_LIMIT
  {
    TilesLayout(cs, h.start, h.end);
  }

  lemma CutInto(c: Chunk, size: int)
    requires size + TAGS_SIZE <= c.size
    ensures c.size < size + 2 * TAGS_SIZE ==>
              BlockSize(size, c.size) == c.size && Cut(c, size) == [Chunk(c.addr, c.size, false)]
    ensures c.size >= size + 2 * TAGS_SIZE ==>
              var block := Chunk(c.addr, size + TAGS_SIZE, false);
              && BlockSize(size, c.size) == block.size
              && Cut(c, size) == [block, Chunk(block.End(), c.size - block.size, true)]
  {
  }

  predicate InTags(c: Chunk, a: int) {
    c.addr <= a < c.addr + HEADER_SIZE || c.End() - FOOTER_SIZE <= a < c.End()
  }

  ghost predicate TagsOnly(m: Mem, r: Mem, b: Chunk, c: Chunk) {
    forall a :: !InTags(b, a) && !InTags(c, a) ==> Byte(r, a) == Byte(m, a)
  }

  lemma CarveTags(h: Heap, it: nat, size: int, c: Chunk)
    requires it < |h.index| && h.index[it] == c.addr && Size(h.mem, c.addr) == c.size
    requires 0 <= size && size + TAGS_SIZE <= c.size && 0 <= c.addr && c.End() <= h.end < WORD_LIMIT
    ensures var r, need := Carve(h, it, size).mem, BlockSize(size, c.size);
            var block, rest := Chunk(c.addr, need, false), Chunk(c.addr + need, c.size - need, true);
            && HeaderOf(r, block) && FooterOf(r, block)
            && (need < c.size ==> HeaderOf(r, rest) && FooterOf(r, rest))
            && TagsOnly(h.mem, r, block, if need < c.size then rest else block)
  {
    hide Carve, TaggedMem, Word, Byte, HeaderOf, FooterOf;
    CarveMemory(h, it, size, c);
    var need := BlockSize(size, c.size);
    var block := Chunk(c.addr, need, false);
    var rest := Chunk(c.addr + need, c.size - need, true);
    TaggedCells(h.mem, block);
    if need < c.size {
      var m2 := TaggedMem(h.mem, block);
      TaggedCells(m2, rest);
      TagsSame(m2, TaggedMem(m2, rest), block);
    }
  }

  /** Writing the tags of a chunk stores them and changes no other byte. */
  lemma TaggedCells(m: Mem, c: Chunk)
    requires 0 <= c.addr && TAGS_SIZE <= c.size && c.End() < WORD_LIMIT
    ensures HeaderOf(TaggedMem(m, c), c) && FooterOf(TaggedMem(m, c), c) && TagsOnly(m, TaggedMem(m, c), c, c)
  {
    hide PutHeader, PutFooter, Word, Byte, HeaderOf, FooterOf;
    Tagged(m, c);
  }

  /** Tags outside the changed bytes stay. */
  lemma TagsSame(m: Mem, r: Mem, c: Chunk)
    requires HeaderOf(m, c) && FooterOf(m, c)
    requires forall a :: InTags(c, a) ==> Byte(r, a) == Byte(m, a)
    ensures HeaderOf(r, c) && FooterOf(r, c)
  {
    LoadSame(m, r, c.addr, c.addr + 4);
    LoadSame(m, r, c.addr + 8, c.addr + 12);
    LoadSame(m, r, c.End() - 8, c.End() - 4);
    LoadSame(m, r, c.End() - 4, c.End());
  }

  // ----- keeping the order

  lemma SizeOrder(m: Mem)
    ensures StrictWeakOrder(SmallerThan(m))
  {
  }

  lemma SortedSame(s: seq<int>, m: Mem, r: Mem)
    requires Sorted(s, SmallerThan(m))
    requires forall k :: 0 <= k < |s| ==> Size(r, s[k]) == Size(m, s[k])
    ensures Sorted(s, SmallerThan(r))
  {
    hide Size;
    forall i, j | 0 <= i < j < |s|
      ensures !SmallerThan(r)(s[j], s[i])
    {
      assert !SmallerThan(m)(s[j], s[i]);
    }
  }

  lemma InsertSorted(s: seq<int>, item: int, m: Mem)
    requires Sorted(s, SmallerThan(m))
    ensures Sorted(Inserted(s, item, SmallerThan(m)), SmallerThan(m))
  {
    SizeOrder(m);
    InsertKeepsSorted(s, item, SmallerThan(m));
  }

  /** A changed memory keeps the sizes of the holes outside the changed range. */
  lemma OutsideSizes(h: Heap, cs: seq<Chunk>, i: nat, r: Mem, k: nat)
    requires Represents(h, cs) && i < |cs| && k < |h.index| && h.index[k] != cs[i].addr
    requires forall a :: !(cs[i].addr <= a < cs[i].End()) ==> Byte(r, a) == Byte(h.mem, a)
    ensures Size(r, h.index[k]) == Size(h.mem, h.index[k])
  {
    hide Word, Byte;
    var j := HoleAt(h, cs, k);
    TilesLayout(cs, h.start, h.end);
    assert j < i || i < j;
    WordSame(h.mem, r, h.index[k] + 8);
  }

  /** Removing the carved hole and inserting the rest keeps sorted what was sorted without that hole. */
  lemma CarveKeepsSorted(h: Heap, cs: seq<Chunk>, size: int, it: nat)
    requires Represents(h, cs) && 0 <= size && it < |h.index| && size + TAGS_SIZE <= Size(h.mem, h.index[it])
    requires Sorted(Removed(h.index, it), SmallerThan(h.mem))
    ensures BySize(Carve(h, it, size))
  {
    hide Word, Byte, PutHeader, PutFooter, Inserted, Represents, Size;
    var i := HoleAt(h, cs, it);
    CarveWrites(h, it, size, cs[i]) by { CarveRoom(h, cs, i); }
    var g := Carve(h, it, size);
    var rest := Removed(h.index, it);
    forall k | 0 <= k < |rest|
      ensures Size(g.mem, rest[k]) == Size(h.mem, rest[k])
    {
      var l := if k < it then k else k + 1;
      assert rest[k] == h.index[l];
      OnceInIndex(h, cs, it, l);
      OutsideSizes(h, cs, i, g.mem, l);
    }
    SortedSame(rest, h.mem, g.mem);
    var need := BlockSize(size, Size(h.mem, h.index[it]));
    if need < Size(h.mem, h.index[it]) {
      InsertSorted(rest, h.index[it] + need, g.mem);
    }
  }

  /** A request keeps the index sorted, even one that grows the heap: the hole whose size changes
      in place is the one that is carved next. */
  lemma AllocKeepsSorted(h: Heap, cs: seq<Chunk>, size: int)
    requires Represents(h, cs) && Modelled(h, size) && AllocGuard(h, size) && BySize(h)
    ensures Alloc(h, size).Done? && BySize(Alloc(h, size).heap)
  {
    hide Word, Byte, Represents, Size, Carve, Grow;
    var need := size + TAGS_SIZE;
    var it := FirstFit(h.mem, h.index, need);
    if Fits(h, size) {
      RemoveKeepsSorted(h.index, it, SmallerThan(h.mem));
      CarveKeepsSorted(h, cs, size, it);
    } else {
      EndsInHoleExact(h, cs);
      assert Good(h, Blocks(cs));
      GrowsAtMostOnce(h, Blocks(cs), size);
      var g := Grow(h, need).value;
      GrowRepresents(h, cs, need, g);
      GrownFields(h, need, g);
      GrowthRestSorted(h, cs, size, g);
      CarveKeepsSorted(g, Grown(cs, h.end, g.end - h.end), size, FirstFit(g.mem, g.index, need));
      assert Alloc(h, size) == Alloc(g, size);
    }
  }

  lemma GrowthRestSorted(h: Heap, cs: seq<Chunk>, size: int, g: Heap)
    requires Represents(h, cs) && 0 <= size && !Fits(h, size) && BySize(h)
    requires Grow(h, size + TAGS_SIZE) == Some(g) && (h.index != [] ==> LastIsHole(cs))
    ensures var it := FirstFit(g.mem, g.index, size + TAGS_SIZE);
            && it < |g.index|
            && Sorted(Removed(g.index, it), SmallerThan(g.mem))
  {
    hide Word, Byte, Size, Represents, Grow, Inserted, FirstFit;
    var need := size + TAGS_SIZE;
    GrowthFits(h, cs, size, g);
    if h.index == [] {
      RepresentsParts(h, cs);
      FreshIndex(h, need, g);
    } else {
      var it := FirstFit(g.mem, g.index, need);
      var rest := Removed(h.index, it);
      RemoveKeepsSorted(h.index, it, SmallerThan(h.mem));
      forall k | 0 <= k < |rest|
        ensures Size(g.mem, rest[k]) == Size(h.mem, rest[k])
      {
        var l := if k < it then k else k + 1;
        assert rest[k] == h.index[l];
        OnceInIndex(h, cs, it, l);
        GrowthOthers(h, cs, need, g, l);
      }
      SortedSame(rest, h.mem, g.mem);
    }
  }

  lemma FreshIndex(h: Heap, need: int, g: Heap)
    requires h.index == [] && Grow(h, need) == Some(g)
    ensures |g.index| == 1
  {
    hide PutHeader, PutFooter, Size;
  }

  lemma GrowthOthers(h: Heap, cs: seq<Chunk>, need: int, g: Heap, l: nat)
    requires Represents(h, cs) && TAGS_SIZE <= need && Grow(h, need) == Some(g) && LastIsHole(cs)
    requires l < |h.index| && h.index[l] != Highest(h.index, 0)
    ensures Size(g.mem, h.index[l]) == Size(h.mem, h.index[l])
  {
    hide Word, Byte, Grow, Represents;
    GrowSetting(h, cs, need, g);
    var last := cs[|cs| - 1];
    var c := Chunk(last.addr, last.size + g.end - h.end, true);
    GrowWrites(h, need, g, c);
    HighestHole(h, cs);
    LowerSizesKept(h, cs, g, c, l);
  }

  lemma CarveRoom(h: Heap, cs: seq<Chunk>, i: nat)
    requires Represents(h, cs) && i < |cs|
    ensures 0 <= cs[i].addr && cs[i].End() <= h.end < WORD_LIMIT
  {
    TilesLayout(cs, h.start, h.end);
  }

  /** Different positions of the index name different holes. */
  lemma OnceInIndex(h: Heap, cs: seq<Chunk>, k: nat, l: nat)
    requires Represents(h, cs) && k < |h.index| && l < |h.index| && k != l
    ensures h.index[k] != h.index[l]
  {
    hide Represents;
    if h.index[k] == h.index[l] {
      IndexedOnce(h, cs, h.index[k]);
      Twice(h.index, if k < l then k else l, if k < l then l else k);
    }
  }

  lemma Twice(s: seq<int>, k: nat, l: nat)
    requires k < l < |s| && s[k] == s[l]
    ensures multiset(s)[s[k]] >= 2
  {
    assert s == s[..k] + [s[k]] + s[k + 1..l] + [s[l]] + s[l + 1..];
  }

  // ----- accounting

  /** The bytes in indexed holes, read from their headers. */
  function FreeBytes(m: Mem, index: seq<int>): nat {
    if index == [] then 0 else Size(m, index[0]) + FreeBytes(m, index[1..])
  }

  ghost function SetBytes(live: set<Chunk>): int {
    if live == {} then 0
    else
      var c :| c in live;
      c.size + SetBytes(live - {c})
  }

  lemma {:induction false} SetBytesRemove(live: set<Chunk>, c: Chunk)
    requires c in live
    ensures SetBytes(live) == c.size + SetBytes(live - {c})
    decreases |live|
  {
    var b :| b in live && SetBytes(live) == b.size + SetBytes(live - {b});
    if b != c {
      SetBytesRemove(live - {b}, c);
      SetBytesRemove(live - {c}, b);
      assert live - {b} - {c} == live - {c} - {b};
    }
  }

  lemma {:induction false} FreeBytesRemove(m: Mem, s: seq<int>, k: nat)
    requires k < |s|
    ensures FreeBytes(m, s) == Size(m, s[k]) + FreeBytes(m, Removed(s, k))
  {
    hide Size;
    var r := Removed(s, k);
    if k == 0 {
      assert r == s[1..];
    } else {
      FreeBytesRemove(m, s[1..], k - 1);
      assert r[0] == s[0] && r[1..] == Removed(s[1..], k - 1);
    }
  }

  /** The sum does not depend on the order of the index. */
  lemma {:induction false} FreeBytesPermuted(m: Mem, s: seq<int>, t: seq<int>)
    requires multiset(s) == multiset(t)
    ensures FreeBytes(m, s) == FreeBytes(m, t)
    decreases |s|
  {
    hide Size, Removed, FreeBytes;
    if s == [] {
      assert |multiset(t)| == 0;
      assert t == [];
    } else {
      assert s[0] in multiset(t);
      var k :| 0 <= k < |t| && t[k] == s[0];
      RemoveMultiset(t, k);
      RemoveMultiset(s, 0);
      FreeBytesRemove(m, t, k);
      FreeBytesRemove(m, s, 0);
      FreeBytesPermuted(m, Removed(s, 0), Removed(t, k));
    }
  }

  lemma FirstBytes(m: Mem, c: Chunk, rest: seq<Chunk>)
    requires HeaderOf(m, c) && c !in Blocks(rest)
    ensures FreeBytes(m, Holes([c] + rest)) + SetBytes(Blocks([c] + rest))
         == c.size + FreeBytes(m, Holes(rest)) + SetBytes(Blocks(rest))
  {
    hide Word;
    OneBlock(c);
    OneHole(c);
    BlocksConcat([c], rest);
    HolesConcat([c], rest);
    if c.hole {
      assert ([c.addr] + Holes(rest))[1..] == Holes(rest);
      assert {} + Blocks(rest) == Blocks(rest);
    } else {
      assert [] + Holes(rest) == Holes(rest);
      SetBytesRemove({c} + Blocks(rest), c);
      assert {c} + Blocks(rest) - {c} == Blocks(rest);
    }
  }

  lemma {:induction false} TilesBytes(m: Mem, cs: seq<Chunk>, lo: int, hi: int)
    requires Tiles(cs, lo, hi) && forall i :: 0 <= i < |cs| ==> HeaderOf(m, cs[i])
    ensures FreeBytes(m, Holes(cs)) + SetBytes(Blocks(cs)) == hi - lo
    decreases |cs|
  {
    hide FreeBytes, SetBytes, HeaderOf, Holes;
    var c, rest := cs[0], cs[1..];
    assert cs == [c] + rest;
    TilesLayout(cs, lo, hi);
    assert c !in Blocks(rest);
    FirstBytes(m, c, rest);
    if |cs| > 1 {
      assert Tiles(rest, c.End(), hi);
      TilesBytes(m, rest, c.End(), hi);
    } else {
      NoBytes(m);
    }
  }

  lemma NoBytes(m: Mem)
    ensures FreeBytes(m, Holes([])) == 0 && SetBytes(Blocks([])) == 0
  {
    assert Blocks([]) == {};
  }

  lemma OneBlock(c: Chunk)
    ensures Blocks([c]) == if c.hole then {} else {c}
  {
    assert [c][0] == c;
  }

  /** Conservation: the bytes in indexed holes and the bytes held by clients are all the heap has. */
  lemma Conserved(h: Heap, live: set<Chunk>)
    requires Good(h, live)
    ensures FreeBytes(h.mem, h.index) + SetBytes(live) == h.end - h.start
  {
    hide Word;
    var cs :| Represents(h, cs) && Blocks(cs) == live;
    forall i | 0 <= i < |cs|
      ensures HeaderOf(h.mem, cs[i])
    {
      assert Stored(h.mem, cs[i], h.end);
    }
    TilesBytes(h.mem, cs, h.start, h.end);
    FreeBytesPermuted(h.mem, h.index, Holes(cs));
  }

  /** A request moves exactly the granted bytes from free to used; only growth adds bytes. */
  lemma AllocMoves(h: Heap, live: set<Chunk>, size: int)
    requires Good(h, live) && Modelled(h, size) && AllocGuard(h, size)
    ensures var r := Alloc(h, size);
            && r.Done?
            && FreeBytes(r.heap.mem, r.heap.index)
            == FreeBytes(h.mem, h.index) - Granted(r.heap, r.ptr).size + (r.heap.end - h.end)
  {
    hide Good, Alloc, AllocGuard, Granted;
    AllocSafe(h, live, size);
    var r := Alloc(h, size);
    var c := Granted(r.heap, r.ptr);
    Conserved(h, live);
    Conserved(r.heap, live + {c});
    SetBytesRemove(live + {c}, c);
    assert live + {c} - {c} == live;
  }

  /** A release moves them back; only contraction takes bytes away. */
  lemma FreeMoves(h: Heap, live: set<Chunk>, c: Chunk)
    requires Good(h, live) && c in live && FreeGuard(h, c.addr + HEADER_SIZE)
    ensures var r := Free(h, c.addr + HEADER_SIZE);
            && r.Done?
            && FreeBytes(r.heap.mem, r.heap.index)
            == FreeBytes(h.mem, h.index) + c.size + (r.heap.end - h.end)
  {
    hide Good, Free, FreeGuard;
    FreeExact(h, live, c);
    var r := Free(h, c.addr + HEADER_SIZE);
    Conserved(h, live);
    Conserved(r.heap, live - {c});
    SetBytesRemove(live, c);
  }

  // ----- the order after a release

  /** The sizes of the indexed holes that a release leaves where they are do not change. */
  lemma OtherSizes(h: Heap, cs: seq<Chunk>, k: nat, r: Mem, a: int)
    requires Represents(h, cs) && k < |cs| && !cs[k].hole && a in h.index
    requires a != LeftMerged(cs, k).addr && (HoleAfter(cs, k) ==> a != cs[k + 1].addr)
    requires forall x :: x < LeftMerged(cs, k).addr || cs[k].End() <= x < h.end ==> Byte(r, x) == Byte(h.mem, x)
    ensures Size(r, a) == Size(h.mem, a)
  {
    hide Word, Byte;
    Indexed(h, cs, a);
    var i :| 0 <= i < |cs| && cs[i].hole && cs[i].addr == a;
    TilesLayout(cs, h.start, h.end);
    assert i < k ==> cs[i].End() <= LeftMerged(cs, k).addr by {
      assert HoleBefore(cs, k) && i < k - 1 ==> cs[i].End() <= cs[k - 1].addr;
    }
    WordSame(h.mem, r, a + 8);
  }

  /** Without a hole on the left, a release that does not contract keeps the index sorted. */
  lemma FreeKeepsSorted(h: Heap, cs: seq<Chunk>, k: nat)
    requires Represents(h, cs) && BySize(h) && k + 1 < |cs| && !cs[k].hole && !HoleBefore(cs, k)
    ensures var r := Free(h, cs[k].addr + HEADER_SIZE);
            r.Done? && BySize(r.heap)
  {
    hide Word, Byte, Size, MergeLeft, PutByte, PutWord, Represents, RightHole, LeftHole, MergedHead, Free;
    hide AfterRight, Inserted, Place;
    NeighboursRead(h, cs, k);
    var head := cs[k].addr;
    if HoleAfter(cs, k) {
      RightWrites(h, cs, k);
      FreeRight(h, cs, k);
      var m, it := AfterRight(h, cs, k), Find(h.index, cs[k + 1].addr);
      var rest := Removed(h.index, it);
      forall j | 0 <= j < |rest|
        ensures Size(m, rest[j]) == Size(h.mem, rest[j])
      {
        var l := if j < it then j else j + 1;
        assert rest[j] == h.index[l];
        OnceInIndex(h, cs, it, l);
        NotIndexed(h, cs, k);
        OtherSizes(h, cs, k, m, rest[j]);
      }
      RemoveKeepsSorted(h.index, it, SmallerThan(h.mem));
      SortedSame(rest, h.mem, m);
      InsertSorted(rest, head, m);
    } else {
      MergeLeftWrites(h, cs, k);
      FreePlain(h, cs, k);
      var m := AfterLeft(h, cs[k]).mem;
      forall j | 0 <= j < |h.index|
        ensures Size(m, h.index[j]) == Size(h.mem, h.index[j])
      {
        NotIndexed(h, cs, k);
        OtherSizes(h, cs, k, m, h.index[j]);
      }
      SortedSame(h.index, h.mem, m);
      InsertSorted(h.index, head, m);
    }
  }

  /** The same for the last chunk, whose release contracts the heap. */
  lemma FreeLastKeepsSorted(h: Heap, cs: seq<Chunk>, k: nat)
    requires Represents(h, cs) && BySize(h) && k + 1 == |cs| && !cs[k].hole && !HoleBefore(cs, k)
    requires FreeGuard(h, cs[k].addr + HEADER_SIZE)
    ensures var r := Free(h, cs[k].addr + HEADER_SIZE);
            r.Done? && BySize(r.heap)
  {
    hide Word, Byte, Size, MergeLeft, PutByte, PutWord, Represents, RightHole, LeftHole, MergedHead, Inserted;
    hide Settle, Placed;
    NeighboursRead(h, cs, k);
    MergeLeftWrites(h, cs, k);
    FreeUnfolds(h, cs, k);
    RepresentsParts(h, cs);
    var was := h.(mem := AfterLeft(h, cs[k]).mem);
    PlacedElsewhere(h, was);
    PlacedBounds(h);
    SettleShrinks(was, LeftMerged(cs, k), cs[k].End(), false);
    var m := Free(h, cs[k].addr + HEADER_SIZE).heap.mem;
    forall j | 0 <= j < |h.index|
      ensures Size(m, h.index[j]) == Size(h.mem, h.index[j])
    {
      NotIndexed(h, cs, k);
      OtherSizes(h, cs, k, m, h.index[j]);
    }
    SortedSame(h.index, h.mem, m);
    InsertSorted(h.index, cs[k].addr, m);
  }

  lemma NotIndexed(h: Heap, cs: seq<Chunk>, k: nat)
    requires Represents(h, cs) && k < |cs| && !cs[k].hole
    ensures cs[k].addr !in h.index
  {
    Indexed(h, cs, cs[k].addr);
    TilesLayout(cs, h.start, h.end);
  }

  /** The size of the joined hole that a release leaves. */
  function KeyAfter(h: Heap, block: int): int {
    var head, right := MergedHead(h, block), block + Size(h.mem, block);
    if right == h.end then h.start + HEAP_MIN_SIZE - head
    else right - head + if RightHole(h, block) then Size(h.mem, right) else 0
  }

  /** The index without the hole that a right merge swallows. */
  function IndexAfter(h: Heap, block: int): seq<int> {
    var right := block + Size(h.mem, block);
    if right != h.end && RightHole(h, block) && h.index != [] then Removed(h.index, Find(h.index, right)) else h.index
  }

  /** After a left merge the joined hole stays at its place of the index: its new size has to fit
      between its neighbours' there. */
  predicate OrderGuard(h: Heap, p: int) {
    var block := p - HEADER_SIZE;
    LeftHole(h, block) ==>
      var index, key := IndexAfter(h, block), KeyAfter(h, block);
      var j := Find(index, MergedHead(h, block));
      && (0 < j <= |index| ==> Size(h.mem, index[j - 1]) <= key)
      && (j + 1 < |index| ==> key <= Size(h.mem, index[j + 1]))
  }

  /** The index of `g` is `index`, and of the sizes it orders by only that of `head` changed. */
  ghost predicate Rekeyed(h: Heap, g: Heap, index: seq<int>, head: int, key: int) {
    && g.index == index && head in index && Size(g.mem, head) == key
    && (forall i :: 0 <= i < |index| && index[i] != head ==> Size(g.mem, index[i]) == Size(h.mem, index[i]))
  }

  ghost predicate Distinct(s: seq<int>) {
    forall i, j :: 0 <= i < j < |s| ==> s[i] != s[j]
  }

  lemma IndexDistinct(h: Heap, cs: seq<Chunk>)
    requires Represents(h, cs)
    ensures Distinct(h.index)
  {
    hide Represents;
    forall i, j | 0 <= i < j < |h.index|
      ensures h.index[i] != h.index[j]
    {
      OnceInIndex(h, cs, i, j);
    }
  }

  /** No hole on the right: the left neighbour grows by the released chunk. */
  lemma LeftOnly(h: Heap, cs: seq<Chunk>, k: nat)
    requires Represents(h, cs) && k + 1 < |cs| && !cs[k].hole && HoleBefore(cs, k) && !HoleAfter(cs, k)
    ensures var r := Free(h, cs[k].addr + HEADER_SIZE);
            r.Done? && Rekeyed(h, r.heap, h.index, cs[k - 1].addr, cs[k - 1].size + cs[k].size)
  {
    hide Word, Byte, MergeLeft, PutByte, PutWord, Represents, RightHole, LeftHole, MergedHead, Free;
    NeighboursRead(h, cs, k);
    MergeLeftWrites(h, cs, k);
    FreePlain(h, cs, k);
    IndexedLeft(h, cs, k);
    assert cs[k - 1].addr in multiset(h.index);
    var m := AfterLeft(h, cs[k]).mem;
    forall i | 0 <= i < |h.index| && h.index[i] != cs[k - 1].addr
      ensures Size(m, h.index[i]) == Size(h.mem, h.index[i])
    {
      OtherSizes(h, cs, k, m, h.index[i]);
    }
  }

  /** Holes on both sides: the left neighbour grows by both, the right one leaves the index. */
  lemma LeftAndRight(h: Heap, cs: seq<Chunk>, k: nat)
    requires Represents(h, cs) && k < |cs| && !cs[k].hole && HoleBefore(cs, k) && HoleAfter(cs, k)
    ensures var r := Free(h, cs[k].addr + HEADER_SIZE);
            && r.Done? && h.index != []
            && Rekeyed(h, r.heap, Removed(h.index, Find(h.index, cs[k + 1].addr)),
                       cs[k - 1].addr, cs[k - 1].size + cs[k].size + cs[k + 1].size)
  {
    hide Word, Byte, MergeLeft, PutByte, PutWord, Represents, RightHole, LeftHole, MergedHead, Free, AfterRight, Removed;
    NeighboursRead(h, cs, k);
    RightWrites(h, cs, k);
    FreeRight(h, cs, k);
    IndexedLeft(h, cs, k);
    assert cs[k - 1].addr in multiset(h.index) && cs[k + 1].addr in multiset(h.index);
    var m := AfterRight(h, cs, k);
    var it := Find(h.index, cs[k + 1].addr);
    var rest := Removed(h.index, it);
    RemoveMultiset(h.index, it);
    assert cs[k - 1].addr in multiset(rest);
    IndexDistinct(h, cs);
    RemovedMembers(h.index, it);
    forall i | 0 <= i < |rest| && rest[i] != cs[k - 1].addr
      ensures Size(m, rest[i]) == Size(h.mem, rest[i])
    {
      OtherSizes(h, cs, k, m, rest[i]);
    }
  }

  lemma RemovedMembers(s: seq<int>, it: nat)
    requires Distinct(s) && it < |s|
    ensures Distinct(Removed(s, it)) && forall i :: 0 <= i < |s| - 1 ==> Removed(s, it)[i] in s && Removed(s, it)[i] != s[it]
  {
    forall i | 0 <= i < |s| - 1
      ensures Removed(s, it)[i] == s[if i < it then i else i + 1]
    {
    }
  }

  /** The last chunk: the left neighbour ends where contraction puts the end, and may even shrink. */
  lemma LeftLast(h: Heap, cs: seq<Chunk>, k: nat)
    requires Represents(h, cs) && k + 1 == |cs| && !cs[k].hole && HoleBefore(cs, k)
    requires FreeGuard(h, cs[k].addr + HEADER_SIZE)
    ensures var r := Free(h, cs[k].addr + HEADER_SIZE);
            r.Done? && Rekeyed(h, r.heap, h.index, cs[k - 1].addr, h.start + HEAP_MIN_SIZE - cs[k - 1].addr)
  {
    hide Word, Byte, MergeLeft, PutByte, PutWord, Represents, RightHole, LeftHole, MergedHead, Inserted, Settle, Placed;
    hide ContractClean;
    NeighboursRead(h, cs, k);
    MergeLeftWrites(h, cs, k);
    FreeUnfolds(h, cs, k);
    RepresentsParts(h, cs);
    IndexedLeft(h, cs, k);
    assert cs[k - 1].addr in multiset(h.index);
    var was := h.(mem := AfterLeft(h, cs[k]).mem);
    PlacedElsewhere(h, was);
    PlacedBounds(h);
    SettleShrinks(was, LeftMerged(cs, k), cs[k].End(), true);
    var m := Free(h, cs[k].addr + HEADER_SIZE).heap.mem;
    forall i | 0 <= i < |h.index| && h.index[i] != cs[k - 1].addr
      ensures Size(m, h.index[i]) == Size(h.mem, h.index[i])
    {
      OtherSizes(h, cs, k, m, h.index[i]);
    }
  }

  /** One key of a sorted index changes in place. */
  lemma ChangedKeySorted(s: seq<int>, m: Mem, r: Mem, j: nat)
    requires j < |s| && Sorted(s, SmallerThan(m))
    requires forall l :: 0 <= l < |s| && l != j ==> Size(r, s[l]) == Size(m, s[l])
    ensures Sorted(s, SmallerThan(r)) <==>
              && (j > 0 ==> Size(m, s[j - 1]) <= Size(r, s[j]))
              && (j + 1 < |s| ==> Size(r, s[j]) <= Size(m, s[j + 1]))
  {
    hide Size;
    forall a, b | 0 <= a < b < |s|
      ensures Size(m, s[a]) <= Size(m, s[b])
    {
      assert !SmallerThan(m)(s[b], s[a]);
    }
    if (j > 0 ==> Size(m, s[j - 1]) <= Size(r, s[j])) && (j + 1 < |s| ==> Size(r, s[j]) <= Size(m, s[j + 1])) {
      forall a, b | 0 <= a < b < |s|
        ensures !SmallerThan(r)(s[b], s[a])
      {
        assert Size(m, s[a]) <= Size(m, s[b]);
        assert a == j && b > j + 1 ==> Size(m, s[j + 1]) <= Size(m, s[b]);
        assert b == j && a < j - 1 ==> Size(m, s[a]) <= Size(m, s[j - 1]);
      }
    } else if j > 0 && Size(m, s[j - 1]) > Size(r, s[j]) {
      assert SmallerThan(r)(s[j], s[j - 1]);
    } else {
      assert SmallerThan(r)(s[j + 1], s[j]);
    }
  }

  lemma RekeyedSorted(h: Heap, g: Heap, index: seq<int>, head: int, key: int)
    requires Rekeyed(h, g, index, head, key) && Sorted(index, SmallerThan(h.mem)) && Distinct(index)
    ensures var j := Find(index, head);
            BySize(g) <==>
              && (0 < j <= |index| ==> Size(h.mem, index[j - 1]) <= key)
              && (j + 1 < |index| ==> key <= Size(h.mem, index[j + 1]))
  {
    hide Size;
    ChangedKeySorted(index, h.mem, g.mem, Find(index, head));
  }

  /** What the order guard reads off the tags. */
  lemma OrderRead(h: Heap, cs: seq<Chunk>, k: nat)
    requires Represents(h, cs) && k < |cs| && !cs[k].hole && HoleBefore(cs, k)
    ensures LeftHole(h, cs[k].addr) && MergedHead(h, cs[k].addr) == cs[k - 1].addr
    ensures k + 1 == |cs| ==>
              && IndexAfter(h, cs[k].addr) == h.index
              && KeyAfter(h, cs[k].addr) == h.start + HEAP_MIN_SIZE - cs[k - 1].addr
    ensures HoleAfter(cs, k) ==>
              && h.index != [] && cs[k + 1].addr in h.index
              && IndexAfter(h, cs[k].addr) == Removed(h.index, Find(h.index, cs[k + 1].addr))
              && KeyAfter(h, cs[k].addr) == cs[k - 1].size + cs[k].size + cs[k + 1].size
    ensures k + 1 < |cs| && !HoleAfter(cs, k) ==>
              && IndexAfter(h, cs[k].addr) == h.index && KeyAfter(h, cs[k].addr) == cs[k - 1].size + cs[k].size
  {
    hide Word, Byte, Represents, LeftHole, MergedHead, RightHole, Readable, Seen, Size, Find, Removed;
    NeighboursRead(h, cs, k);
    IndexedLeft(h, cs, k);
    assert HoleAfter(cs, k) ==> cs[k + 1].addr in multiset(h.index);
  }

  /** A left merge, alone, with a right merge, or of the last chunk, leaves the index sorted exactly
      when the size of the joined hole fits where its left part was indexed. */
  lemma LeftMergeSorted(h: Heap, cs: seq<Chunk>, k: nat)
    requires Represents(h, cs) && BySize(h) && k < |cs| && !cs[k].hole && HoleBefore(cs, k)
    requires FreeGuard(h, cs[k].addr + HEADER_SIZE)
    ensures var r := Free(h, cs[k].addr + HEADER_SIZE);
            r.Done? && (BySize(r.heap) <==> OrderGuard(h, cs[k].addr + HEADER_SIZE))
  {
    hide Represents, LeftHole, MergedHead, Free, Size, Find, Removed, FreeGuard, IndexAfter, KeyAfter, Rekeyed;
    OrderRead(h, cs, k);
    IndexDistinct(h, cs);
    var g := Free(h, cs[k].addr + HEADER_SIZE);
    var index, key := IndexAfter(h, cs[k].addr), KeyAfter(h, cs[k].addr);
    if k + 1 == |cs| {
      LeftLast(h, cs, k);
    } else if HoleAfter(cs, k) {
      LeftAndRight(h, cs, k);
      var it := Find(h.index, cs[k + 1].addr);
      RemovedMembers(h.index, it);
      RemoveKeepsSorted(h.index, it, SmallerThan(h.mem));
    } else {
      LeftOnly(h, cs, k);
    }
    RekeyedSorted(h, g.heap, index, cs[k - 1].addr, key);
  }

  /** A guarded release of any chunk leaves a sorted index sorted exactly under the order guard. */
  lemma FreeSortedExact(h: Heap, live: set<Chunk>, c: Chunk)
    requires Good(h, live) && c in live && BySize(h) && FreeGuard(h, c.addr + HEADER_SIZE)
    ensures var r := Free(h, c.addr + HEADER_SIZE);
            r.Done? && (BySize(r.heap) <==> OrderGuard(h, c.addr + HEADER_SIZE))
  {
    hide Represents, Free, FreeGuard, BySize, IndexAfter, KeyAfter, LeftHole;
    var cs :| Represents(h, cs) && Blocks(cs) == live;
    var k := ChunkOf(cs, c);
    NeighboursRead(h, cs, k);
    if HoleBefore(cs, k) {
      LeftMergeSorted(h, cs, k);
    } else if k + 1 == |cs| {
      FreeLastKeepsSorted(h, cs, k);
    } else {
      FreeKeepsSorted(h, cs, k);
    }
  }

  // ----- the order over whole runs

  predicate OrderedStep(w: World, op: Op) {
    op.Release? && op.p != 0 ==> OrderGuard(w.heap, op.p)
  }

  ghost predicate StaysSorted(w: World, ops: seq<Op>)
    decreases |ops|
  {
    BySize(w.heap) && (ops != [] && Step(w, ops[0]).Some? ==> StaysSorted(Step(w, ops[0]).value, ops[1..]))
  }

  predicate AllOrdered(w: World, ops: seq<Op>)
    decreases |ops|
  {
    ops != [] ==>
      && OrderedStep(w, ops[0])
      && (Step(w, ops[0]).Some? ==> AllOrdered(Step(w, ops[0]).value, ops[1..]))
  }

  /** Two heaps over the same chunks and the same index order it alike. */
  lemma SameChunksSorted(h: Heap, g: Heap, cs: seq<Chunk>)
    requires Represents(h, cs) && Represents(g, cs) && g.index == h.index && g.start == h.start && g.end == h.end
    requires BySize(h)
    ensures BySize(g)
  {
    hide Word, Represents;
    forall k | 0 <= k < |h.index|
      ensures Size(g.mem, h.index[k]) == Size(h.mem, h.index[k])
    {
      var i := HoleAt(h, cs, k);
      StoredSize(g, cs, i);
    }
    SortedSame(h.index, h.mem, g.mem);
  }

  lemma ScribbleSorted(w: World, a: int, v: byte)
    requires Sound(w) && Allowed(w, Scribble(a, v)) && BySize(w.heap)
    ensures BySize(w.heap.(mem := PutByte(w.heap.mem, a, v)))
  {
    hide Represents, Blocks, Spare, BySize, Byte, Word, PutByte;
    var cs :| Represents(w.heap, cs) && Blocks(cs) == w.live;
    if Spare(w.heap, a) {
      SpareGood(w.heap, w.live, a, v);
    } else {
      var c :| c in w.live && InPayload(c, a);
      ScribbleGood(w.heap, w.live, a, v, c);
    }
    SameChunksSorted(w.heap, w.heap.(mem := PutByte(w.heap.mem, a, v)), cs);
  }

  lemma StepSorted(w: World, op: Op)
    requires Sound(w) && Allowed(w, op) && Guard(w, op) && BySize(w.heap)
    ensures Step(w, op).Some? && (BySize(Step(w, op).value.heap) <==> OrderedStep(w, op))
  {
    hide Good, Alloc, Free, AllocGuard, FreeGuard, Granted, BySize, OrderGuard, Represents, Modelled;
    match op
    case Malloc(size) =>
      var cs :| Represents(w.heap, cs) && Blocks(cs) == w.live by { GoodChunks(w.heap, w.live); }
      AllocKeepsSorted(w.heap, cs, size);
      NoWrapOf(w.heap, size);
    case Release(p) =>
      if p == 0 {
        NullRelease(w.heap);
      } else {
        var c := Granted(w.heap, p);
        StoredChunk(w.heap, w.live, c);
        GrantedAddr(w.heap, p);
        FreeSortedExact(w.heap, w.live, c);
      }
    case Scribble(a, v) => ScribbleSorted(w, a, v);
  }

  lemma NoWrapOf(h: Heap, size: int)
    requires Modelled(h, size)
    ensures NoWrap(h, size)
  {
  }

  lemma GoodChunks(h: Heap, live: set<Chunk>)
    requires Good(h, live)
    ensures exists cs :: Represents(h, cs) && Blocks(cs) == live
  {
  }

  /** Over a sound run the index stays sorted exactly when every release with a left merge meets
      its order guard; requests, other releases and writes never disturb it. */
  lemma {:induction false} RunSortedExact(w: World, ops: seq<Op>)
    requires Sound(w) && AllAllowed(w, ops) && AllGuarded(w, ops) && BySize(w.heap)
    ensures StaysSorted(w, ops) <==> AllOrdered(w, ops)
    decreases |ops|
  {
    hide Sound, Guard, Step, Allowed, BySize, OrderedStep;
    if ops != [] {
      StepSorted(w, ops[0]);
      StepExact(w, ops[0]);
      var w' := Step(w, ops[0]).value;
      if BySize(w'.heap) {
        RunSortedExact(w', ops[1..]);
      }
    }
  }

  /** At the end of such a run a request that fits is answered from a smallest hole that is large
      enough. */
  lemma {:induction false} RunBestFit(w: World, ops: seq<Op>, v: World, cs: seq<Chunk>, size: int, i: nat) returns (j: nat)
    requires Sound(w) && AllAllowed(w, ops) && AllGuarded(w, ops) && BySize(w.heap) && AllOrdered(w, ops)
    requires Run(w, ops) == Some(v) && Represents(v.heap, cs) && NoWrap(v.heap, size)
    requires i < |cs| && cs[i].hole && cs[i].size >= size + TAGS_SIZE
    ensures j < |cs| && cs[j].hole && size + TAGS_SIZE <= cs[j].size <= cs[i].size
    ensures Alloc(v.heap, size).Done? && Alloc(v.heap, size).ptr == cs[j].addr + HEADER_SIZE
    decreases |ops|
  {
    hide Sound, Guard, Step, Allowed, BySize, OrderedStep, Represents, Word, Alloc;
    if ops == [] {
      j := AllocBestFit(v.heap, cs, size, i);
    } else {
      StepSorted(w, ops[0]);
      StepExact(w, ops[0]);
      j := RunBestFit(Step(w, ops[0]).value, ops[1..], v, cs, size, i);
    }
  }
}
