/** What the cells of a heap stand for: a sequence of chunks that tiles the heap. */
module Chunks {
  import opened Backing
  import opened Memory
  import opened KHeap
  import opened Owners

  datatype Chunk = Chunk(addr: int, size: int, hole: bool) {
    function End(): int { addr + size }
  }

  /** The chunks fill [lo, hi) without gap or overlap. */
  ghost predicate Tiles(cs: seq<Chunk>, lo: int, hi: int) {
    && |cs| > 0
    && cs[0].addr == lo
    && cs[|cs| - 1].End() == hi
    && (forall i :: 0 <= i < |cs| ==> cs[i].size >= TAGS_SIZE)
    && (forall i :: 0 < i < |cs| ==> cs[i].addr == cs[i - 1].End())
  }

  ghost predicate HeaderOf(m: Mem, c: Chunk) {
    Magic(m, c.addr) == HEAP_MAGIC && Size(m, c.addr) == c.size && HoleFlag(m, c.addr) == (if c.hole then 1 else 0)
  }

  ghost predicate FooterOf(m: Mem, c: Chunk) {
    FootMagic(m, c.End() - FOOTER_SIZE) == HEAP_MAGIC && FootHeader(m, c.End() - FOOTER_SIZE) == c.addr
  }

  /** The cells of `c` are in place; a hole that closes the heap need not have a footer. */
  ghost predicate Stored(m: Mem, c: Chunk, end: int) {
    HeaderOf(m, c) && ((c.hole && c.End() == end) || FooterOf(m, c))
  }

  /** The addresses of the holes, in address order. */
  ghost function Holes(cs: seq<Chunk>): seq<int> {
    if cs == [] then [] else (if cs[0].hole then [cs[0].addr] else []) + Holes(cs[1..])
  }

  ghost function Blocks(cs: seq<Chunk>): set<Chunk> {
    set i | 0 <= i < |cs| && !cs[i].hole :: cs[i]
  }

  ghost predicate Coalesced(cs: seq<Chunk>) {
    forall i :: 0 < i < |cs| ==> !(cs[i - 1].hole && cs[i].hole)
  }

  /** The heap `h` stands for the chunks `cs`. */
  ghost predicate Represents(h: Heap, cs: seq<Chunk>) {
    && Tiles(cs, h.start, h.end)
    && (forall i :: 0 <= i < |cs| ==> Stored(h.mem, cs[i], h.end))
    && multiset(h.index) == multiset(Holes(cs))
    && Coalesced(cs)
    && |h.index| <= HEAP_INDEX_SIZE
    && Placed(h)
  }

  /** The heap's bounds, a frame of its own behind every page of it and behind the page below, and
      no stray magic just below it. */
  ghost predicate Placed(h: Heap) {
    && 0 < h.start && h.start % PAGE_SIZE == 0 && h.end % PAGE_SIZE == 0
    && h.start + HEAP_MIN_SIZE <= h.end <= h.max && h.max + PAGE_SIZE < WORD_LIMIT
    && Owned(h.pool) && h.pool.count <= FRAME_LIMIT
    && HeldRange(h.pool, h.start / PAGE_SIZE - 1, h.end / PAGE_SIZE)
    && FootMagic(h.mem, h.start - FOOTER_SIZE) != HEAP_MAGIC
  }

  /** Every byte of a placed heap, and of the page below it, can be read where it is. */
  lemma PlacedReadable(h: Heap, a: int)
    requires Placed(h) && h.start - PAGE_SIZE <= a < h.end
    ensures Readable(h, a) && Seen(h, a) == a
  {
    var page := a / PAGE_SIZE;
    assert InRange(page, h.start / PAGE_SIZE - 1, h.end / PAGE_SIZE);
    assert Holds(h.pool, page, h.pool.pages[page].frame);
  }

  // ----- tiling

  lemma {:induction false} TilesOrdered(cs: seq<Chunk>, lo: int, hi: int, i: nat, j: nat)
    requires Tiles(cs, lo, hi) && i < j < |cs|
    ensures cs[i].End() <= cs[j].addr
    decreases j
  {
    if i + 1 < j {
      TilesOrdered(cs, lo, hi, i, j - 1);
    }
  }

  /** Order and bounds of all chunks at once. */
  lemma TilesLayout(cs: seq<Chunk>, lo: int, hi: int)
    requires Tiles(cs, lo, hi)
    ensures forall i, j :: 0 <= i < j < |cs| ==> cs[i].End() <= cs[j].addr
    ensures forall i :: 0 <= i < |cs| ==> lo <= cs[i].addr && cs[i].End() <= hi
  {
    forall i, j | 0 <= i < j < |cs|
      ensures cs[i].End() <= cs[j].addr
    {
      TilesOrdered(cs, lo, hi, i, j);
    }
  }

  /** The chunk sequence is determined by the memory. */
  lemma {:induction false} TilesUnique(m: Mem, cs: seq<Chunk>, ds: seq<Chunk>, lo: int, hi: int)
    requires Tiles(cs, lo, hi) && Tiles(ds, lo, hi)
    requires forall i :: 0 <= i < |cs| ==> HeaderOf(m, cs[i])
    requires forall i :: 0 <= i < |ds| ==> HeaderOf(m, ds[i])
    ensures cs == ds
    decreases |cs|
  {
    hide HeaderOf;
    SameHeader(m, cs[0], ds[0]);
    TilesLayout(cs, lo, hi);
    TilesLayout(ds, lo, hi);
    if |cs| > 1 && |ds| > 1 {
      var mid := cs[0].End();
      assert Tiles(cs[1..], mid, hi);
      assert Tiles(ds[1..], mid, hi);
      TilesUnique(m, cs[1..], ds[1..], mid, hi);
      assert cs == [cs[0]] + cs[1..] && ds == [ds[0]] + ds[1..];
    }
  }

  lemma SameHeader(m: Mem, c: Chunk, d: Chunk)
    requires HeaderOf(m, c) && HeaderOf(m, d) && c.addr == d.addr
    ensures c == d
  {
    hide Word, Byte;
  }

  lemma ChunksDetermined(h: Heap, cs: seq<Chunk>, ds: seq<Chunk>)
    requires Represents(h, cs) && Represents(h, ds)
    ensures cs == ds
  {
    TilesUnique(h.mem, cs, ds, h.start, h.end);
  }

  /** The header of a chunk holds its size. */
  lemma StoredSize(h: Heap, cs: seq<Chunk>, n: nat)
    requires Represents(h, cs) && n < |cs|
    ensures Size(h.mem, cs[n].addr) == cs[n].size >= TAGS_SIZE
  {
    assert Stored(h.mem, cs[n], h.end);
  }

  // ----- holes

  lemma {:induction false} HolesConcat(a: seq<Chunk>, b: seq<Chunk>)
    ensures Holes(a + b) == Holes(a) + Holes(b)
  {
    if a == [] {
      assert a + b == b;
    } else {
      HolesConcat(a[1..], b);
      assert (a + b)[1..] == a[1..] + b;
    }
  }

  lemma {:induction false} HolesMember(cs: seq<Chunk>, a: int)
    ensures a in Holes(cs) <==> exists i :: 0 <= i < |cs| && cs[i].hole && cs[i].addr == a
  {
    if cs != [] {
      HolesMember(cs[1..], a);
      if a in Holes(cs[1..]) {
        var i :| 0 <= i < |cs[1..]| && cs[1..][i].hole && cs[1..][i].addr == a;
        assert cs[i + 1].hole && cs[i + 1].addr == a;
      }
      if exists i :: 0 <= i < |cs| && cs[i].hole && cs[i].addr == a {
        var i :| 0 <= i < |cs| && cs[i].hole && cs[i].addr == a;
        assert i > 0 ==> cs[1..][i - 1].hole && cs[1..][i - 1].addr == a;
      }
    }
  }

  /** The indexed addresses are exactly those of the holes. */
  lemma Indexed(h: Heap, cs: seq<Chunk>, a: int)
    requires Represents(h, cs)
    ensures a in h.index <==> exists i :: 0 <= i < |cs| && cs[i].hole && cs[i].addr == a
  {
    HolesMember(cs, a);
    assert a in h.index <==> a in multiset(h.index);
    assert a in Holes(cs) <==> a in multiset(Holes(cs));
  }

  lemma {:induction false} HolesDistinct(cs: seq<Chunk>, lo: int, hi: int, a: int)
    requires Tiles(cs, lo, hi)
    ensures multiset(Holes(cs))[a] <= 1
    decreases |cs|
  {
    assert Holes(cs) == (if cs[0].hole then [cs[0].addr] else []) + Holes(cs[1..]);
    if |cs| > 1 {
      assert Tiles(cs[1..], cs[0].End(), hi);
      HolesDistinct(cs[1..], cs[0].End(), hi, a);
      TilesLayout(cs, lo, hi);
      HolesMember(cs[1..], cs[0].addr);
    }
  }

  /** Every hole is indexed exactly once and nothing else is. */
  lemma IndexedOnce(h: Heap, cs: seq<Chunk>, a: int)
    requires Represents(h, cs)
    ensures multiset(h.index)[a] == if exists i :: 0 <= i < |cs| && cs[i].hole && cs[i].addr == a then 1 else 0
  {
    HolesDistinct(cs, h.start, h.end, a);
    HolesMember(cs, a);
    assert a in Holes(cs) <==> a in multiset(Holes(cs));
  }

  // ----- blocks

  lemma BlocksMember(cs: seq<Chunk>, c: Chunk)
    ensures c in Blocks(cs) <==> c in cs && !c.hole
  {
  }

  lemma BlocksConcat(a: seq<Chunk>, b: seq<Chunk>)
    ensures Blocks(a + b) == Blocks(a) + Blocks(b)
  {
    forall c
      ensures c in Blocks(a + b) <==> c in Blocks(a) + Blocks(b)
    {
      BlocksMember(a + b, c);
      BlocksMember(a, c);
      BlocksMember(b, c);
    }
  }

  lemma BlocksApart(cs: seq<Chunk>, lo: int, hi: int, i: nat)
    requires Tiles(cs, lo, hi) && i <= |cs|
    ensures Blocks(cs[..i]) !! Blocks(cs[i..])
  {
    TilesLayout(cs, lo, hi);
  }

  /** Replacing a run of chunks changes the blocks by that run only. */
  lemma BlocksSpliced(cs: seq<Chunk>, lo: int, hi: int, i: nat, j: nat, mid: seq<Chunk>)
    requires Tiles(cs, lo, hi) && i <= j <= |cs|
    ensures Blocks(cs[..i] + mid + cs[j..]) == Blocks(cs) - Blocks(cs[i..j]) + Blocks(mid)
  {
    var a, b, c := cs[..i], cs[i..j], cs[j..];
    BlocksApart(cs, lo, hi, i);
    BlocksApart(cs, lo, hi, j);
    assert cs == a + cs[i..] && cs[i..] == b + c && cs[..j] == a + b;
    BlocksConcat(a, cs[i..]);
    BlocksConcat(b, c);
    BlocksConcat(a, b);
    BlocksConcat(a + mid, c);
    BlocksConcat(a, mid);
  }

  // ----- replacing a run of chunks

  lemma StoredSame(m: Mem, r: Mem, c: Chunk, end: int, end': int)
    requires Stored(m, c, end) && c.size >= TAGS_SIZE
    requires c.End() == end ==> FooterOf(m, c)
    requires forall a :: c.addr <= a < c.addr + HEADER_SIZE || c.End() - FOOTER_SIZE <= a < c.End() ==> Byte(r, a) == Byte(m, a)
    ensures Stored(r, c, end')
  {
    LoadSame(m, r, c.addr, c.addr + 4);
    LoadSame(m, r, c.addr + 8, c.addr + 12);
    LoadSame(m, r, c.End() - 8, c.End() - 4);
    LoadSame(m, r, c.End() - 4, c.End());
  }

  lemma TilesSpliced(cs: seq<Chunk>, lo: int, hi: int, i: nat, j: nat, mid: seq<Chunk>, hi': int)
    requires Tiles(cs, lo, hi) && i <= j <= |cs|
    requires Tiles(mid, if i < |cs| then cs[i].addr else hi, if j < |cs| then cs[j].addr else hi')
    requires j < |cs| ==> hi' == hi
    ensures Tiles(cs[..i] + mid + cs[j..], lo, hi')
  {
    var ds := cs[..i] + mid + cs[j..];
    var n := |mid|;
    forall k | 0 <= k < |ds|
      ensures ds[k] == if k < i then cs[k] else if k < i + n then mid[k - i] else cs[j + k - i - n]
    {
    }
    forall k | 0 < k < |ds|
      ensures ds[k].addr == ds[k - 1].End()
    {
      if k < i {
        assert cs[k].addr == cs[k - 1].End();
      } else if k == i {
        assert i < |cs| ==> cs[i].addr == cs[i - 1].End();
      } else if k < i + n {
        assert mid[k - i].addr == mid[k - i - 1].End();
      } else if k == i + n {
        assert ds[k] == cs[j];
      } else {
        assert cs[j + k - i - n].addr == cs[j + k - i - n - 1].End();
      }
    }
  }

  ghost predicate SeamsOpen(cs: seq<Chunk>, i: nat, j: nat, mid: seq<Chunk>)
    requires i <= j <= |cs| && |mid| > 0
  {
    && Coalesced(mid)
    && (i > 0 ==> !(cs[i - 1].hole && mid[0].hole))
    && (j < |cs| ==> !(mid[|mid| - 1].hole && cs[j].hole))
  }

  lemma CoalescedSpliced(cs: seq<Chunk>, i: nat, j: nat, mid: seq<Chunk>)
    requires i <= j <= |cs| && |mid| > 0 && Coalesced(cs) && SeamsOpen(cs, i, j, mid)
    ensures Coalesced(cs[..i] + mid + cs[j..])
  {
    var ds := cs[..i] + mid + cs[j..];
    var n := |mid|;
    forall k | 0 < k < |ds|
      ensures !(ds[k - 1].hole && ds[k].hole)
    {
      if k < i {
        assert ds[k] == cs[k] && ds[k - 1] == cs[k - 1];
      } else if k == i {
      } else if k < i + n {
        assert ds[k] == mid[k - i] && ds[k - 1] == mid[k - i - 1];
      } else if k == i + n {
      } else {
        assert ds[k] == cs[j + k - i - n] && ds[k - 1] == cs[j + k - i - n - 1];
      }
    }
  }

  lemma HolesSpliced(cs: seq<Chunk>, i: nat, j: nat, mid: seq<Chunk>)
    requires i <= j <= |cs|
    ensures multiset(Holes(cs[..i] + mid + cs[j..]))
         == multiset(Holes(cs)) - multiset(Holes(cs[i..j])) + multiset(Holes(mid))
  {
    var a, b, c := cs[..i], cs[i..j], cs[j..];
    assert cs == a + b + c;
    HolesConcat(a + b, c);
    HolesConcat(a, b);
    HolesConcat(a + mid, c);
    HolesConcat(a, mid);
  }

  /** A chunk outside the rewritten range keeps its cells. */
  lemma StoredOutside(h: Heap, g: Heap, cs: seq<Chunk>, i: nat, j: nat, k: nat, lo: int, hi: int)
    requires Represents(h, cs) && i <= j <= |cs| && k < |cs| && (k < i || j <= k)
    requires j < |cs| ==> g.end == h.end
    requires lo == if i < |cs| then cs[i].addr else h.end
    requires j < |cs| ==> hi == cs[j].addr
    requires i == |cs| ==> !cs[i - 1].hole
    requires forall a :: a < lo || (j < |cs| && hi <= a) ==> Byte(g.mem, a) == Byte(h.mem, a)
    ensures Stored(g.mem, cs[k], g.end)
  {
    TilesLayout(cs, h.start, h.end);
    if k < i {
      assert k + 1 < |cs| ==> cs[k].End() <= cs[k + 1].addr;
      StoredSame(h.mem, g.mem, cs[k], h.end, g.end);
    } else {
      assert k > j ==> cs[j].End() <= cs[k].addr;
      if cs[k].End() == h.end && cs[k].hole {
        LastStoredSame(h.mem, g.mem, cs[k], h.end);
      } else {
        StoredSame(h.mem, g.mem, cs[k], h.end, g.end);
      }
    }
  }

  lemma AllStored(h: Heap, g: Heap, cs: seq<Chunk>, i: nat, j: nat, mid: seq<Chunk>)
    requires Represents(h, cs) && i <= j <= |cs|
    requires j < |cs| ==> g.end == h.end
    requires Tiles(mid, if i < |cs| then cs[i].addr else h.end, if j < |cs| then cs[j].addr else g.end)
    requires i == |cs| ==> !cs[i - 1].hole
    requires forall a :: a < mid[0].addr || (j < |cs| && mid[|mid| - 1].End() <= a) ==> Byte(g.mem, a) == Byte(h.mem, a)
    requires forall k :: 0 <= k < |mid| ==> Stored(g.mem, mid[k], g.end)
    ensures var ds := cs[..i] + mid + cs[j..];
            forall k :: 0 <= k < |ds| ==> Stored(g.mem, ds[k], g.end)
  {
    var ds := cs[..i] + mid + cs[j..];
    var lo, hi := mid[0].addr, mid[|mid| - 1].End();
    forall k | 0 <= k < |ds|
      ensures Stored(g.mem, ds[k], g.end)
    {
      if k < i {
        assert ds[k] == cs[k];
        StoredOutside(h, g, cs, i, j, k, lo, hi);
      } else if k < i + |mid| {
        assert ds[k] == mid[k - i];
      } else {
        assert ds[k] == cs[j + k - i - |mid|];
        StoredOutside(h, g, cs, i, j, j + k - i - |mid|, lo, hi);
      }
    }
  }

  /** An operation that rewrites only the cells of the chunks i..j, into those of `mid`;
      beyond the end of the heap it may write anything. */
  lemma Splice(h: Heap, g: Heap, cs: seq<Chunk>, i: nat, j: nat, mid: seq<Chunk>)
    requires Represents(h, cs) && i <= j <= |cs|
    requires g.start == h.start && (j < |cs| ==> g.end == h.end)
    requires Tiles(mid, if i < |cs| then cs[i].addr else h.end, if j < |cs| then cs[j].addr else g.end)
    requires i == |cs| ==> !cs[i - 1].hole
    requires forall a :: a < mid[0].addr || (j < |cs| && mid[|mid| - 1].End() <= a) ==> Byte(g.mem, a) == Byte(h.mem, a)
    requires forall k :: 0 <= k < |mid| ==> Stored(g.mem, mid[k], g.end)
    requires SeamsOpen(cs, i, j, mid)
    requires multiset(g.index) == multiset(h.index) - multiset(Holes(cs[i..j])) + multiset(Holes(mid))
    requires |g.index| <= HEAP_INDEX_SIZE && Placed(g)
    ensures Represents(g, cs[..i] + mid + cs[j..])
  {
    TilesSpliced(cs, h.start, h.end, i, j, mid, g.end);
    CoalescedSpliced(cs, i, j, mid);
    HolesSpliced(cs, i, j, mid);
    AllStored(h, g, cs, i, j, mid);
  }

  lemma LastStoredSame(m: Mem, r: Mem, c: Chunk, end: int)
    requires Stored(m, c, end) && c.hole && c.End() == end && c.size >= TAGS_SIZE
    requires forall a :: c.addr <= a < c.addr + HEADER_SIZE ==> Byte(r, a) == Byte(m, a)
    ensures Stored(r, c, end)
  {
    LoadSame(m, r, c.addr, c.addr + 4);
    LoadSame(m, r, c.addr + 8, c.addr + 12);
  }
}
