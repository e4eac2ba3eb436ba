/** The frames behind the heap, over whole runs of growth and contraction with any sizes. */
module HeapPages {
  import opened Backing
  import opened Frames
  import opened HeapAlloc
  import opened HeapFree
  import opened KHeap
  import O = Owners

  /** Contraction gives frames back as it is written, or with the frame's address where the code
      passes its number. */
  datatype Resize = Widen(wanted: int) | Narrow(wanted: int, atAddress: bool)

  function FirstPage(h: Heap): int { h.start / PAGE_SIZE }

  /** The page after the last one that overlaps the heap; the end need not be on a page boundary. */
  function LastPage(h: Heap): int { (h.end + PAGE_SIZE - 1) / PAGE_SIZE }

  /** Every page that overlaps the heap has a frame of its own, and the heap stays between its
      bounds. */
  ghost predicate Framed(h: Heap) {
    && h.start % PAGE_SIZE == 0
    && h.start + HEAP_MIN_SIZE <= h.end <= h.max
    && O.Owned(h.pool) && h.pool.count <= FRAME_LIMIT
    && HeldRange(h.pool, FirstPage(h), LastPage(h))
  }

  /** A step that is refused stops the kernel. */
  function Step(h: Heap, op: Resize): Option<Heap> {
    match op
    case Widen(wanted) => Expand(h, wanted)
    case Narrow(wanted, atAddress) => Contract(h, wanted, atAddress)
  }

  /** The page tables of the new space exist. */
  ghost predicate Allowed(h: Heap, op: Resize) {
    op.Widen? ==> Tabled(h.pool, h.end / PAGE_SIZE, (h.start + RoundUp(op.wanted)) / PAGE_SIZE)
  }

  /** Growth is refused exactly when it adds nothing or passes the limit, contraction exactly when it
      takes nothing. */
  lemma RefusedExactly(h: Heap, wanted: int, atAddress: bool)
    requires Framed(h)
    ensures Step(h, Widen(wanted)) == None <==>
              wanted <= h.end - h.start || h.start + wanted + PAGE_SIZE - wanted % PAGE_SIZE > h.max
    ensures Step(h, Narrow(wanted, atAddress)) == None <==> wanted >= h.end - h.start
  {
    hide BackFrom, UnbackDown, HeldRange, O.Owned;
  }

  // ----- growth

  /** Growth by any size gives every page of the heap a frame of its own exactly when there are
      frames enough. */
  lemma ExpandFramed(h: Heap, wanted: int, g: Heap)
    requires Framed(h) && Expand(h, wanted) == Some(g) && Allowed(h, Widen(wanted))
    ensures wanted < g.end - g.start <= wanted + PAGE_SIZE
    ensures g.pool == BackRange(h.pool, h.end / PAGE_SIZE, g.end / PAGE_SIZE, !h.readonly)
    ensures Framed(g) <==> EnoughFrames(h.pool, h.end / PAGE_SIZE, (h.start + RoundUp(wanted)) / PAGE_SIZE)
  {
    hide BackFrom, BackRange, O.Owned, EnoughFrames, RoundUp;
    var len := h.end - h.start;
    RoundUpBounds(wanted);
    ExpandFields(h, wanted, g);
    BackFromPages(h.pool, h.start, len, RoundUp(wanted), !h.readonly);
    assert h.end / PAGE_SIZE + Steps(len, RoundUp(wanted)) == g.end / PAGE_SIZE;
    var low, mid, high := FirstPage(h), h.end / PAGE_SIZE, g.end / PAGE_SIZE;
    BackRangeGrows(h.pool, mid, high, !h.readonly);
    BackRangeExact(h.pool, mid, high, !h.readonly);
    assert LastPage(g) == high;
    if EnoughFrames(h.pool, mid, high) {
      forall p | InRange(p, low, mid)
        ensures p in h.pool.pages && h.pool.pages[p].frame != 0
      {
        assert InRange(p, low, LastPage(h));
      }
      HeldJoined(h.pool, g.pool, low, mid, high);
    }
  }

  lemma ExpandFields(h: Heap, wanted: int, g: Heap)
    requires Expand(h, wanted) == Some(g)
    ensures h.end - h.start < wanted && g.end == h.start + RoundUp(wanted) <= h.max
    ensures g == h.(end := g.end, pool := g.pool)
    ensures g.pool == BackFrom(h.pool, h.start, h.end - h.start, RoundUp(wanted), !h.readonly)
  {
    hide BackFrom;
  }

  // ----- contraction

  /** The lowest page whose frame contraction takes. */
  function LowestTaken(h: Heap, wanted: int): int {
    h.end / PAGE_SIZE - Steps(ContractedSize(wanted), h.end - h.start - PAGE_SIZE)
  }

  /** The loop steps down from the old end: when that lies further into its page than the new end
      does, the page that holds the new end is taken as well. */
  predicate ContractGuard(h: Heap, wanted: int) {
    var len, size := h.end - h.start, ContractedSize(wanted);
    size % PAGE_SIZE == 0 || len % PAGE_SIZE <= size % PAGE_SIZE || size / PAGE_SIZE == len / PAGE_SIZE
  }

  /** How far the loop comes down, counted in pages from the start. */
  lemma StepsTaken(len: int, size: int)
    requires 0 <= size <= len
    ensures var low := len / PAGE_SIZE - Steps(size, len - PAGE_SIZE);
            && 0 <= low <= len / PAGE_SIZE
            && ((size + PAGE_SIZE - 1) / PAGE_SIZE <= low || low == len / PAGE_SIZE <==>
                  size % PAGE_SIZE == 0 || len % PAGE_SIZE <= size % PAGE_SIZE || size / PAGE_SIZE == len / PAGE_SIZE)
  {
    var a, b, r, t := len / PAGE_SIZE, size / PAGE_SIZE, len % PAGE_SIZE, size % PAGE_SIZE;
    var n := Steps(size, len - PAGE_SIZE);
    if size < len - PAGE_SIZE {
      assert n == (PAGE_SIZE * (a - b) + r - t - 1) / PAGE_SIZE;
      if r > t {
        assert n == a - b;
      } else {
        assert n == a - b - 1;
      }
    } else {
      assert n == 0;
    }
  }

  lemma ContractFields(h: Heap, wanted: int, atAddress: bool, c: Heap)
    requires Framed(h) && Contract(h, wanted, atAddress) == Some(c)
    ensures c == h.(end := h.start + ContractedSize(wanted), pool := c.pool)
    ensures h.start + HEAP_MIN_SIZE <= c.end <= h.end
    ensures FirstPage(h) <= LowestTaken(h, wanted) <= h.end / PAGE_SIZE <= LastPage(h)
    ensures c.pool == UnbackRange(h.pool, LowestTaken(h, wanted), h.end / PAGE_SIZE, atAddress)
    ensures LastPage(c) <= LowestTaken(h, wanted) || LowestTaken(h, wanted) == h.end / PAGE_SIZE
       <==> ContractGuard(h, wanted)
  {
    hide UnbackDown, UnbackRange, O.Owned, HeldRange, Steps, ContractedSize;
    var size, len := ContractedSize(wanted), h.end - h.start;
    SizeBounds(wanted);
    UnbackDownPages(h.pool, h.start, size, len - PAGE_SIZE, atAddress);
    StepsTaken(len, size);
    InPages(h.start, len);
    InPages(h.start, size + PAGE_SIZE - 1);
    InPages(h.start, len - PAGE_SIZE);
    InPages(h.start, len + PAGE_SIZE - 1);
  }

  lemma SizeBounds(wanted: int)
    ensures HEAP_MIN_SIZE <= ContractedSize(wanted)
    ensures ContractedSize(wanted) <= HEAP_MIN_SIZE || ContractedSize(wanted) == wanted
  {
  }

  lemma InPages(start: int, a: int)
    requires start % PAGE_SIZE == 0
    ensures (start + a) / PAGE_SIZE == start / PAGE_SIZE + a / PAGE_SIZE
  {
  }

  /** Contraction never goes below the minimum size, and leaves every page of the heap a frame of its
      own exactly when it takes none from a page that still overlaps the heap, and no release clears
      the bit of another frame. */
  lemma ContractFramed(h: Heap, wanted: int, atAddress: bool, c: Heap)
    requires Framed(h) && Contract(h, wanted, atAddress) == Some(c)
    ensures h.start + HEAP_MIN_SIZE <= c.end <= h.end
    ensures Framed(c) <==>
              ContractGuard(h, wanted) && (atAddress || CleanRange(h.pool, LowestTaken(h, wanted), h.end / PAGE_SIZE))
  {
    hide UnbackRange, O.Owned, CleanRange, Contract, ContractedSize, ContractGuard, LowestTaken, Cleared;
    ContractFields(h, wanted, atAddress, c);
    var low, high := LowestTaken(h, wanted), h.end / PAGE_SIZE;
    forall p | InRange(p, low, high)
      ensures InRange(p, FirstPage(h), LastPage(h))
    {
    }
    UnbackRangeEffect(h.pool, low, high, atAddress);
    if atAddress {
      UnbackAtAddress(h.pool, low, high);
    } else {
      UnbackRangeExact(h.pool, low, high);
    }
    if LastPage(c) <= low || low == high {
      forall p | InRange(p, FirstPage(c), LastPage(c))
        ensures p in c.pool.pages && c.pool.pages[p].frame != 0
      {
        assert InRange(p, FirstPage(h), LastPage(h)) && !InRange(p, low, high);
      }
    } else {
      var p := if low < LastPage(c) - 1 < high then LastPage(c) - 1 else low;
      assert InRange(p, low, high) && InRange(p, FirstPage(c), LastPage(c));
    }
  }

  // ----- runs

  predicate Guard(h: Heap, op: Resize) {
    match op
    case Widen(wanted) => EnoughFrames(h.pool, h.end / PAGE_SIZE, (h.start + RoundUp(wanted)) / PAGE_SIZE)
    case Narrow(wanted, atAddress) =>
      ContractGuard(h, wanted) && (atAddress || CleanRange(h.pool, LowestTaken(h, wanted), h.end / PAGE_SIZE))
  }

  /** Every page of the heap has a frame of its own all along the run, as far as it is not refused. */
  ghost predicate StaysFramed(h: Heap, ops: seq<Resize>)
    decreases |ops|
  {
    Framed(h) && (ops != [] && Step(h, ops[0]).Some? ==> StaysFramed(Step(h, ops[0]).value, ops[1..]))
  }

  ghost predicate AllAllowed(h: Heap, ops: seq<Resize>)
    decreases |ops|
  {
    ops != [] ==>
      && Allowed(h, ops[0])
      && (Step(h, ops[0]).Some? ==> AllAllowed(Step(h, ops[0]).value, ops[1..]))
  }

  predicate AllGuarded(h: Heap, ops: seq<Resize>)
    decreases |ops|
  {
    ops != [] && Step(h, ops[0]).Some? ==>
      Guard(h, ops[0]) && AllGuarded(Step(h, ops[0]).value, ops[1..])
  }

  /** However often the heap grows and shrinks, every page of it has a frame of its own exactly when
      every step meets its guard. */
  lemma {:induction false} RunExact(h: Heap, ops: seq<Resize>)
    requires Framed(h) && AllAllowed(h, ops)
    ensures StaysFramed(h, ops) <==> AllGuarded(h, ops)
    decreases |ops|
  {
    hide Framed, Expand, Contract, ContractGuard, Allowed, CleanRange, EnoughFrames, LowestTaken;
    if ops != [] && Step(h, ops[0]).Some? {
      var g := Step(h, ops[0]).value;
      match ops[0] {
        case Widen(wanted) => ExpandFramed(h, wanted, g);
        case Narrow(wanted, atAddress) => ContractFramed(h, wanted, atAddress, g);
      }
      if Framed(g) {
        RunExact(g, ops[1..]);
      }
    }
  }

  /** Sizes the minimum covers, and heaps that end on a page boundary, lose no page of their own. */
  lemma GuardMet(h: Heap, wanted: int)
    requires wanted <= HEAP_MIN_SIZE || (h.end - h.start) % PAGE_SIZE == 0
    ensures ContractGuard(h, wanted)
  {
  }

  /** Two contractions in a row, neither of them rounded, lose the frame of the heap's last page,
      whichever way frames are released. */
  lemma TwoContractionsBreak(h: Heap, a: int, b: int, atAddress: bool)
    requires Framed(h) && h.end % PAGE_SIZE == 0 && HEAP_MIN_SIZE <= b < a < h.end - h.start
    requires (a / PAGE_SIZE) % 2 == 0 && (b / PAGE_SIZE) % 2 == 0 && b / PAGE_SIZE < a / PAGE_SIZE
    requires 0 < b % PAGE_SIZE < a % PAGE_SIZE
    ensures !StaysFramed(h, [Narrow(a, atAddress), Narrow(b, atAddress)])
  {
    hide UnbackDown, Framed, CleanRange, LowestTaken;
    FramedBounds(h);
    var g := Contract(h, a, atAddress).value;
    ContractFramed(h, a, atAddress, g);
    if Framed(g) {
      ContractFramed(g, b, atAddress, Contract(g, b, atAddress).value);
    }
    assert [Narrow(a, atAddress), Narrow(b, atAddress)][1..] == [Narrow(b, atAddress)];
    assert !StaysFramed(g, [Narrow(b, atAddress)]);
  }

  lemma FramedBounds(h: Heap)
    requires Framed(h)
    ensures h.start % PAGE_SIZE == 0 && h.start + HEAP_MIN_SIZE <= h.end <= h.max
  {
  }

  /** Contraction keeps the bytes it was asked to keep exactly when the mask leaves the size alone
      or the minimum size covers it; when not, the heap falls to the minimum. */
  lemma ContractKeeps(h: Heap, wanted: int)
    requires Framed(h) && wanted < h.end - h.start
    ensures var g := Contract(h, wanted);
            && g.Some?
            && (wanted <= g.value.end - g.value.start <==> wanted <= HEAP_MIN_SIZE || (wanted / PAGE_SIZE) % 2 == 0)
            && g.value.end - g.value.start ==
               (if wanted <= HEAP_MIN_SIZE || (wanted / PAGE_SIZE) % 2 == 1 then HEAP_MIN_SIZE else wanted)
  {
  }

  // ----- shrinking and growing back

  /** Each release at the frame's address gives back one frame. */
  lemma {:induction false} UnbackCounts(s: O.Pool, first: int, last: int)
    requires O.Owned(s) && HeldRange(s, first, last) && first <= last
    ensures |Unused(UnbackRange(s, first, last, true))| == |Unused(s)| + last - first
    decreases last - first
  {
    hide O.Owned;
    if first < last {
      var page := last - 1;
      assert InRange(page, first, last);
      O.AddressReleaseKeeps(s, page);
      var t := Unback(s, page, true);
      var f := s.pages[page].frame;
      FrameHeld(s, page);
      assert Unused(t) == Unused(s) + {f};
      forall p | InRange(p, first, page)
        ensures InRange(p, first, last)
      {
      }
      UnbackCounts(t, first, page);
    }
  }

  lemma FrameHeld(s: O.Pool, page: int)
    requires O.Owned(s) && page in s.pages && s.pages[page].frame != 0
    ensures s.pages[page].frame in s.used && 0 <= s.pages[page].frame < s.count
  {
    assert O.Holds(s, page, s.pages[page].frame);
  }

  function Pages(first: int, last: int): set<int> {
    set page | first <= page < last && InRange(page, first, last)
  }

  lemma {:induction false} PagesCount(first: int, last: int)
    requires first <= last
    ensures |Pages(first, last)| == last - first
    decreases last - first
  {
    if first < last {
      PagesCount(first, last - 1);
      assert InRange(last - 1, first, last);
      forall p: int
        ensures InRange(p, first, last) <==> InRange(p, first, last - 1) || p == last - 1
      {
      }
      assert Pages(first, last) == Pages(first, last - 1) + {last - 1};
    } else {
      assert Pages(first, last) == {};
    }
  }

  /** What is bare after the contraction are the pages it took. */
  lemma BareTaken(h: Heap, c: Heap)
    requires Framed(h) && h.end % PAGE_SIZE == 0 && FirstPage(h) <= c.end / PAGE_SIZE < h.end / PAGE_SIZE
    requires c.pool == UnbackRange(h.pool, c.end / PAGE_SIZE + 1, h.end / PAGE_SIZE, true)
    ensures |Bare(c.pool, c.end / PAGE_SIZE, h.end / PAGE_SIZE)| == h.end / PAGE_SIZE - c.end / PAGE_SIZE - 1
    ensures |Unused(c.pool)| == |Unused(h.pool)| + h.end / PAGE_SIZE - c.end / PAGE_SIZE - 1
  {
    hide UnbackRange, Cleared, Unused, O.Owned;
    var low, high := c.end / PAGE_SIZE + 1, h.end / PAGE_SIZE;
    forall p | InRange(p, low - 1, high)
      ensures InRange(p, FirstPage(h), LastPage(h))
    {
    }
    assert HeldRange(h.pool, low, high) by {
      assert forall p :: InRange(p, low, high) ==> InRange(p, low - 1, high);
    }
    UnbackRangeEffect(h.pool, low, high, true);
    UnbackCounts(h.pool, low, high);
    PagesCount(low, high);
    forall p: int
      ensures p in Bare(c.pool, low - 1, high) <==> p in Pages(low, high)
    {
      assert InRange(p, low, high) ==> InRange(p, low - 1, high);
    }
    assert Bare(c.pool, low - 1, high) == Pages(low, high);
  }

  /** With frames released at their address, a heap that shrinks to its minimum and grows back is
      framed as before, and takes no frame more than it had. */
  lemma ShrinkThenGrow(h: Heap, wanted: int, c: Heap)
    requires Framed(h) && h.end % PAGE_SIZE == 0 && 0 <= wanted <= HEAP_MIN_SIZE && h.start + HEAP_MIN_SIZE < h.end
    requires Contract(h, wanted, true) == Some(c)
    ensures c.end == h.start + HEAP_MIN_SIZE
    ensures var r := Expand(c, h.end - h.start - 1);
            && r.Some? && r.value.end == h.end && Framed(r.value)
            && |Unused(r.value.pool)| == |Unused(h.pool)|
  {
    hide BackRange, UnbackRange, BackFrom, O.Owned, Bare, Unused, Contract, ContractGuard, HeldRange;
    GuardMet(h, wanted);
    ContractFields(h, wanted, true, c);
    ContractFramed(h, wanted, true, c);
    var len := h.end - h.start;
    BareTaken(h, c);
    assert RoundUp(len - 1) == len;
    var g := Expand(c, len - 1).value;
    TablesKept(h, c, true);
    ExpandFramed(c, len - 1, g);
    BackRangeExact(c.pool, c.end / PAGE_SIZE, h.end / PAGE_SIZE, !c.readonly);
  }

  lemma TablesKept(h: Heap, c: Heap, atAddress: bool)
    requires Framed(h) && FirstPage(h) <= c.end / PAGE_SIZE < h.end / PAGE_SIZE && h.end % PAGE_SIZE == 0
    requires c.pool == UnbackRange(h.pool, c.end / PAGE_SIZE + 1, h.end / PAGE_SIZE, atAddress)
    ensures Tabled(c.pool, c.end / PAGE_SIZE, h.end / PAGE_SIZE)
  {
    hide UnbackRange, Cleared;
    var low, high := c.end / PAGE_SIZE + 1, h.end / PAGE_SIZE;
    forall p | InRange(p, low - 1, high)
      ensures InRange(p, FirstPage(h), LastPage(h))
    {
    }
    assert HeldRange(h.pool, low, high) by {
      assert forall p :: InRange(p, low, high) ==> InRange(p, low - 1, high);
    }
    UnbackRangeEffect(h.pool, low, high, atAddress);
  }

  lemma TakenHeld(h: Heap, first: int, high: int)
    requires Framed(h) && FirstPage(h) <= first && high <= LastPage(h)
    ensures HeldRange(h.pool, first, high)
  {
    forall p | InRange(p, first, high)
      ensures InRange(p, FirstPage(h), LastPage(h))
    {
    }
  }

  lemma ZeroHandedOut(s: O.Pool, first: int, last: int, isWrite: bool)
    requires first + 1 < last && first in s.pages && first + 1 in s.pages && 0 !in s.used && 0 < s.count
    requires s.pages[first].frame != 0 && s.pages[first + 1].frame == 0
    ensures var r := BackRange(s, first, last, isWrite);
            first + 1 in r.pages && r.pages[first + 1].frame == 0 && r.pages[first + 1].present
  {
    LeastUnique(s.used, s.count, 0);
    var t := Back(Back(s, first, isWrite), first + 1, isWrite);
    assert BackRange(s, first, last, isWrite) == BackRange(t, first + 2, last, isWrite);
    BackRangeGrows(t, first + 2, last, isWrite);
  }

  /** The loops of contraction and growth, one after the other, over pages of which one has a low
      frame. */
  lemma LowFrameLosesPage(s: O.Pool, first: int, last: int, low: int, isWrite: bool)
    requires O.Owned(s) && HeldRange(s, first, last)
    requires InRange(low, first + 1, last) && low in s.pages && s.pages[low].frame < FRAME_SIZE
    ensures var r := BackRange(UnbackRange(s, first + 1, last, false), first, last, isWrite);
            first + 1 in r.pages && r.pages[first + 1].frame == 0 && r.pages[first + 1].present
  {
    hide BackRange, UnbackRange, O.Owned, Cleared;
    forall p | InRange(p, first + 1, last)
      ensures InRange(p, first, last)
    {
    }
    assert InRange(first, first, last) && InRange(first + 1, first, last);
    FrameHeld(s, low);
    LowReleaseFreesZero(s, first + 1, last, low);
    UnbackRangeEffect(s, first + 1, last, false);
    ZeroHandedOut(UnbackRange(s, first + 1, last, false), first, last, isWrite);
  }

  lemma LostPage(g: Heap, page: int)
    requires FirstPage(g) <= page < LastPage(g)
    requires page !in g.pool.pages || g.pool.pages[page].frame == 0
    ensures !Framed(g)
  {
    assert InRange(page, FirstPage(g), LastPage(g));
  }

  /** As written, the same loses a page as soon as one of the frames given back is a low one: frame 0
      counts as free, and the first page that grows back is given it, which leaves it unbacked. */
  lemma RegrowthLosesPage(h: Heap, wanted: int, c: Heap, low: int)
    requires Framed(h) && h.end % PAGE_SIZE == 0 && 0 <= wanted <= HEAP_MIN_SIZE
    requires Contract(h, wanted, false) == Some(c)
    requires InRange(low, c.end / PAGE_SIZE + 1, h.end / PAGE_SIZE)
    requires low in h.pool.pages && h.pool.pages[low].frame < FRAME_SIZE
    ensures var r := Expand(c, h.end - h.start - 1);
            && r.Some? && r.value.end == h.end && !Framed(r.value)
            && var page := c.end / PAGE_SIZE + 1;
               page in r.value.pool.pages && r.value.pool.pages[page].frame == 0 && r.value.pool.pages[page].present
  {
    hide BackRange, UnbackRange, BackFrom, O.Owned, Contract, HeldRange, ContractGuard, Framed;
    FramedBounds(h);
    ContractFields(h, wanted, false, c);
    var len := h.end - h.start;
    var first, high := c.end / PAGE_SIZE, h.end / PAGE_SIZE;
    TakenHeld(h, first, high);
    FramedOwned(h);
    LowFrameLosesPage(h.pool, first, high, low, !h.readonly);
    assert RoundUp(len - 1) == len;
    var g := Expand(c, len - 1).value;
    BackFromPages(c.pool, c.start, c.end - c.start, len, !c.readonly);
    assert first + Steps(c.end - c.start, len) == high;
    LostPage(g, first + 1);
  }

  lemma FramedOwned(h: Heap)
    requires Framed(h)
    ensures O.Owned(h.pool)
  {
  }
}
