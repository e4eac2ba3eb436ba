/** The loops that give the pages of a range their frames and take them away again. */
module Backing {
  import opened Frames
  import opened Owners

  // ----- giving

  /** `alloc_frame(get_page(..))` for one page. A page whose table is missing is left alone: what
      follows about ranges is about pages that have one. */
  function Back(s: Pool, page: int, isWrite: bool): Pool {
    if page in s.pages then AllocFrame(s, page, isWrite) else s
  }

  /** The pages from `page` up to `last`, lowest first. */
  function BackRange(s: Pool, page: int, last: int, isWrite: bool): Pool
    decreases last - page
  {
    if page < last then BackRange(Back(s, page, isWrite), page + 1, last, isWrite) else s
  }

  /** The page numbers from `page` up to `last`. */
  predicate InRange(page: int, first: int, last: int) {
    first <= page < last
  }

  ghost predicate Tabled(s: Pool, first: int, last: int) {
    forall page :: InRange(page, first, last) ==> page in s.pages
  }

  ghost predicate HeldRange(s: Pool, first: int, last: int) {
    forall page :: InRange(page, first, last) ==> page in s.pages && s.pages[page].frame != 0
  }

  /** The pages of the range that have no frame yet. */
  function Bare(s: Pool, first: int, last: int): set<int> {
    set page | first <= page < last && InRange(page, first, last) && page in s.pages && s.pages[page].frame == 0
  }

  function Unused(s: Pool): set<int> {
    set f | 0 <= f < s.count && f !in s.used
  }

  predicate EnoughFrames(s: Pool, first: int, last: int) {
    |Bare(s, first, last)| <= |Unused(s)|
  }

  /** Only page entries in the range that had no frame change, and no frame is given back. */
  lemma {:induction false} BackRangeGrows(s: Pool, first: int, last: int, isWrite: bool)
    ensures var r := BackRange(s, first, last, isWrite);
            && s.used <= r.used && r.count == s.count && r.pages.Keys == s.pages.Keys
            && (forall p :: p in s.pages && (s.pages[p].frame != 0 || !InRange(p, first, last)) ==> r.pages[p] == s.pages[p])
    decreases last - first
  {
    hide LeastFree;
    if first < last {
      BackRangeGrows(Back(s, first, isWrite), first + 1, last, isWrite);
    }
  }

  /** What the loop writes into the entries of the pages that had no frame. */
  lemma {:induction false} BackRangeEntries(s: Pool, first: int, last: int, isWrite: bool, p: int)
    requires p in Bare(s, first, last)
    ensures var r := BackRange(s, first, last, isWrite);
            p in r.pages && r.pages[p].present && r.pages[p].writable == isWrite && !r.pages[p].user
    decreases last - first
  {
    hide LeastFree;
    var t := Back(s, first, isWrite);
    if p == first {
      BackRangeGrows(t, first + 1, last, isWrite);
    } else {
      assert p in Bare(t, first + 1, last);
      BackRangeEntries(t, first + 1, last, isWrite, p);
    }
  }

  lemma BareStep(s: Pool, first: int, last: int)
    requires first < last && first in s.pages
    ensures Bare(s, first, last) == Bare(s, first + 1, last) + (if s.pages[first].frame == 0 then {first} else {})
  {
  }

  lemma NoneUnused(s: Pool)
    ensures Unused(s) == {} <==> LeastFree(s.used, s.count) == s.count
    ensures LeastFree(s.used, s.count) < s.count ==> LeastFree(s.used, s.count) in Unused(s)
  {
    var f := LeastFree(s.used, s.count);
    if f < s.count {
      assert f in Unused(s);
    }
  }

  /** One page that needs a frame when there is one. */
  lemma BackOne(s: Pool, first: int, last: int, isWrite: bool)
    requires Owned(s) && first < last && Tabled(s, first, last) && s.pages[first].frame == 0
    requires LeastFree(s.used, s.count) < s.count
    ensures var t := Back(s, first, isWrite);
            && Owned(t) && t.pages[first].frame != 0 && t.count == s.count && t.pages.Keys == s.pages.Keys
            && |Unused(t)| == |Unused(s)| - 1
            && |Bare(t, first + 1, last)| == |Bare(s, first, last)| - 1
  {
    assert InRange(first, first, last);
    AllocExact(s, first, isWrite);
    NoneUnused(s);
    var t := Back(s, first, isWrite);
    BareStep(s, first, last);
    assert Bare(t, first + 1, last) == Bare(s, first + 1, last);
    assert first !in Bare(s, first + 1, last);
    assert Unused(t) == Unused(s) - {LeastFree(s.used, s.count)};
  }

  /** The loop keeps ownership exactly when there are frames for all pages that need one, and then
      every page of the range has a frame of its own. */
  lemma {:induction false} BackRangeExact(s: Pool, first: int, last: int, isWrite: bool)
    requires Owned(s) && Tabled(s, first, last)
    ensures var r := BackRange(s, first, last, isWrite);
            && (Owned(r) <==> EnoughFrames(s, first, last))
            && (EnoughFrames(s, first, last) ==>
                  HeldRange(r, first, last) && |Unused(r)| == |Unused(s)| - |Bare(s, first, last)|)
    decreases last - first
  {
    hide LeastFree, Owned, Bare, Unused;
    var r := BackRange(s, first, last, isWrite);
    NoneUnused(s);
    if first >= last {
      NothingBare(s, first, last);
    } else {
      assert InRange(first, first, last);
      forall page | InRange(page, first + 1, last)
        ensures InRange(page, first, last)
      {
      }
      var t := Back(s, first, isWrite);
      BackRangeGrows(t, first + 1, last, isWrite);
      BareStep(s, first, last);
      if s.pages[first].frame != 0 {
        AllocExact(s, first, isWrite);
        assert t == s;
        BackRangeExact(s, first + 1, last, isWrite);
        HeldMore(r, first, last);
      } else if LeastFree(s.used, s.count) < s.count {
        BackOne(s, first, last, isWrite);
        BackRangeExact(t, first + 1, last, isWrite);
        HeldMore(r, first, last);
      } else {
        assert first in Bare(s, first + 1, last) + {first};
        assert s.count in t.used;
        NotOwned(r);
      }
    }
  }

  lemma HeldMore(r: Pool, first: int, last: int)
    requires first < last && first in r.pages && r.pages[first].frame != 0
    ensures HeldRange(r, first + 1, last) ==> HeldRange(r, first, last)
  {
    forall page | InRange(page, first, last) && page != first
      ensures InRange(page, first + 1, last)
    {
    }
  }

  lemma NothingBare(s: Pool, first: int, last: int)
    requires last <= first
    ensures Bare(s, first, last) == {}
  {
  }

  lemma NotOwned(r: Pool)
    requires r.count in r.used
    ensures !Owned(r)
  {
  }

  // ----- taking away

  /** `free_frame(get_page(..))` for one page, as written or with the frame's address in place of
      its number. */
  function Unback(s: Pool, page: int, atAddress: bool): Pool {
    if page !in s.pages then s
    else if atAddress then ReleaseAt(s, page, s.pages[page].frame * FRAME_SIZE)
    else FreeFrame(s, page)
  }

  /** The pages from `first` up to `last`, highest first. */
  function UnbackRange(s: Pool, first: int, last: int, atAddress: bool): Pool
    decreases last - first
  {
    if first < last then UnbackRange(Unback(s, last - 1, atAddress), first, last - 1, atAddress) else s
  }

  /** The frame whose bit a release of this page's frame clears. */
  function ClearedBy(frame: int, atAddress: bool): int {
    if atAddress then frame else frame / FRAME_SIZE
  }

  function Cleared(s: Pool, first: int, last: int, atAddress: bool): set<int> {
    set page | first <= page < last && InRange(page, first, last) && page in s.pages :: ClearedBy(s.pages[page].frame, atAddress)
  }

  /** What the loop clears and what it leaves. */
  lemma {:induction false} UnbackRangeEffect(s: Pool, first: int, last: int, atAddress: bool)
    requires HeldRange(s, first, last)
    ensures var r := UnbackRange(s, first, last, atAddress);
            && r.used == s.used - Cleared(s, first, last, atAddress)
            && r.count == s.count && r.pages.Keys == s.pages.Keys
            && (forall p :: p in s.pages ==>
                  r.pages[p] == if InRange(p, first, last) then s.pages[p].(frame := 0) else s.pages[p])
    decreases last - first
  {
    if first < last {
      var page := last - 1;
      assert InRange(page, first, last);
      var t := Unback(s, page, atAddress);
      var f := s.pages[page].frame;
      assert f * FRAME_SIZE / FRAME_SIZE == f;
      assert t == s.(used := s.used - {ClearedBy(f, atAddress)}, pages := s.pages[page := s.pages[page].(frame := 0)]);
      forall p | InRange(p, first, page)
        ensures InRange(p, first, last) && p != page
      {
      }
      UnbackRangeEffect(t, first, page, atAddress);
      ClearedStep(s, t, first, last, atAddress);
    }
  }

  lemma ClearedStep(s: Pool, t: Pool, first: int, last: int, atAddress: bool)
    requires first < last && last - 1 in s.pages && t.pages.Keys == s.pages.Keys
    requires forall p :: p in s.pages && p != last - 1 ==> t.pages[p] == s.pages[p]
    ensures Cleared(s, first, last, atAddress)
         == Cleared(t, first, last - 1, atAddress) + {ClearedBy(s.pages[last - 1].frame, atAddress)}
  {
    var a, b := Cleared(s, first, last, atAddress), Cleared(t, first, last - 1, atAddress);
    var f := ClearedBy(s.pages[last - 1].frame, atAddress);
    forall x
      ensures x in a <==> x in b + {f}
    {
      if x in a {
        var p :| first <= p < last && InRange(p, first, last) && p in s.pages && ClearedBy(s.pages[p].frame, atAddress) == x;
        assert p != last - 1 ==> InRange(p, first, last - 1) && p in t.pages;
      }
      if x in b {
        var p :| first <= p < last - 1 && InRange(p, first, last - 1) && p in t.pages && ClearedBy(t.pages[p].frame, atAddress) == x;
        assert InRange(p, first, last);
      }
      if x == f {
        assert InRange(last - 1, first, last);
      }
    }
  }

  /** The bit that the literal release clears for this page belongs to no reserved or held frame. */
  predicate Clean(s: Pool, page: int)
    requires page in s.pages
  {
    var f := s.pages[page].frame;
    f >= FRAME_SIZE && forall q :: q in s.pages ==> s.pages[q].frame != f / FRAME_SIZE
  }

  predicate CleanRange(s: Pool, first: int, last: int) {
    forall page :: InRange(page, first, last) && page in s.pages ==> Clean(s, page)
  }

  /** Frame numbers are 20 bits wide. */
  const FRAME_LIMIT := 0x10_0000

  /** The loop as written keeps ownership exactly when the bit it clears for each page belongs to no
      reserved or held frame. */
  lemma UnbackRangeExact(s: Pool, first: int, last: int)
    requires Owned(s) && s.count <= FRAME_LIMIT && HeldRange(s, first, last)
    ensures Owned(UnbackRange(s, first, last, false)) <==> CleanRange(s, first, last)
  {
    hide Clean;
    UnbackRangeEffect(s, first, last, false);
    var r := UnbackRange(s, first, last, false);
    hide UnbackRange;
    if CleanRange(s, first, last) {
      CleanOwned(s, first, last, r);
    } else {
      var page :| InRange(page, first, last) && page in s.pages && !Clean(s, page);
      UncleanBreaks(s, first, last, r, page);
    }
  }

  ghost predicate Released(s: Pool, first: int, last: int, atAddress: bool, r: Pool) {
    && r.used == s.used - Cleared(s, first, last, atAddress)
    && r.count == s.count && r.pages.Keys == s.pages.Keys
    && (forall p :: p in s.pages ==>
          r.pages[p] == if InRange(p, first, last) then s.pages[p].(frame := 0) else s.pages[p])
  }

  lemma CleanOwned(s: Pool, first: int, last: int, r: Pool)
    requires Owned(s) && CleanRange(s, first, last) && Released(s, first, last, false, r)
    ensures Owned(r)
  {
    forall p, f | Holds(r, p, f)
      ensures Holds(s, p, f) && f !in Cleared(s, first, last, false)
    {
    }
    assert 0 !in Cleared(s, first, last, false);
  }

  lemma UncleanBreaks(s: Pool, first: int, last: int, r: Pool, page: int)
    requires Owned(s) && s.count <= FRAME_LIMIT && HeldRange(s, first, last) && Released(s, first, last, false, r)
    requires InRange(page, first, last) && page in s.pages && !Clean(s, page)
    ensures !Owned(r)
  {
    var f := s.pages[page].frame;
    assert Holds(s, page, f);
    assert f / FRAME_SIZE in Cleared(s, first, last, false);
    if f >= FRAME_SIZE {
      var q :| q in s.pages && s.pages[q].frame == f / FRAME_SIZE;
      if InRange(q, first, last) {
        assert ClearedBy(s.pages[q].frame, false) in Cleared(s, first, last, false);
      } else {
        assert Holds(r, q, f / FRAME_SIZE);
      }
    }
  }

  /** With the frame's address in place of its number the loop always keeps ownership, and gives
      back exactly the frames of its pages. */
  lemma UnbackAtAddress(s: Pool, first: int, last: int)
    requires Owned(s) && HeldRange(s, first, last)
    ensures var r := UnbackRange(s, first, last, true);
            && Owned(r)
            && (forall f :: f in r.used <==> f in s.used && forall p :: Holds(s, p, f) ==> !InRange(p, first, last))
  {
    UnbackRangeEffect(s, first, last, true);
    var r := UnbackRange(s, first, last, true);
    hide UnbackRange;
    AtAddressOwned(s, first, last, r);
  }

  lemma AtAddressOwned(s: Pool, first: int, last: int, r: Pool)
    requires Owned(s) && HeldRange(s, first, last) && Released(s, first, last, true, r)
    ensures Owned(r)
    ensures forall f :: f in r.used <==> f in s.used && forall p :: Holds(s, p, f) ==> !InRange(p, first, last)
  {
    var gone := Cleared(s, first, last, true);
    forall f
      ensures f in gone <==> exists p :: Holds(s, p, f) && InRange(p, first, last)
    {
      if p :| Holds(s, p, f) && InRange(p, first, last) {
        assert ClearedBy(s.pages[p].frame, true) in gone;
      }
    }
    forall p, f | Holds(r, p, f)
      ensures Holds(s, p, f) && !InRange(p, first, last)
    {
    }
  }

  /** A low frame released as written frees frame 0, and the next page that needs a frame gets it. */
  lemma LowReleaseFreesZero(s: Pool, first: int, last: int, page: int)
    requires HeldRange(s, first, last) && InRange(page, first, last) && 0 < s.pages[page].frame < FRAME_SIZE
    ensures 0 !in UnbackRange(s, first, last, false).used
  {
    UnbackRangeEffect(s, first, last, false);
    assert ClearedBy(s.pages[page].frame, false) == 0;
    assert 0 in Cleared(s, first, last, false);
  }
}
