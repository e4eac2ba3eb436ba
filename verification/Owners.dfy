/** Who holds which physical frame, over runs of allocation and release. */
module Owners {
  import opened Frames

  /** A page entry; the `user` field is only ever given the value 0. */
  datatype Page = Page(present: bool, writable: bool, user: bool, frame: int)

  const NO_PAGE := Page(false, false, false, 0)

  datatype Pool = Pool(used: set<int>, count: nat, pages: map<int, Page>)

  /** The value with which exhaustion is tested. */
  const NO_FRAME := 0xFFFF_FFFF

  /** The page after `alloc_frame`, given the first frame found free. */
  function Backed(page: Page, isWrite: bool, f: int): Page {
    page.(present := true, writable := isWrite, user := false, frame := f)
  }

  /** `alloc_frame`; no pool comes out of it when it stops the kernel. */
  function AllocFrame(s: Pool, p: int, isWrite: bool): (r: Pool)
    requires p in s.pages
  {
    if s.pages[p].frame != 0 then s
    else
      var f := LeastFree(s.used, s.count);
      s.(used := s.used + {f}, pages := s.pages[p := Backed(s.pages[p], isWrite, f)])
  }

  /** Releasing a page's frame by clearing the bit that belongs to `addr`. */
  function ReleaseAt(s: Pool, p: int, addr: int): Pool
    requires p in s.pages
  {
    if s.pages[p].frame == 0 then s
    else s.(used := s.used - {addr / FRAME_SIZE}, pages := s.pages[p := s.pages[p].(frame := 0)])
  }

  /** `free_frame` passes the frame's number where its address is expected. */
  function FreeFrame(s: Pool, p: int): Pool
    requires p in s.pages
  {
    ReleaseAt(s, p, s.pages[p].frame)
  }

  // ----- ownership

  ghost predicate Holds(s: Pool, p: int, f: int) {
    p in s.pages && s.pages[p].frame == f && f != 0
  }

  /** Frame 0 is taken, held frames are marked, no frame is held twice, only real frames are marked,
      and the processor sees every page that holds a frame. */
  ghost predicate Owned(s: Pool) {
    && 0 in s.used
    && (forall f :: f in s.used ==> 0 <= f < s.count)
    && (forall p, f :: Holds(s, p, f) ==> f in s.used && s.pages[p].present)
    && (forall p, q, f :: Holds(s, p, f) && Holds(s, q, f) ==> p == q)
  }

  /** Exhaustion is reported as the number of frames but tested as 2^32 - 1: the test never fires. */
  lemma ExhaustionUnreported(s: Pool)
    requires s.count < NO_FRAME
    ensures LeastFree(s.used, s.count) != NO_FRAME
    ensures LeastFree(s.used, s.count) == s.count <==> forall f :: 0 <= f < s.count ==> f in s.used
  {
    if forall f :: 0 <= f < s.count ==> f in s.used {
      LeastUnique(s.used, s.count, s.count);
    }
  }

  /** Allocation keeps ownership exactly when the page is backed already or a frame is free. */
  lemma AllocExact(s: Pool, p: int, isWrite: bool)
    requires Owned(s) && p in s.pages
    ensures Owned(AllocFrame(s, p, isWrite)) <==> s.pages[p].frame != 0 || LeastFree(s.used, s.count) < s.count
    ensures s.pages[p].frame != 0 ==> AllocFrame(s, p, isWrite) == s
    ensures s.pages[p].frame == 0 && LeastFree(s.used, s.count) == s.count ==>
              AllocFrame(s, p, isWrite).pages[p].frame == s.count
    ensures s.pages[p].frame == 0 ==>
              var page := AllocFrame(s, p, isWrite).pages[p];
              page.present && page.writable == isWrite && !page.user
    ensures s.pages[p].frame == 0 && LeastFree(s.used, s.count) < s.count ==>
              var r := AllocFrame(s, p, isWrite);
              && Holds(r, p, LeastFree(s.used, s.count)) && r.pages[p].frame !in s.used
              && r.used == s.used + {r.pages[p].frame} && r.count == s.count
              && (forall q :: q in s.pages && q != p ==> r.pages[q] == s.pages[q])
  {
    var r := AllocFrame(s, p, isWrite);
    var f := LeastFree(s.used, s.count);
    if s.pages[p].frame == 0 {
      if f < s.count {
        forall q, g | Holds(r, q, g)
          ensures g in r.used && (q != p ==> Holds(s, q, g))
        {
          if q != p {
            assert Holds(s, q, g);
          }
        }
      } else {
        assert f in r.used;
      }
    }
  }

  /** The literal release keeps ownership exactly when the bit it clears belongs to no reserved or
      held frame. */
  lemma FreeExact(s: Pool, p: int)
    requires Owned(s) && p in s.pages
    ensures var f := s.pages[p].frame;
            Owned(FreeFrame(s, p)) <==>
              f == 0 || (f >= FRAME_SIZE && forall q :: !Holds(s, q, f / FRAME_SIZE))
  {
    var f := s.pages[p].frame;
    var r := FreeFrame(s, p);
    if f != 0 {
      assert Holds(s, p, f);
      forall q, g
        ensures Holds(r, q, g) <==> q != p && Holds(s, q, g)
      {
      }
      if q :| Holds(s, q, f / FRAME_SIZE) {
        assert q != p;
        assert Holds(r, q, f / FRAME_SIZE);
      }
    }
  }

  /** A release gives the frame back exactly when it clears the bit of the frame's own address;
      passing the number never does. */
  lemma ReleaseExact(s: Pool, p: int, addr: nat)
    requires Owned(s) && p in s.pages && s.pages[p].frame != 0
    ensures ReleaseAt(s, p, addr).used == s.used - {s.pages[p].frame} <==> addr / FRAME_SIZE == s.pages[p].frame
    ensures FreeFrame(s, p).used != s.used - {s.pages[p].frame}
    ensures ReleaseAt(s, p, s.pages[p].frame * FRAME_SIZE).used == s.used - {s.pages[p].frame}
  {
    var f := s.pages[p].frame;
    assert Holds(s, p, f);
    assert f in s.used;
    assert f * FRAME_SIZE / FRAME_SIZE == f;
  }

  /** A release at the frame's address keeps ownership, and takes that one frame from that one page. */
  lemma AddressReleaseKeeps(s: Pool, p: int)
    requires Owned(s) && p in s.pages
    ensures var t := ReleaseAt(s, p, s.pages[p].frame * FRAME_SIZE);
            && Owned(t)
            && (s.pages[p].frame != 0 ==> t.used == s.used - {s.pages[p].frame})
            && (forall q, g :: Holds(t, q, g) <==> q != p && Holds(s, q, g))
  {
    var f := s.pages[p].frame;
    var t := ReleaseAt(s, p, f * FRAME_SIZE);
    assert f * FRAME_SIZE / FRAME_SIZE == f;
    forall q, g
      ensures Holds(t, q, g) <==> q != p && Holds(s, q, g)
    {
    }
    if f != 0 {
      assert Holds(s, p, f);
    }
  }

  /** Released at its address, a frame just allocated leaves the set of used frames as it was. */
  lemma AllocThenRelease(s: Pool, p: int, isWrite: bool)
    requires Owned(s) && p in s.pages && s.pages[p].frame == 0 && LeastFree(s.used, s.count) < s.count
    ensures var r := AllocFrame(s, p, isWrite);
            var t := ReleaseAt(r, p, r.pages[p].frame * FRAME_SIZE);
            t.used == s.used && Owned(t)
  {
    AllocExact(s, p, isWrite);
    var r := AllocFrame(s, p, isWrite);
    AddressReleaseKeeps(r, p);
  }

  /** Releasing a low frame hands frame 0 to the next page, which then counts as not backed. */
  lemma LowReleaseLosesPage(s: Pool, p: int, q: int, isWrite: bool)
    requires Owned(s) && p in s.pages && 0 < s.pages[p].frame < FRAME_SIZE && q in s.pages && s.pages[q].frame == 0
    ensures var r := AllocFrame(FreeFrame(s, p), q, isWrite);
            r.pages[q].frame == 0 && r.pages[q].present && r.used == s.used
  {
    LeastUnique(FreeFrame(s, p).used, s.count, 0);
  }

  // ----- runs

  /** Pages take frames and drop them, by the literal release or by one that passes the frame's
      address as `clear_frame` expects it. */
  datatype Op = Take(p: int, isWrite: bool) | Drop(p: int) | DropAtAddress(p: int)

  function Step(s: Pool, op: Op): Pool {
    if op.p !in s.pages then s
    else
      match op
      case Take(p, w) => AllocFrame(s, p, w)
      case Drop(p) => FreeFrame(s, p)
      case DropAtAddress(p) => ReleaseAt(s, p, s.pages[p].frame * FRAME_SIZE)
  }

  ghost predicate Guard(s: Pool, op: Op) {
    op.p in s.pages ==>
      match op
      case Take(p, w) => s.pages[p].frame != 0 || LeastFree(s.used, s.count) < s.count
      case Drop(p) =>
        var f := s.pages[p].frame;
        f == 0 || (f >= FRAME_SIZE && forall q :: !Holds(s, q, f / FRAME_SIZE))
      case DropAtAddress(p) => true
  }

  ghost predicate StaysOwned(s: Pool, ops: seq<Op>)
    decreases |ops|
  {
    Owned(s) && (ops != [] ==> StaysOwned(Step(s, ops[0]), ops[1..]))
  }

  ghost predicate AllGuarded(s: Pool, ops: seq<Op>)
    decreases |ops|
  {
    ops != [] ==> Guard(s, ops[0]) && AllGuarded(Step(s, ops[0]), ops[1..])
  }

  /** Ownership holds all along a run exactly when every step of it meets its guard. */
  lemma {:induction false} RunExact(s: Pool, ops: seq<Op>)
    requires Owned(s)
    ensures StaysOwned(s, ops) <==> AllGuarded(s, ops)
    decreases |ops|
  {
    if ops != [] {
      StepExact(s, ops[0]);
      hide Owned, Guard;
      var s' := Step(s, ops[0]);
      if Owned(s') {
        RunExact(s', ops[1..]);
      }
    }
  }

  lemma StepExact(s: Pool, op: Op)
    requires Owned(s)
    ensures Owned(Step(s, op)) <==> Guard(s, op)
  {
    if op.p in s.pages {
      match op
      case Take(p, w) => AllocExact(s, p, w);
      case Drop(p) => FreeExact(s, p);
      case DropAtAddress(p) => AddressReleaseKeeps(s, p);
    }
  }
}
