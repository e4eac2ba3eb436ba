/** The physical-frame allocator: a bitmap in 32-bit sections, and the pages that hold frames. */
module Frames {
  import opened Bits

  const FRAME_SIZE := 4096
  const SECTION_SIZE := 32
  const USED_FRAME_SECTION := 0xFFFF_FFFF

  type word = w: nat | w < 0x1_0000_0000

  // ----- the bitmap

  /** The frames whose bit is set. */
  ghost function Used(words: seq<word>): set<int> {
    set f | 0 <= f < SECTION_SIZE * |words| && Bit(words[f / SECTION_SIZE], f % SECTION_SIZE) :: f
  }

  lemma WordRange()
    ensures Pow2(SECTION_SIZE) == 0x1_0000_0000
  {
    assert Pow2(8) == 0x100;
    assert Pow2(16) == 0x1_0000;
    assert Pow2(24) == 0x100_0000;
  }

  /** `w | (1 << o)` on 32-bit words. */
  function WithBit(w: word, o: nat): (r: word)
    requires o < SECTION_SIZE
  {
    WordRange();
    SetAndClear(w, o, SECTION_SIZE, 0);
    Or(w, Pow2(o))
  }

  /** `w & ~(1 << o)` on 32-bit words. */
  function WithoutBit(w: word, o: nat): (r: word)
    requires o < SECTION_SIZE
  {
    WordRange();
    SetAndClear(w, o, SECTION_SIZE, 0);
    And(w, Not(Pow2(o), SECTION_SIZE))
  }

  /** Setting or clearing one bit of a section leaves the other bits alone. */
  lemma BitAfter(w: word, o: nat, p: nat)
    requires o < SECTION_SIZE && p < SECTION_SIZE
    ensures Bit(WithBit(w, o), p) <==> p == o || Bit(w, p)
    ensures Bit(WithoutBit(w, o), p) <==> p != o && Bit(w, p)
  {
    WordRange();
    SetAndClear(w, o, SECTION_SIZE, p);
  }

  lemma FullSection(o: nat)
    requires o < SECTION_SIZE
    ensures Bit(USED_FRAME_SECTION, o)
  {
    WordRange();
    OnesBits(SECTION_SIZE, o);
  }

  lemma SectionOf(f: int, g: int)
    requires 0 <= f && 0 <= g
    ensures f == g <==> f / SECTION_SIZE == g / SECTION_SIZE && f % SECTION_SIZE == g % SECTION_SIZE
  {
  }

  /** Setting the bit of frame `f` adds exactly `f`. */
  lemma SetAdds(words: seq<word>, f: nat)
    requires f < SECTION_SIZE * |words|
    ensures var s := f / SECTION_SIZE;
            Used(words[s := WithBit(words[s], f % SECTION_SIZE)]) == Used(words) + {f}
  {
    hide Bit, WithBit, WithoutBit;
    var s := f / SECTION_SIZE;
    var r := words[s := WithBit(words[s], f % SECTION_SIZE)];
    forall g: int | 0 <= g < SECTION_SIZE * |words|
      ensures g in Used(r) <==> g in Used(words) || g == f
    {
      SectionOf(f, g);
      assert r[g / SECTION_SIZE] == if g / SECTION_SIZE == s then r[s] else words[g / SECTION_SIZE];
      if g / SECTION_SIZE == s {
        BitAfter(words[s], f % SECTION_SIZE, g % SECTION_SIZE);
      }
    }
  }

  /** Clearing the bit of frame `f` removes exactly `f`. */
  lemma ClearRemoves(words: seq<word>, f: nat)
    requires f < SECTION_SIZE * |words|
    ensures var s := f / SECTION_SIZE;
            Used(words[s := WithoutBit(words[s], f % SECTION_SIZE)]) == Used(words) - {f}
  {
    hide Bit, WithBit, WithoutBit;
    var s := f / SECTION_SIZE;
    var r := words[s := WithoutBit(words[s], f % SECTION_SIZE)];
    forall g: int | 0 <= g < SECTION_SIZE * |words|
      ensures g in Used(r) <==> g in Used(words) && g != f
    {
      SectionOf(f, g);
      assert r[g / SECTION_SIZE] == if g / SECTION_SIZE == s then r[s] else words[g / SECTION_SIZE];
      if g / SECTION_SIZE == s {
        BitAfter(words[s], f % SECTION_SIZE, g % SECTION_SIZE);
      }
    }
  }

  /** The least number from `f` on that is not in the set, or `count`. */
  function LeastFrom(used: set<int>, count: int, f: int): (r: int)
    requires f <= count
    ensures f <= r <= count
    ensures forall g :: f <= g < r ==> g in used
    ensures r < count ==> r !in used
    decreases count - f
  {
    if f == count || f !in used then f else LeastFrom(used, count, f + 1)
  }

  function LeastFree(used: set<int>, count: nat): (r: int)
    ensures 0 <= r <= count
  {
    LeastFrom(used, count, 0)
  }

  lemma LeastUnique(used: set<int>, count: nat, f: int)
    requires 0 <= f <= count && (forall g :: 0 <= g < f ==> g in used) && (f < count ==> f !in used)
    ensures LeastFree(used, count) == f
  {
    var r := LeastFree(used, count);
    assert r < f ==> r in used;
    assert f < r ==> f in used;
  }

  class FrameBitmap {
    const words: array<word>

    ghost function Frames(): set<int>
      reads words
    {
      Used(words[..])
    }

    ghost function Count(): nat {
      SECTION_SIZE * words.Length
    }

    constructor (nframes: nat)
      ensures fresh(words) && words.Length == nframes / SECTION_SIZE
      ensures Frames() == {}
    {
      words := new word[nframes / SECTION_SIZE](_ => 0);
      new;
      hide Bit;
      forall o | 0 <= o < SECTION_SIZE
        ensures !Bit(0, o)
      {
        ZeroBits(o);
      }
    }

    method SetFrame(addr: nat)
      requires addr / FRAME_SIZE < Count()
      modifies words
      ensures Frames() == old(Frames()) + {addr / FRAME_SIZE}
    {
      hide WithBit, WithoutBit, Used;
      var frame := addr / FRAME_SIZE;
      var section := frame / SECTION_SIZE;
      var offset := frame % SECTION_SIZE;
      SetAdds(words[..], frame);
      words[section] := WithBit(words[section], offset);
      assert words[..] == old(words[..])[section := WithBit(old(words[section]), offset)];
    }

    method ClearFrame(addr: nat)
      requires addr / FRAME_SIZE < Count()
      modifies words
      ensures Frames() == old(Frames()) - {addr / FRAME_SIZE}
    {
      hide WithBit, WithoutBit, Used;
      var frame := addr / FRAME_SIZE;
      var section := frame / SECTION_SIZE;
      var offset := frame % SECTION_SIZE;
      ClearRemoves(words[..], frame);
      words[section] := WithoutBit(words[section], offset);
      assert words[..] == old(words[..])[section := WithoutBit(old(words[section]), offset)];
    }

    /** The least free frame, or the number of frames when all are used. */
    method FirstFrame() returns (f: int)
      ensures f == LeastFree(Frames(), Count())
    {
      hide Bit;
      var sections := words.Length;
      for sec := 0 to sections
        invariant forall g :: 0 <= g < SECTION_SIZE * sec ==> g in Frames()
      {
        if words[sec] != USED_FRAME_SECTION {
          for idx := 0 to SECTION_SIZE
            invariant forall g :: 0 <= g < SECTION_SIZE * sec + idx ==> g in Frames()
          {
            f := sec * SECTION_SIZE + idx;
            assert f / SECTION_SIZE == sec && f % SECTION_SIZE == idx;
            WordRange();
            MaskTest(words[sec], idx, SECTION_SIZE);
            if And(words[sec], Pow2(idx)) == 0 {
              LeastUnique(Frames(), Count(), f);
              return;
            }
          }
        } else {
          forall g | SECTION_SIZE * sec <= g < SECTION_SIZE * (sec + 1)
            ensures g in Frames()
          {
            assert g / SECTION_SIZE == sec;
            FullSection(g % SECTION_SIZE);
          }
        }
      }
      f := sections * SECTION_SIZE;
      LeastUnique(Frames(), Count(), f);
    }
  }
}
