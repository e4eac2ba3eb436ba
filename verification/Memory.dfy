/** Byte-addressed memory with little-endian words, as the kernel's C code sees it. */
module Memory {

  type byte = b: int | 0 <= b < 256

  type Mem = map<int, byte>

  /** The byte at address `a`; an address never written reads as 0. */
  function Byte(m: Mem, a: int): byte {
    if a in m then m[a] else 0
  }

  /** The little-endian number held in the bytes [lo, hi). */
  function Load(m: Mem, lo: int, hi: int): nat
    decreases hi - lo
  {
    if hi <= lo then 0 else Byte(m, lo) + 256 * Load(m, lo + 1, hi)
  }

  /** Overwrites the bytes [lo, hi) with `v`, least significant byte first; a value
      too wide for the range is truncated, as C truncates it. */
  function Store(m: Mem, lo: int, hi: int, v: int): (r: Mem)
    ensures forall a {:trigger Byte(r, a)} :: !(lo <= a < hi) ==> Byte(r, a) == Byte(m, a)
    decreases hi - lo
  {
    if hi <= lo then m else Store(m[lo := v % 256], lo + 1, hi, v / 256)
  }

  function Pow256(n: nat): nat {
    if n == 0 then 1 else 256 * Pow256(n - 1)
  }

  lemma {:induction false} LoadSame(m: Mem, r: Mem, lo: int, hi: int)
    requires forall a :: lo <= a < hi ==> Byte(r, a) == Byte(m, a)
    ensures Load(r, lo, hi) == Load(m, lo, hi)
    decreases hi - lo
  {
    if lo < hi {
      LoadSame(m, r, lo + 1, hi);
    }
  }

  lemma {:induction false} LoadStore(m: Mem, lo: int, hi: int, v: int)
    requires lo <= hi
    requires 0 <= v < Pow256(hi - lo)
    ensures Load(Store(m, lo, hi, v), lo, hi) == v
    decreases hi - lo
  {
    if lo < hi {
      var m1 := m[lo := v % 256];
      var r := Store(m1, lo + 1, hi, v / 256);
      assert Byte(r, lo) == Byte(m1, lo);
      LoadStore(m1, lo + 1, hi, v / 256);
    }
  }

  /** The 32-bit word at address `a`. */
  function Word(m: Mem, a: int): nat {
    Load(m, a, a + 4)
  }

  /** Stores `v`, truncated to 32 bits, at address `a`. */
  function PutWord(m: Mem, a: int, v: int): (r: Mem)
    ensures Word(r, a) == v % 0x1_0000_0000
    ensures forall b {:trigger Byte(r, b)} :: !(a <= b < a + 4) ==> Byte(r, b) == Byte(m, b)
    ensures forall b {:trigger Word(r, b)} :: b + 4 <= a || a + 4 <= b ==> Word(r, b) == Word(m, b)
  {
    WordStored(m, a, v % 0x1_0000_0000);
    Store(m, a, a + 4, v % 0x1_0000_0000)
  }

  /** Stores one byte at address `a`. */
  function PutByte(m: Mem, a: int, v: byte): (r: Mem)
    ensures Byte(r, a) == v
    ensures forall b {:trigger Byte(r, b)} :: b != a ==> Byte(r, b) == Byte(m, b)
    ensures forall b {:trigger Word(r, b)} :: b + 4 <= a || a + 1 <= b ==> Word(r, b) == Word(m, b)
  {
    assert forall b {:trigger Word(m[a := v], b)} :: b + 4 <= a || a + 1 <= b ==> Word(m[a := v], b) == Word(m, b) by {
      WordsSame(m, m[a := v], a, a + 1);
    }
    m[a := v]
  }

  /** Words that do not overlap a changed range keep their value. */
  lemma WordsSame(m: Mem, r: Mem, lo: int, hi: int)
    requires forall a {:trigger Byte(r, a)} :: !(lo <= a < hi) ==> Byte(r, a) == Byte(m, a)
    ensures forall b {:trigger Word(r, b)} :: b + 4 <= lo || hi <= b ==> Word(r, b) == Word(m, b)
  {
    forall b | b + 4 <= lo || hi <= b
      ensures Word(r, b) == Word(m, b)
    {
      LoadSame(m, r, b, b + 4);
    }
  }

  lemma WordSame(m: Mem, r: Mem, a: int)
    requires forall b :: a <= b < a + 4 ==> Byte(r, b) == Byte(m, b)
    ensures Word(r, a) == Word(m, a)
  {
    LoadSame(m, r, a, a + 4);
  }

  lemma WordStored(m: Mem, a: int, v: int)
    requires 0 <= v < 0x1_0000_0000
    ensures Word(Store(m, a, a + 4, v), a) == v
    ensures forall b {:trigger Word(Store(m, a, a + 4, v), b)} ::
      b + 4 <= a || a + 4 <= b ==> Word(Store(m, a, a + 4, v), b) == Word(m, b)
  {
    Pow256Four();
    LoadStore(m, a, a + 4, v);
    WordsSame(m, Store(m, a, a + 4, v), a, a + 4);
  }

  lemma Pow256Four()
    ensures Pow256(4) == 0x1_0000_0000
  {
    assert Pow256(1) == 256 && Pow256(2) == 65536 && Pow256(3) == 16777216;
  }
}
