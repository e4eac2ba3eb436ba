/** Bitwise operations on unsigned words, bit by bit. */
module Bits {

  function Pow2(n: nat): (p: nat)
    ensures p > 0
  {
    if n == 0 then 1 else 2 * Pow2(n - 1)
  }

  /** Bit `i` of `w`. */
  predicate Bit(w: nat, i: nat) {
    if i == 0 then w % 2 == 1 else Bit(w / 2, i - 1)
  }

  function Or(a: nat, b: nat): nat {
    if a == 0 && b == 0 then 0
    else 2 * Or(a / 2, b / 2) + (if a % 2 == 1 || b % 2 == 1 then 1 else 0)
  }

  function And(a: nat, b: nat): nat {
    if a == 0 && b == 0 then 0
    else 2 * And(a / 2, b / 2) + (if a % 2 == 1 && b % 2 == 1 then 1 else 0)
  }

  /** The complement of a word of `n` bits. */
  function Not(w: nat, n: nat): nat
    requires w < Pow2(n)
  {
    Pow2(n) - 1 - w
  }

  lemma {:induction false} ZeroBits(i: nat)
    ensures !Bit(0, i)
  {
    if i > 0 {
      ZeroBits(i - 1);
    }
  }

  lemma {:induction false} OrBits(a: nat, b: nat, i: nat)
    ensures Bit(Or(a, b), i) <==> Bit(a, i) || Bit(b, i)
    decreases i
  {
    if a == 0 && b == 0 {
      ZeroBits(i);
    } else if i > 0 {
      assert Or(a, b) / 2 == Or(a / 2, b / 2);
      OrBits(a / 2, b / 2, i - 1);
    }
  }

  lemma {:induction false} AndBits(a: nat, b: nat, i: nat)
    ensures Bit(And(a, b), i) <==> Bit(a, i) && Bit(b, i)
    decreases i
  {
    if a == 0 && b == 0 {
      ZeroBits(i);
    } else if i > 0 {
      assert And(a, b) / 2 == And(a / 2, b / 2);
      AndBits(a / 2, b / 2, i - 1);
    }
  }

  lemma {:induction false} NotBits(w: nat, n: nat, i: nat)
    requires w < Pow2(n) && i < n
    ensures Bit(Not(w, n), i) <==> !Bit(w, i)
    decreases n
  {
    if i > 0 {
      assert Not(w, n) / 2 == Not(w / 2, n - 1);
      NotBits(w / 2, n - 1, i - 1);
    }
  }

  /** `1 << o` has bit `o` and no other. */
  lemma {:induction false} ShiftBits(o: nat, i: nat)
    ensures Bit(Pow2(o), i) <==> i == o
    decreases i
  {
    if o == 0 {
      if i > 0 {
        ZeroBits(i - 1);
      }
    } else if i > 0 {
      ShiftBits(o - 1, i - 1);
    }
  }

  lemma {:induction false} ShiftBound(o: nat, n: nat)
    requires o < n
    ensures Pow2(o) < Pow2(n)
    decreases n
  {
    if o + 1 < n {
      ShiftBound(o, n - 1);
    }
  }

  /** A word is zero when all its bits are. */
  lemma {:induction false} AllZero(w: nat, n: nat)
    requires w < Pow2(n) && forall i :: 0 <= i < n ==> !Bit(w, i)
    ensures w == 0
    decreases n
  {
    if n > 0 {
      forall i | 0 <= i < n - 1
        ensures !Bit(w / 2, i)
      {
        assert !Bit(w, i + 1);
      }
      AllZero(w / 2, n - 1);
      assert !Bit(w, 0);
    }
  }

  lemma {:induction false} OrBound(a: nat, b: nat, n: nat)
    requires a < Pow2(n) && b < Pow2(n)
    ensures Or(a, b) < Pow2(n)
    decreases n
  {
    if n > 0 {
      OrBound(a / 2, b / 2, n - 1);
    }
  }

  lemma {:induction false} AndBound(a: nat, b: nat, n: nat)
    requires a < Pow2(n) && b < Pow2(n)
    ensures And(a, b) < Pow2(n)
    decreases n
  {
    if n > 0 {
      AndBound(a / 2, b / 2, n - 1);
    }
  }

  /** The C test `!(w & (1 << o))`. */
  lemma MaskTest(w: nat, o: nat, n: nat)
    requires w < Pow2(n) && o < n
    ensures And(w, Pow2(o)) == 0 <==> !Bit(w, o)
  {
    AndBits(w, Pow2(o), o);
    ShiftBits(o, o);
    ZeroBits(o);
    if !Bit(w, o) {
      forall i | 0 <= i < n
        ensures !Bit(And(w, Pow2(o)), i)
      {
        AndBits(w, Pow2(o), i);
        ShiftBits(o, i);
      }
      ShiftBound(o, n);
      AndBound(w, Pow2(o), n);
      AllZero(And(w, Pow2(o)), n);
    }
  }

  /** The C statements `w |= 1 << o` and `w &= ~(1 << o)` change bit `o` only. */
  lemma SetAndClear(w: nat, o: nat, n: nat, i: nat)
    requires w < Pow2(n) && o < n && i < n
    ensures Pow2(o) < Pow2(n)
    ensures Bit(Or(w, Pow2(o)), i) <==> i == o || Bit(w, i)
    ensures Bit(And(w, Not(Pow2(o), n)), i) <==> i != o && Bit(w, i)
    ensures Or(w, Pow2(o)) < Pow2(n) && And(w, Not(Pow2(o), n)) < Pow2(n)
  {
    ShiftBound(o, n);
    ShiftBits(o, i);
    OrBits(w, Pow2(o), i);
    NotBits(Pow2(o), n, i);
    AndBits(w, Not(Pow2(o), n), i);
    OrBound(w, Pow2(o), n);
    AndBound(w, Not(Pow2(o), n), n);
  }

  /** A word of all ones. */
  lemma {:induction false} OnesBits(n: nat, i: nat)
    requires i < n
    ensures Bit(Pow2(n) - 1, i)
    decreases n
  {
    if i > 0 {
      assert (Pow2(n) - 1) / 2 == Pow2(n - 1) - 1;
      OnesBits(n - 1, i - 1);
    }
  }

  lemma {:induction false} OrZero(a: nat)
    ensures Or(a, 0) == a
  {
    if a > 0 {
      OrZero(a / 2);
    }
  }

  lemma OrDouble(a: nat, b: nat)
    ensures Or(2 * a, 2 * b + 1) == 2 * Or(a, b) + 1
  {
    assert (2 * b + 1) / 2 == b;
  }

  /** Three flags put into the low bits of a multiple of 8 are added to it. */
  lemma OrSeven(k: nat)
    ensures Or(8 * k, 7) == 8 * k + 7
  {
    OrDouble(4 * k, 3);
    OrDouble(2 * k, 1);
    OrDouble(k, 0);
    OrZero(k);
    hide Or;
  }
}
