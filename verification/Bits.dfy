/** Bit arithmetic on 128-bit words: `1 << i` is a power of two, and `|`, `& !` with it add or take away that power. */
module Bits {

  function Pow2(n: nat): (r: nat)
    ensures r > 0
  {
    if n == 0 then 1 else 2 * Pow2(n - 1)
  }

  type u128 = x: int | 0 <= x < Pow2(128) witness 0

  /** `w >> i`, one place at a time. */
  function Shr(w: nat, i: nat): nat
    decreases i
  {
    if i == 0 then w else Shr(w, i - 1) / 2
  }

  /** `w & (1 << i) != 0`. */
  predicate Bit(w: nat, i: nat) {
    Shr(w, i) % 2 == 1
  }

  /** `w | (1 << i)`. */
  function WithBit(w: nat, i: nat): nat {
    if Bit(w, i) then w else w + Pow2(i)
  }

  /** `w & !(1 << i)`. */
  function WithoutBit(w: nat, i: nat): int {
    if Bit(w, i) then w - Pow2(i) else w
  }

  lemma {:induction false} ShrHalf(w: nat, i: nat)
    ensures Shr(w / 2, i) == Shr(w, i + 1)
    decreases i
  {
    if i > 0 {
      ShrHalf(w, i - 1);
    }
  }

  lemma BitHalf(w: nat, i: nat)
    requires i > 0
    ensures Bit(w, i) == Bit(w / 2, i - 1)
  {
    ShrHalf(w, i - 1);
  }

  lemma LowBit(w: nat)
    ensures Bit(w, 0) <==> w % 2 == 1
  {
  }

  lemma {:induction false} AddBit(w: nat, n: nat, i: nat)
    requires !Bit(w, n)
    ensures Bit(w + Pow2(n), i) <==> i == n || Bit(w, i)
    decreases n
  {
    hide Bit;
    LowBit(w);
    LowBit(w + Pow2(n));
    if i > 0 {
      BitHalf(w, i);
      BitHalf(w + Pow2(n), i);
    }
    if n > 0 {
      BitHalf(w, n);
      var half := Pow2(n - 1);
      assert (w + 2 * half) / 2 == w / 2 + half && (w + 2 * half) % 2 == w % 2;
      if i > 0 {
        AddBit(w / 2, n - 1, i - 1);
      }
    }
  }

  /** Taking the power away again is possible, and leaves the bit clear. */
  lemma {:induction false} BitAtLeast(w: nat, n: nat)
    requires Bit(w, n)
    ensures w >= Pow2(n) && !Bit(w - Pow2(n), n)
    decreases n
  {
    hide Bit;
    LowBit(w);
    if n == 0 {
      LowBit(w - 1);
    } else {
      BitHalf(w, n);
      BitAtLeast(w / 2, n - 1);
      var half := Pow2(n - 1);
      assert (w - 2 * half) / 2 == w / 2 - half;
      BitHalf(w - Pow2(n), n);
    }
  }

  lemma {:induction false} AddBitBound(w: nat, n: nat, k: nat)
    requires n < k && w < Pow2(k) && !Bit(w, n)
    ensures w + Pow2(n) < Pow2(k)
    decreases n
  {
    hide Bit;
    if n == 0 {
      LowBit(w);
      assert Pow2(k) == 2 * Pow2(k - 1);
    } else {
      BitHalf(w, n);
      AddBitBound(w / 2, n - 1, k - 1);
    }
  }

  lemma WithBitSpec(w: u128, n: nat, i: nat)
    requires n < 128
    ensures WithBit(w, n) < Pow2(128)
    ensures Bit(WithBit(w, n), i) <==> i == n || Bit(w, i)
  {
    hide Bit, Pow2;
    if !Bit(w, n) {
      AddBit(w, n, i);
      AddBitBound(w, n, 128);
    }
  }

  lemma WithoutBitSpec(w: u128, n: nat, i: nat)
    requires n < 128
    ensures 0 <= WithoutBit(w, n) < Pow2(128)
    ensures Bit(WithoutBit(w, n), i) <==> i != n && Bit(w, i)
  {
    hide Bit, Pow2;
    if Bit(w, n) {
      BitAtLeast(w, n);
      AddBit(w - Pow2(n), n, i);
    }
  }

  /** A word below `2^k` without any of its `k` bits is zero. */
  lemma {:induction false} NoBits(w: nat, k: nat)
    requires w < Pow2(k) && forall i :: 0 <= i < k ==> !Bit(w, i)
    ensures w == 0
    decreases k
  {
    hide Bit;
    if k > 0 {
      forall i | 0 <= i < k - 1
        ensures !Bit(w / 2, i)
      {
        BitHalf(w, i + 1);
      }
      NoBits(w / 2, k - 1);
      LowBit(w);
    }
  }

  lemma {:induction false} ZeroBit(i: nat)
    ensures !Bit(0, i)
  {
    if i > 0 {
      BitHalf(0, i);
      ZeroBit(i - 1);
    }
  }
}
