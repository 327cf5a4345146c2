/** Arithmetic of power-of-two aligned blocks: the geometry on which the buddy allocator rests.
    Bit operations on page frame numbers are defined by recursion on the bits. */
module BuddyGeometry {
  import opened Powers

  /** The k low bits of p are zero: p & ((1 << k) - 1) == 0. */
  predicate Aligned(p: nat, k: nat) {
    k == 0 || (p % 2 == 0 && Aligned(p / 2, k - 1))
  }

  /** p ^ (1 << k): bit k of p flipped, every other bit kept. */
  function BuddyOf(p: nat, k: nat): (b: nat) {
    if k == 0 then
      if p % 2 == 0 then p + 1 else p - 1
    else
      2 * BuddyOf(p / 2, k - 1) + p % 2
  }

  /** Having k zero low bits is the same as being a multiple of 2^k (both directions). */
  lemma {:induction false} MultipleIsAligned(a: nat, k: nat)
    ensures Aligned(a * Pow2(k), k)
  {
    if k > 0 {
      assert a * Pow2(k) == 2 * (a * Pow2(k - 1));
      MultipleIsAligned(a, k - 1);
    }
  }

  lemma {:induction false} AlignedIsMultiple(p: nat, k: nat) returns (a: nat)
    requires Aligned(p, k)
    ensures p == a * Pow2(k)
  {
    if k == 0 {
      a := p;
    } else {
      a := AlignedIsMultiple(p / 2, k - 1);
      assert a * Pow2(k) == 2 * (a * Pow2(k - 1));
    }
  }

  lemma {:induction false} AlignedWeaken(p: nat, j: nat, k: nat)
    requires j <= k && Aligned(p, k)
    ensures Aligned(p, j)
  {
    if j > 0 { AlignedWeaken(p / 2, j - 1, k - 1); }
  }

  /** Two aligned blocks that meet are nested: the smaller one lies inside the larger one. */
  lemma {:induction false} NestedOrDisjoint(p: nat, j: nat, q: nat, k: nat)
    requires j <= k && Aligned(p, j) && Aligned(q, k)
    requires p < q + Pow2(k) && q < p + Pow2(j)
    ensures q <= p && p + Pow2(j) <= q + Pow2(k)
  {
    if j > 0 { NestedOrDisjoint(p / 2, j - 1, q / 2, k - 1); }
  }

  /** p and b are the two halves of one aligned block of order k + 1. */
  predicate Halfmates(p: nat, b: nat, k: nat) {
    || (Aligned(p, k + 1) && b == p + Pow2(k))
    || (Aligned(b, k + 1) && p == b + Pow2(k))
  }

  /** A block and its buddy are the two halves of one aligned block of the next order. */
  lemma {:induction false} BuddyPair(p: nat, k: nat)
    requires Aligned(p, k)
    ensures Halfmates(p, BuddyOf(p, k), k)
    ensures Aligned(BuddyOf(p, k), k) && BuddyOf(BuddyOf(p, k), k) == p
  {
    if k > 0 {
      BuddyPair(p / 2, k - 1);
      var b := BuddyOf(p, k);
      assert b / 2 == BuddyOf(p / 2, k - 1) && b % 2 == p % 2 == 0;
      assert Aligned(p / 2, k) ==> Aligned(p, k + 1);
      assert Aligned(b / 2, k) ==> Aligned(b, k + 1);
    } else {
      assert Aligned(p / 2, 0) && Aligned(BuddyOf(p, 0) / 2, 0);
    }
  }

  /** Halving an aligned block yields a block and its buddy. */
  lemma {:induction false} Halves(p: nat, k: nat)
    requires Aligned(p, k + 1)
    ensures Aligned(p, k) && Aligned(p + Pow2(k), k)
    ensures BuddyOf(p, k) == p + Pow2(k) && BuddyOf(p + Pow2(k), k) == p
  {
    if k > 0 {
      Halves(p / 2, k - 1);
      assert (p + Pow2(k)) / 2 == p / 2 + Pow2(k - 1);
    }
  }
}
