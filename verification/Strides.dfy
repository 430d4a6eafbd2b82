/**
 Bits of indices, and the positions that lie a power of two apart: which blocks the loops of the
 layers and of the transpose visit.
 */
module Strides {
  import opened Benes
  import opened FromPermutation

  /** Bit d of x. */
  predicate BitAt(x: int, d: nat)
    decreases d
  {
    if d == 0 then x % 2 == 1 else BitAt(x / 2, d - 1)
  }

  /** Moving to the partner changes bit d, and the position by 2^d. */
  lemma {:induction false} PartnerBit(x: int, d: nat)
    ensures PartnerOf(x, d) == if BitAt(x, d) then x - Pow2(d) else x + Pow2(d)
    ensures BitAt(PartnerOf(x, d), d) != BitAt(x, d)
    ensures PartnerOf(PartnerOf(x, d), d) == x && PairOf(PartnerOf(x, d), d) == PairOf(x, d)
    decreases d
  {
    if d > 0 {
      PartnerBit(x / 2, d - 1);
    }
  }

  /** Adding or subtracting 2^d changes bit d, with or without a carry. */
  lemma {:induction false} CarryBit(x: int, d: nat)
    ensures BitAt(x + Pow2(d), d) != BitAt(x, d) && BitAt(x - Pow2(d), d) != BitAt(x, d)
    decreases d
  {
    if d > 0 {
      CarryBit(x / 2, d - 1);
    }
  }

  /** The lower halves of the blocks of 2^(d+1) positions have bit d clear. */
  lemma {:induction false} BlockBit(d: nat, m: nat, j: nat)
    requires j < Pow2(d)
    ensures !BitAt(2 * Scale(m, d) + j, d)
    decreases d
  {
    if d > 0 {
      BlockBit(d - 1, m, j / 2);
    }
  }

  /** The blocks of 2^(d+1) positions fill 0..2^w. */
  lemma Blocks(w: nat, d: nat, m: nat)
    requires d < w
    ensures 2 * Scale(Pow2(w - 1 - d), d) == Pow2(w)
    ensures Pow2(d) > 0 && Scale(0, d) == 0 && Scale(m + 1, d) == Scale(m, d) + Pow2(d)
    ensures m < Pow2(w - 1 - d) ==> 2 * Scale(m, d) + 2 * Pow2(d) <= Pow2(w)
    ensures m >= Pow2(w - 1 - d) ==> 2 * Scale(m, d) >= Pow2(w)
  {
    ScaleAll(w, d);
    ScaleNext(m, d); ScaleNext(0, d);
    ScaleMono(m + 1, Pow2(w - 1 - d), d); ScaleMono(m, Pow2(w - 1 - d), d);
    ScaleMono(Pow2(w - 1 - d), m + 1, d); ScaleMono(Pow2(w - 1 - d), m, d);
  }
}
