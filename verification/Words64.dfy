/**
 Facts about bare 64-bit words: shifts, masks, and the products with single bits that
 the carry-less multiplication is made of.
 */
module Words64 {

  function Xor64(x: bv64, y: bv64): bv64 { x ^ y }

  function LowOne(x: bv64): bv64 { x & 1 }

  function DownOne(x: bv64): bv64 { x >> 1 }

  function UpOne(x: bv64): bv64 { x << 1 }

  function And64(x: bv64, y: bv64): bv64 { x & y }

  /** The product modulo 2^64. */
  function Mul64(x: bv64, y: bv64): bv64 { x * y }

  /** x << k. */
  function Shl(x: bv64, k: nat): bv64
  {
    if k == 0 then x else UpOne(Shl(x, k - 1))
  }

  /** x >> k. */
  function Shr(x: bv64, k: nat): bv64
  {
    if k == 0 then x else DownOne(Shr(x, k - 1))
  }

  lemma ShiftXor(x: bv64, y: bv64)
    ensures DownOne(Xor64(x, y)) == Xor64(DownOne(x), DownOne(y))
  {
  }

  lemma LowXor(x: bv64, y: bv64)
    ensures LowOne(Xor64(x, y)) == Xor64(LowOne(x), LowOne(y))
  {
  }

  lemma LowRange(x: bv64)
    ensures LowOne(x) == 0 || LowOne(x) == 1
  {
  }

  lemma XorLow()
    ensures Xor64(0, 0) == 0 && Xor64(0, 1) == 1 && Xor64(1, 0) == 1 && Xor64(1, 1) == 0
  {
  }

  lemma XorZero(y: bv64)
    ensures Xor64(0, y) == y
  {
  }

  lemma Smaller(x: bv64)
    ensures x == 0 || DownOne(x) < x
  {
  }

  function Wide(a: bv16): bv64 { a as bv64 }

  lemma Widen(a: bv16)
    ensures LowOne(Wide(a)) == Wide(a & 1) && DownOne(Wide(a)) == Wide(a >> 1)
    ensures Wide(a & 1) == 1 <==> a & 1 == 1
    ensures a & 1 == 0 || a & 1 == 1
    ensures Wide(0) == 0
  {
  }

  lemma OneMore(x: bv64)
    ensures DownOne(x) == x >> 1 && DownOne(x >> 1) == x >> 2 && DownOne(x >> 2) == x >> 3 && DownOne(x >> 3) == x >> 4
    ensures DownOne(x >> 4) == x >> 5 && DownOne(x >> 5) == x >> 6 && DownOne(x >> 6) == x >> 7
    ensures DownOne(x >> 7) == x >> 8
    ensures DownOne(x >> 8) == x >> 9 && DownOne(x >> 9) == x >> 10 && DownOne(x >> 10) == x >> 11
    ensures DownOne(x >> 11) == x >> 12
    ensures DownOne(x >> 12) == x >> 13
  {
  }

  lemma Shifts(x: bv64)
    ensures Shr(x, 1) == x >> 1 && Shr(x, 2) == x >> 2 && Shr(x, 3) == x >> 3 && Shr(x, 4) == x >> 4
    ensures Shr(x, 5) == x >> 5 && Shr(x, 6) == x >> 6 && Shr(x, 7) == x >> 7 && Shr(x, 8) == x >> 8
    ensures Shr(x, 9) == x >> 9 && Shr(x, 10) == x >> 10 && Shr(x, 11) == x >> 11 && Shr(x, 12) == x >> 12
    ensures Shr(x, 13) == x >> 13
  {
    hide DownOne;
    OneMore(x);
  }

  lemma LowBits(x: bv64)
    requires And64(x, 0x0FFF) == 0
    ensures LowOne(x) == 0 && LowOne(x >> 1) == 0 && LowOne(x >> 2) == 0 && LowOne(x >> 3) == 0
    ensures LowOne(x >> 4) == 0 && LowOne(x >> 5) == 0 && LowOne(x >> 6) == 0 && LowOne(x >> 7) == 0
    ensures LowOne(x >> 8) == 0 && LowOne(x >> 9) == 0 && LowOne(x >> 10) == 0 && LowOne(x >> 11) == 0
  {
  }

  lemma LowBit13(x: bv64)
    requires And64(x, 0x1FFF) == 0
    ensures And64(x, 0x0FFF) == 0 && LowOne(x >> 12) == 0
  {
  }

  lemma ShrLow(x: bv64, j: nat, k: nat)
    requires k == 12 || k == 13
    requires j < k && And64(x, if k == 12 then 0x0FFF else 0x1FFF) == 0
    ensures LowOne(Shr(x, j)) == 0
  {
    hide LowOne, DownOne;
    Shifts(x);
    if k == 13 { LowBit13(x); }
    LowBits(x);
  }

  lemma XorIs(x: bv64, y: bv64)
    ensures Xor64(x, y) == x ^ y
  {
  }

  lemma AndIs(x: bv64, y: bv64)
    ensures And64(x, y) == x & y
  {
  }

  lemma MaskRawXor(x: bv64, y: bv64, m: bv64)
    ensures And64(x ^ y, m) == Xor64(And64(x, m), And64(y, m))
    ensures And64(m, x ^ y) == Xor64(And64(m, x), And64(m, y))
  {
  }

  /** Masking distributes over exclusive or. */
  lemma MaskXor(x: bv64, y: bv64, m: bv64)
    ensures And64(Xor64(x, y), m) == Xor64(And64(x, m), And64(y, m))
    ensures And64(m, Xor64(x, y)) == Xor64(And64(m, x), And64(m, y))
  {
    hide And64, Xor64;
    MaskRawXor(x, y, m);
    XorIs(x, y);
  }

  lemma XorComm(x: bv64, y: bv64)
    ensures Xor64(x, y) == Xor64(y, x)
  {
  }

  function Narrow(x: bv64): bv16
    requires x & 0xFFFFFFFFFFFF0000 == 0
  {
    x as bv16
  }

  lemma Narrow12(x: bv64)
    ensures And64(x, 0x0FFF) & 0xFFFFFFFFFFFF0000 == 0
    ensures Narrow(And64(x, 0x0FFF)) & 0xF000 == 0 && Wide(Narrow(And64(x, 0x0FFF))) == And64(x, 0x0FFF)
  {
  }

  lemma Narrow13(x: bv64)
    ensures And64(x, 0x1FFF) & 0xFFFFFFFFFFFF0000 == 0
    ensures Narrow(And64(x, 0x1FFF)) & 0xE000 == 0 && Wide(Narrow(And64(x, 0x1FFF))) == And64(x, 0x1FFF)
  {
  }

  // ----- products with a single bit

  lemma IsDouble(x: bv64)
    ensures UpOne(x) == x + x
  {
  }

  lemma TimesDouble(x: bv64, q: bv64)
    ensures Mul64(x, q + q) == Mul64(x, q) + Mul64(x, q)
  {
  }

  lemma MulUp(x: bv64, q: bv64)
    ensures Mul64(x, UpOne(q)) == UpOne(Mul64(x, q))
  {
    hide Mul64, UpOne;
    IsDouble(q);
    TimesDouble(x, q);
    IsDouble(Mul64(x, q));
  }

  lemma MaskUp(y: bv64, p: bv64)
    ensures And64(y, UpOne(p)) == UpOne(And64(DownOne(y), p))
  {
  }

  lemma MaskOne(y: bv64)
    ensures And64(y, 1) == LowOne(y)
  {
  }

  lemma Select(x: bv64)
    ensures Mul64(x, 0) == 0 && Mul64(x, 1) == x
  {
  }

  lemma {:induction false} ShrFront(y: bv64, i: nat)
    requires i > 0
    ensures Shr(y, i) == Shr(DownOne(y), i - 1)
  {
    hide DownOne;
    if i > 1 {
      ShrFront(y, i - 1);
    }
  }

  /** The product of x with bit i of y, in place, is bit i times x, moved up i places. */
  lemma {:induction false} Pick(x: bv64, y: bv64, i: nat)
    ensures Mul64(x, And64(y, Shl(1, i))) == Shl(Mul64(x, LowOne(Shr(y, i))), i)
    decreases i
  {
    hide Mul64, And64, LowOne, UpOne, DownOne;
    if i == 0 {
      MaskOne(y);
    } else {
      var q := Shl(1, i - 1);
      MaskUp(y, q);
      Pick(x, DownOne(y), i - 1);
      MulUp(x, And64(DownOne(y), q));
      ShrFront(y, i);
    }
  }

  lemma ClearUp(x: bv64, m: bv64)
    requires And64(x, m) == 0
    ensures And64(UpOne(x), UpOne(m)) == 0
  {
  }

  lemma {:induction false} ClearShl(x: bv64, m: bv64, k: nat)
    requires And64(x, m) == 0
    ensures And64(Shl(x, k), Shl(m, k)) == 0
  {
    hide And64, UpOne;
    if k > 0 {
      ClearShl(x, m, k - 1);
      ClearUp(Shl(x, k - 1), Shl(m, k - 1));
    }
  }

  predicate TopSet(m: bv64) { m & 0x8000000000000000 != 0 }

  /** Nothing is lost at the top when the top bit is clear. */
  lemma BackDown(x: bv64, m: bv64)
    requires And64(x, m) == 0 && TopSet(m)
    ensures DownOne(UpOne(x)) == x && LowOne(UpOne(x)) == 0
  {
  }

  lemma Reach()
    ensures Shl(0xFFFFFFFFFFFFE000, 0) == 0xFFFFFFFFFFFFE000 && Shl(0xFFFFFFFFFFFFE000, 1) == 0xFFFFFFFFFFFFC000
    ensures Shl(0xFFFFFFFFFFFFE000, 2) == 0xFFFFFFFFFFFF8000
    ensures Shl(0xFFFFFFFFFFFFE000, 3) == 0xFFFFFFFFFFFF0000 && Shl(0xFFFFFFFFFFFFE000, 4) == 0xFFFFFFFFFFFE0000
    ensures Shl(0xFFFFFFFFFFFFE000, 5) == 0xFFFFFFFFFFFC0000
    ensures Shl(0xFFFFFFFFFFFFE000, 6) == 0xFFFFFFFFFFF80000 && Shl(0xFFFFFFFFFFFFE000, 7) == 0xFFFFFFFFFFF00000
    ensures Shl(0xFFFFFFFFFFFFE000, 8) == 0xFFFFFFFFFFE00000
    ensures Shl(0xFFFFFFFFFFFFE000, 9) == 0xFFFFFFFFFFC00000 && Shl(0xFFFFFFFFFFFFE000, 10) == 0xFFFFFFFFFF800000
    ensures Shl(0xFFFFFFFFFFFFE000, 11) == 0xFFFFFFFFFF000000
    ensures Shl(0xFFFFFFFFFFFFE000, 12) == 0xFFFFFFFFFE000000 && Shl(0xFFFFFFFFFFFFE000, 13) == 0xFFFFFFFFFC000000
    ensures Shl(0xFFFFFFFFFFFFE000, 14) == 0xFFFFFFFFF8000000
    ensures Shl(0xFFFFFFFFFFFFE000, 15) == 0xFFFFFFFFF0000000 && Shl(0xFFFFFFFFFFFFE000, 16) == 0xFFFFFFFFE0000000
    ensures Shl(0xFFFFFFFFFFFFE000, 17) == 0xFFFFFFFFC0000000
    ensures Shl(0xFFFFFFFFFFFFE000, 18) == 0xFFFFFFFF80000000 && Shl(0xFFFFFFFFFFFFE000, 19) == 0xFFFFFFFF00000000
    ensures Shl(0xFFFFFFFFFFFFE000, 20) == 0xFFFFFFFE00000000
    ensures Shl(0xFFFFFFFFFFFFE000, 21) == 0xFFFFFFFC00000000 && Shl(0xFFFFFFFFFFFFE000, 22) == 0xFFFFFFF800000000
    ensures Shl(0xFFFFFFFFFFFFE000, 23) == 0xFFFFFFF000000000
    ensures Shl(0xFFFFFFFFFFFFE000, 24) == 0xFFFFFFE000000000
  {
  }

  lemma ReachFar()
    ensures Shl(0xFFFFFFFFFFFFE000, 25) == 0xFFFFFFC000000000 && Shl(0xFFFFFFFFFFFFE000, 26) == 0xFFFFFF8000000000
    ensures Shl(0xFFFFFFFFFFFFE000, 27) == 0xFFFFFF0000000000
    ensures Shl(0xFFFFFFFFFFFFE000, 28) == 0xFFFFFE0000000000 && Shl(0xFFFFFFFFFFFFE000, 29) == 0xFFFFFC0000000000
    ensures Shl(0xFFFFFFFFFFFFE000, 30) == 0xFFFFF80000000000
    ensures Shl(0xFFFFFFFFFFFFE000, 31) == 0xFFFFF00000000000 && Shl(0xFFFFFFFFFFFFE000, 32) == 0xFFFFE00000000000
    ensures Shl(0xFFFFFFFFFFFFE000, 33) == 0xFFFFC00000000000
    ensures Shl(0xFFFFFFFFFFFFE000, 34) == 0xFFFF800000000000 && Shl(0xFFFFFFFFFFFFE000, 35) == 0xFFFF000000000000
    ensures Shl(0xFFFFFFFFFFFFE000, 36) == 0xFFFE000000000000
    ensures Shl(0xFFFFFFFFFFFFE000, 37) == 0xFFFC000000000000 && Shl(0xFFFFFFFFFFFFE000, 38) == 0xFFF8000000000000
    ensures Shl(0xFFFFFFFFFFFFE000, 39) == 0xFFF0000000000000
    ensures Shl(0xFFFFFFFFFFFFE000, 40) == 0xFFE0000000000000 && Shl(0xFFFFFFFFFFFFE000, 41) == 0xFFC0000000000000
    ensures Shl(0xFFFFFFFFFFFFE000, 42) == 0xFF80000000000000
    ensures Shl(0xFFFFFFFFFFFFE000, 43) == 0xFF00000000000000 && Shl(0xFFFFFFFFFFFFE000, 44) == 0xFE00000000000000
    ensures Shl(0xFFFFFFFFFFFFE000, 45) == 0xFC00000000000000
    ensures Shl(0xFFFFFFFFFFFFE000, 46) == 0xF800000000000000 && Shl(0xFFFFFFFFFFFFE000, 47) == 0xF000000000000000
    ensures Shl(0xFFFFFFFFFFFFE000, 48) == 0xE000000000000000
  {
    Reach();
  }

  /** A word of 13 bits can be moved up by as many as 48 places. */
  lemma Room(k: nat)
    requires k <= 48
    ensures TopSet(Shl(0xFFFFFFFFFFFFE000, k))
  {
    hide Shl;
    Reach();
    ReachFar();
  }

  /** The places that a product of two 12-bit or two 13-bit words leaves empty. */
  function Beyond(twelve: bool): bv64
  {
    if twelve then 0xFFFFFFFFFF800000 else 0xFFFFFFFFFE000000
  }

  lemma WideFits(twelve: bool, a: bv16)
    requires a & (if twelve then 0xF000 else 0xE000) == 0
    ensures And64(Wide(a), 0xFFFFFFFFFFFFE000) == 0
    ensures twelve ==> And64(Wide(a), 0xFFFFFFFFFFFFF000) == 0
  {
  }

  /** What replaces the part t of a word, all of whose terms have degree 12 or more. */
  function Down12(t: bv64): bv64
  {
    (t >> 9) ^ (t >> 12)
  }

  function Down13(t: bv64): bv64
  {
    (t >> 9) ^ (t >> 10) ^ (t >> 12) ^ (t >> 13)
  }

  /** The source's step t = x & m; x ^= t >> 9; x ^= t >> 12. */
  function Folded12(x: bv64, m: bv64): bv64
  {
    Xor64(x, Down12(And64(x, m)))
  }

  /** The source's step t = x & m; x ^= (t >> 9) ^ (t >> 10) ^ (t >> 12) ^ (t >> 13). */
  function Folded13(x: bv64, m: bv64): bv64
  {
    Xor64(x, Down13(And64(x, m)))
  }

  /** The live bits are those of m and of rest, and the fold d of the bits of m lies within rest. */
  predicate Foldable(live: bv64, m: bv64, rest: bv64, d: bv64)
  {
    live == Xor64(m, rest) && And64(m, rest) == 0 && And64(d, rest) == d
  }

  lemma FoldParts(x: bv64, live: bv64, m: bv64, rest: bv64, d: bv64)
    requires Foldable(live, m, rest, d)
    ensures And64(Xor64(x, d), rest) == Xor64(And64(x, rest), d)
    ensures And64(x, live) == Xor64(And64(x, rest), And64(x, m))
  {
    hide Xor64, And64;
    MaskXor(x, d, rest);
    MaskXor(m, rest, x);
    XorComm(And64(x, m), And64(x, rest));
  }

  lemma Down12Is(t: bv64)
    ensures Down12(t) == Xor64(t >> 9, t >> 12)
  {
  }

  lemma Down13Is(t: bv64)
    ensures Down13(t) == Xor64(Xor64(t >> 9, t >> 10), Xor64(t >> 12, t >> 13))
  {
  }
}
