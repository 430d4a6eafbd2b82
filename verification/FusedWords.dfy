/**
 The products of squares in src/gf.rs, as bare 64-bit words: each of the partial products holds two
 terms that are far enough apart not to interfere.
 */
module FusedWords {
  import opened Words64

  function Sel(c: bool, x: bv64): bv64 { if c then x else 0 }

  predicate BitSet(x: bv64, i: nat) { LowOne(Shr(x, i)) == 1 }

  /** t1 times bit i of t0, moved up k places. */
  function Term(t0: bv64, t1: bv64, i: nat, k: nat): bv64
  {
    Sel(BitSet(t0, i), Shl(t1, k))
  }

  // ----- shifts by numbers

  function UpTwo(x: bv64): bv64 { x << 2 }

  function UpFour(x: bv64): bv64 { x << 4 }

  lemma UpTwoIs(x: bv64)
    ensures UpOne(UpOne(x)) == UpTwo(x)
  {
  }

  lemma UpFourIs(x: bv64)
    ensures UpTwo(UpTwo(x)) == UpFour(x)
  {
  }

  lemma UpTwoSteps(x: bv64)
    ensures UpTwo(x) == x << 2 && UpTwo(x << 2) == x << 4 && UpTwo(x << 4) == x << 6
    ensures UpTwo(x << 6) == x << 8 && UpTwo(x << 8) == x << 10 && UpTwo(x << 10) == x << 12
    ensures UpTwo(x << 12) == x << 14 && UpTwo(x << 14) == x << 16 && UpTwo(x << 16) == x << 18
    ensures UpTwo(x << 18) == x << 20 && UpTwo(x << 20) == x << 22 && UpTwo(x << 22) == x << 24
  {
  }

  lemma ShlTwo(x: bv64, k: nat)
    ensures Shl(x, k + 2) == UpTwo(Shl(x, k)) && Shl(x, 0) == x
  {
    hide UpOne, UpTwo;
    UpTwoIs(Shl(x, k));
  }

  lemma ShlBy2(x: bv64)
    ensures Shl(x, 0) == x && Shl(x, 2) == x << 2 && Shl(x, 4) == x << 4
    ensures Shl(x, 6) == x << 6 && Shl(x, 8) == x << 8 && Shl(x, 10) == x << 10
    ensures Shl(x, 12) == x << 12 && Shl(x, 14) == x << 14 && Shl(x, 16) == x << 16
    ensures Shl(x, 18) == x << 18 && Shl(x, 20) == x << 20 && Shl(x, 22) == x << 22
    ensures Shl(x, 24) == x << 24
  {
    hide UpTwo, Shl;
    UpTwoSteps(x);
    ShlTwo(x, 0); ShlTwo(x, 2); ShlTwo(x, 4); ShlTwo(x, 6);
    ShlTwo(x, 8); ShlTwo(x, 10); ShlTwo(x, 12); ShlTwo(x, 14);
    ShlTwo(x, 16); ShlTwo(x, 18); ShlTwo(x, 20); ShlTwo(x, 22);
  }

  lemma UpFourSteps(x: bv64)
    ensures UpFour(x) == x << 4 && UpFour(x << 4) == x << 8 && UpFour(x << 8) == x << 12
    ensures UpFour(x << 12) == x << 16 && UpFour(x << 16) == x << 20 && UpFour(x << 20) == x << 24
    ensures UpFour(x << 24) == x << 28 && UpFour(x << 28) == x << 32 && UpFour(x << 32) == x << 36
    ensures UpFour(x << 36) == x << 40 && UpFour(x << 40) == x << 44 && UpFour(x << 44) == x << 48
  {
  }

  lemma ShlFour(x: bv64, k: nat)
    ensures Shl(x, k + 4) == UpFour(Shl(x, k)) && Shl(x, 0) == x
  {
    hide UpOne, UpTwo, UpFour;
    ShlTwo(x, k); ShlTwo(x, k + 2); UpFourIs(Shl(x, k));
  }

  lemma ShlBy4(x: bv64)
    ensures Shl(x, 0) == x && Shl(x, 4) == x << 4 && Shl(x, 8) == x << 8
    ensures Shl(x, 12) == x << 12 && Shl(x, 16) == x << 16 && Shl(x, 20) == x << 20
    ensures Shl(x, 24) == x << 24 && Shl(x, 28) == x << 28 && Shl(x, 32) == x << 32
    ensures Shl(x, 36) == x << 36 && Shl(x, 40) == x << 40 && Shl(x, 44) == x << 44
    ensures Shl(x, 48) == x << 48
  {
    hide UpFour, Shl;
    UpFourSteps(x);
    ShlFour(x, 0); ShlFour(x, 4); ShlFour(x, 8); ShlFour(x, 12);
    ShlFour(x, 16); ShlFour(x, 20); ShlFour(x, 24); ShlFour(x, 28);
    ShlFour(x, 32); ShlFour(x, 36); ShlFour(x, 40); ShlFour(x, 44);
  }

  lemma BitsAre(t0: bv64)
    ensures (BitSet(t0, 0) <==> t0 & 1 == 1) && (BitSet(t0, 1) <==> (t0 >> 1) & 1 == 1)
    ensures (BitSet(t0, 2) <==> (t0 >> 2) & 1 == 1) && (BitSet(t0, 3) <==> (t0 >> 3) & 1 == 1)
    ensures (BitSet(t0, 4) <==> (t0 >> 4) & 1 == 1) && (BitSet(t0, 5) <==> (t0 >> 5) & 1 == 1)
    ensures (BitSet(t0, 6) <==> (t0 >> 6) & 1 == 1) && (BitSet(t0, 7) <==> (t0 >> 7) & 1 == 1)
    ensures (BitSet(t0, 8) <==> (t0 >> 8) & 1 == 1) && (BitSet(t0, 9) <==> (t0 >> 9) & 1 == 1)
    ensures (BitSet(t0, 10) <==> (t0 >> 10) & 1 == 1) && (BitSet(t0, 11) <==> (t0 >> 11) & 1 == 1)
    ensures (BitSet(t0, 12) <==> (t0 >> 12) & 1 == 1)
  {
    hide Shr;
    Shifts(t0);
    ShrNone(t0);
  }

  lemma ShrNone(x: bv64)
    ensures Shr(x, 0) == x
  {
  }

  // ----- the partial products: two terms each, far enough apart

  function SqTwist(t0: bv64): bv64 { t0 ^ (t0 << 7) }

  function SqCentre(t0: bv64, t1: bv64): bv64 { (t1 << 6) * (t0 & (1 << 6)) }

  function SqPart0(t0: bv64, t1: bv64): bv64 { t1 * (t0 & 0x04001) }

  function SqPart1(t0: bv64, t1: bv64): bv64 { (t1 * (t0 & 0x08002)) << 1 }

  function SqPart2(t0: bv64, t1: bv64): bv64 { (t1 * (t0 & 0x10004)) << 2 }

  function SqPart3(t0: bv64, t1: bv64): bv64 { (t1 * (t0 & 0x20008)) << 3 }

  function SqPart4(t0: bv64, t1: bv64): bv64 { (t1 * (t0 & 0x40010)) << 4 }

  function SqPart5(t0: bv64, t1: bv64): bv64 { (t1 * (t0 & 0x80020)) << 5 }

  function Sq2Twist(t0: bv64): bv64 { t0 ^ (t0 << 21) }

  function Sq2Centre(t0: bv64, t1: bv64): bv64 { (t1 << 18) * (t0 & (1 << 6)) }

  function Sq2Part0(t0: bv64, t1: bv64): bv64 { t1 * (t0 & 0x010000001) }

  function Sq2Part1(t0: bv64, t1: bv64): bv64 { (t1 * (t0 & 0x020000002)) << 3 }

  function Sq2Part2(t0: bv64, t1: bv64): bv64 { (t1 * (t0 & 0x040000004)) << 6 }

  function Sq2Part3(t0: bv64, t1: bv64): bv64 { (t1 * (t0 & 0x080000008)) << 9 }

  function Sq2Part4(t0: bv64, t1: bv64): bv64 { (t1 * (t0 & 0x100000010)) << 12 }

  function Sq2Part5(t0: bv64, t1: bv64): bv64 { (t1 * (t0 & 0x200000020)) << 15 }

  function Sq2Product(t0: bv64, t1: bv64): bv64
  {
    var e := Sq2Twist(t0);
    Xor64(Xor64(Xor64(Xor64(Xor64(Xor64(Sq2Centre(t0, t1), Sq2Part0(e, t1)), Sq2Part1(e, t1)), Sq2Part2(e, t1)),
      Sq2Part3(e, t1)), Sq2Part4(e, t1)), Sq2Part5(e, t1))
  }

  lemma SqRaw(t0: bv64, t1: bv64)
    requires t0 & 0xFFFFFFFFFFFFE000 == 0 && t1 & 0xFFFFFFFFFFFFE000 == 0
    ensures (t1 << 6) * (t0 & (1 << 6))
         == (if (t0 >> 6) & 1 == 1 then t1 << 12 else 0) && ((t1 << 6) * (t0 & (1 << 6))) & 0xFFFFFFE000000000 == 0
    ensures t1 * ((t0 ^ (t0 << 7)) & 0x04001)
         == (if t0 & 1 == 1 then t1 else 0) ^ (if (t0 >> 7) & 1 == 1 then t1 << 14 else 0)
    ensures (t1 * ((t0 ^ (t0 << 7)) & 0x04001)) & 0xFFFFFFE000000000 == 0
    ensures (t1 * ((t0 ^ (t0 << 7)) & 0x08002)) << 1
         == (if (t0 >> 1) & 1 == 1 then t1 << 2 else 0) ^ (if (t0 >> 8) & 1 == 1 then t1 << 16 else 0)
    ensures ((t1 * ((t0 ^ (t0 << 7)) & 0x08002)) << 1) & 0xFFFFFFE000000000 == 0
    ensures (t1 * ((t0 ^ (t0 << 7)) & 0x10004)) << 2
         == (if (t0 >> 2) & 1 == 1 then t1 << 4 else 0) ^ (if (t0 >> 9) & 1 == 1 then t1 << 18 else 0)
    ensures ((t1 * ((t0 ^ (t0 << 7)) & 0x10004)) << 2) & 0xFFFFFFE000000000 == 0
    ensures (t1 * ((t0 ^ (t0 << 7)) & 0x20008)) << 3
         == (if (t0 >> 3) & 1 == 1 then t1 << 6 else 0) ^ (if (t0 >> 10) & 1 == 1 then t1 << 20 else 0)
    ensures ((t1 * ((t0 ^ (t0 << 7)) & 0x20008)) << 3) & 0xFFFFFFE000000000 == 0
    ensures (t1 * ((t0 ^ (t0 << 7)) & 0x40010)) << 4
         == (if (t0 >> 4) & 1 == 1 then t1 << 8 else 0) ^ (if (t0 >> 11) & 1 == 1 then t1 << 22 else 0)
    ensures ((t1 * ((t0 ^ (t0 << 7)) & 0x40010)) << 4) & 0xFFFFFFE000000000 == 0
    ensures (t1 * ((t0 ^ (t0 << 7)) & 0x80020)) << 5
         == (if (t0 >> 5) & 1 == 1 then t1 << 10 else 0) ^ (if (t0 >> 12) & 1 == 1 then t1 << 24 else 0)
    ensures ((t1 * ((t0 ^ (t0 << 7)) & 0x80020)) << 5) & 0xFFFFFFE000000000 == 0
  {
  }

  lemma SqCentreIs(t0: bv64, t1: bv64)
    requires t0 & 0xFFFFFFFFFFFFE000 == 0 && t1 & 0xFFFFFFFFFFFFE000 == 0
    ensures SqCentre(t0, t1) == Sel((t0 >> 6) & 1 == 1, t1 << 12) && And64(SqCentre(t0, t1), 0xFFFFFFE000000000) == 0
  {
    SqRaw(t0, t1);
  }

  lemma SqPart0Is(t0: bv64, t1: bv64)
    requires t0 & 0xFFFFFFFFFFFFE000 == 0 && t1 & 0xFFFFFFFFFFFFE000 == 0
    ensures SqPart0(SqTwist(t0), t1) == Xor64(Sel(t0 & 1 == 1, t1), Sel((t0 >> 7) & 1 == 1, t1 << 14))
    ensures And64(SqPart0(SqTwist(t0), t1), 0xFFFFFFE000000000) == 0
  {
    SqRaw(t0, t1);
  }

  lemma SqPart1Is(t0: bv64, t1: bv64)
    requires t0 & 0xFFFFFFFFFFFFE000 == 0 && t1 & 0xFFFFFFFFFFFFE000 == 0
    ensures SqPart1(SqTwist(t0), t1) == Xor64(Sel((t0 >> 1) & 1 == 1, t1 << 2), Sel((t0 >> 8) & 1 == 1, t1 << 16))
    ensures And64(SqPart1(SqTwist(t0), t1), 0xFFFFFFE000000000) == 0
  {
    SqRaw(t0, t1);
  }

  lemma SqPart2Is(t0: bv64, t1: bv64)
    requires t0 & 0xFFFFFFFFFFFFE000 == 0 && t1 & 0xFFFFFFFFFFFFE000 == 0
    ensures SqPart2(SqTwist(t0), t1) == Xor64(Sel((t0 >> 2) & 1 == 1, t1 << 4), Sel((t0 >> 9) & 1 == 1, t1 << 18))
    ensures And64(SqPart2(SqTwist(t0), t1), 0xFFFFFFE000000000) == 0
  {
    SqRaw(t0, t1);
  }

  lemma SqPart3Is(t0: bv64, t1: bv64)
    requires t0 & 0xFFFFFFFFFFFFE000 == 0 && t1 & 0xFFFFFFFFFFFFE000 == 0
    ensures SqPart3(SqTwist(t0), t1) == Xor64(Sel((t0 >> 3) & 1 == 1, t1 << 6), Sel((t0 >> 10) & 1 == 1, t1 << 20))
    ensures And64(SqPart3(SqTwist(t0), t1), 0xFFFFFFE000000000) == 0
  {
    SqRaw(t0, t1);
  }

  lemma SqPart4Is(t0: bv64, t1: bv64)
    requires t0 & 0xFFFFFFFFFFFFE000 == 0 && t1 & 0xFFFFFFFFFFFFE000 == 0
    ensures SqPart4(SqTwist(t0), t1) == Xor64(Sel((t0 >> 4) & 1 == 1, t1 << 8), Sel((t0 >> 11) & 1 == 1, t1 << 22))
    ensures And64(SqPart4(SqTwist(t0), t1), 0xFFFFFFE000000000) == 0
  {
    SqRaw(t0, t1);
  }

  lemma SqPart5Is(t0: bv64, t1: bv64)
    requires t0 & 0xFFFFFFFFFFFFE000 == 0 && t1 & 0xFFFFFFFFFFFFE000 == 0
    ensures SqPart5(SqTwist(t0), t1) == Xor64(Sel((t0 >> 5) & 1 == 1, t1 << 10), Sel((t0 >> 12) & 1 == 1, t1 << 24))
    ensures And64(SqPart5(SqTwist(t0), t1), 0xFFFFFFE000000000) == 0
  {
    SqRaw(t0, t1);
  }


  lemma Sq2Raw(t0: bv64, t1: bv64)
    requires t0 & 0xFFFFFFFFFFFFE000 == 0 && t1 & 0xFFFFFFFFFFFFE000 == 0
    ensures (t1 << 18) * (t0 & (1 << 6))
         == (if (t0 >> 6) & 1 == 1 then t1 << 24 else 0) && ((t1 << 18) * (t0 & (1 << 6))) & 0xE000000000000000 == 0
    ensures t1 * ((t0 ^ (t0 << 21)) & 0x010000001)
         == (if t0 & 1 == 1 then t1 else 0) ^ (if (t0 >> 7) & 1 == 1 then t1 << 28 else 0)
    ensures (t1 * ((t0 ^ (t0 << 21)) & 0x010000001)) & 0xE000000000000000 == 0
    ensures (t1 * ((t0 ^ (t0 << 21)) & 0x020000002)) << 3
         == (if (t0 >> 1) & 1 == 1 then t1 << 4 else 0) ^ (if (t0 >> 8) & 1 == 1 then t1 << 32 else 0)
    ensures ((t1 * ((t0 ^ (t0 << 21)) & 0x020000002)) << 3) & 0xE000000000000000 == 0
    ensures (t1 * ((t0 ^ (t0 << 21)) & 0x040000004)) << 6
         == (if (t0 >> 2) & 1 == 1 then t1 << 8 else 0) ^ (if (t0 >> 9) & 1 == 1 then t1 << 36 else 0)
    ensures ((t1 * ((t0 ^ (t0 << 21)) & 0x040000004)) << 6) & 0xE000000000000000 == 0
    ensures (t1 * ((t0 ^ (t0 << 21)) & 0x080000008)) << 9
         == (if (t0 >> 3) & 1 == 1 then t1 << 12 else 0) ^ (if (t0 >> 10) & 1 == 1 then t1 << 40 else 0)
    ensures ((t1 * ((t0 ^ (t0 << 21)) & 0x080000008)) << 9) & 0xE000000000000000 == 0
    ensures (t1 * ((t0 ^ (t0 << 21)) & 0x100000010)) << 12
         == (if (t0 >> 4) & 1 == 1 then t1 << 16 else 0) ^ (if (t0 >> 11) & 1 == 1 then t1 << 44 else 0)
    ensures ((t1 * ((t0 ^ (t0 << 21)) & 0x100000010)) << 12) & 0xE000000000000000 == 0
    ensures (t1 * ((t0 ^ (t0 << 21)) & 0x200000020)) << 15
         == (if (t0 >> 5) & 1 == 1 then t1 << 20 else 0) ^ (if (t0 >> 12) & 1 == 1 then t1 << 48 else 0)
    ensures ((t1 * ((t0 ^ (t0 << 21)) & 0x200000020)) << 15) & 0xE000000000000000 == 0
  {
  }

  lemma Sq2CentreIs(t0: bv64, t1: bv64)
    requires t0 & 0xFFFFFFFFFFFFE000 == 0 && t1 & 0xFFFFFFFFFFFFE000 == 0
    ensures Sq2Centre(t0, t1) == Sel((t0 >> 6) & 1 == 1, t1 << 24) && And64(Sq2Centre(t0, t1), 0xE000000000000000) == 0
  {
    Sq2Raw(t0, t1);
  }

  lemma Sq2Part0Is(t0: bv64, t1: bv64)
    requires t0 & 0xFFFFFFFFFFFFE000 == 0 && t1 & 0xFFFFFFFFFFFFE000 == 0
    ensures Sq2Part0(Sq2Twist(t0), t1) == Xor64(Sel(t0 & 1 == 1, t1), Sel((t0 >> 7) & 1 == 1, t1 << 28))
    ensures And64(Sq2Part0(Sq2Twist(t0), t1), 0xE000000000000000) == 0
  {
    Sq2Raw(t0, t1);
  }

  lemma Sq2Part1Is(t0: bv64, t1: bv64)
    requires t0 & 0xFFFFFFFFFFFFE000 == 0 && t1 & 0xFFFFFFFFFFFFE000 == 0
    ensures Sq2Part1(Sq2Twist(t0), t1) == Xor64(Sel((t0 >> 1) & 1 == 1, t1 << 4), Sel((t0 >> 8) & 1 == 1, t1 << 32))
    ensures And64(Sq2Part1(Sq2Twist(t0), t1), 0xE000000000000000) == 0
  {
    Sq2Raw(t0, t1);
  }

  lemma Sq2Part2Is(t0: bv64, t1: bv64)
    requires t0 & 0xFFFFFFFFFFFFE000 == 0 && t1 & 0xFFFFFFFFFFFFE000 == 0
    ensures Sq2Part2(Sq2Twist(t0), t1) == Xor64(Sel((t0 >> 2) & 1 == 1, t1 << 8), Sel((t0 >> 9) & 1 == 1, t1 << 36))
    ensures And64(Sq2Part2(Sq2Twist(t0), t1), 0xE000000000000000) == 0
  {
    Sq2Raw(t0, t1);
  }

  lemma Sq2Part3Is(t0: bv64, t1: bv64)
    requires t0 & 0xFFFFFFFFFFFFE000 == 0 && t1 & 0xFFFFFFFFFFFFE000 == 0
    ensures Sq2Part3(Sq2Twist(t0), t1) == Xor64(Sel((t0 >> 3) & 1 == 1, t1 << 12), Sel((t0 >> 10) & 1 == 1, t1 << 40))
    ensures And64(Sq2Part3(Sq2Twist(t0), t1), 0xE000000000000000) == 0
  {
    Sq2Raw(t0, t1);
  }

  lemma Sq2Part4Is(t0: bv64, t1: bv64)
    requires t0 & 0xFFFFFFFFFFFFE000 == 0 && t1 & 0xFFFFFFFFFFFFE000 == 0
    ensures Sq2Part4(Sq2Twist(t0), t1) == Xor64(Sel((t0 >> 4) & 1 == 1, t1 << 16), Sel((t0 >> 11) & 1 == 1, t1 << 44))
    ensures And64(Sq2Part4(Sq2Twist(t0), t1), 0xE000000000000000) == 0
  {
    Sq2Raw(t0, t1);
  }

  lemma Sq2Part5Is(t0: bv64, t1: bv64)
    requires t0 & 0xFFFFFFFFFFFFE000 == 0 && t1 & 0xFFFFFFFFFFFFE000 == 0
    ensures Sq2Part5(Sq2Twist(t0), t1) == Xor64(Sel((t0 >> 5) & 1 == 1, t1 << 20), Sel((t0 >> 12) & 1 == 1, t1 << 48))
    ensures And64(Sq2Part5(Sq2Twist(t0), t1), 0xE000000000000000) == 0
  {
    Sq2Raw(t0, t1);
  }


  lemma SqTerms(t0: bv64, t1: bv64)
    requires And64(t0, 0xFFFFFFFFFFFFE000) == 0 && And64(t1, 0xFFFFFFFFFFFFE000) == 0
    ensures SqCentre(t0, t1) == Term(t0, t1, 6, 12) && And64(SqCentre(t0, t1), 0xFFFFFFE000000000) == 0
    ensures SqPart0(SqTwist(t0), t1) == Xor64(Term(t0, t1, 0, 0), Term(t0, t1, 7, 14))
    ensures And64(SqPart0(SqTwist(t0), t1), 0xFFFFFFE000000000) == 0
    ensures SqPart1(SqTwist(t0), t1) == Xor64(Term(t0, t1, 1, 2), Term(t0, t1, 8, 16))
    ensures And64(SqPart1(SqTwist(t0), t1), 0xFFFFFFE000000000) == 0
    ensures SqPart2(SqTwist(t0), t1) == Xor64(Term(t0, t1, 2, 4), Term(t0, t1, 9, 18))
    ensures And64(SqPart2(SqTwist(t0), t1), 0xFFFFFFE000000000) == 0
    ensures SqPart3(SqTwist(t0), t1) == Xor64(Term(t0, t1, 3, 6), Term(t0, t1, 10, 20))
    ensures And64(SqPart3(SqTwist(t0), t1), 0xFFFFFFE000000000) == 0
    ensures SqPart4(SqTwist(t0), t1) == Xor64(Term(t0, t1, 4, 8), Term(t0, t1, 11, 22))
    ensures And64(SqPart4(SqTwist(t0), t1), 0xFFFFFFE000000000) == 0
    ensures SqPart5(SqTwist(t0), t1) == Xor64(Term(t0, t1, 5, 10), Term(t0, t1, 12, 24))
    ensures And64(SqPart5(SqTwist(t0), t1), 0xFFFFFFE000000000) == 0
  {
    hide SqCentre, SqTwist, SqPart0, SqPart1, SqPart2, SqPart3, SqPart4, SqPart5, Sel, BitSet, Shl, Xor64, And64;
    AndIs(t0, 0xFFFFFFFFFFFFE000); AndIs(t1, 0xFFFFFFFFFFFFE000);
    SqCentreIs(t0, t1); SqPart0Is(t0, t1); SqPart1Is(t0, t1); SqPart2Is(t0, t1);
    SqPart3Is(t0, t1); SqPart4Is(t0, t1); SqPart5Is(t0, t1);
    BitsAre(t0); ShlBy2(t1);
  }

  lemma Sq2Terms(t0: bv64, t1: bv64)
    requires And64(t0, 0xFFFFFFFFFFFFE000) == 0 && And64(t1, 0xFFFFFFFFFFFFE000) == 0
    ensures Sq2Centre(t0, t1) == Term(t0, t1, 6, 24) && And64(Sq2Centre(t0, t1), 0xE000000000000000) == 0
    ensures Sq2Part0(Sq2Twist(t0), t1) == Xor64(Term(t0, t1, 0, 0), Term(t0, t1, 7, 28))
    ensures And64(Sq2Part0(Sq2Twist(t0), t1), 0xE000000000000000) == 0
    ensures Sq2Part1(Sq2Twist(t0), t1) == Xor64(Term(t0, t1, 1, 4), Term(t0, t1, 8, 32))
    ensures And64(Sq2Part1(Sq2Twist(t0), t1), 0xE000000000000000) == 0
    ensures Sq2Part2(Sq2Twist(t0), t1) == Xor64(Term(t0, t1, 2, 8), Term(t0, t1, 9, 36))
    ensures And64(Sq2Part2(Sq2Twist(t0), t1), 0xE000000000000000) == 0
    ensures Sq2Part3(Sq2Twist(t0), t1) == Xor64(Term(t0, t1, 3, 12), Term(t0, t1, 10, 40))
    ensures And64(Sq2Part3(Sq2Twist(t0), t1), 0xE000000000000000) == 0
    ensures Sq2Part4(Sq2Twist(t0), t1) == Xor64(Term(t0, t1, 4, 16), Term(t0, t1, 11, 44))
    ensures And64(Sq2Part4(Sq2Twist(t0), t1), 0xE000000000000000) == 0
    ensures Sq2Part5(Sq2Twist(t0), t1) == Xor64(Term(t0, t1, 5, 20), Term(t0, t1, 12, 48))
    ensures And64(Sq2Part5(Sq2Twist(t0), t1), 0xE000000000000000) == 0
  {
    hide Sq2Centre, Sq2Twist, Sq2Part0, Sq2Part1, Sq2Part2, Sq2Part3, Sq2Part4, Sq2Part5, Sel, BitSet, Shl, Xor64,
      And64;
    AndIs(t0, 0xFFFFFFFFFFFFE000); AndIs(t1, 0xFFFFFFFFFFFFE000);
    Sq2CentreIs(t0, t1); Sq2Part0Is(t0, t1); Sq2Part1Is(t0, t1); Sq2Part2Is(t0, t1);
    Sq2Part3Is(t0, t1); Sq2Part4Is(t0, t1); Sq2Part5Is(t0, t1);
    BitsAre(t0); ShlBy4(t1);
  }

  // ----- gf_sq2: the terms for a factor of one

  /** The bits of t0, four places apart. */
  function Spread4(t0: bv64): bv64
  {
    var x := (t0 | (t0 << 24)) & 0x000000FF000000FF;
    var x := (x | (x << 12)) & 0x000F000F000F000F;
    var x := (x | (x << 6)) & 0x0303030303030303;
    (x | (x << 3)) & 0x1111111111111111
  }

  lemma SpreadRaw(t0: bv64)
    requires t0 & 0xFFFFFFFFFFFFE000 == 0
    ensures var x := (t0 | (t0 << 24)) & 0x000000FF000000FF;
            var x := (x | (x << 12)) & 0x000F000F000F000F;
            var x := (x | (x << 6)) & 0x0303030303030303;
            var x := (x | (x << 3)) & 0x1111111111111111;
            && x & 0xFFFE000000000000 == 0
            && x == (((((((1 << 18) * (t0 & (1 << 6))) ^ (1 * ((t0 ^ (t0 << 21)) & 0x010000001)))
                         ^ ((1 * ((t0 ^ (t0 << 21)) & 0x020000002)) << 3))
                        ^ ((1 * ((t0 ^ (t0 << 21)) & 0x040000004)) << 6))
                       ^ ((1 * ((t0 ^ (t0 << 21)) & 0x080000008)) << 9))
                      ^ ((1 * ((t0 ^ (t0 << 21)) & 0x100000010)) << 12))
                     ^ ((1 * ((t0 ^ (t0 << 21)) & 0x200000020)) << 15)
  {
  }

  /** Spreading the bits is the product of gf_sq2mul for a factor of one. */
  lemma SpreadIs(t0: bv64)
    requires t0 & 0xFFFFFFFFFFFFE000 == 0
    ensures And64(Spread4(t0), 0xFFFE000000000000) == 0 && Spread4(t0) == Sq2Product(t0, 1)
  {
    SpreadRaw(t0);
  }

  // ----- the masks of the reductions

  /** Where m stands in the tables M of gf_sqmul, gf_sq2 and gf_sq2mul: what is live before and after it. */
  predicate Rung(m: bv64, live: bv64, rest: bv64)
  {
    || (m == 0x1FF0000000 && live == 0x1FFFFFFFFF && rest == 0xFFFFFFF)
    || (m == 0xFF80000 && live == 0xFFFFFFF && rest == 0x7FFFF)
    || (m == 0x7E000 && live == 0x7FFFF && rest == 0x1FFF)
    || (m == 0x1FF0000000000 && live == 0x1FFFFFFFFFFFF && rest == 0xFFFFFFFFFF)
    || (m == 0xFF80000000 && live == 0xFFFFFFFFFF && rest == 0x7FFFFFFF)
    || (m == 0x7FC00000 && live == 0x7FFFFFFF && rest == 0x3FFFFF)
    || (m == 0x3FE000 && live == 0x3FFFFF && rest == 0x1FFF)
    || (m == 0x1FF0000000000000 && live == 0x1FFFFFFFFFFFFFFF && rest == 0xFFFFFFFFFFFFF)
    || (m == 0xFF80000000000 && live == 0xFFFFFFFFFFFFF && rest == 0x7FFFFFFFFFF)
    || (m == 0x7FC00000000 && live == 0x7FFFFFFFFFF && rest == 0x3FFFFFFFF)
    || (m == 0x3FE000000 && live == 0x3FFFFFFFF && rest == 0x1FFFFFF)
    || (m == 0x1FE0000 && live == 0x1FFFFFF && rest == 0x1FFFF)
    || (m == 0x1E000 && live == 0x1FFFF && rest == 0x1FFF)
  }

  lemma SqMasks(x: bv64)
    ensures And64(x & 0x1FF0000000, 0x1FFF) == 0
    ensures And64(Down13(x & 0x1FF0000000), 0xFFFFFFF) == Down13(x & 0x1FF0000000)
    ensures 0x1FFFFFFFFF == Xor64(0x1FF0000000, 0xFFFFFFF) && And64(0x1FF0000000, 0xFFFFFFF) == 0
    ensures And64(x & 0xFF80000, 0x1FFF) == 0 && And64(Down13(x & 0xFF80000), 0x7FFFF) == Down13(x & 0xFF80000)
    ensures 0xFFFFFFF == Xor64(0xFF80000, 0x7FFFF) && And64(0xFF80000, 0x7FFFF) == 0
    ensures And64(x & 0x7E000, 0x1FFF) == 0 && And64(Down13(x & 0x7E000), 0x1FFF) == Down13(x & 0x7E000)
    ensures 0x7FFFF == Xor64(0x7E000, 0x1FFF) && And64(0x7E000, 0x1FFF) == 0
  {
  }

  lemma Sq2Masks(x: bv64)
    ensures And64(x & 0x1FF0000000000, 0x1FFF) == 0
    ensures And64(Down13(x & 0x1FF0000000000), 0xFFFFFFFFFF) == Down13(x & 0x1FF0000000000)
    ensures 0x1FFFFFFFFFFFF == Xor64(0x1FF0000000000, 0xFFFFFFFFFF) && And64(0x1FF0000000000, 0xFFFFFFFFFF) == 0
    ensures And64(x & 0xFF80000000, 0x1FFF) == 0
    ensures And64(Down13(x & 0xFF80000000), 0x7FFFFFFF) == Down13(x & 0xFF80000000)
    ensures 0xFFFFFFFFFF == Xor64(0xFF80000000, 0x7FFFFFFF) && And64(0xFF80000000, 0x7FFFFFFF) == 0
    ensures And64(x & 0x7FC00000, 0x1FFF) == 0 && And64(Down13(x & 0x7FC00000), 0x3FFFFF) == Down13(x & 0x7FC00000)
    ensures 0x7FFFFFFF == Xor64(0x7FC00000, 0x3FFFFF) && And64(0x7FC00000, 0x3FFFFF) == 0
    ensures And64(x & 0x3FE000, 0x1FFF) == 0 && And64(Down13(x & 0x3FE000), 0x1FFF) == Down13(x & 0x3FE000)
    ensures 0x3FFFFF == Xor64(0x3FE000, 0x1FFF) && And64(0x3FE000, 0x1FFF) == 0
  {
  }

  lemma Sq2mulMasks(x: bv64)
    ensures And64(x & 0x1FF0000000000000, 0x1FFF) == 0
    ensures And64(Down13(x & 0x1FF0000000000000), 0xFFFFFFFFFFFFF) == Down13(x & 0x1FF0000000000000)
    ensures 0x1FFFFFFFFFFFFFFF == Xor64(0x1FF0000000000000, 0xFFFFFFFFFFFFF)
    ensures And64(0x1FF0000000000000, 0xFFFFFFFFFFFFF) == 0
    ensures And64(x & 0xFF80000000000, 0x1FFF) == 0
    ensures And64(Down13(x & 0xFF80000000000), 0x7FFFFFFFFFF) == Down13(x & 0xFF80000000000)
    ensures 0xFFFFFFFFFFFFF == Xor64(0xFF80000000000, 0x7FFFFFFFFFF) && And64(0xFF80000000000, 0x7FFFFFFFFFF) == 0
    ensures And64(x & 0x7FC00000000, 0x1FFF) == 0
    ensures And64(Down13(x & 0x7FC00000000), 0x3FFFFFFFF) == Down13(x & 0x7FC00000000)
    ensures 0x7FFFFFFFFFF == Xor64(0x7FC00000000, 0x3FFFFFFFF) && And64(0x7FC00000000, 0x3FFFFFFFF) == 0
    ensures And64(x & 0x3FE000000, 0x1FFF) == 0 && And64(Down13(x & 0x3FE000000), 0x1FFFFFF) == Down13(x & 0x3FE000000)
    ensures 0x3FFFFFFFF == Xor64(0x3FE000000, 0x1FFFFFF) && And64(0x3FE000000, 0x1FFFFFF) == 0
    ensures And64(x & 0x1FE0000, 0x1FFF) == 0 && And64(Down13(x & 0x1FE0000), 0x1FFFF) == Down13(x & 0x1FE0000)
    ensures 0x1FFFFFF == Xor64(0x1FE0000, 0x1FFFF) && And64(0x1FE0000, 0x1FFFF) == 0
    ensures And64(x & 0x1E000, 0x1FFF) == 0 && And64(Down13(x & 0x1E000), 0x1FFF) == Down13(x & 0x1E000)
    ensures 0x1FFFF == Xor64(0x1E000, 0x1FFF) && And64(0x1E000, 0x1FFF) == 0
  {
  }

}
