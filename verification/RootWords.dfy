/**
 The defining polynomials F(y) of the builds as equations between bare words of 12 or 13 bits. None of
 them has a solution; every lemma fixes the highest bits of the word and leaves the others open.
 */
module RootWords {
  import opened FieldWords
  import opened SquareWords

  // ----- products, three coefficients of b at a time

  function Picked(b: bv16, m: bv16): bv16 { if b & 1 == 1 then m else 0 }

  /** The product of m with the three lowest coefficients of b, modulo z^12 + z^3 + 1. */
  function Three12(m: bv16, b: bv16): bv16
  {
    var t := m & 0x0800;
    var m1 := (m << 1) ^ (t << 1) ^ (t >> 8) ^ (t >> 11);
    var t := m1 & 0x0800;
    var m2 := (m1 << 1) ^ (t << 1) ^ (t >> 8) ^ (t >> 11);
    var (b1, b2) := (b >> 1, b >> 2);
    (if b & 1 == 1 then m else 0) ^ ((if b1 & 1 == 1 then m1 else 0) ^ (if b2 & 1 == 1 then m2 else 0))
  }

  function ShiftThree12(m: bv16): bv16
  {
    var t := m & 0x0800;
    var m1 := (m << 1) ^ (t << 1) ^ (t >> 8) ^ (t >> 11);
    var t := m1 & 0x0800;
    var m2 := (m1 << 1) ^ (t << 1) ^ (t >> 8) ^ (t >> 11);
    var t := m2 & 0x0800;
    (m2 << 1) ^ (t << 1) ^ (t >> 8) ^ (t >> 11)
  }

  lemma Three12Is(m: bv16, b: bv16)
    ensures Three12(m, b) == Picked(b, m) ^ (Picked(b >> 1, Shift12(m)) ^ Picked(b >> 2, Shift12(Shift12(m))))
    ensures ShiftThree12(m) == Shift12(Shift12(Shift12(m)))
  {
  }

  function Product12(m: bv16, b: bv16): bv16
  {
    var m3 := ShiftThree12(m);
    var m6 := ShiftThree12(m3);
    Three12(m, b) ^ (Three12(m3, b >> 3) ^ (Three12(m6, b >> 6) ^ Three12(ShiftThree12(m6), b >> 9)))
  }

  /** The product of m with the three lowest coefficients of b, modulo z^13 + z^4 + z^3 + z + 1. */
  function Three13(m: bv16, b: bv16): bv16
  {
    var t := m & 0x1000;
    var m1 := (m << 1) ^ (t << 1) ^ (t >> 8) ^ (t >> 9) ^ (t >> 11) ^ (t >> 12);
    var t := m1 & 0x1000;
    var m2 := (m1 << 1) ^ (t << 1) ^ (t >> 8) ^ (t >> 9) ^ (t >> 11) ^ (t >> 12);
    var (b1, b2) := (b >> 1, b >> 2);
    (if b & 1 == 1 then m else 0) ^ ((if b1 & 1 == 1 then m1 else 0) ^ (if b2 & 1 == 1 then m2 else 0))
  }

  function ShiftThree13(m: bv16): bv16
  {
    var t := m & 0x1000;
    var m1 := (m << 1) ^ (t << 1) ^ (t >> 8) ^ (t >> 9) ^ (t >> 11) ^ (t >> 12);
    var t := m1 & 0x1000;
    var m2 := (m1 << 1) ^ (t << 1) ^ (t >> 8) ^ (t >> 9) ^ (t >> 11) ^ (t >> 12);
    var t := m2 & 0x1000;
    (m2 << 1) ^ (t << 1) ^ (t >> 8) ^ (t >> 9) ^ (t >> 11) ^ (t >> 12)
  }

  lemma Three13Is(m: bv16, b: bv16)
    ensures Three13(m, b) == Picked(b, m) ^ (Picked(b >> 1, Shift13(m)) ^ Picked(b >> 2, Shift13(Shift13(m))))
    ensures ShiftThree13(m) == Shift13(Shift13(Shift13(m)))
  {
  }

  /** The product of m with the four lowest coefficients of b. */
  function Four13(m: bv16, b: bv16): bv16
  {
    Three13(m, b) ^ Picked(b >> 3, ShiftThree13(m))
  }

  function Product13(m: bv16, b: bv16): bv16
  {
    var m3 := ShiftThree13(m);
    var m6 := ShiftThree13(m3);
    Three13(m, b) ^ (Three13(m3, b >> 3) ^ (Three13(m6, b >> 6) ^ Four13(ShiftThree13(m6), b >> 9)))
  }

  // ----- the equations

  /** a^64 + a^3 + a = z. */
  predicate Solves64(a: bv16)
  {
    var a2 := Square12(a);
    (Square12(Square12(Square12(Square12(Square12(a2))))) ^ Product12(a2, a)) ^ a == 2
  }

  /** a^96 + a^10 + a^9 + a^6 = 1, where a^96 + a^6 is the sum of two powers of a^3. */
  predicate Solves96(a: bv16)
  {
    var a2 := Square13(a);
    var a8 := Square13(Square13(a2));
    var a6 := Square13(Product13(a2, a));
    (Square13(Square13(Square13(Square13(a6)))) ^ a6) ^ Product13(a8, a2 ^ a) == 1
  }

  /** a^128 + a^17 + a^9 = 0, which is a^9 times a^119 + a^8 + 1. */
  predicate Solves119(a: bv16)
  {
    var a8 := Square13(Square13(Square13(a)));
    var a16 := Square13(a8);
    Product13(a16 ^ a8, a) == Square13(Square13(Square13(a16)))
  }

  /** a^129 + a^8 + a^3 + a^2 + a = 0, which is a times a^128 + a^7 + a^2 + a + 1. */
  predicate Solves128(a: bv16)
  {
    var a2 := Square13(a);
    var a8 := Square13(Square13(a2));
    ((Product13(Square13(Square13(Square13(Square13(a8)))) ^ a2, a) ^ a8) ^ a2) ^ a == 0
  }

  lemma Solves64Slice0(a: bv16)
    requires a & 0xF800 == 0x0000
    ensures !Solves64(a)
  {
  }

  lemma Solves64Slice1(a: bv16)
    requires a & 0xF800 == 0x0800
    ensures !Solves64(a)
  {
  }

  lemma Solves96Slice0(a: bv16)
    requires a & 0xFE00 == 0x0000 && a != 0
    ensures !Solves96(a)
  {
  }

  lemma Solves96Slice1(a: bv16)
    requires a & 0xFE00 == 0x0200 && a != 0
    ensures !Solves96(a)
  {
  }

  lemma Solves96Slice2(a: bv16)
    requires a & 0xFE00 == 0x0400 && a != 0
    ensures !Solves96(a)
  {
  }

  lemma Solves96Slice3(a: bv16)
    requires a & 0xFE00 == 0x0600 && a != 0
    ensures !Solves96(a)
  {
  }

  lemma Solves96Slice4(a: bv16)
    requires a & 0xFE00 == 0x0800 && a != 0
    ensures !Solves96(a)
  {
  }

  lemma Solves96Slice5(a: bv16)
    requires a & 0xFE00 == 0x0A00 && a != 0
    ensures !Solves96(a)
  {
  }

  lemma Solves96Slice6(a: bv16)
    requires a & 0xFE00 == 0x0C00 && a != 0
    ensures !Solves96(a)
  {
  }

  lemma Solves96Slice7(a: bv16)
    requires a & 0xFE00 == 0x0E00 && a != 0
    ensures !Solves96(a)
  {
  }

  lemma Solves96Slice8(a: bv16)
    requires a & 0xFE00 == 0x1000 && a != 0
    ensures !Solves96(a)
  {
  }

  lemma Solves96Slice9(a: bv16)
    requires a & 0xFE00 == 0x1200 && a != 0
    ensures !Solves96(a)
  {
  }

  lemma Solves96Slice10(a: bv16)
    requires a & 0xFE00 == 0x1400 && a != 0
    ensures !Solves96(a)
  {
  }

  lemma Solves96Slice11(a: bv16)
    requires a & 0xFE00 == 0x1600 && a != 0
    ensures !Solves96(a)
  {
  }

  lemma Solves96Slice12(a: bv16)
    requires a & 0xFE00 == 0x1800 && a != 0
    ensures !Solves96(a)
  {
  }

  lemma Solves96Slice13(a: bv16)
    requires a & 0xFE00 == 0x1A00 && a != 0
    ensures !Solves96(a)
  {
  }

  lemma Solves96Slice14(a: bv16)
    requires a & 0xFE00 == 0x1C00 && a != 0
    ensures !Solves96(a)
  {
  }

  lemma Solves96Slice15(a: bv16)
    requires a & 0xFE00 == 0x1E00 && a != 0
    ensures !Solves96(a)
  {
  }

  lemma Solves119Slice0(a: bv16)
    requires a & 0xFC00 == 0x0000 && a != 0
    ensures !Solves119(a)
  {
  }

  lemma Solves119Slice1(a: bv16)
    requires a & 0xFC00 == 0x0400 && a != 0
    ensures !Solves119(a)
  {
  }

  lemma Solves119Slice2(a: bv16)
    requires a & 0xFC00 == 0x0800 && a != 0
    ensures !Solves119(a)
  {
  }

  lemma Solves119Slice3(a: bv16)
    requires a & 0xFC00 == 0x0C00 && a != 0
    ensures !Solves119(a)
  {
  }

  lemma Solves119Slice4(a: bv16)
    requires a & 0xFC00 == 0x1000 && a != 0
    ensures !Solves119(a)
  {
  }

  lemma Solves119Slice5(a: bv16)
    requires a & 0xFC00 == 0x1400 && a != 0
    ensures !Solves119(a)
  {
  }

  lemma Solves119Slice6(a: bv16)
    requires a & 0xFC00 == 0x1800 && a != 0
    ensures !Solves119(a)
  {
  }

  lemma Solves119Slice7(a: bv16)
    requires a & 0xFC00 == 0x1C00 && a != 0
    ensures !Solves119(a)
  {
  }

  lemma Solves128Slice0(a: bv16)
    requires a & 0xFC00 == 0x0000 && a != 0
    ensures !Solves128(a)
  {
  }

  lemma Solves128Slice1(a: bv16)
    requires a & 0xFC00 == 0x0400 && a != 0
    ensures !Solves128(a)
  {
  }

  lemma Solves128Slice2(a: bv16)
    requires a & 0xFC00 == 0x0800 && a != 0
    ensures !Solves128(a)
  {
  }

  lemma Solves128Slice3(a: bv16)
    requires a & 0xFC00 == 0x0C00 && a != 0
    ensures !Solves128(a)
  {
  }

  lemma Solves128Slice4(a: bv16)
    requires a & 0xFC00 == 0x1000 && a != 0
    ensures !Solves128(a)
  {
  }

  lemma Solves128Slice5(a: bv16)
    requires a & 0xFC00 == 0x1400 && a != 0
    ensures !Solves128(a)
  {
  }

  lemma Solves128Slice6(a: bv16)
    requires a & 0xFC00 == 0x1800 && a != 0
    ensures !Solves128(a)
  {
  }

  lemma Solves128Slice7(a: bv16)
    requires a & 0xFC00 == 0x1C00 && a != 0
    ensures !Solves128(a)
  {
  }

  lemma Solves64Cases(a: bv16)
    requires a & 0xF000 == 0
    ensures
      || a & 0xF800 == 0x0000 || a & 0xF800 == 0x0800
  {
  }

  lemma NoSolves64(a: bv16)
    requires a & 0xF000 == 0
    ensures !Solves64(a)
  {
    hide Solves64;
    Solves64Cases(a);
    if a & 0xF800 == 0x0000 { Solves64Slice0(a); }
    if a & 0xF800 == 0x0800 { Solves64Slice1(a); }
  }

  lemma Solves96Cases(a: bv16)
    requires a & 0xE000 == 0
    ensures
      || a & 0xFE00 == 0x0000 || a & 0xFE00 == 0x0200 || a & 0xFE00 == 0x0400 || a & 0xFE00 == 0x0600
      || a & 0xFE00 == 0x0800 || a & 0xFE00 == 0x0A00 || a & 0xFE00 == 0x0C00 || a & 0xFE00 == 0x0E00
      || a & 0xFE00 == 0x1000 || a & 0xFE00 == 0x1200 || a & 0xFE00 == 0x1400 || a & 0xFE00 == 0x1600
      || a & 0xFE00 == 0x1800 || a & 0xFE00 == 0x1A00 || a & 0xFE00 == 0x1C00 || a & 0xFE00 == 0x1E00
  {
  }

  lemma NoSolves96(a: bv16)
    requires a & 0xE000 == 0 && a != 0
    ensures !Solves96(a)
  {
    hide Solves96;
    Solves96Cases(a);
    if a & 0xFE00 == 0x0000 { Solves96Slice0(a); }
    if a & 0xFE00 == 0x0200 { Solves96Slice1(a); }
    if a & 0xFE00 == 0x0400 { Solves96Slice2(a); }
    if a & 0xFE00 == 0x0600 { Solves96Slice3(a); }
    if a & 0xFE00 == 0x0800 { Solves96Slice4(a); }
    if a & 0xFE00 == 0x0A00 { Solves96Slice5(a); }
    if a & 0xFE00 == 0x0C00 { Solves96Slice6(a); }
    if a & 0xFE00 == 0x0E00 { Solves96Slice7(a); }
    if a & 0xFE00 == 0x1000 { Solves96Slice8(a); }
    if a & 0xFE00 == 0x1200 { Solves96Slice9(a); }
    if a & 0xFE00 == 0x1400 { Solves96Slice10(a); }
    if a & 0xFE00 == 0x1600 { Solves96Slice11(a); }
    if a & 0xFE00 == 0x1800 { Solves96Slice12(a); }
    if a & 0xFE00 == 0x1A00 { Solves96Slice13(a); }
    if a & 0xFE00 == 0x1C00 { Solves96Slice14(a); }
    if a & 0xFE00 == 0x1E00 { Solves96Slice15(a); }
  }

  lemma Solves119Cases(a: bv16)
    requires a & 0xE000 == 0
    ensures
      || a & 0xFC00 == 0x0000 || a & 0xFC00 == 0x0400 || a & 0xFC00 == 0x0800 || a & 0xFC00 == 0x0C00
      || a & 0xFC00 == 0x1000 || a & 0xFC00 == 0x1400 || a & 0xFC00 == 0x1800 || a & 0xFC00 == 0x1C00
  {
  }

  lemma NoSolves119(a: bv16)
    requires a & 0xE000 == 0 && a != 0
    ensures !Solves119(a)
  {
    hide Solves119;
    Solves119Cases(a);
    if a & 0xFC00 == 0x0000 { Solves119Slice0(a); }
    if a & 0xFC00 == 0x0400 { Solves119Slice1(a); }
    if a & 0xFC00 == 0x0800 { Solves119Slice2(a); }
    if a & 0xFC00 == 0x0C00 { Solves119Slice3(a); }
    if a & 0xFC00 == 0x1000 { Solves119Slice4(a); }
    if a & 0xFC00 == 0x1400 { Solves119Slice5(a); }
    if a & 0xFC00 == 0x1800 { Solves119Slice6(a); }
    if a & 0xFC00 == 0x1C00 { Solves119Slice7(a); }
  }

  lemma Solves128Cases(a: bv16)
    requires a & 0xE000 == 0
    ensures
      || a & 0xFC00 == 0x0000 || a & 0xFC00 == 0x0400 || a & 0xFC00 == 0x0800 || a & 0xFC00 == 0x0C00
      || a & 0xFC00 == 0x1000 || a & 0xFC00 == 0x1400 || a & 0xFC00 == 0x1800 || a & 0xFC00 == 0x1C00
  {
  }

  lemma NoSolves128(a: bv16)
    requires a & 0xE000 == 0 && a != 0
    ensures !Solves128(a)
  {
    hide Solves128;
    Solves128Cases(a);
    if a & 0xFC00 == 0x0000 { Solves128Slice0(a); }
    if a & 0xFC00 == 0x0400 { Solves128Slice1(a); }
    if a & 0xFC00 == 0x0800 { Solves128Slice2(a); }
    if a & 0xFC00 == 0x0C00 { Solves128Slice3(a); }
    if a & 0xFC00 == 0x1000 { Solves128Slice4(a); }
    if a & 0xFC00 == 0x1400 { Solves128Slice5(a); }
    if a & 0xFC00 == 0x1800 { Solves128Slice6(a); }
    if a & 0xFC00 == 0x1C00 { Solves128Slice7(a); }
  }
}
