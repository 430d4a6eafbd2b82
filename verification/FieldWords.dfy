/**
 Bare 16-bit words as polynomials over GF(2): sums, and products by z modulo z^12 + z^3 + 1 or
 z^13 + z^4 + z^3 + z + 1, before the words are wrapped up as field elements.
 */
module FieldWords {

  function Xor(a: bv16, b: bv16): bv16 { a ^ b }

  function LowBit(a: bv16): bv16 { a & 1 }

  function Rest(a: bv16): bv16 { a >> 1 }

  /** No bit at or above 12 or 13 is set. */
  predicate Fits(twelve: bool, a: bv16)
  {
    a & (if twelve then 0xF000 else 0xE000) == 0
  }

  /** a times z, reduced by z^12 = z^3 + 1. */
  function Shift12(a: bv16): bv16
  {
    var t := a & 0x0800;
    (a << 1) ^ (t << 1) ^ (t >> 8) ^ (t >> 11)
  }

  /** a times z, reduced by z^13 = z^4 + z^3 + z + 1. */
  function Shift13(a: bv16): bv16
  {
    var t := a & 0x1000;
    (a << 1) ^ (t << 1) ^ (t >> 8) ^ (t >> 9) ^ (t >> 11) ^ (t >> 12)
  }

  function Shift(twelve: bool, a: bv16): bv16
  {
    if twelve then Shift12(a) else Shift13(a)
  }

  lemma ShiftXor12(a: bv16, b: bv16)
    ensures Shift12(a ^ b) == Shift12(a) ^ Shift12(b)
  {
  }

  lemma ShiftXor13(a: bv16, b: bv16)
    ensures Shift13(a ^ b) == Shift13(a) ^ Shift13(b)
  {
  }

  lemma ShiftXor(twelve: bool, a: bv16, b: bv16)
    ensures Shift(twelve, Xor(a, b)) == Xor(Shift(twelve, a), Shift(twelve, b))
  {
    hide Shift12, Shift13;
    ShiftXor12(a, b);
    ShiftXor13(a, b);
  }

  lemma ShiftFits(twelve: bool, a: bv16)
    requires Fits(twelve, a)
    ensures Fits(twelve, Shift(twelve, a))
  {
  }

  lemma ShiftRest12(a: bv16)
    requires a & 0xF000 == 0
    ensures a == (a & 1) ^ Shift12(a >> 1)
  {
  }

  lemma ShiftRest13(a: bv16)
    requires a & 0xE000 == 0
    ensures a == (a & 1) ^ Shift13(a >> 1)
  {
  }

  lemma ShiftRest(twelve: bool, a: bv16)
    requires Fits(twelve, a)
    ensures a == Xor(LowBit(a), Shift(twelve, Rest(a)))
  {
    hide Shift12, Shift13;
    if twelve { ShiftRest12(a); } else { ShiftRest13(a); }
  }

  lemma RestFits(twelve: bool, a: bv16)
    requires Fits(twelve, a)
    ensures Fits(twelve, LowBit(a)) && Fits(twelve, Rest(a))
  {
  }

  lemma Bits(a: bv16)
    ensures LowBit(a) == 0 || LowBit(a) == 1
    ensures a != 0 ==> Rest(a) < a
  {
  }

  lemma XorFits(twelve: bool, a: bv16, b: bv16)
    requires Fits(twelve, a) && Fits(twelve, b)
    ensures Fits(twelve, Xor(a, b))
  {
  }

  lemma XorBits(a: bv16, b: bv16)
    ensures Rest(Xor(a, b)) == Xor(Rest(a), Rest(b)) && LowBit(Xor(a, b)) == Xor(LowBit(a), LowBit(b))
  {
  }

  lemma XorComm(a: bv16, b: bv16)
    ensures Xor(a, b) == Xor(b, a) && (Xor(a, b) == 0 <==> a == b)
    ensures Xor(a, 0) == a
  {
    RawComm(a, b);
  }

  lemma RawComm(a: bv16, b: bv16)
    ensures a ^ b == b ^ a && (a ^ b == 0 <==> a == b)
    ensures a ^ 0 == a
  {
  }

  lemma XorAssoc(a: bv16, b: bv16, c: bv16)
    ensures Xor(Xor(a, b), c) == Xor(a, Xor(b, c))
  {
  }
}
