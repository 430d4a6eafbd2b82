/**
 Squares of bare words as straight-line bit operations, and the linear equations that only zero and
 one solve among the words that are their own squares.
 */
module SquareWords {
  import opened FieldWords

  /** Bit i of a moved to bit 2i. */
  function Spread(a: bv16): bv32
  {
    var x := a as bv32;
    var x := (x | (x << 8)) & 0x00FF00FF;
    var x := (x | (x << 4)) & 0x0F0F0F0F;
    var x := (x | (x << 2)) & 0x33333333;
    (x | (x << 1)) & 0x55555555
  }

  /** The source's step t = x & m; x ^= t >> 9; x ^= t >> 12, on 32-bit words. */
  function Halved12(x: bv32, m: bv32): bv32
  {
    var t := x & m;
    x ^ (t >> 9) ^ (t >> 12)
  }

  function Low12(x: bv32): bv16 { (x & 0x0FFF) as bv16 }

  function Square12(a: bv16): bv16
  {
    Low12(Halved12(Halved12(Spread(a), 0x7FC000), 0x3000))
  }

  /** The same in the field of 2^13 elements. */
  function Square13(a: bv16): bv16
  {
    var x := a as bv32;
    var x := (x | (x << 8)) & 0x00FF00FF;
    var x := (x | (x << 4)) & 0x0F0F0F0F;
    var x := (x | (x << 2)) & 0x33333333;
    var x := (x | (x << 1)) & 0x55555555;
    var t := x & 0x01FF0000;
    var x := x ^ (t >> 9) ^ (t >> 10) ^ (t >> 12) ^ (t >> 13);
    var t := x & 0x0000E000;
    var x := x ^ (t >> 9) ^ (t >> 10) ^ (t >> 12) ^ (t >> 13);
    (x & 0x1FFF) as bv16
  }

  function SquareWord(twelve: bool, a: bv16): bv16
  {
    if twelve then Square12(a) else Square13(a)
  }

  lemma Step12(a: bv16)
    requires a & 0xF000 == 0
    ensures Square12(a) == (a & 1) ^ Shift12(Shift12(Square12(a >> 1)))
  {
  }

  lemma Step13(a: bv16)
    requires a & 0xE000 == 0
    ensures Square13(a) == (a & 1) ^ Shift13(Shift13(Square13(a >> 1)))
  {
  }

  lemma SquareStep(twelve: bool, a: bv16)
    requires Fits(twelve, a)
    ensures SquareWord(twelve, a) == Xor(LowBit(a), Shift(twelve, Shift(twelve, SquareWord(twelve, Rest(a)))))
  {
    hide Square12, Square13, Shift12, Shift13;
    var h := Rest(a);
    if twelve {
      Step12(a);
      assert SquareWord(twelve, h) == Square12(h);
      assert Shift(twelve, Shift(twelve, Square12(h))) == Shift12(Shift12(Square12(h)));
    } else {
      Step13(a);
      assert SquareWord(twelve, h) == Square13(h);
      assert Shift(twelve, Shift(twelve, Square13(h))) == Shift13(Shift13(Square13(h)));
    }
  }

  /** The only words that are their own square: a system of linear equations over GF(2). */
  lemma FixedWords(twelve: bool, a: bv16)
    requires Fits(twelve, a) && SquareWord(twelve, a) == a
    ensures a == 0 || a == 1
  {
  }

  /** z squared 12 or 13 times is z again. */
  lemma PowersOfZ(twelve: bool)
    ensures var s := a => SquareWord(twelve, a);
            s(s(s(s(s(s(s(s(s(s(s(s(if twelve then 2 else s(2))))))))))))) == 2
    ensures SquareWord(twelve, 0) == 0 && Fits(twelve, 2) && 2 == Shift(twelve, 1)
  {
  }
}
