/** The field GF(2^12) or GF(2^13) on 16-bit words (src/gf.rs), and its laws. */
module Field {
  import opened Params
  import opened FieldWords

  datatype Word = Gf(bits: bv16)

  predicate InField(a: Word)
  {
    Fits(GFBITS == 12, a.bits)
  }

  type Gf = a: Word | InField(a) witness Gf(0)

  const ZERO: Gf := Gf(0)
  const ONE: Gf := Gf(1)

  /** gf_add. */
  function Add(a: Gf, b: Gf): Gf
  {
    hide Xor, Fits;
    XorFits(GFBITS == 12, a.bits, b.bits);
    Gf(Xor(a.bits, b.bits))
  }

  /** a times z. */
  function TimesZ(a: Gf): Gf
  {
    hide Shift, Fits;
    ShiftFits(GFBITS == 12, a.bits);
    Gf(Shift(GFBITS == 12, a.bits))
  }

  /** The constant coefficient of a. */
  function Low(a: Gf): Gf
  {
    hide LowBit, Rest, Fits;
    RestFits(GFBITS == 12, a.bits);
    Gf(LowBit(a.bits))
  }

  /** a without its constant coefficient, divided by z. */
  function Half(a: Gf): Gf
  {
    hide LowBit, Rest, Fits;
    RestFits(GFBITS == 12, a.bits);
    Gf(Rest(a.bits))
  }

  /** The coefficient c, 0 or 1, times a. */
  function Scaled(c: Gf, a: Gf): Gf
  {
    if c == ONE then a else ZERO
  }

  /** The product of polynomials, from the coefficients of b. */
  function Mul(a: Gf, b: Gf): Gf
    decreases b.bits
  {
    hide TimesZ, Low, Half, Add;
    Split(b);
    if b == ZERO then ZERO else Add(Scaled(Low(b), a), TimesZ(Mul(a, Half(b))))
  }

  // ----- addition

  lemma AddComm(a: Gf, b: Gf)
    ensures Add(a, b) == Add(b, a)
  {
    hide Xor, Fits;
    XorComm(a.bits, b.bits);
  }

  lemma AddAssoc(a: Gf, b: Gf, c: Gf)
    ensures Add(Add(a, b), c) == Add(a, Add(b, c))
  {
    hide Xor, Fits;
    XorAssoc(a.bits, b.bits, c.bits);
  }

  lemma AddZero(a: Gf)
    ensures Add(a, ZERO) == a == Add(ZERO, a)
  {
    hide Xor, Fits;
    XorComm(a.bits, 0);
  }

  lemma AddCancel(a: Gf, b: Gf)
    ensures Add(a, b) == ZERO <==> a == b
  {
    hide Xor, Fits;
    XorComm(a.bits, b.bits);
  }

  lemma AddCross(a: Gf, b: Gf, c: Gf, d: Gf)
    ensures Add(Add(a, b), Add(c, d)) == Add(Add(a, c), Add(b, d))
  {
    hide Add;
    AddAssoc(a, b, Add(c, d));
    AddAssoc(b, c, d); AddComm(b, c); AddAssoc(c, b, d);
    AddAssoc(a, c, Add(b, d));
  }

  // ----- multiplication by z

  lemma TimesZAdd(a: Gf, b: Gf)
    ensures TimesZ(Add(a, b)) == Add(TimesZ(a), TimesZ(b))
  {
    hide Shift, Xor, Fits;
    ShiftXor(GFBITS == 12, a.bits, b.bits);
  }

  lemma TimesZZero()
    ensures TimesZ(ZERO) == ZERO
  {
  }

  /** a = Low(a) + z * Half(a). */
  lemma Split(a: Gf)
    ensures a == Add(Low(a), TimesZ(Half(a)))
    ensures Low(a) == ZERO || Low(a) == ONE
    ensures a != ZERO ==> Half(a).bits < a.bits
  {
    hide Shift, Xor, Fits, LowBit, Rest;
    Bits(a.bits);
    ShiftRest(GFBITS == 12, a.bits);
  }

  lemma SplitAdd(a: Gf, b: Gf)
    ensures Half(Add(a, b)) == Add(Half(a), Half(b)) && Low(Add(a, b)) == Add(Low(a), Low(b))
  {
    hide Shift, Xor, Fits, LowBit, Rest;
    XorBits(a.bits, b.bits);
  }

  lemma SplitZero()
    ensures Half(ZERO) == ZERO && Low(ZERO) == ZERO
    ensures Half(ONE) == ZERO && Low(ONE) == ONE && ONE != ZERO
  {
  }

  // ----- the laws of a commutative ring

  lemma ScaledAdd(c: Gf, a: Gf, b: Gf)
    ensures Scaled(c, Add(a, b)) == Add(Scaled(c, a), Scaled(c, b))
    ensures Scaled(c, TimesZ(a)) == TimesZ(Scaled(c, a))
  {
    hide TimesZ, Add;
    AddZero(ZERO);
    TimesZZero();
  }

  lemma AddScaled(c: Gf, d: Gf, a: Gf)
    requires (c == ZERO || c == ONE) && (d == ZERO || d == ONE)
    ensures Scaled(Add(c, d), a) == Add(Scaled(c, a), Scaled(d, a))
  {
    hide TimesZ, Add;
    SplitZero();
    AddZero(c); AddZero(d); AddZero(a); AddZero(ZERO);
    AddCancel(c, d); AddCancel(a, a);
  }

  lemma MulStep(a: Gf, b: Gf)
    ensures Mul(a, b) == Add(Scaled(Low(b), a), TimesZ(Mul(a, Half(b))))
  {
    hide TimesZ, Low, Half, Add;
    SplitZero();
    AddZero(ZERO);
    TimesZZero();
  }

  lemma {:induction false} MulAddLeft(a: Gf, b: Gf, c: Gf)
    ensures Mul(Add(a, b), c) == Add(Mul(a, c), Mul(b, c))
    decreases c.bits
  {
    hide *;
    if c == ZERO {
      ZeroRight(Add(a, b)); ZeroRight(a); ZeroRight(b);
      AddZero(ZERO);
    } else {
      Split(c);
      var h := Half(c);
      MulStep(Add(a, b), c); MulStep(a, c); MulStep(b, c);
      MulAddLeft(a, b, h);
      ScaledAdd(Low(c), a, b);
      TimesZAdd(Mul(a, h), Mul(b, h));
      AddCross(Scaled(Low(c), a), Scaled(Low(c), b), TimesZ(Mul(a, h)), TimesZ(Mul(b, h)));
    }
  }

  lemma ZeroRight(a: Gf)
    ensures Mul(a, ZERO) == ZERO
  {
    hide TimesZ, Low, Half, Add;
  }

  lemma {:induction false} MulZLeft(a: Gf, b: Gf)
    ensures Mul(TimesZ(a), b) == TimesZ(Mul(a, b))
    decreases b.bits
  {
    hide *;
    if b == ZERO {
      ZeroRight(TimesZ(a)); ZeroRight(a);
      TimesZZero();
    } else {
      Split(b);
      var h := Half(b);
      MulStep(TimesZ(a), b); MulStep(a, b);
      MulZLeft(a, h);
      ScaledAdd(Low(b), a, a);
      TimesZAdd(Scaled(Low(b), a), TimesZ(Mul(a, h)));
    }
  }

  lemma {:induction false} MulAddRight(a: Gf, b: Gf, c: Gf)
    ensures Mul(a, Add(b, c)) == Add(Mul(a, b), Mul(a, c))
    decreases b.bits
  {
    hide *;
    if b == ZERO {
      AddZero(c); ZeroRight(a); AddZero(Mul(a, c));
    } else {
      Split(b); Split(c);
      var h, k := Half(b), Half(c);
      MulStep(a, b); MulStep(a, c); MulStep(a, Add(b, c));
      SplitAdd(b, c);
      MulAddRight(a, h, k);
      AddScaled(Low(b), Low(c), a);
      TimesZAdd(Mul(a, h), Mul(a, k));
      AddCross(Scaled(Low(b), a), Scaled(Low(c), a), TimesZ(Mul(a, h)), TimesZ(Mul(a, k)));
    }
  }

  lemma OneRight(a: Gf)
    ensures Mul(a, ONE) == a
  {
    hide Mul, TimesZ, Low, Half, Add;
    MulStep(a, ONE);
    SplitZero();
    ZeroRight(a);
    TimesZZero();
    AddZero(a);
  }

  lemma {:induction false} OneLeft(b: Gf)
    ensures Mul(ONE, b) == b
    decreases b.bits
  {
    hide *;
    if b == ZERO {
      ZeroRight(ONE);
    } else {
      Split(b);
      MulStep(ONE, b);
      OneLeft(Half(b));
      ScaledOne(Low(b));
    }
  }

  lemma ScaledOne(c: Gf)
    requires c == ZERO || c == ONE
    ensures Scaled(c, ONE) == c
  {
  }

  lemma {:induction false} MulComm(a: Gf, b: Gf)
    ensures Mul(a, b) == Mul(b, a)
    decreases b.bits
  {
    hide *;
    if b == ZERO {
      ZeroRight(a); ZeroLeft(a);
    } else {
      Split(b);
      var c, h := Low(b), Half(b);
      MulStep(a, b);
      MulComm(a, h);
      MulAddLeft(c, TimesZ(h), a);
      MulZLeft(h, a);
      ScaledIsMul(c, a);
    }
  }

  lemma {:induction false} ZeroLeft(b: Gf)
    ensures Mul(ZERO, b) == ZERO
  {
    hide *;
    AddCancel(ZERO, ZERO);
    MulAddLeft(ZERO, ZERO, b);
    AddCancel(Mul(ZERO, b), Mul(ZERO, b));
  }

  lemma ScaledIsMul(c: Gf, a: Gf)
    requires c == ZERO || c == ONE
    ensures Scaled(c, a) == Mul(c, a)
  {
    hide Mul, TimesZ, Low, Half, Add;
    ZeroLeft(a); OneLeft(a);
    SplitZero();
  }

  lemma {:induction false} MulAssoc(a: Gf, b: Gf, c: Gf)
    ensures Mul(Mul(a, b), c) == Mul(a, Mul(b, c))
    decreases c.bits
  {
    hide *;
    if c == ZERO {
      ZeroRight(Mul(a, b)); ZeroRight(b); ZeroRight(a);
    } else {
      Split(c);
      var d, h := Low(c), Half(c);
      MulStep(Mul(a, b), c); MulStep(b, c);
      MulAssoc(a, b, h);
      MulAddRight(a, Scaled(d, b), TimesZ(Mul(b, h)));
      MulZRight(a, Mul(b, h));
      MulScaled(a, d, b);
    }
  }

  lemma MulZRight(a: Gf, b: Gf)
    ensures Mul(a, TimesZ(b)) == TimesZ(Mul(a, b))
  {
    hide *;
    MulComm(a, TimesZ(b)); MulZLeft(b, a); MulComm(a, b);
  }

  lemma MulScaled(a: Gf, d: Gf, b: Gf)
    ensures Mul(a, Scaled(d, b)) == Scaled(d, Mul(a, b))
  {
    hide Mul, TimesZ, Low, Half, Add;
    ZeroRight(a);
  }

  // ----- gf_iszero

  /** gf_iszero: all 13 bits for zero, and none otherwise. */
  function IsZero(a: Gf): bv16 { ZeroMask(a.bits) }

  function ZeroMask(a: bv16): bv16
  {
    (((a as bv32) - 1) >> 19) as bv16
  }

  lemma IsZeroIs(a: Gf)
    ensures IsZero(a) == if a == ZERO then 0x1FFF else 0
  {
  }

  function CutWord(a: bv16, mask: bv16): bv16 { a & mask }

  /** a & mask. */
  function Cut(a: Gf, mask: bv16): Gf
  {
    CutFits(GFBITS == 12, a.bits, mask);
    Gf(CutWord(a.bits, mask))
  }

  lemma CutFits(twelve: bool, a: bv16, mask: bv16)
    requires Fits(twelve, a)
    ensures Fits(twelve, CutWord(a, mask))
  {
  }

  /** The mask of gf_iszero multiplies by one or by zero. */
  lemma CutIs(a: Gf, b: Gf)
    ensures Cut(b, IsZero(a)) == if a == ZERO then b else ZERO
  {
    hide ZeroMask, CutWord, Fits;
    MaskedWord(GFBITS == 12, a.bits, b.bits);
  }

  lemma MaskedWord(twelve: bool, a: bv16, b: bv16)
    requires Fits(twelve, b)
    ensures CutWord(b, ZeroMask(a)) == if a == 0 then b else 0
  {
  }

  // ----- the polynomial of the field

  /** A product by z moves the word up by one bit, modulo z^12 + z^3 + 1 or z^13 + z^4 + z^3 + z + 1. */
  lemma TimesZWord(a: Gf)
    ensures TimesZ(a).bits
         == if GFBITS == 12 then (if a.bits & 0x0800 == 0 then a.bits << 1 else (a.bits << 1) ^ 0x1009)
            else (if a.bits & 0x1000 == 0 then a.bits << 1 else (a.bits << 1) ^ 0x201B)
    ensures ONE.bits == 1
  {
    hide Fits, Shift;
    ShiftWord(GFBITS == 12, a.bits);
  }

  lemma ShiftWord(twelve: bool, a: bv16)
    requires Fits(twelve, a)
    ensures Shift(twelve, a)
         == if twelve then (if a & 0x0800 == 0 then a << 1 else (a << 1) ^ 0x1009)
            else (if a & 0x1000 == 0 then a << 1 else (a << 1) ^ 0x201B)
  {
  }
}
