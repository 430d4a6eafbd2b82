/** Squaring in the field, and the inverses it yields. */
module Frobenius {
  import opened Params
  import opened FieldWords
  import opened Field
  import opened SquareWords

  function Square(a: Gf): Gf { Mul(a, a) }

  /** a to the power 2^k. */
  function Frob(k: nat, a: Gf): Gf
  {
    if k == 0 then a else Square(Frob(k - 1, a))
  }

  /** a to the power 2^k - 1. */
  function Ones(k: nat, a: Gf): Gf
  {
    if k == 0 then ONE else Mul(Square(Ones(k - 1, a)), a)
  }

  /** a to the power 2^GFBITS - 2. */
  function Inv(a: Gf): Gf
  {
    Square(Ones(GFBITS - 1, a))
  }

  lemma MulCross(a: Gf, b: Gf, c: Gf, d: Gf)
    ensures Mul(Mul(a, b), Mul(c, d)) == Mul(Mul(a, c), Mul(b, d))
  {
    hide *;
    MulAssoc(a, b, Mul(c, d));
    MulAssoc(b, c, d); MulComm(b, c); MulAssoc(c, b, d);
    MulAssoc(a, c, Mul(b, d));
  }

  /** Squaring is additive in characteristic two, and multiplicative. */
  lemma SquareAdd(a: Gf, b: Gf)
    ensures Square(Add(a, b)) == Add(Square(a), Square(b))
  {
    hide Mul, Add;
    MulAddLeft(a, b, Add(a, b));
    MulAddRight(a, a, b); MulAddRight(b, a, b);
    MulComm(a, b);
    var ab := Mul(a, b);
    AddComm(ab, Mul(b, b));
    AddCross(Mul(a, a), ab, Mul(b, b), ab);
    AddCancel(ab, ab);
    AddZero(Add(Mul(a, a), Mul(b, b)));
  }

  lemma SquareMul(a: Gf, b: Gf)
    ensures Square(Mul(a, b)) == Mul(Square(a), Square(b))
  {
    hide Mul;
    MulCross(a, b, a, b);
  }

  lemma {:induction false} FrobMul(k: nat, a: Gf, b: Gf)
    ensures Frob(k, Mul(a, b)) == Mul(Frob(k, a), Frob(k, b))
  {
    hide Mul, Square;
    if k > 0 {
      FrobMul(k - 1, a, b);
      SquareMul(Frob(k - 1, a), Frob(k - 1, b));
    }
  }

  lemma {:induction false} FrobAdd(k: nat, a: Gf, b: Gf)
    ensures Frob(k, Add(a, b)) == Add(Frob(k, a), Frob(k, b))
  {
    hide Add, Square;
    if k > 0 {
      FrobAdd(k - 1, a, b);
      SquareAdd(Frob(k - 1, a), Frob(k - 1, b));
    }
  }

  lemma {:induction false} FrobConstant(k: nat, a: Gf)
    requires a == ZERO || a == ONE
    ensures Frob(k, a) == a
  {
    hide Mul;
    if k > 0 {
      FrobConstant(k - 1, a);
      OneLeft(ONE); ZeroLeft(ZERO);
    }
  }

  // ----- the squares as words

  lemma TimesZIsMul(a: Gf)
    ensures TimesZ(a) == Mul(TimesZ(ONE), a)
  {
    hide *;
    MulZLeft(ONE, a); OneLeft(a);
  }

  lemma {:induction false} SquareIsWord(a: Gf)
    ensures Square(a).bits == SquareWord(GFBITS == 12, a.bits)
    decreases a.bits
  {
    hide Mul, Add, TimesZ, Low, Half, SquareWord;
    if a == ZERO {
      ZeroLeft(ZERO);
      PowersOfZ(GFBITS == 12);
    } else {
      Split(a);
      SquareIsWord(Half(a));
      SquareSplit(a);
      SquareStep(GFBITS == 12, a.bits);
      WordStep(Low(a), Square(Half(a)));
      HalfBits(a);
    }
  }

  lemma HalfBits(a: Gf)
    ensures Low(a).bits == LowBit(a.bits) && Half(a).bits == Rest(a.bits)
  {
  }

  lemma WordStep(c: Gf, a: Gf)
    ensures Add(c, TimesZ(TimesZ(a))).bits
         == Xor(c.bits, Shift(GFBITS == 12, Shift(GFBITS == 12, a.bits)))
  {
    hide Xor, Shift, Fits;
  }

  lemma SquareSplit(a: Gf)
    ensures Square(a) == Add(Low(a), TimesZ(TimesZ(Square(Half(a)))))
  {
    hide Mul, Add, TimesZ, Low, Half;
    Split(a);
    var h := Half(a);
    SquareAdd(Low(a), TimesZ(h));
    MulZLeft(h, TimesZ(h)); MulZRight(h, h);
    OneLeft(ONE); ZeroLeft(ZERO);
  }

  // ----- Fermat's little theorem and inverses

  lemma FrobZ()
    ensures Frob(GFBITS, TimesZ(ONE)) == TimesZ(ONE)
  {
    hide Mul, Square, SquareWord;
    var z := TimesZ(ONE);
    PowersOfZ(GFBITS == 12);
    assert z.bits == 2;
    FrobUnfold(z);
    var s := a => SquareWord(GFBITS == 12, a);
    SquareIsWord(Frob(0, z)); SquareIsWord(Frob(1, z)); SquareIsWord(Frob(2, z)); SquareIsWord(Frob(3, z));
    SquareIsWord(Frob(4, z)); SquareIsWord(Frob(5, z)); SquareIsWord(Frob(6, z)); SquareIsWord(Frob(7, z));
    SquareIsWord(Frob(8, z)); SquareIsWord(Frob(9, z)); SquareIsWord(Frob(10, z)); SquareIsWord(Frob(11, z));
    SquareIsWord(Frob(12, z));
  }

  lemma FrobUnfold(z: Gf)
    ensures Frob(0, z) == z
    ensures forall k :: 0 <= k < 13 ==> Frob(k + 1, z) == Square(Frob(k, z))
  {
    hide Square;
  }

  /** a^(2^GFBITS) = a. */
  lemma {:induction false} FrobFixes(a: Gf)
    ensures Frob(GFBITS, a) == a
    decreases a.bits
  {
    hide *;
    if a == ZERO {
      FrobConstant(GFBITS, ZERO);
    } else {
      Split(a);
      var h := Half(a);
      FrobFixes(h);
      FrobConstant(GFBITS, Low(a));
      FrobAdd(GFBITS, Low(a), TimesZ(h));
      TimesZIsMul(h);
      FrobMul(GFBITS, TimesZ(ONE), h);
      FrobZ();
    }
  }

  lemma {:induction false} OnesFrob(k: nat, a: Gf)
    ensures Mul(Ones(k, a), a) == Frob(k, a)
  {
    hide Mul;
    if k == 0 {
      OneLeft(a);
    } else {
      OnesFrob(k - 1, a);
      var o := Ones(k - 1, a);
      SquareMul(o, a);
      MulAssoc(Square(o), a, a);
    }
  }

  /** Products of nonzero elements are nonzero, and every nonzero element has its inverse. */
  lemma InvMul(a: Gf)
    ensures a != ZERO ==> Mul(a, Inv(a)) == ONE && Mul(Inv(a), a) == ONE
    ensures Inv(ZERO) == ZERO
  {
    hide Mul, Frob;
    var m: nat := GFBITS - 1;
    var e := Ones(GFBITS, a);
    assert e == Mul(Inv(a), a);
    MulComm(Inv(a), a);
    OnesFrob(GFBITS, a); FrobFixes(a);
    assert Mul(e, a) == a;
    MulAssoc(e, a, Inv(a));
    assert Mul(e, e) == e;
    Idempotent(e);
    ZeroLeft(a);
    InvZero();
  }

  lemma InvZero()
    ensures Inv(ZERO) == ZERO
  {
    hide Mul;
    ZeroRight(Square(Ones(GFBITS - 2, ZERO)));
    ZeroRight(ZERO);
  }

  lemma Idempotent(e: Gf)
    requires Mul(e, e) == e
    ensures e == ZERO || e == ONE
  {
    hide Mul, SquareWord;
    SquareIsWord(e);
    FixedWords(GFBITS == 12, e.bits);
  }

  lemma NoZeroDivisors(a: Gf, b: Gf)
    ensures Mul(a, b) == ZERO <==> a == ZERO || b == ZERO
  {
    hide Mul, Inv;
    ZeroLeft(b); ZeroRight(a);
    if a != ZERO && Mul(a, b) == ZERO {
      InvMul(a);
      MulAssoc(Inv(a), a, b);
      OneLeft(b); ZeroRight(Inv(a));
    }
  }

  /** Powers of two concatenate: 2^(j+k) - 1 = 2^k (2^j - 1) + (2^k - 1). */
  lemma {:induction false} OnesAdd(j: nat, k: nat, a: Gf)
    ensures Ones(j + k, a) == Mul(Frob(k, Ones(j, a)), Ones(k, a))
  {
    hide Mul, Square;
    if k == 0 {
      OneRight(Ones(j, a));
    } else {
      OnesAdd(j, k - 1, a);
      assert j + k - 1 == j + (k - 1);
      var f, o := Frob(k - 1, Ones(j, a)), Ones(k - 1, a);
      SquareMul(f, o);
      MulAssoc(Square(f), Square(o), a);
    }
  }
}
