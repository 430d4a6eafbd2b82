/** 64-bit words as polynomials in z over GF(2), and their reduction (src/gf.rs). */
module CarryLess {
  import opened Params
  import opened FieldWords
  import opened Field
  import opened Words64

  datatype Poly = Poly(bits: bv64)

  /** The constant coefficient of x. */
  function Bit(x: Poly): Gf
  {
    if LowOne(x.bits) == 1 then ONE else ZERO
  }

  function Down(x: Poly): Poly { Poly(DownOne(x.bits)) }

  lemma DownSmaller(x: Poly)
    ensures x == NONE || Down(x).bits < x.bits
  {
    hide DownOne;
    Smaller(x.bits);
  }

  function Plus(x: Poly, y: Poly): Poly { Poly(Xor64(x.bits, y.bits)) }

  const NONE := Poly(0)

  /** The field element that the polynomial x stands for. */
  function Eval(x: Poly): Gf
    decreases x.bits
  {
    hide TimesZ, Add, Bit, Down;
    DownSmaller(x);
    if x == NONE then ZERO else Add(Bit(x), TimesZ(Eval(Down(x))))
  }

  /** z^k times a. */
  function ZPow(k: nat, a: Gf): Gf
  {
    if k == 0 then a else TimesZ(ZPow(k - 1, a))
  }

  lemma EvalStep(x: Poly)
    ensures Eval(x) == Add(Bit(x), TimesZ(Eval(Down(x))))
    ensures Bit(x) == ZERO ==> Eval(x) == TimesZ(Eval(Down(x)))
  {
    hide TimesZ, Add;
    TimesZZero();
    AddZero(ZERO);
    AddZero(TimesZ(Eval(Down(x))));
  }

  lemma PlusDown(x: Poly, y: Poly)
    ensures Down(Plus(x, y)) == Plus(Down(x), Down(y))
  {
    hide DownOne, Xor64;
    Words64.ShiftXor(x.bits, y.bits);
  }

  lemma PlusNone(y: Poly)
    ensures Plus(NONE, y) == y
  {
    hide Xor64;
    XorZero(y.bits);
  }

  lemma BitPlus(x: Poly, y: Poly)
    ensures Bit(Plus(x, y)) == Add(Bit(x), Bit(y))
  {
    hide Add, LowOne, Xor64;
    AddZero(ONE); AddZero(ZERO); AddCancel(ONE, ONE);
    LowXor(x.bits, y.bits); LowRange(x.bits); LowRange(y.bits); XorLow();
  }

  lemma {:induction false} EvalPlus(x: Poly, y: Poly)
    ensures Eval(Plus(x, y)) == Add(Eval(x), Eval(y))
    decreases x.bits
  {
    hide Eval, TimesZ, Add, Plus, Bit, Down;
    if x == NONE {
      PlusNone(y);
      EvalNone();
      AddZero(Eval(y));
    } else {
      DownSmaller(x);
      PlusDown(x, y);
      EvalPlus(Down(x), Down(y));
      EvalStep(x); EvalStep(y); EvalStep(Plus(x, y));
      BitPlus(x, y);
      TimesZAdd(Eval(Down(x)), Eval(Down(y)));
      AddCross(Bit(x), Bit(y), TimesZ(Eval(Down(x))), TimesZ(Eval(Down(y))));
    }
  }

  lemma EvalNone()
    ensures Eval(NONE) == ZERO
  {
  }

  function FromWord(a: Gf): Poly { Poly(Wide(a.bits)) }

  lemma WordParts(a: Gf)
    ensures Bit(FromWord(a)) == Low(a) && Down(FromWord(a)) == FromWord(Half(a))
    ensures FromWord(ZERO) == NONE
  {
    hide Fits, LowOne, DownOne, Wide;
    Widen(a.bits);
  }

  /** A reduced word stands for itself. */
  lemma {:induction false} EvalWord(a: Gf)
    ensures Eval(FromWord(a)) == a
    decreases a.bits
  {
    hide Eval, TimesZ, Add, Low, Half, Bit, Down, FromWord;
    WordParts(a);
    if a == ZERO {
      EvalNone();
    } else {
      Split(a);
      EvalWord(Half(a));
      EvalStep(FromWord(a));
    }
  }

  lemma {:induction false} ZPowAdd(k: nat, a: Gf, b: Gf)
    ensures ZPow(k, Add(a, b)) == Add(ZPow(k, a), ZPow(k, b))
  {
    hide TimesZ, Add;
    if k > 0 {
      ZPowAdd(k - 1, a, b);
      TimesZAdd(ZPow(k - 1, a), ZPow(k - 1, b));
    }
  }

  lemma {:induction false} ZPowPlus(j: nat, k: nat, a: Gf)
    ensures ZPow(j, ZPow(k, a)) == ZPow(j + k, a)
  {
    hide TimesZ;
    if j > 0 {
      ZPowPlus(j - 1, k, a);
    }
  }

  lemma ZPowOne(a: Gf)
    ensures ZPow(0, a) == a && ZPow(1, a) == TimesZ(a)
  {
    hide TimesZ;
    assert ZPow(0, a) == a;
  }

  // ----- the modulus

  lemma PowersOfOne()
    ensures GFBITS == 12 ==> ZPow(12, ONE) == Add(ZPow(3, ONE), ONE)
    ensures GFBITS == 13 ==> ZPow(13, ONE) == Add(Add(ZPow(4, ONE), ZPow(3, ONE)), Add(TimesZ(ONE), ONE))
  {
    hide Mul;
    assert ZPow(0, ONE) == Gf(1);
    assert ZPow(1, ONE) == Gf(2);
    assert ZPow(2, ONE) == Gf(4);
    assert ZPow(3, ONE) == Gf(8);
    assert ZPow(4, ONE) == Gf(16);
    assert ZPow(5, ONE) == Gf(32);
    assert ZPow(6, ONE) == Gf(64);
    assert ZPow(7, ONE) == Gf(128);
    assert ZPow(8, ONE) == Gf(256);
    assert ZPow(9, ONE) == Gf(512);
    assert ZPow(10, ONE) == Gf(1024);
    assert ZPow(11, ONE) == Gf(2048);
    assert GFBITS == 13 ==> ZPow(12, ONE) == Gf(4096);
  }

  /** Multiplication by a power of z is a product in the field. */
  lemma {:induction false} ZPowIsMul(k: nat, a: Gf)
    ensures ZPow(k, a) == Mul(ZPow(k, ONE), a)
  {
    hide Mul, TimesZ;
    if k == 0 {
      OneLeft(a);
    } else {
      ZPowIsMul(k - 1, a);
      MulZLeft(ZPow(k - 1, ONE), a);
    }
  }

  /** z^12 = z^3 + 1, or z^13 = z^4 + z^3 + z + 1. */
  lemma TopPower(a: Gf)
    ensures GFBITS == 12 ==> ZPow(12, a) == Add(ZPow(3, a), a)
    ensures GFBITS == 13 ==> ZPow(13, a) == Add(Add(ZPow(4, a), ZPow(3, a)), Add(ZPow(1, a), a))
  {
    hide *;
    PowersOfOne();
    ZPowIsMul(12, a); ZPowIsMul(13, a);
    ZPowIsMul(4, a); ZPowIsMul(3, a); ZPowIsMul(1, a);
    OneLeft(a);
    ZPowOne(ONE);
    var (p, q, r) := (ZPow(4, ONE), ZPow(3, ONE), ZPow(1, ONE));
    MulAddLeft(q, ONE, a); MulAddLeft(p, q, a); MulAddLeft(r, ONE, a);
    MulAddLeft(Add(p, q), Add(r, ONE), a);
  }

  // ----- products

  /** The i-th coefficient of b and up, divided by z^i. */
  function HalfBy(b: Gf, i: nat): Gf
  {
    if i == 0 then b else Half(HalfBy(b, i - 1))
  }

  lemma {:induction false} DigitIs(b: Gf, i: nat)
    ensures Shr(Wide(b.bits), i) == Wide(HalfBy(b, i).bits)
  {
    hide Wide, DownOne, Half, LowOne;
    if i > 0 {
      DigitIs(b, i - 1);
      WordParts(HalfBy(b, i - 1));
    }
  }

  lemma WideWord(a: Gf)
    ensures And64(Wide(a.bits), 0xFFFFFFFFFFFFE000) == 0
    ensures GFBITS == 12 ==> And64(Wide(a.bits), 0xFFFFFFFFFFFFF000) == 0
  {
    hide Wide, And64;
    WideFits(GFBITS == 12, a.bits);
  }

  lemma UpStep(x: bv64)
    requires DownOne(UpOne(x)) == x && LowOne(UpOne(x)) == 0
    ensures Eval(Poly(UpOne(x))) == TimesZ(Eval(Poly(x)))
  {
    hide Eval, TimesZ, UpOne, DownOne, LowOne, Add;
    EvalStep(Poly(UpOne(x)));
  }

  lemma {:induction false} EvalShl(a: Gf, k: nat)
    requires k <= 48
    ensures Eval(Poly(Shl(Wide(a.bits), k))) == ZPow(k, a)
  {
    hide Eval, TimesZ, Wide, UpOne, DownOne, LowOne, And64, TopSet;
    if k == 0 {
      EvalWord(a);
    } else {
      var (w, m) := (Wide(a.bits), 0xFFFFFFFFFFFFE000 as bv64);
      EvalShl(a, k - 1);
      WideWord(a);
      ClearShl(w, m, k - 1);
      Room(k - 1);
      BackDown(Shl(w, k - 1), Shl(m, k - 1));
      UpStep(Shl(w, k - 1));
    }
  }

  lemma {:induction false} ShlZero(k: nat)
    ensures Shl(0, k) == 0
  {
    if k > 0 {
      ShlZero(k - 1);
    }
  }

  lemma {:induction false} ZPowZero(k: nat)
    ensures ZPow(k, ZERO) == ZERO
  {
    hide TimesZ;
    if k > 0 {
      ZPowZero(k - 1);
      TimesZZero();
    }
  }

  /** Bit i of b, as a word, times a, moved up k places. */
  lemma EvalPicked(a: Gf, b: Gf, i: nat, k: nat)
    requires k <= 48
    ensures Eval(Poly(Shl(Mul64(Wide(a.bits), LowOne(Shr(Wide(b.bits), i))), k)))
         == ZPow(k, Scaled(Low(HalfBy(b, i)), a))
  {
    hide Eval, Wide, Mul64, LowOne, Low, Half, DownOne, Shl, Shr, ZPow, HalfBy;
    DigitIs(b, i);
    var h := HalfBy(b, i);
    WordParts(h);
    Select(Wide(a.bits));
    LowRange(Wide(h.bits));
    EvalShl(a, k);
    ShlZero(k); ZPowZero(k); EvalNone();
    SplitZero();
  }

  lemma HalfByNone(b: Gf)
    ensures HalfBy(b, 0) == b
  {
  }

  lemma {:induction false} HalfByPlus(b: Gf, j: nat, k: nat)
    ensures HalfBy(HalfBy(b, j), k) == HalfBy(b, j + k)
  {
    hide Half;
    if k > 0 {
      HalfByPlus(b, j, k - 1);
    }
  }

  lemma HalfByNext(b: Gf, i: nat)
    ensures HalfBy(b, i + 1) == Half(HalfBy(b, i))
  {
    hide Half;
  }

  lemma {:induction false} NothingLeft(b: Gf)
    ensures HalfBy(b, GFBITS) == ZERO
  {
    hide Half, Wide;
    DigitIs(b, GFBITS);
    WideLeft(b);
    WideInjective(HalfBy(b, GFBITS).bits);
  }

  lemma WideLeft(b: Gf)
    ensures Shr(Wide(b.bits), GFBITS) == 0
  {
    hide Shr, DownOne;
    Shifts(Wide(b.bits));
  }

  lemma WideInjective(a: bv16)
    ensures Wide(a) == 0 <==> a == 0
  {
  }

  // ----- folding

  function DownBy(x: Poly, k: nat): Poly
  {
    Poly(Shr(x.bits, k))
  }

  /** The k lowest coefficients are zero. */
  predicate Clear(x: Poly, k: nat)
  {
    forall j :: 0 <= j < k ==> Bit(DownBy(x, j)) == ZERO
  }

  lemma {:induction false} EvalDown(x: Poly, j: nat, k: nat)
    requires Clear(x, j + k)
    ensures Eval(DownBy(x, j)) == ZPow(k, Eval(DownBy(x, j + k)))
    decreases k
  {
    hide Eval, TimesZ, Add, Bit, DownOne;
    if k > 0 {
      EvalDown(x, j, k - 1);
      var y := DownBy(x, j + (k - 1));
      EvalStep(y);
      ZPowPlus(k - 1, 1, Eval(Down(y)));
      ZPowOne(Eval(Down(y)));
    }
  }

  lemma ClearIs(x: bv64, k: nat)
    requires k == 12 || k == 13
    requires And64(x, if k == 12 then 0x0FFF else 0x1FFF) == 0
    ensures Clear(Poly(x), k)
  {
    hide LowOne, Shr;
    forall j | 0 <= j < k ensures Bit(DownBy(Poly(x), j)) == ZERO {
      ShrLow(x, j, k);
    }
  }

  lemma FoldPoly12(p: Poly)
    requires GFBITS == 12 && Clear(p, 12)
    ensures Eval(Plus(DownBy(p, 9), DownBy(p, 12))) == Eval(p)
  {
    hide Eval, Add, ZPow, Xor64, Clear, Shr;
    EvalDown(p, 0, 12); EvalDown(p, 9, 3);
    DownByNone(p);
    TopPower(Eval(DownBy(p, 12)));
    EvalPlus(DownBy(p, 9), DownBy(p, 12));
  }

  lemma FoldPoly13(p: Poly)
    requires GFBITS == 13 && Clear(p, 13)
    ensures Eval(Plus(Plus(DownBy(p, 9), DownBy(p, 10)), Plus(DownBy(p, 12), DownBy(p, 13)))) == Eval(p)
  {
    hide Eval, Add, ZPow, Xor64, Clear, Shr;
    EvalDown(p, 0, 13); EvalDown(p, 9, 4); EvalDown(p, 10, 3); EvalDown(p, 12, 1);
    DownByNone(p);
    TopPower(Eval(DownBy(p, 13)));
    EvalPlus(DownBy(p, 9), DownBy(p, 10)); EvalPlus(DownBy(p, 12), DownBy(p, 13));
    EvalPlus(Plus(DownBy(p, 9), DownBy(p, 10)), Plus(DownBy(p, 12), DownBy(p, 13)));
  }

  lemma DownByNone(p: Poly)
    ensures DownBy(p, 0) == p
  {
  }

  lemma Fold12(t: bv64)
    requires GFBITS == 12 && And64(t, 0x0FFF) == 0
    ensures Eval(Poly(Down12(t))) == Eval(Poly(t))
  {
    hide Eval, Xor64, Down12, Clear, Shr;
    Shifts(t);
    ClearIs(t, 12); Down12Is(t);
    FoldPoly12(Poly(t));
  }

  lemma Fold13(t: bv64)
    requires GFBITS == 13 && And64(t, 0x1FFF) == 0
    ensures Eval(Poly(Down13(t))) == Eval(Poly(t))
  {
    hide Eval, Xor64, Down13, Clear, Shr;
    Shifts(t);
    ClearIs(t, 13); Down13Is(t);
    FoldPoly13(Poly(t));
  }

  lemma PlusIs(x: bv64, y: bv64)
    ensures Poly(Xor64(x, y)) == Plus(Poly(x), Poly(y))
  {
  }

  lemma FoldStep12(x: bv64, live: bv64, m: bv64, rest: bv64)
    requires GFBITS == 12 && And64(And64(x, m), 0x0FFF) == 0
    requires Foldable(live, m, rest, Down12(And64(x, m)))
    ensures Eval(Poly(And64(Folded12(x, m), rest))) == Eval(Poly(And64(x, live)))
  {
    hide Eval, Add, Down12, And64, Xor64, Foldable, Plus;
    var (t, u) := (And64(x, m), And64(x, rest));
    FoldParts(x, live, m, rest, Down12(t));
    Fold12(t);
    PlusIs(u, Down12(t)); PlusIs(u, t);
    EvalPlus(Poly(u), Poly(Down12(t))); EvalPlus(Poly(u), Poly(t));
  }

  lemma FoldStep13(x: bv64, live: bv64, m: bv64, rest: bv64)
    requires GFBITS == 13 && And64(And64(x, m), 0x1FFF) == 0
    requires Foldable(live, m, rest, Down13(And64(x, m)))
    ensures Eval(Poly(And64(Folded13(x, m), rest))) == Eval(Poly(And64(x, live)))
  {
    hide Eval, Add, Down13, And64, Xor64, Foldable, Plus;
    var (t, u) := (And64(x, m), And64(x, rest));
    FoldParts(x, live, m, rest, Down13(t));
    Fold13(t);
    PlusIs(u, Down13(t)); PlusIs(u, t);
    EvalPlus(Poly(u), Poly(Down13(t))); EvalPlus(Poly(u), Poly(t));
  }

  /** The last mask leaves a field element. */
  lemma Masked(x: bv64)
    ensures And64(x, Mask()) & 0xFFFFFFFFFFFF0000 == 0
    ensures InField(Gf(Narrow(And64(x, Mask()))))
    ensures Eval(Poly(And64(x, Mask()))) == Gf(Narrow(And64(x, Mask())))
  {
    hide Eval, Narrow, Wide, And64;
    Narrow12(x); Narrow13(x);
    EvalWord(Gf(Narrow(And64(x, Mask()))));
  }

  /** GFMASK. */
  function Mask(): bv64
  {
    if GFBITS == 12 then 0x0FFF else 0x1FFF
  }
}
