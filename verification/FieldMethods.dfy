/** The arithmetic of src/gf.rs, proved equal to the field operations. */
module FieldMethods {
  import opened Params
  import opened Field
  import opened Frobenius
  import opened SquareWords
  import opened Words64
  import opened CarryLess
  import FusedSquares

  /** tmp holds the products with the lowest i coefficients of b. */
  predicate Collected(tmp: bv64, a: Gf, b: Gf, i: nat)
  {
    && And64(tmp, Beyond(GFBITS == 12)) == 0
    && Add(Eval(Poly(tmp)), ZPow(i, Mul(a, HalfBy(b, i)))) == Mul(a, b)
  }

  lemma CollectedFirst(a: Gf, b: Gf)
    ensures Collected(0, a, b, 0)
  {
    hide Eval, Mul, Add, HalfBy, And64;
    EvalNone();
    AddZero(Mul(a, b));
    NothingBeyond();
    assert ZPow(0, Mul(a, HalfBy(b, 0))) == Mul(a, b) by { HalfByNone(b); }
  }

  lemma NothingBeyond()
    ensures And64(0, Beyond(GFBITS == 12)) == 0
  {
  }

  lemma BeyondXor(x: bv64, y: bv64, m: bv64)
    requires And64(x, m) == 0 && And64(y, m) == 0
    ensures And64(Xor64(x, y), m) == 0
  {
  }

  /** The partial product with coefficient i stays within the room for a product. */
  lemma PartBeyond(a: Gf, b: Gf, i: nat)
    requires i < GFBITS
    ensures And64(Mul64(Wide(a.bits), And64(Wide(b.bits), Shl(1, i))), Beyond(GFBITS == 12)) == 0
  {
    hide Wide, Mul64, And64, Shl, LowOne, Shr, UpOne;
    var (w, d) := (Wide(a.bits), LowOne(Shr(Wide(b.bits), i)));
    Pick(w, Wide(b.bits), i);
    LowRange(Shr(Wide(b.bits), i));
    Select(w);
    if d == 0 {
      ShlZero(i);
      NothingBeyond();
    } else {
      WideWord(a);
      var m: bv64 := if GFBITS == 12 then 0xFFFFFFFFFFFFF000 else 0xFFFFFFFFFFFFE000;
      ClearShl(w, m, i);
      ReachBeyond(GFBITS == 12, i);
      Narrower(Shl(w, i), Shl(m, i), Beyond(GFBITS == 12));
    }
  }

  lemma Narrower(x: bv64, m: bv64, n: bv64)
    requires And64(x, m) == 0 && And64(n, m) == n
    ensures And64(x, n) == 0
  {
  }

  lemma {:induction false} ShlFront(x: bv64, k: nat)
    ensures Shl(UpOne(x), k) == Shl(x, k + 1)
  {
    hide UpOne;
    if k > 0 {
      ShlFront(x, k - 1);
    }
  }

  lemma TwelveUp()
    ensures UpOne(0xFFFFFFFFFFFFF000) == 0xFFFFFFFFFFFFE000
  {
  }

  /** The bits that a word of GFBITS bits leaves empty, moved up, cover those beyond a product. */
  lemma ReachBeyond(twelve: bool, i: nat)
    requires i < if twelve then 12 else 13
    ensures And64(Beyond(twelve), Shl(if twelve then 0xFFFFFFFFFFFFF000 else 0xFFFFFFFFFFFFE000, i)) == Beyond(twelve)
  {
    hide UpOne;
    Reach();
    if twelve && i > 0 {
      ShlFront(0xFFFFFFFFFFFFF000, i - 1);
      TwelveUp();
    }
  }

  lemma CollectedStep(tmp: bv64, a: Gf, b: Gf, i: nat)
    requires i < GFBITS && Collected(tmp, a, b, i)
    ensures Collected(Xor64(tmp, Mul64(Wide(a.bits), And64(Wide(b.bits), Shl(1, i)))), a, b, i + 1)
  {
    hide Eval, Mul, Add, Wide, Mul64, And64, Shl, LowOne, Shr, UpOne, Half, Low, TimesZ, Xor64, Beyond;
    var part := Mul64(Wide(a.bits), And64(Wide(b.bits), Shl(1, i)));
    PartBeyond(a, b, i);
    BeyondXor(tmp, part, Beyond(GFBITS == 12));
    PlusIs(tmp, part);
    EvalPlus(Poly(tmp), Poly(part));
    Pick(Wide(a.bits), Wide(b.bits), i);
    EvalPicked(a, b, i, i);
    var h := HalfBy(b, i);
    HalfByNext(b, i);
    MulStep(a, h);
    var (c, r) := (Scaled(Low(h), a), Mul(a, Half(h)));
    ZPowAdd(i, c, TimesZ(r));
    ZPowOne(r);
    ZPowPlus(i, 1, r);
    AddAssoc(Eval(Poly(tmp)), ZPow(i, c), ZPow(i + 1, r));
  }

  lemma CollectedAll(tmp: bv64, a: Gf, b: Gf)
    requires Collected(tmp, a, b, GFBITS)
    ensures Eval(Poly(tmp)) == Mul(a, b)
  {
    hide Eval, Mul, Add, HalfBy, And64;
    NothingLeft(b);
    ZeroRight(a);
    ZPowZero(GFBITS);
    AddZero(Eval(Poly(tmp)));
  }

  /** The reduction that ends gf_mul. */
  method Reduce(x: bv64) returns (r: Gf)
    requires And64(x, Beyond(GFBITS == 12)) == 0
    ensures r == Eval(Poly(x))
  {
    hide Eval, Narrow;
    if GFBITS == 12 {
      r := Reduce12(x);
    } else {
      r := Reduce13(x);
    }
  }

  lemma RawMasks12(x: bv64)
    ensures And64(x & 0x7FC000, 0x0FFF) == 0 && And64(Down12(x & 0x7FC000), 0x3FFF) == Down12(x & 0x7FC000)
    ensures And64(x & 0x3000, 0x0FFF) == 0 && And64(Down12(x & 0x3000), 0x0FFF) == Down12(x & 0x3000)
    ensures 0x7FFFFF == Xor64(0x7FC000, 0x3FFF) && And64(0x7FC000, 0x3FFF) == 0
    ensures 0x3FFF == Xor64(0x3000, 0x0FFF) && And64(0x3000, 0x0FFF) == 0
    ensures And64(x, 0xFFFFFFFFFF800000) == 0 ==> And64(x, 0x7FFFFF) == x
  {
  }

  lemma Masks12(x: bv64)
    ensures And64(And64(x, 0x7FC000), 0x0FFF) == 0 && Foldable(0x7FFFFF, 0x7FC000, 0x3FFF, Down12(And64(x, 0x7FC000)))
    ensures And64(And64(x, 0x3000), 0x0FFF) == 0 && Foldable(0x3FFF, 0x3000, 0x0FFF, Down12(And64(x, 0x3000)))
    ensures And64(x, 0xFFFFFFFFFF800000) == 0 ==> And64(x, 0x7FFFFF) == x
  {
    hide And64, Xor64, Down12;
    RawMasks12(x);
    AndIs(x, 0x7FC000);
    AndIs(x, 0x3000);
  }

  method Reduce12(x: bv64) returns (r: Gf)
    requires GFBITS == 12 && And64(x, 0xFFFFFFFFFF800000) == 0
    ensures r == Eval(Poly(x))
  {
    hide Eval, Narrow, Folded12, Down12, Foldable, And64;
    var tmp := x;
    Masks12(tmp);
    FoldStep12(tmp, 0x7FFFFF, 0x7FC000, 0x3FFF);
    tmp := Folded12(tmp, 0x7FC000);
    Masks12(tmp);
    FoldStep12(tmp, 0x3FFF, 0x3000, 0x0FFF);
    tmp := Folded12(tmp, 0x3000);
    Masked(tmp);
    r := Gf(Narrow(And64(tmp, 0x0FFF)));
  }

  lemma RawMasks13(x: bv64)
    ensures And64(x & 0x1FF0000, 0x1FFF) == 0 && And64(Down13(x & 0x1FF0000), 0xFFFF) == Down13(x & 0x1FF0000)
    ensures And64(x & 0xE000, 0x1FFF) == 0 && And64(Down13(x & 0xE000), 0x1FFF) == Down13(x & 0xE000)
    ensures 0x1FFFFFF == Xor64(0x1FF0000, 0xFFFF) && And64(0x1FF0000, 0xFFFF) == 0
    ensures 0xFFFF == Xor64(0xE000, 0x1FFF) && And64(0xE000, 0x1FFF) == 0
    ensures And64(x, 0xFFFFFFFFFE000000) == 0 ==> And64(x, 0x1FFFFFF) == x
  {
  }

  lemma Masks13(x: bv64)
    ensures And64(And64(x, 0x1FF0000), 0x1FFF) == 0
    ensures Foldable(0x1FFFFFF, 0x1FF0000, 0xFFFF, Down13(And64(x, 0x1FF0000)))
    ensures And64(And64(x, 0xE000), 0x1FFF) == 0 && Foldable(0xFFFF, 0xE000, 0x1FFF, Down13(And64(x, 0xE000)))
    ensures And64(x, 0xFFFFFFFFFE000000) == 0 ==> And64(x, 0x1FFFFFF) == x
  {
    hide And64, Xor64, Down13;
    RawMasks13(x);
    AndIs(x, 0x1FF0000);
    AndIs(x, 0xE000);
  }

  method Reduce13(x: bv64) returns (r: Gf)
    requires GFBITS == 13 && And64(x, 0xFFFFFFFFFE000000) == 0
    ensures r == Eval(Poly(x))
  {
    hide Eval, Narrow, Folded13, Down13, Foldable, And64;
    var tmp := x;
    Masks13(tmp);
    FoldStep13(tmp, 0x1FFFFFF, 0x1FF0000, 0xFFFF);
    tmp := Folded13(tmp, 0x1FF0000);
    Masks13(tmp);
    FoldStep13(tmp, 0xFFFF, 0x000E000, 0x1FFF);
    tmp := Folded13(tmp, 0x000E000);
    Masked(tmp);
    r := Gf(Narrow(And64(tmp, 0x1FFF)));
  }

  /** gf_mul: the product of two field elements. */
  method GfMul(in0: Gf, in1: Gf) returns (r: Gf)
    ensures r == Mul(in0, in1)
  {
    hide Eval, Mul, Wide, Mul64, And64, Shl, Collected, Xor64;
    var t0 := Wide(in0.bits);
    var t1 := Wide(in1.bits);
    CollectedFirst(in0, in1);
    CollectedStep(0, in0, in1, 0);
    MulFirst(t0, t1);
    var tmp := Mul64(t0, And64(t1, 1));
    for i := 1 to GFBITS
      invariant Collected(tmp, in0, in1, i)
    {
      CollectedStep(tmp, in0, in1, i);
      tmp := Xor64(tmp, Mul64(t0, And64(t1, Shl(1, i))));
    }
    CollectedAll(tmp, in0, in1);
    CollectedRoom(tmp, in0, in1);
    r := Reduce(tmp);
  }

  lemma MulFirst(t0: bv64, t1: bv64)
    ensures Xor64(0, Mul64(t0, And64(t1, Shl(1, 0)))) == Mul64(t0, And64(t1, 1))
  {
    hide Mul64, And64, Xor64;
    XorZero(Mul64(t0, And64(t1, 1)));
    assert Shl(1, 0) == 1;
  }

  lemma CollectedRoom(tmp: bv64, a: Gf, b: Gf)
    requires Collected(tmp, a, b, GFBITS)
    ensures And64(tmp, Beyond(GFBITS == 12)) == 0
  {
  }

  /** gf_sq, in the builds with 12 bits: the bits of in0 are spread out, then reduced. */
  method GfSq(in0: Gf) returns (r: Gf)
    requires GFBITS == 12
    ensures r == Square(in0)
  {
    hide Mul, Spread, Halved12, Low12;
    var x := Spread(in0.bits);
    x := Halved12(x, 0x7FC000);
    x := Halved12(x, 0x3000);
    SquareIsWord(in0);
    r := Gf(Low12(x));
  }

  /** gf_inv in the builds with 12 bits: the exponent 111111111110 in binary. */
  method GfInv12(in0: Gf) returns (out: Gf)
    requires GFBITS == 12
    ensures out == Inv(in0)
  {
    hide Mul, Square, Frob, Ones;
    FirstOnes(in0);
    out := GfSq(in0);
    var tmp11 := GfMul(out, in0);

    out := GfSq(tmp11);
    out := GfSq(out);
    FrobTwice(tmp11);
    OnesAdd(2, 2, in0);
    var tmp1111 := GfMul(out, tmp11);

    out := GfSq(tmp1111);
    out := GfSq(out);
    out := GfSq(out);
    out := GfSq(out);
    FrobTwice(tmp1111);
    OnesAdd(4, 4, in0);
    out := GfMul(out, tmp1111);

    FrobTwice(out);
    OnesAdd(8, 2, in0);
    out := GfSq(out);
    out := GfSq(out);
    out := GfMul(out, tmp11);

    NextOnes(10, in0);
    out := GfSq(out);
    out := GfMul(out, in0);
    out := GfSq(out);
  }

  lemma FirstOnes(a: Gf)
    ensures Ones(2, a) == Mul(Square(a), a)
  {
    hide Mul;
    OneLeft(ONE); OneLeft(a);
    assert Ones(0, a) == ONE;
    assert Ones(1, a) == a;
  }

  lemma NextOnes(k: nat, a: Gf)
    ensures Ones(k + 1, a) == Mul(Square(Ones(k, a)), a)
  {
    hide Mul;
  }

  lemma FrobTwice(a: Gf)
    ensures Frob(2, a) == Square(Square(a))
    ensures Frob(4, a) == Square(Square(Square(Square(a))))
  {
    hide Square;
    assert Frob(1, a) == Square(a);
    assert Frob(3, a) == Square(Frob(2, a));
  }

  /** gf_frac in the builds with 13 bits: the exponent 1111111111110 in binary. */
  method GfFrac13(den: Gf, num: Gf) returns (out: Gf)
    requires GFBITS == 13
    ensures out == Mul(Inv(den), num)
  {
    hide Mul, Square, Frob, Ones;
    FirstOnes(den);
    var tmp11 := FusedSquares.GfSqmul(den, den);
    OnesAdd(2, 2, den);
    var tmp1111 := FusedSquares.GfSq2mul(tmp11, tmp11);
    FrobTwice(tmp1111); FrobTwice(Square(Square(tmp1111)));
    OnesAdd(4, 4, den);
    out := FusedSquares.GfSq2(tmp1111);
    out := FusedSquares.GfSq2mul(out, tmp1111);
    FrobTwice(out); FrobTwice(Square(Square(out)));
    OnesAdd(8, 4, den);
    out := FusedSquares.GfSq2(out);
    out := FusedSquares.GfSq2mul(out, tmp1111);
    out := FusedSquares.GfSqmul(out, num);
  }

  /** gf_frac: num divided by den, and zero when den is zero. */
  method GfFrac(den: Gf, num: Gf) returns (out: Gf)
    ensures out == Mul(Inv(den), num)
  {
    hide Mul, Inv;
    if GFBITS == 12 {
      var d := GfInv12(den);
      out := GfMul(d, num);
    } else {
      out := GfFrac13(den, num);
    }
  }

  /** gf_inv. */
  method GfInv(den: Gf) returns (out: Gf)
    ensures out == Inv(den)
  {
    hide Mul, Inv;
    if GFBITS == 12 {
      out := GfInv12(den);
    } else {
      OneRight(Inv(den));
      out := GfFrac(den, ONE);
    }
  }
}
