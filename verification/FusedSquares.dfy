/** gf_sq2, gf_sqmul and gf_sq2mul (src/gf.rs): squarings and a product, reduced once. */
module FusedSquares {
  import opened Params
  import opened Field
  import opened Frobenius
  import opened Words64
  import opened CarryLess
  import opened FusedWords

  /** The term that coefficient i of a contributes to the product of a^2 or a^4 with m, for r = 2 or 4. */
  function Part(r: nat, a: Gf, m: Gf, i: nat): Gf
  {
    ZPow(r * i, Scaled(Low(HalfBy(a, i)), m))
  }

  lemma EvalTerm(a: Gf, m: Gf, r: nat, i: nat)
    requires r * i <= 48
    ensures Eval(Poly(Term(Wide(a.bits), Wide(m.bits), i, r * i))) == Part(r, a, m, i)
  {
    hide Eval, Wide, LowOne, Low, Half, DownOne, Shl, Shr, ZPow, HalfBy;
    DigitIs(a, i);
    var h := HalfBy(a, i);
    WordParts(h);
    LowRange(Wide(h.bits));
    EvalShl(m, r * i);
    ZPowZero(r * i); EvalNone();
    SplitZero();
  }

  // ----- sums of terms

  /** The terms from lo on, n of them. */
  function Sum(r: nat, a: Gf, m: Gf, lo: nat, n: nat): Gf
  {
    if n == 0 then ZERO else Add(Sum(r, a, m, lo, n - 1), Part(r, a, m, lo + n - 1))
  }

  /** The terms in the order in which the source adds them: 6, then 0 and 7, 1 and 8, and so on. */
  function Paired(r: nat, a: Gf, m: Gf, n: nat): Gf
  {
    if n == 0 then Part(r, a, m, 6) else Add(Paired(r, a, m, n - 1), Add(Part(r, a, m, n - 1), Part(r, a, m, n + 6)))
  }

  lemma {:induction false} SumSplit(r: nat, a: Gf, m: Gf, lo: nat, j: nat, n: nat)
    ensures Sum(r, a, m, lo, j + n) == Add(Sum(r, a, m, lo, j), Sum(r, a, m, lo + j, n))
    decreases n
  {
    hide Add, Part;
    if n == 0 {
      AddZero(Sum(r, a, m, lo, j));
    } else {
      SumSplit(r, a, m, lo, j, n - 1);
      assert lo + (j + n) - 1 == (lo + j) + n - 1;
      AddAssoc(Sum(r, a, m, lo, j), Sum(r, a, m, lo + j, n - 1), Part(r, a, m, lo + j + n - 1));
    }
  }

  lemma {:induction false} PairedSum(r: nat, a: Gf, m: Gf, n: nat)
    ensures Paired(r, a, m, n) == Add(Part(r, a, m, 6), Add(Sum(r, a, m, 0, n), Sum(r, a, m, 7, n)))
  {
    hide Add, Part;
    var c := Part(r, a, m, 6);
    if n == 0 {
      AddZero(ZERO); AddZero(c);
    } else {
      PairedSum(r, a, m, n - 1);
      var (s, t, u, v) := (Sum(r, a, m, 0, n - 1), Sum(r, a, m, 7, n - 1), Part(r, a, m, n - 1), Part(r, a, m, n + 6));
      assert 7 + n - 1 == n + 6;
      AddAssoc(c, Add(s, t), Add(u, v));
      AddCross(s, t, u, v);
    }
  }

  lemma PairedAll(r: nat, a: Gf, m: Gf)
    ensures Paired(r, a, m, 6) == Sum(r, a, m, 0, 13)
  {
    hide Add, Part;
    PairedSum(r, a, m, 6);
    SumSplit(r, a, m, 0, 7, 6);
    var (c, s, t) := (Part(r, a, m, 6), Sum(r, a, m, 0, 6), Sum(r, a, m, 7, 6));
    assert Sum(r, a, m, 0, 7) == Add(s, c);
    AddAssoc(c, s, t);
    AddComm(c, s);
  }

  // ----- what they sum up to

  lemma {:induction false} SquareZPow(k: nat, a: Gf)
    ensures Square(ZPow(k, a)) == ZPow(2 * k, Square(a))
  {
    hide Mul, TimesZ;
    if k > 0 {
      SquareZPow(k - 1, a);
      var b := ZPow(k - 1, a);
      MulZLeft(b, TimesZ(b));
      MulZRight(b, b);
      assert ZPow(2 * k, Square(a)) == TimesZ(TimesZ(ZPow(2 * k - 2, Square(a))));
    }
  }

  /** The steps that Frob(s) makes for one coefficient are 2^s places wide. */
  function Rate(s: nat): nat { if s == 1 then 2 else 4 }

  lemma FrobSplit(s: nat, a: Gf)
    requires s == 1 || s == 2
    ensures Frob(s, a) == Add(Low(a), ZPow(Rate(s), Frob(s, Half(a))))
  {
    hide Add, TimesZ, Low, Half, Square;
    var h := Half(a);
    SquareSplit(a);
    assert ZPow(2, Square(h)) == TimesZ(TimesZ(ZPow(0, Square(h))));
    assert Frob(1, a) == Square(Frob(0, a)) && Frob(1, h) == Square(Frob(0, h));
    if s == 2 {
      SquareAdd(Low(a), ZPow(2, Square(h)));
      SquareZPow(2, Square(h));
      Split(a);
      FrobConstant(1, Low(a));
      assert Frob(1, Low(a)) == Square(Frob(0, Low(a)));
    }
  }

  lemma {:induction false} MulZPow(k: nat, a: Gf, b: Gf)
    ensures Mul(ZPow(k, a), b) == ZPow(k, Mul(a, b))
  {
    hide Mul, TimesZ;
    if k > 0 {
      MulZPow(k - 1, a, b);
      MulZLeft(ZPow(k - 1, a), b);
    }
  }

  /** The product with the coefficients from i on, in place. */
  function Rest(s: nat, a: Gf, m: Gf, i: nat): Gf
  {
    ZPow(Rate(s) * i, Mul(Frob(s, HalfBy(a, i)), m))
  }

  lemma RestNext(s: nat, a: Gf, m: Gf, i: nat)
    requires s == 1 || s == 2
    ensures Rest(s, a, m, i) == Add(Part(Rate(s), a, m, i), Rest(s, a, m, i + 1))
  {
    hide Add, Mul, TimesZ, Low, Half, Frob;
    var (r, h) := (Rate(s), HalfBy(a, i));
    HalfByNext(a, i);
    FrobSplit(s, h);
    var f := Frob(s, Half(h));
    MulAddLeft(Low(h), ZPow(r, f), m);
    Split(h);
    ScaledIsMul(Low(h), m);
    MulZPow(r, f, m);
    ZPowAdd(r * i, Scaled(Low(h), m), ZPow(r, Mul(f, m)));
    ZPowPlus(r * i, r, Mul(f, m));
    assert r * i + r == r * (i + 1);
  }

  lemma {:induction false} SumIs(s: nat, a: Gf, m: Gf, n: nat)
    requires s == 1 || s == 2
    ensures Add(Sum(Rate(s), a, m, 0, n), Rest(s, a, m, n)) == Mul(Frob(s, a), m)
  {
    hide Add, Mul, Frob, Part;
    if n == 0 {
      HalfByNone(a);
      assert Rest(s, a, m, 0) == Mul(Frob(s, a), m);
      AddZero(Mul(Frob(s, a), m));
    } else {
      SumIs(s, a, m, n - 1);
      RestNext(s, a, m, n - 1);
      AddAssoc(Sum(Rate(s), a, m, 0, n - 1), Part(Rate(s), a, m, n - 1), Rest(s, a, m, n));
    }
  }

  lemma PairedIs(s: nat, a: Gf, m: Gf)
    requires GFBITS == 13 && (s == 1 || s == 2)
    ensures Paired(Rate(s), a, m, 6) == Mul(Frob(s, a), m)
  {
    hide Add, Mul, Part, Sum, Paired;
    PairedAll(Rate(s), a, m);
    SumIs(s, a, m, 13);
    NothingLeft(a);
    FrobConstant(s, ZERO);
    ZeroLeft(m);
    ZPowZero(Rate(s) * 13);
    AddZero(Sum(Rate(s), a, m, 0, 13));
  }

  // ----- the words

  /** One more partial product y, of the terms n and n + 7. */
  lemma AddPair(x: bv64, y: bv64, r: nat, a: Gf, m: Gf, n: nat, above: bv64)
    requires (r == 2 || r == 4) && n < 6 && Eval(Poly(x)) == Paired(r, a, m, n)
    requires y
         == Xor64(Term(Wide(a.bits), Wide(m.bits), n, r * n), Term(Wide(a.bits), Wide(m.bits), n + 7, r * (n + 7)))
    requires And64(x, above) == 0 && And64(y, above) == 0
    ensures Eval(Poly(Xor64(x, y))) == Paired(r, a, m, n + 1) && And64(Xor64(x, y), above) == 0
  {
    hide Eval, Add, Term, Xor64, And64, Part, Wide;
    EvalTerm(a, m, r, n); EvalTerm(a, m, r, n + 7);
    var (u, v) := (Term(Wide(a.bits), Wide(m.bits), n, r * n), Term(Wide(a.bits), Wide(m.bits), n + 7, r * (n + 7)));
    PlusIs(u, v); EvalPlus(Poly(u), Poly(v));
    PlusIs(x, y); EvalPlus(Poly(x), Poly(y));
    assert n + 1 + 6 == n + 7;
    ClearXor(x, y, above);
  }

  lemma ClearXor(x: bv64, y: bv64, m: bv64)
    requires And64(x, m) == 0 && And64(y, m) == 0
    ensures And64(Xor64(x, y), m) == 0
  {
  }

  lemma SqFolds(x: bv64)
    ensures And64(And64(x, 0x1FF0000000), 0x1FFF) == 0
    ensures Foldable(0x1FFFFFFFFF, 0x1FF0000000, 0xFFFFFFF, Down13(And64(x, 0x1FF0000000)))
    ensures And64(And64(x, 0xFF80000), 0x1FFF) == 0
    ensures Foldable(0xFFFFFFF, 0xFF80000, 0x7FFFF, Down13(And64(x, 0xFF80000)))
    ensures And64(And64(x, 0x7E000), 0x1FFF) == 0 && Foldable(0x7FFFF, 0x7E000, 0x1FFF, Down13(And64(x, 0x7E000)))
  {
    hide And64, Xor64, Down13;
    SqMasks(x);
    AndIs(x, 0x1FF0000000); AndIs(x, 0xFF80000); AndIs(x, 0x7E000);
  }

  lemma Sq2Folds(x: bv64)
    ensures And64(And64(x, 0x1FF0000000000), 0x1FFF) == 0
    ensures Foldable(0x1FFFFFFFFFFFF, 0x1FF0000000000, 0xFFFFFFFFFF, Down13(And64(x, 0x1FF0000000000)))
    ensures And64(And64(x, 0xFF80000000), 0x1FFF) == 0
    ensures Foldable(0xFFFFFFFFFF, 0xFF80000000, 0x7FFFFFFF, Down13(And64(x, 0xFF80000000)))
    ensures And64(And64(x, 0x7FC00000), 0x1FFF) == 0
    ensures Foldable(0x7FFFFFFF, 0x7FC00000, 0x3FFFFF, Down13(And64(x, 0x7FC00000)))
    ensures And64(And64(x, 0x3FE000), 0x1FFF) == 0 && Foldable(0x3FFFFF, 0x3FE000, 0x1FFF, Down13(And64(x, 0x3FE000)))
  {
    hide And64, Xor64, Down13;
    Sq2Masks(x);
    AndIs(x, 0x1FF0000000000); AndIs(x, 0xFF80000000); AndIs(x, 0x7FC00000); AndIs(x, 0x3FE000);
  }

  lemma Sq2mulFolds(x: bv64)
    ensures And64(And64(x, 0x1FF0000000000000), 0x1FFF) == 0
    ensures Foldable(0x1FFFFFFFFFFFFFFF, 0x1FF0000000000000, 0xFFFFFFFFFFFFF, Down13(And64(x, 0x1FF0000000000000)))
    ensures And64(And64(x, 0xFF80000000000), 0x1FFF) == 0
    ensures Foldable(0xFFFFFFFFFFFFF, 0xFF80000000000, 0x7FFFFFFFFFF, Down13(And64(x, 0xFF80000000000)))
    ensures And64(And64(x, 0x7FC00000000), 0x1FFF) == 0
    ensures Foldable(0x7FFFFFFFFFF, 0x7FC00000000, 0x3FFFFFFFF, Down13(And64(x, 0x7FC00000000)))
    ensures And64(And64(x, 0x3FE000000), 0x1FFF) == 0
    ensures Foldable(0x3FFFFFFFF, 0x3FE000000, 0x1FFFFFF, Down13(And64(x, 0x3FE000000)))
    ensures And64(And64(x, 0x1FE0000), 0x1FFF) == 0
    ensures Foldable(0x1FFFFFF, 0x1FE0000, 0x1FFFF, Down13(And64(x, 0x1FE0000)))
    ensures And64(And64(x, 0x1E000), 0x1FFF) == 0 && Foldable(0x1FFFF, 0x1E000, 0x1FFF, Down13(And64(x, 0x1E000)))
  {
    hide And64, Xor64, Down13;
    Sq2mulMasks(x);
    AndIs(x, 0x1FF0000000000000); AndIs(x, 0xFF80000000000); AndIs(x, 0x7FC00000000); AndIs(x, 0x3FE000000);
    AndIs(x, 0x1FE0000); AndIs(x, 0x1E000);
  }

  lemma RungFolds(x: bv64, m: bv64, live: bv64, rest: bv64)
    requires Rung(m, live, rest)
    ensures And64(And64(x, m), 0x1FFF) == 0 && Foldable(live, m, rest, Down13(And64(x, m)))
  {
    hide And64, Foldable, Down13;
    SqFolds(x); Sq2Folds(x); Sq2mulFolds(x);
  }

  /** for i in 0..: t = x & M[i]; x ^= (t >> 9) ^ (t >> 10) ^ (t >> 12) ^ (t >> 13), then the last mask. */
  method FoldDown(w: bv64, masks: seq<bv64>, ghost live: seq<bv64>) returns (r: Gf)
    requires GFBITS == 13 && |live| == |masks| + 1 && live[|masks|] == 0x1FFF && And64(w, live[0]) == w
    requires forall i :: 0 <= i < |masks| ==> Rung(masks[i], live[i], live[i + 1])
    ensures r == Eval(Poly(w))
  {
    hide Eval, Narrow, Folded13, Down13, Foldable, And64, Rung;
    var x := w;
    for i := 0 to |masks|
      invariant Eval(Poly(And64(x, live[i]))) == Eval(Poly(w))
    {
      RungFolds(x, masks[i], live[i], live[i + 1]);
      FoldStep13(x, live[i], masks[i], live[i + 1]);
      x := Folded13(x, masks[i]);
    }
    Masked(x);
    r := Gf(Narrow(And64(x, 0x1FFF)));
  }

  lemma WithinSq(x: bv64)
    requires And64(x, 0xFFFFFFE000000000) == 0
    ensures And64(x, 0x1FFFFFFFFF) == x
  {
  }

  lemma WithinSq2(x: bv64)
    requires And64(x, 0xFFFE000000000000) == 0
    ensures And64(x, 0x1FFFFFFFFFFFF) == x
  {
  }

  lemma WithinSq2mul(x: bv64)
    requires And64(x, 0xE000000000000000) == 0
    ensures And64(x, 0x1FFFFFFFFFFFFFFF) == x
  {
  }

  /** gf_sqmul, in the builds with 13 bits. */
  method GfSqmul(in0: Gf, m: Gf) returns (r: Gf)
    requires GFBITS == 13
    ensures r == Mul(Square(in0), m)
  {
    hide Eval, Mul, Wide, And64, Xor64, Term, SqTwist, SqCentre, SqPart0, SqPart1, SqPart2, SqPart3, SqPart4, SqPart5,
      Paired, Square, Frob;
    var t0 := Wide(in0.bits);
    var t1 := Wide(m.bits);
    WideWord(in0); WideWord(m);
    SqTerms(t0, t1);
    var x := SqCentre(t0, t1);
    FirstTerm(in0, m, 2);
    t0 := SqTwist(t0);
    AddPair(x, SqPart0(t0, t1), 2, in0, m, 0, 0xFFFFFFE000000000);
    x := Xor64(x, SqPart0(t0, t1));
    AddPair(x, SqPart1(t0, t1), 2, in0, m, 1, 0xFFFFFFE000000000);
    x := Xor64(x, SqPart1(t0, t1));
    AddPair(x, SqPart2(t0, t1), 2, in0, m, 2, 0xFFFFFFE000000000);
    x := Xor64(x, SqPart2(t0, t1));
    AddPair(x, SqPart3(t0, t1), 2, in0, m, 3, 0xFFFFFFE000000000);
    x := Xor64(x, SqPart3(t0, t1));
    AddPair(x, SqPart4(t0, t1), 2, in0, m, 4, 0xFFFFFFE000000000);
    x := Xor64(x, SqPart4(t0, t1));
    AddPair(x, SqPart5(t0, t1), 2, in0, m, 5, 0xFFFFFFE000000000);
    x := Xor64(x, SqPart5(t0, t1));
    WithinSq(x);
    r := FoldDown(x, [0x0000001FF0000000, 0x000000000FF80000, 0x000000000007E000],
                  [0x1FFFFFFFFF, 0xFFFFFFF, 0x7FFFF, 0x1FFF]);
    PairedIs(1, in0, m);
    FrobOnce(in0);
  }

  lemma FrobOnce(a: Gf)
    ensures Frob(1, a) == Square(a)
  {
    hide Square;
    assert Frob(0, a) == a;
  }

  lemma FirstTerm(a: Gf, m: Gf, r: nat)
    requires r == 2 || r == 4
    ensures Eval(Poly(Term(Wide(a.bits), Wide(m.bits), 6, r * 6))) == Paired(r, a, m, 0)
  {
    hide Eval, Term, Wide, Part;
    EvalTerm(a, m, r, 6);
  }

  lemma EvalSq2(a: Gf, m: Gf)
    requires GFBITS == 13
    ensures Eval(Poly(Sq2Product(Wide(a.bits), Wide(m.bits)))) == Mul(Frob(2, a), m)
    ensures And64(Sq2Product(Wide(a.bits), Wide(m.bits)), 0xE000000000000000) == 0
  {
    hide Eval, Mul, Wide, And64, Xor64, Term, Sq2Twist, Sq2Centre, Sq2Part0, Sq2Part1, Sq2Part2, Sq2Part3, Sq2Part4,
      Sq2Part5, Paired, Frob;
    var (t0, t1) := (Wide(a.bits), Wide(m.bits));
    WideWord(a); WideWord(m);
    Sq2Terms(t0, t1);
    FirstTerm(a, m, 4);
    var (e, above) := (Sq2Twist(t0), 0xE000000000000000 as bv64);
    var x0 := Sq2Centre(t0, t1);
    AddPair(x0, Sq2Part0(e, t1), 4, a, m, 0, above);
    var x1 := Xor64(x0, Sq2Part0(e, t1));
    AddPair(x1, Sq2Part1(e, t1), 4, a, m, 1, above);
    var x2 := Xor64(x1, Sq2Part1(e, t1));
    AddPair(x2, Sq2Part2(e, t1), 4, a, m, 2, above);
    var x3 := Xor64(x2, Sq2Part2(e, t1));
    AddPair(x3, Sq2Part3(e, t1), 4, a, m, 3, above);
    var x4 := Xor64(x3, Sq2Part3(e, t1));
    AddPair(x4, Sq2Part4(e, t1), 4, a, m, 4, above);
    var x5 := Xor64(x4, Sq2Part4(e, t1));
    AddPair(x5, Sq2Part5(e, t1), 4, a, m, 5, above);
    assert Xor64(x5, Sq2Part5(e, t1)) == Sq2Product(t0, t1);
    PairedIs(2, a, m);
  }

  /** gf_sq2mul, in the builds with 13 bits. */
  method GfSq2mul(in0: Gf, m: Gf) returns (r: Gf)
    requires GFBITS == 13
    ensures r == Mul(Frob(2, in0), m)
  {
    hide Eval, Mul, Wide, And64, Xor64, Sq2Twist, Sq2Centre, Sq2Part0, Sq2Part1, Sq2Part2, Sq2Part3, Sq2Part4,
      Sq2Part5, Frob;
    var t0 := Wide(in0.bits);
    var t1 := Wide(m.bits);
    EvalSq2(in0, m);
    var x := Sq2Centre(t0, t1);
    t0 := Sq2Twist(t0);
    x := Xor64(x, Sq2Part0(t0, t1));
    x := Xor64(x, Sq2Part1(t0, t1));
    x := Xor64(x, Sq2Part2(t0, t1));
    x := Xor64(x, Sq2Part3(t0, t1));
    x := Xor64(x, Sq2Part4(t0, t1));
    x := Xor64(x, Sq2Part5(t0, t1));
    WithinSq2mul(x);
    r := FoldDown(x, [0x1FF0000000000000, 0x000FF80000000000, 0x000007FC00000000,
                      0x00000003FE000000, 0x0000000001FE0000, 0x000000000001E000],
                  [0x1FFFFFFFFFFFFFFF, 0xFFFFFFFFFFFFF, 0x7FFFFFFFFFF, 0x3FFFFFFFF, 0x1FFFFFF, 0x1FFFF, 0x1FFF]);
  }

  /** gf_sq2, in the builds with 13 bits. */
  method GfSq2(in0: Gf) returns (r: Gf)
    requires GFBITS == 13
    ensures r == Frob(2, in0)
  {
    hide Eval, Mul, Wide, And64, Spread4, Sq2Product, Frob;
    var x := Spread4(Wide(in0.bits));
    WideWord(in0);
    AndIs(Wide(in0.bits), 0xFFFFFFFFFFFFE000);
    SpreadIs(Wide(in0.bits));
    WideOne();
    EvalSq2(in0, ONE);
    OneRight(Frob(2, in0));
    WithinSq2(x);
    r := FoldDown(x, [0x0001FF0000000000, 0x000000FF80000000, 0x000000007FC00000, 0x00000000003FE000],
                  [0x1FFFFFFFFFFFF, 0xFFFFFFFFFF, 0x7FFFFFFF, 0x3FFFFF, 0x1FFF]);
  }

  lemma WideOne()
    ensures Wide(ONE.bits) == 1
  {
  }
}
