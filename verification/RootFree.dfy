/** The defining polynomials F(y) of the builds have no root in the base field. */
module RootFree {
  import opened Params
  import opened FieldWords
  import opened SquareWords
  import opened RootWords
  import opened Field
  import opened Frobenius
  import opened CarryLess
  import opened Polynomials
  import opened Decoding
  import opened ExtensionField

  // ----- field operations on words

  function Three(twelve: bool, m: bv16, b: bv16): bv16
  {
    if twelve then Three12(m, b) else Three13(m, b)
  }

  function ShiftThree(twelve: bool, m: bv16): bv16
  {
    if twelve then ShiftThree12(m) else ShiftThree13(m)
  }

  lemma ThreeIs(twelve: bool, m: bv16, b: bv16)
    ensures Three(twelve, m, b)
         == Xor(Picked(b, m), Xor(Picked(Rest(b), Shift(twelve, m)),
                                      Picked(Rest(Rest(b)), Shift(twelve, Shift(twelve, m)))))
    ensures ShiftThree(twelve, m) == Shift(twelve, Shift(twelve, Shift(twelve, m)))
    ensures Rest(Rest(Rest(b))) == b >> 3
  {
    hide Three12, Three13, ShiftThree12, ShiftThree13, Shift12, Shift13, Picked, Xor, Rest;
    var (m1, m2) := (Shift(twelve, m), Shift(twelve, Shift(twelve, m)));
    if twelve { Three12Is(m, b); } else { Three13Is(m, b); }
    RestTwice(b);
    XorIs(Picked(b >> 1, m1), Picked(b >> 2, m2));
    XorIs(Picked(b, m), Xor(Picked(b >> 1, m1), Picked(b >> 2, m2)));
  }

  lemma XorIs(a: bv16, b: bv16)
    ensures Xor(a, b) == a ^ b
  {
  }

  lemma RestTwice(b: bv16)
    ensures Rest(b) == b >> 1 && Rest(Rest(b)) == b >> 2 && Rest(Rest(Rest(b))) == b >> 3
  {
  }

  lemma ScaledWord(b: Gf, m: Gf)
    ensures Scaled(Low(b), m).bits == Picked(b.bits, m.bits)
  {
  }

  function TimesZ3(m: Gf): Gf { TimesZ(TimesZ(TimesZ(m))) }

  /** One more coefficient of b. */
  lemma MulDown(m: Gf, b: Gf)
    ensures Mul(m, b) == Add(Scaled(Low(b), m), Mul(TimesZ(m), Half(b)))
  {
    hide Mul, Add, TimesZ, Low, Half;
    MulStep(m, b);
    MulZLeft(m, Half(b));
  }

  lemma ThreeDown(m: Gf, b: Gf)
    ensures Mul(m, b).bits
         == Xor(Three(GFBITS == 12, m.bits, b.bits), Mul(TimesZ3(m), HalfBy(b, 3)).bits)
    ensures TimesZ3(m).bits == ShiftThree(GFBITS == 12, m.bits) && HalfBy(b, 3).bits == b.bits >> 3
  {
    hide Mul, Three, ShiftThree, Picked, Shift, Xor, Scaled, LowBit, Rest;
    var (b1, b2) := (Half(b), Half(Half(b)));
    var (m1, m2) := (TimesZ(m), TimesZ(TimesZ(m)));
    MulDown(m, b); MulDown(m1, b1); MulDown(m2, b2);
    ScaledWord(b, m); ScaledWord(b1, m1); ScaledWord(b2, m2);
    HalfByNext(b, 0); HalfByNext(b, 1); HalfByNext(b, 2); HalfByNone(b);
    ThreeIs(GFBITS == 12, m.bits, b.bits);
    var (x, y, z, r) := (Picked(b.bits, m.bits), Picked(b1.bits, m1.bits), Picked(b2.bits, m2.bits),
      Mul(TimesZ3(m), HalfBy(b, 3)).bits);
    XorAssoc(y, z, r); XorAssoc(x, Xor(y, z), r);
  }

  lemma TimesBit(m: Gf, b: Gf)
    requires HalfBy(b, 1) == ZERO
    ensures Mul(m, b).bits == Picked(b.bits, m.bits)
  {
    hide Mul, Add, Picked, Low, Half;
    MulDown(m, b);
    HalfByNext(b, 0); HalfByNone(b);
    ZeroRight(TimesZ(m));
    AddZero(Scaled(Low(b), m));
    ScaledWord(b, m);
  }

  /** The product of the words m and b, in steps of three coefficients. */
  function ByThree(twelve: bool, m: bv16, b: bv16, n: nat): bv16
    decreases n
  {
    if n == 0 then (if twelve then 0 else Picked(b, m))
    else Xor(Three(twelve, m, b), ByThree(twelve, ShiftThree(twelve, m), b >> 3, n - 1))
  }

  lemma Product12Is(m: bv16, b: bv16)
    ensures Product12(m, b) == ByThree(true, m, b, 4)
  {
    hide Three12, ShiftThree12, Xor, Picked;
    ShiftedDown(b);
    var (m3, m6) := (ShiftThree12(m), ShiftThree12(ShiftThree12(m)));
    var (x, y, z, u) := (Three12(m, b), Three12(m3, b >> 3), Three12(m6, b >> 6), Three12(ShiftThree12(m6), b >> 9));
    XorComm(u, 0);
    XorFour(x, y, z, u);
  }

  lemma Product13Is(m: bv16, b: bv16)
    ensures Product13(m, b) == ByThree(false, m, b, 4)
  {
    hide Product13, Three13, ShiftThree13, Four13, Xor, Picked, IsSum;
    ShiftedDown(b);
    var m6 := ShiftThree13(ShiftThree13(m));
    Product13Sum(m, b);
    SumIs(Product13(m, b), Three13(m, b), Three13(ShiftThree13(m), b >> 3), Three13(m6, b >> 6),
          Four13(ShiftThree13(m6), b >> 9));
    FourSplit(ShiftThree13(m6), b >> 9);
  }

  lemma FourSplit(m: bv16, b: bv16)
    ensures Four13(m, b) == Xor(Three13(m, b), Picked(b >> 3, ShiftThree13(m)))
  {
    hide Three13, ShiftThree13, Picked;
  }

  predicate IsSum(r: bv16, x: bv16, y: bv16, z: bv16, u: bv16) { r == x ^ (y ^ (z ^ u)) }

  lemma Product13Sum(m: bv16, b: bv16)
    ensures var m3 := ShiftThree13(m);
            var m6 := ShiftThree13(m3);
            IsSum(Product13(m, b), Three13(m, b), Three13(m3, b >> 3), Three13(m6, b >> 6),
                  Four13(ShiftThree13(m6), b >> 9))
  {
    hide Three13, ShiftThree13, Four13, Xor;
  }

  lemma SumIs(r: bv16, x: bv16, y: bv16, z: bv16, u: bv16)
    requires IsSum(r, x, y, z, u)
    ensures r == Xor(x, Xor(y, Xor(z, u)))
  {
    hide Xor;
    XorFour(x, y, z, u);
  }

  lemma XorFour(x: bv16, y: bv16, z: bv16, u: bv16)
    ensures Xor(x, Xor(y, Xor(z, u))) == x ^ (y ^ (z ^ u))
  {
  }

  lemma ShiftedDown(b: bv16)
    ensures (b >> 3) >> 3 == b >> 6 && (b >> 6) >> 3 == b >> 9 && (b >> 9) >> 3 == b >> 12
  {
  }

  lemma {:induction false} MulByThree(m: Gf, b: Gf, n: nat)
    requires if GFBITS == 12 then HalfBy(b, 3 * n) == ZERO else HalfBy(b, 3 * n + 1) == ZERO
    ensures Mul(m, b).bits == ByThree(GFBITS == 12, m.bits, b.bits, n)
    decreases n
  {
    hide Mul, TimesZ3, HalfBy, Three, ShiftThree, Picked, Xor;
    if n == 0 {
      if GFBITS == 12 {
        HalfByNone(b);
        ZeroRight(m);
      } else {
        TimesBit(m, b);
      }
    } else {
      ThreeDown(m, b);
      HalfByPlus(b, 3, 3 * n - 3);
      HalfByPlus(b, 3, 3 * n - 2);
      MulByThree(TimesZ3(m), HalfBy(b, 3), n - 1);
    }
  }

  /** The straight-line products compute the product of the field. */
  lemma WordProduct(m: Gf, b: Gf)
    ensures Mul(m, b).bits == if GFBITS == 12 then Product12(m.bits, b.bits) else Product13(m.bits, b.bits)
  {
    hide Mul, HalfBy, ByThree, Product12, Product13;
    NothingLeft(b);
    MulByThree(m, b, 4);
    Product12Is(m.bits, b.bits); Product13Is(m.bits, b.bits);
  }

  // ----- powers

  lemma {:induction false} PowPlus(a: Gf, j: nat, k: nat)
    ensures Pow(a, j + k) == Mul(Pow(a, j), Pow(a, k))
  {
    hide Mul;
    if k == 0 {
      OneRight(Pow(a, j));
    } else {
      PowPlus(a, j, k - 1);
      MulAssoc(Pow(a, j), Pow(a, k - 1), a);
    }
  }

  lemma PowSmall(a: Gf)
    ensures Pow(a, 0) == ONE && Pow(a, 1) == a
  {
    hide Mul;
    OneLeft(a);
    assert Pow(a, 0) == ONE;
  }

  lemma PowTwice(a: Gf, k: nat)
    ensures Pow(a, 2 * k) == Square(Pow(a, k))
  {
    hide Mul;
    PowPlus(a, k, k);
  }

  lemma PowersOfTwo(a: Gf)
    ensures Pow(a, 1) == a && Pow(a, 2) == Square(a)
    ensures Pow(a, 4) == Square(Pow(a, 2)) && Pow(a, 8) == Square(Pow(a, 4)) && Pow(a, 16) == Square(Pow(a, 8))
    ensures Pow(a, 32) == Square(Pow(a, 16)) && Pow(a, 64) == Square(Pow(a, 32)) && Pow(a, 128) == Square(Pow(a, 64))
  {
    hide Square, Pow;
    PowSmall(a);
    PowTwice(a, 1); PowTwice(a, 2); PowTwice(a, 4); PowTwice(a, 8); PowTwice(a, 16); PowTwice(a, 32); PowTwice(a, 64);
  }

  // ----- the values of F

  /** The fold terms at a. */
  function FoldSum(a: Gf, n: nat): Gf
    requires n <= |FOLDS|
  {
    if n == 0 then ZERO else Add(FoldSum(a, n - 1), Mul(FoldCoef(FOLDS[n - 1]), Pow(a, FOLDS[n - 1].offset)))
  }

  lemma {:induction false} ValueAt(p: seq<Gf>, i: nat, c: Gf, a: Gf)
    requires i < |p|
    ensures Value(p[i := Add(p[i], c)], a) == Add(Value(p, a), Mul(Pow(a, i), c))
    decreases i
  {
    hide Mul, Add;
    var q := p[i := Add(p[i], c)];
    var v := Value(p[1..], a);
    if i == 0 {
      assert q[1..] == p[1..];
      OneLeft(c);
      AddAssoc(p[0], c, Mul(a, v)); AddComm(c, Mul(a, v)); AddAssoc(p[0], Mul(a, v), c);
    } else {
      assert q[1..] == p[1..][i - 1 := Add(p[1..][i - 1], c)];
      ValueAt(p[1..], i - 1, c, a);
      MulAddRight(a, v, Mul(Pow(a, i - 1), c));
      MulAssoc(a, Pow(a, i - 1), c); MulComm(a, Pow(a, i - 1));
      AddAssoc(p[0], Mul(a, v), Mul(Pow(a, i), c));
    }
  }

  /** F without all but its first n fold terms. */
  function Partial(n: nat): (f: seq<Gf>)
    requires n <= |FOLDS|
    ensures |f| == SYS_T + 1
  {
    seq(SYS_T, k requires 0 <= k < SYS_T => FoldAt(n, k)) + [ONE]
  }

  lemma {:induction false} ValueMonomial(m: nat, a: Gf)
    ensures Value(seq(m, k => ZERO) + [ONE], a) == Pow(a, m)
  {
    hide Mul, Add;
    var p := seq(m, k => ZERO) + [ONE];
    if m == 0 {
      assert p == [ONE];
      ValueConstant(p, a);
    } else {
      assert p[1..] == seq(m - 1, k => ZERO) + [ONE];
      ValueMonomial(m - 1, a);
      MulComm(a, Pow(a, m - 1));
      AddZero(Pow(a, m));
    }
  }

  lemma {:induction false} ValuePartial(n: nat, a: Gf)
    requires n <= |FOLDS|
    ensures Value(Partial(n), a) == Add(Pow(a, SYS_T), FoldSum(a, n))
  {
    hide Mul, Add, Value, Pow;
    if n == 0 {
      assert Partial(0) == seq(SYS_T, k => ZERO) + [ONE];
      ValueMonomial(SYS_T, a);
      AddZero(Pow(a, SYS_T));
    } else {
      ValuePartial(n - 1, a);
      OffsetBound(n - 1);
      var (p, f) := (Partial(n - 1), FOLDS[n - 1]);
      var i := f.offset;
      assert Partial(n) == p[i := Add(p[i], FoldCoef(f))];
      ValueAt(p, i, FoldCoef(f), a);
      MulComm(Pow(a, i), FoldCoef(f));
      AddAssoc(Pow(a, SYS_T), FoldSum(a, n - 1), Mul(FoldCoef(f), Pow(a, i)));
    }
  }

  /** The value of F is that of its terms. */
  lemma ValueModulus(a: Gf)
    ensures Value(Modulus(), a) == Add(Pow(a, SYS_T), FoldSum(a, |FOLDS|))
  {
    hide Mul, Add, Value, Pow, FoldSum;
    assert Modulus() == Partial(|FOLDS|);
    ValuePartial(|FOLDS|, a);
  }

  // ----- no value of F is zero

  lemma SquareBits(a: Gf)
    ensures Square(a).bits == if GFBITS == 12 then Square12(a.bits) else Square13(a.bits)
  {
    hide Mul, Square12, Square13;
    SquareIsWord(a);
  }

  /** An element, its powers, and the sums of some of them as words. */
  lemma AddBits(a: Gf, b: Gf)
    ensures Add(a, b).bits == Xor(a.bits, b.bits)
  {
    hide Fits;
  }

  lemma SquaresBits(a: Gf)
    requires GFBITS == 13
    ensures Pow(a, 2).bits == Square13(a.bits) && Pow(a, 4).bits == Square13(Pow(a, 2).bits)
    ensures Pow(a, 8).bits == Square13(Pow(a, 4).bits) && Pow(a, 16).bits == Square13(Pow(a, 8).bits)
    ensures Pow(a, 32).bits == Square13(Pow(a, 16).bits) && Pow(a, 64).bits == Square13(Pow(a, 32).bits)
    ensures Pow(a, 128).bits == Square13(Pow(a, 64).bits)
  {
    hide Square, Pow, Square13;
    PowersOfTwo(a);
    SquareBits(a); SquareBits(Pow(a, 2)); SquareBits(Pow(a, 4)); SquareBits(Pow(a, 8));
    SquareBits(Pow(a, 16)); SquareBits(Pow(a, 32)); SquareBits(Pow(a, 64));
  }

  lemma Solves64If(a: bv16)
    ensures var a2 := Square12(a);
            Xor(Xor(Square12(Square12(Square12(Square12(Square12(a2))))), Product12(a2, a)), a) == 2 ==> Solves64(a)
  {
    hide Square12, Product12;
  }

  lemma Solves96If(a: bv16)
    ensures var a2 := Square13(a);
            var a8 := Square13(Square13(a2));
            var a6 := Square13(Product13(a2, a));
            Xor(Xor(Square13(Square13(Square13(Square13(a6)))), a6), Product13(a8, Xor(a2, a))) == 1 ==> Solves96(a)
  {
    hide Square13, Product13;
  }

  lemma Solves119If(a: bv16)
    ensures var a8 := Square13(Square13(Square13(a)));
            var a16 := Square13(a8);
            Product13(Xor(a16, a8), a) == Square13(Square13(Square13(a16))) ==> Solves119(a)
  {
    hide Square13, Product13;
  }

  lemma Solves128If(a: bv16)
    ensures var a2 := Square13(a);
            var a8 := Square13(Square13(a2));
            var a128 := Square13(Square13(Square13(Square13(a8))));
            Xor(Xor(Xor(Product13(Xor(a128, a2), a), a8), a2), a) == 0 ==> Solves128(a)
  {
    hide Square13, Product13;
  }

  /** a^64 + a^3 + a is never z. */
  lemma NoRoot64(a: Gf)
    requires GFBITS == 12
    ensures Add(Add(Pow(a, 64), Mul(Pow(a, 2), a)), a) != TimesZ(ONE)
  {
    hide Xor, Mul, Add, Square, Pow, Square12, Product12, TimesZ, Solves64;
    PowersOfTwo(a);
    SquareBits(a); SquareBits(Pow(a, 2)); SquareBits(Pow(a, 4)); SquareBits(Pow(a, 8));
    SquareBits(Pow(a, 16)); SquareBits(Pow(a, 32));
    WordProduct(Pow(a, 2), a);
    AddBits(Pow(a, 64), Mul(Pow(a, 2), a)); AddBits(Add(Pow(a, 64), Mul(Pow(a, 2), a)), a);
    ZIs();
    FieldBits(a);
    NoSolves64(a.bits); Solves64If(a.bits);
  }

  lemma ZIs()
    ensures TimesZ(ONE).bits == 2
  {
  }

  lemma FieldBits(a: Gf)
    ensures if GFBITS == 12 then a.bits & 0xF000 == 0 else a.bits & 0xE000 == 0
    ensures a.bits == 0 <==> a == ZERO
  {
  }

  lemma NoRoot119(a: Gf)
    requires GFBITS == 13 && a != ZERO
    ensures Mul(Add(Pow(a, 16), Pow(a, 8)), a) != Pow(a, 128)
  {
    hide Xor, Mul, Add, Pow, Square13, Product13, Solves119;
    SquaresBits(a);
    AddBits(Pow(a, 16), Pow(a, 8));
    WordProduct(Add(Pow(a, 16), Pow(a, 8)), a);
    FieldBits(a);
    NoSolves119(a.bits); Solves119If(a.bits);
  }

  lemma NoRoot128(a: Gf)
    requires GFBITS == 13 && a != ZERO
    ensures Add(Add(Add(Mul(Add(Pow(a, 128), Pow(a, 2)), a), Pow(a, 8)), Pow(a, 2)), a) != ZERO
  {
    hide Xor, Mul, Add, Pow, Square13, Product13, Solves128;
    SquaresBits(a);
    var m := Mul(Add(Pow(a, 128), Pow(a, 2)), a);
    AddBits(Pow(a, 128), Pow(a, 2));
    WordProduct(Add(Pow(a, 128), Pow(a, 2)), a);
    AddBits(m, Pow(a, 8)); AddBits(Add(m, Pow(a, 8)), Pow(a, 2)); AddBits(Add(Add(m, Pow(a, 8)), Pow(a, 2)), a);
    FieldBits(a);
    NoSolves128(a.bits); Solves128If(a.bits);
  }

  lemma NoRoot96(a: Gf)
    requires GFBITS == 13 && a != ZERO
    ensures var c := Mul(Pow(a, 2), a);
            Add(Add(Pow(c, 32), Pow(c, 2)), Mul(Pow(a, 8), Add(Pow(a, 2), a))) != ONE
  {
    hide Xor, Mul, Add, Pow, Square13, Product13, Solves96;
    var c := Mul(Pow(a, 2), a);
    SquaresBits(a); SquaresBits(c);
    WordProduct(Pow(a, 2), a);
    AddBits(Pow(a, 2), a);
    WordProduct(Pow(a, 8), Add(Pow(a, 2), a));
    AddBits(Pow(c, 32), Pow(c, 2)); AddBits(Add(Pow(c, 32), Pow(c, 2)), Mul(Pow(a, 8), Add(Pow(a, 2), a)));
    FieldBits(a);
    NoSolves96(a.bits); Solves96If(a.bits);
  }

  // ----- the polynomials of the variants

  /** The terms of F(y) in the ten variants. */
  lemma VariantFolds()
    requires IsVariant(BUILD)
    ensures |FOLDS| >= 2
    ensures || (GFBITS == 12 && SYS_T == 64 && FOLDS == [Fold(3, false), Fold(1, false), Fold(0, true)])
            || (GFBITS == 13 && SYS_T == 96
                && FOLDS == [Fold(10, false), Fold(9, false), Fold(6, false), Fold(0, false)])
            || (GFBITS == 13 && SYS_T == 128
                && FOLDS == [Fold(7, false), Fold(2, false), Fold(1, false), Fold(0, false)])
            || (GFBITS == 13 && SYS_T == 119 && FOLDS == [Fold(8, false), Fold(0, false)])
  {
  }

  lemma OneTerm(a: Gf, n: nat)
    requires n < |FOLDS| && !FOLDS[n].byZ
    ensures FoldSum(a, n + 1) == Add(FoldSum(a, n), Pow(a, FOLDS[n].offset))
  {
    hide Mul, Add, Pow;
    OneLeft(Pow(a, FOLDS[n].offset));
  }

  lemma FirstTerm(a: Gf)
    requires |FOLDS| > 0 && !FOLDS[0].byZ
    ensures FoldSum(a, 1) == Pow(a, FOLDS[0].offset)
  {
    hide Mul, Add, Pow;
    OneTerm(a, 0);
    AddZero(Pow(a, FOLDS[0].offset));
  }

  lemma Value64(a: Gf)
    requires GFBITS == 12 && SYS_T == 64 && FOLDS == [Fold(3, false), Fold(1, false), Fold(0, true)]
    ensures Value(Modulus(), a) != ZERO
  {
    hide Mul, Add, Pow, Value, FoldSum, TimesZ;
    ValueModulus(a);
    FirstTerm(a); OneTerm(a, 1); ByZTerm(a, 2);
    PowSmall(a); PowPlus(a, 2, 1);
    OneRight(TimesZ(ONE));
    var (x, y, z) := (Pow(a, 64), Pow(a, 3), TimesZ(ONE));
    AddAssoc(x, Add(y, a), z); AddAssoc(x, y, a);
    AddCancel(Add(Add(x, y), a), z);
    NoRoot64(a);
  }

  lemma ByZTerm(a: Gf, n: nat)
    requires n < |FOLDS| && FOLDS[n].byZ
    ensures FoldSum(a, n + 1) == Add(FoldSum(a, n), Mul(TimesZ(ONE), Pow(a, FOLDS[n].offset)))
  {
  }

  lemma Value96(a: Gf)
    requires GFBITS == 13 && SYS_T == 96
    requires FOLDS == [Fold(10, false), Fold(9, false), Fold(6, false), Fold(0, false)]
    ensures Value(Modulus(), a) != ZERO
  {
    hide Mul, Add, Pow, Value, FoldSum;
    ValueModulus(a);
    FirstTerm(a); OneTerm(a, 1); OneTerm(a, 2); OneTerm(a, 3);
    PowSmall(a);
    if a == ZERO {
      PowZero(96); PowZero(10); PowZero(9); PowZero(6); AddZero(ZERO); AddZero(ONE); SplitZero();
    } else {
      var (c, x, y, z, u) := (Mul(Pow(a, 2), a), Pow(a, 96), Pow(a, 10), Pow(a, 9), Pow(a, 6));
      PowPlus(a, 2, 1);
      PowTimes(a, 3, 32); PowTimes(a, 3, 2);
      PowPlus(a, 8, 2); PowPlus(a, 8, 1); MulAddRight(Pow(a, 8), Pow(a, 2), a);
      NoRoot96(a);
      // x + (((y + z) + u) + 1) = ((x + u) + (y + z)) + 1.
      AddAssoc(x, Add(Add(y, z), u), ONE); AddComm(Add(y, z), u); AddAssoc(x, u, Add(y, z));
      AddCancel(Add(Add(x, u), Add(y, z)), ONE);
    }
  }

  lemma Value119(a: Gf)
    requires GFBITS == 13 && SYS_T == 119 && FOLDS == [Fold(8, false), Fold(0, false)]
    ensures Value(Modulus(), a) != ZERO
  {
    hide Mul, Add, Pow, Value, FoldSum;
    ValueModulus(a);
    FirstTerm(a); OneTerm(a, 1);
    PowSmall(a);
    if a == ZERO {
      PowZero(119); PowZero(8); AddZero(ZERO); AddZero(ONE); SplitZero();
    } else {
      var (x, y, m) := (Pow(a, 119), Pow(a, 8), Pow(a, 9));
      // If x + (y + 1) = 0 then a^128 = x a^9 = (y + 1) a^9 = (a^16 + a^8) a.
      AddCancel(x, Add(y, ONE));
      PowPlus(a, 119, 9); PowPlus(a, 8, 1); PowPlus(a, 8, 8);
      MulAddLeft(y, ONE, y); OneLeft(y);
      MulAssoc(Add(y, ONE), y, a);
      NoRoot119(a);
    }
  }

  lemma Value128(a: Gf)
    requires GFBITS == 13 && SYS_T == 128
    requires FOLDS == [Fold(7, false), Fold(2, false), Fold(1, false), Fold(0, false)]
    ensures Value(Modulus(), a) != ZERO
  {
    hide Mul, Add, Pow, Value, FoldSum;
    ValueModulus(a);
    FirstTerm(a); OneTerm(a, 1); OneTerm(a, 2); OneTerm(a, 3);
    PowSmall(a);
    if a == ZERO {
      PowZero(128); PowZero(7); PowZero(2); AddZero(ZERO); AddZero(ONE); SplitZero();
    } else {
      Times128(Pow(a, 128), Pow(a, 7), Pow(a, 2), a);
      PowPlus(a, 7, 1); PowPlus(a, 1, 1);
      ZeroLeft(a);
      NoRoot128(a);
    }
  }

  /** (x + (((y + z) + a) + 1)) a = ((((x + z) a + y a) + a a) + a. */
  lemma Times128(x: Gf, y: Gf, z: Gf, a: Gf)
    ensures Mul(Add(x, Add(Add(Add(y, z), a), ONE)), a) == Add(Add(Add(Mul(Add(x, z), a), Mul(y, a)), Mul(a, a)), a)
  {
    hide *;
    var yz := Add(y, z);
    AddAssoc(x, Add(yz, a), ONE); AddAssoc(x, yz, a); AddComm(y, z); AddAssoc(x, z, y);
    MulAddLeft(Add(x, Add(yz, a)), ONE, a); OneLeft(a);
    MulAddLeft(Add(x, yz), a, a);
    MulAddLeft(Add(x, z), y, a);
  }

  lemma {:induction false} PowZero(n: nat)
    requires n > 0
    ensures Pow(ZERO, n) == ZERO
  {
    hide Mul;
    ZeroRight(Pow(ZERO, n - 1));
  }

  lemma {:induction false} PowTimes(a: Gf, j: nat, k: nat)
    ensures Pow(a, j * k) == Pow(Pow(a, j), k)
  {
    hide Mul;
    if k > 0 {
      PowTimes(a, j, k - 1);
      PowPlus(a, j * (k - 1), j);
      assert j * k == j * (k - 1) + j;
    }
  }

  /** In every variant F has no root in the base field. */
  lemma ModulusNoRoot(a: Gf)
    requires IsVariant(BUILD)
    ensures Value(Modulus(), a) != ZERO
  {
    hide Value;
    VariantFolds();
    if SYS_T == 64 { Value64(a); }
    else if SYS_T == 96 { Value96(a); }
    else if SYS_T == 119 { Value119(a); }
    else { Value128(a); }
  }
}
