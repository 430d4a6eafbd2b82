/** The defining polynomials F(y) of the builds have no repeated factor. */
module SquarefreeModulus {
  import opened Params
  import opened Field
  import opened Frobenius
  import opened Recurrences
  import opened Products
  import opened PolynomialRing
  import opened SquareTrick
  import opened Squarefree
  import opened ExtensionField
  import RootFree
  import GoppaCode

  // ----- derivatives

  /** The derivative: in characteristic two the even powers fall away. */
  function Der(p: seq<Gf>): (d: seq<Gf>)
    ensures |d| == |p|
  {
    seq(|p|, k requires 0 <= k < |p| => if k % 2 == 0 then Term(p, k + 1) else ZERO)
  }

  lemma DerTerm(p: seq<Gf>, k: int)
    ensures Term(Der(p), k) == if k >= 0 && k % 2 == 0 then Term(p, k + 1) else ZERO
  {
  }

  /** The derivative of h^2 q is h^2 times that of q. */
  lemma {:induction false} DerConv(h: seq<Gf>, q: seq<Gf>, k: int)
    ensures Conv(SquarePoly(h), Der(q), k) == if k >= 0 && k % 2 == 0 then Conv(SquarePoly(h), q, k + 1) else ZERO
    decreases |h|
  {
    hide Mul, Add, Term, Square, Der;
    if h != [] {
      var (c, s, d) := (Square(h[0]), SquarePoly(h), Der(q));
      DerTerm(q, k);
      ZeroRight(c); AddZero(ZERO);
      ConvHead(s, d, k); ConvHead(s, q, k + 1);
      if |h| == 1 {
        assert s[1..] == [];
        AddZero(Mul(c, Term(d, k))); AddZero(Mul(c, Term(q, k + 1)));
      } else {
        var r := SquarePoly(h[1..]);
        assert s[1..] == [ZERO] + r && ([ZERO] + r)[1..] == r;
        ConvHead([ZERO] + r, d, k - 1); ConvHead([ZERO] + r, q, k);
        ZeroLeft(Term(d, k - 1)); ZeroLeft(Term(q, k));
        AddZero(Conv(r, d, k - 2)); AddZero(Conv(r, q, k - 1));
        DerConv(h[1..], q, k - 2);
        if k == 0 { ConvEarly(r, q, -1); }
      }
    }
  }

  lemma SquareConv(h: seq<Gf>, q: seq<Gf>, k: int)
    ensures Conv(Times(h, h), q, k) == Conv(SquarePoly(h), q, k)
  {
    hide Conv, Times, SquarePoly, Term;
    forall j ensures Term(Times(h, h), j) == Term(SquarePoly(h), j) {
      TimesTerm(h, h, j); SelfProduct(h, j);
    }
    GoppaCode.SameTerms(q, Times(h, h), SquarePoly(h), k);
    ConvComm(q, Times(h, h), k); ConvComm(q, SquarePoly(h), k);
  }

  lemma DerMultiple(h: seq<Gf>, q: seq<Gf>)
    ensures Norm(Der(Times(Times(h, h), q))) == Times(Times(h, h), Norm(Der(q)))
  {
    hide Conv, Times, SquarePoly, Term, Norm, Der;
    var (s, d) := (Times(h, h), Der(q));
    forall k ensures Term(Norm(Der(Times(s, q))), k) == Term(Times(s, Norm(d)), k) {
      NormTerm(Der(Times(s, q)), k); DerTerm(Times(s, q), k);
      TimesTerm(s, q, k + 1); TimesTerm(s, Norm(d), k);
      forall j ensures Term(Norm(d), j) == Term(d, j) { NormTerm(d, j); }
      GoppaCode.SameTerms(s, Norm(d), d, k);
      SquareConv(h, d, k); SquareConv(h, q, k + 1);
      DerConv(h, q, k);
    }
    Equal(Norm(Der(Times(s, q))), Times(s, Norm(d)));
  }

  // ----- divisors

  ghost predicate Divisor(d: seq<Gf>, p: seq<Gf>)
  {
    exists q: seq<Gf> :: p == Times(d, q)
  }

  lemma DivisorPlus(d: seq<Gf>, p: seq<Gf>, q: seq<Gf>)
    requires Divisor(d, p) && Divisor(d, q)
    ensures Divisor(d, Plus(p, q))
  {
    hide Times, Plus;
    var s: seq<Gf> :| p == Times(d, s);
    var t: seq<Gf> :| q == Times(d, t);
    TimesPlus(d, s, t);
  }

  lemma DivisorTimes(d: seq<Gf>, p: seq<Gf>, q: seq<Gf>)
    requires Divisor(d, p)
    ensures Divisor(d, Times(q, p))
  {
    hide Times;
    var s: seq<Gf> :| p == Times(d, s);
    TimesSwap(q, d, s);
  }

  /** Only constants divide a constant. */
  lemma ConstantDivisor(d: seq<Gf>, p: seq<Gf>)
    requires Normal(d) && Normal(p) && |p| == 1 && Divisor(d, p)
    ensures |d| == 1
  {
    hide Times, Norm;
    var s: seq<Gf> :| p == Times(d, s);
    var q := Norm(s);
    TimesNorm(d, s); NormNormal(d); NormNormal(q); TimesNorm(d, q);
    if d == [] { TimesComm([], q); TimesNone(q); }
    if q == [] { TimesNone(d); }
    ProductLength(d, q);
  }

  /** y^n. */
  function Y(n: nat): (p: seq<Gf>)
    ensures Normal(p) && forall k :: Term(p, k) == if k == n then ONE else ZERO
  {
    SplitZero();
    Monomial(ONE, n)
  }

  lemma YTimes(m: nat, n: nat)
    ensures Times(Y(m), Y(n)) == Y(m + n)
  {
    hide Times, Conv, Term, Mul;
    forall k ensures Term(Times(Y(m), Y(n)), k) == Term(Y(m + n), k) {
      TimesTerm(Y(m), Y(n), k);
      MonomialConv(Y(n), ONE, m, k);
      OneLeft(Term(Y(n), k - m));
    }
    Equal(Times(Y(m), Y(n)), Y(m + n));
  }

  /** What divides y^m + 1 divides y^(i + m j) + y^i. */
  lemma {:induction false} Period(d: seq<Gf>, m: nat, i: nat, j: nat)
    requires Divisor(d, Plus(Y(m), Y(0)))
    ensures Divisor(d, Plus(Y(i + m * j), Y(i)))
    decreases j
  {
    hide Times, Plus, Divisor, Y;
    if j == 0 {
      PlusNone(Y(i)); Nothing(d);
    } else {
      var b := i + m * (j - 1);
      assert i + m * j == m + b;
      Period(d, m, i, j - 1);
      DivisorTimes(d, Plus(Y(b), Y(i)), Y(m)); DivisorTimes(d, Plus(Y(m), Y(0)), Y(i));
      TimesPlus(Y(m), Y(b), Y(i)); TimesPlus(Y(i), Y(m), Y(0));
      YTimes(m, b); YTimes(m, i); YTimes(i, m); YTimes(i, 0);
      var (u, v, w) := (Y(m + b), Y(m + i), Y(i));
      DivisorPlus(d, Plus(u, v), Plus(v, w));
      PlusAssoc(u, v, Plus(v, w)); PlusAssoc(v, v, w); PlusNone(v); PlusNone(w);
    }
  }

  lemma Nothing(d: seq<Gf>)
    ensures Divisor(d, [])
  {
    hide Times;
    TimesNone(d);
  }

  /** A divisor of a power of y that is not a multiple of y is a constant. */
  lemma {:induction false} PowerDivisor(d: seq<Gf>, k: seq<Gf>, n: nat)
    requires Normal(d) && Term(d, 0) != ZERO && Times(d, k) == Y(n)
    ensures |d| == 1
    decreases n
  {
    hide Times, Mul, Conv, Y, Norm;
    if n == 0 {
      assert Divisor(d, Y(0));
      ZeroPower();
      ConstantDivisor(d, Y(0));
    } else {
      LowTerm(d, k);
      NoZeroDivisors(Term(d, 0), Term(k, 0));
      var t := if k == [] then [] else k[1..];
      forall j ensures Term(Times(d, t), j) == Term(Y(n - 1), j) {
        TimesTerm(d, t, j); TimesTerm(d, k, j + 1);
        DropLow(d, k, t, j + 1);
      }
      Equal(Times(d, t), Y(n - 1));
      PowerDivisor(d, t, n - 1);
    }
  }

  lemma ZeroPower()
    ensures Y(0) == [ONE]
  {
  }

  lemma LowTerm(d: seq<Gf>, k: seq<Gf>)
    ensures Term(Times(d, k), 0) == Mul(Term(d, 0), Term(k, 0))
  {
    hide Times, Mul, Add, Conv;
    TimesTerm(d, k, 0);
    ZeroLeft(Term(k, 0));
    if d == [] {
      assert Conv(d, k, 0) == ZERO by { NoFactor(k, 0); }
    } else {
      ConvHead(d, k, 0); ConvEarly(d[1..], k, -1);
      AddZero(Mul(d[0], Term(k, 0)));
    }
  }

  lemma DropLow(d: seq<Gf>, k: seq<Gf>, t: seq<Gf>, j: int)
    requires Term(k, 0) == ZERO && t == if k == [] then [] else k[1..]
    ensures Conv(d, k, j) == Conv(d, t, j - 1)
  {
    hide Mul, Add, Conv;
    if k == [] {
      ConvNone(d, j); ConvNone(d, j - 1);
    } else {
      ConvCons(d, ZERO, t, j);
      assert [ZERO] + t == k;
      ZeroLeft(Term(d, j)); AddZero(Conv(d, t, j - 1));
    }
  }

  // ----- the polynomials of the variants

  /** h^2 divides F and its derivative. */
  lemma SquareFactor(h: seq<Gf>, q: seq<Gf>)
    requires Modulus() == Times(Times(h, h), q)
    ensures Divisor(Times(h, h), Modulus()) && Divisor(Times(h, h), Norm(Der(Modulus())))
    ensures Norm(Der(Modulus())) == Times(h, Times(h, Norm(Der(q)))) && Modulus() == Times(h, Times(h, q))
  {
    hide Times, Norm, Der;
    DerMultiple(h, q);
    TimesAssoc(h, h, q); TimesAssoc(h, h, Norm(Der(q)));
  }

  lemma ConstantSquare(h: seq<Gf>, p: seq<Gf>)
    requires Normal(h) && Normal(p) && |p| == 1 && Divisor(Times(h, h), p)
    ensures |h| <= 1
  {
    hide Times;
    ConstantDivisor(Times(h, h), p);
    if h != [] { ProductLength(h, h); }
  }

  /** A derivative y^n leaves no square factor when F does not vanish at 0. */
  lemma DerivativePower(h: seq<Gf>, q: seq<Gf>, n: nat)
    requires Normal(h) && Modulus() == Times(Times(h, h), q) && Norm(Der(Modulus())) == Y(n) && Modulus()[0] != ZERO
    ensures |h| <= 1
  {
    hide Times, Norm, Der, Mul, Y;
    SquareFactor(h, q);
    LowTerm(h, Times(h, q));
    ZeroLeft(Term(Times(h, q), 0));
    assert Term(Modulus(), 0) == Modulus()[0];
    PowerDivisor(h, Times(h, Norm(Der(q))), n);
  }

  lemma NextFold(n: nat, k: int)
    requires n < |FOLDS|
    ensures FoldAt(0, k) == ZERO
    ensures FoldAt(n + 1, k) == if FOLDS[n].offset == k then Add(FoldAt(n, k), FoldCoef(FOLDS[n])) else FoldAt(n, k)
  {
  }

  lemma Terms64()
    requires SYS_T == 64 && FOLDS == [Fold(3, false), Fold(1, false), Fold(0, true)]
    ensures forall k :: Term(Modulus(), k)
                     == if k == 64 || k == 3 || k == 1 then ONE else if k == 0 then TimesZ(ONE) else ZERO
  {
    hide Add, TimesZ, FoldAt;
    AddZero(ONE); AddZero(TimesZ(ONE));
    forall k ensures Term(Modulus(), k)
           == if k == 64 || k == 3 || k == 1 then ONE else if k == 0 then TimesZ(ONE) else ZERO {
      NextFold(0, k); NextFold(1, k); NextFold(2, k);
    }
  }

  lemma Square64(h: seq<Gf>, q: seq<Gf>)
    requires SYS_T == 64 && FOLDS == [Fold(3, false), Fold(1, false), Fold(0, true)]
    requires Normal(h) && Modulus() == Times(Times(h, h), q)
    ensures |h| <= 1
  {
    hide Times, Plus, Norm, Der, Y, Term, Add, TimesZ, Divisor, FoldAt;
    var (f, d) := (Modulus(), Times(h, h));
    SquareFactor(h, q);
    Terms64();
    AddZero(ONE); AddZero(ZERO); AddCancel(ONE, ONE); AddCancel(ZERO, ZERO);
    // F' = y^2 + 1.
    var u := Plus(Y(2), Y(0));
    forall k ensures Term(Norm(Der(f)), k) == Term(u, k) {
      NormTerm(Der(f), k); DerTerm(f, k); PlusTerm(Y(2), Y(0), k);
    }
    Equal(Norm(Der(f)), u);
    // F = 1 + z modulo y^2 + 1.
    Period(d, 2, 0, 32); Period(d, 2, 1, 1);
    var (v, w) := (Plus(Y(64), Y(0)), Plus(Y(3), Y(1)));
    DivisorPlus(d, f, v); DivisorPlus(d, Plus(f, v), w);
    var c := Add(TimesZ(ONE), ONE);
    AddZero(c); AddCancel(TimesZ(ONE), ONE); ZIsNotOne();
    forall k ensures Term(Plus(Plus(f, v), w), k) == Term([c], k) {
      PlusTerm(Y(64), Y(0), k); PlusTerm(Y(3), Y(1), k); PlusTerm(f, v, k); PlusTerm(Plus(f, v), w, k);
      ConstantTerm(c, k);
    }
    Equal(Plus(Plus(f, v), w), [c]);
    ConstantSquare(h, [c]);
  }

  lemma ConstantTerm(c: Gf, k: int)
    ensures Term([c], k) == if k == 0 then c else ZERO
  {
  }

  lemma ZIsNotOne()
    ensures TimesZ(ONE) != ONE
  {
    hide TimesZ;
    RootFree.ZIs();
  }

  lemma Terms128()
    requires SYS_T == 128 && FOLDS == [Fold(7, false), Fold(2, false), Fold(1, false), Fold(0, false)]
    ensures forall k :: Term(Modulus(), k) == if k == 128 || k == 7 || 0 <= k <= 2 then ONE else ZERO
  {
    hide Add, FoldAt;
    AddZero(ONE);
    forall k ensures Term(Modulus(), k) == if k == 128 || k == 7 || 0 <= k <= 2 then ONE else ZERO {
      NextFold(0, k); NextFold(1, k); NextFold(2, k); NextFold(3, k);
    }
  }

  lemma Square128(h: seq<Gf>, q: seq<Gf>)
    requires SYS_T == 128 && FOLDS == [Fold(7, false), Fold(2, false), Fold(1, false), Fold(0, false)]
    requires Normal(h) && Modulus() == Times(Times(h, h), q)
    ensures |h| <= 1
  {
    hide Times, Plus, Norm, Der, Y, Term, Add, Divisor, FoldAt;
    var (f, d) := (Modulus(), Times(h, h));
    SquareFactor(h, q);
    Terms128();
    AddZero(ONE); AddZero(ZERO); AddCancel(ONE, ONE); AddCancel(ZERO, ZERO);
    // F' = y^6 + 1.
    var u := Plus(Y(6), Y(0));
    forall k ensures Term(Norm(Der(f)), k) == Term(u, k) {
      NormTerm(Der(f), k); DerTerm(f, k); PlusTerm(Y(6), Y(0), k);
    }
    Equal(Norm(Der(f)), u);
    // F = 1 modulo y^6 + 1.
    Period(d, 6, 2, 21); Period(d, 6, 1, 1);
    var (v, w) := (Plus(Y(128), Y(2)), Plus(Y(7), Y(1)));
    DivisorPlus(d, f, v); DivisorPlus(d, Plus(f, v), w);
    SplitZero();
    forall k ensures Term(Plus(Plus(f, v), w), k) == Term([ONE], k) {
      PlusTerm(Y(128), Y(2), k); PlusTerm(Y(7), Y(1), k); PlusTerm(f, v, k); PlusTerm(Plus(f, v), w, k);
      ConstantTerm(ONE, k);
    }
    Equal(Plus(Plus(f, v), w), [ONE]);
    ConstantSquare(h, [ONE]);
  }

  lemma Terms96()
    requires SYS_T == 96
    requires FOLDS == [Fold(10, false), Fold(9, false), Fold(6, false), Fold(0, false)]
    ensures forall k :: Term(Modulus(), k) == if k == 96 || k == 10 || k == 9 || k == 6 || k == 0 then ONE else ZERO
  {
    hide Add, FoldAt;
    AddZero(ONE);
    forall k ensures Term(Modulus(), k) == if k == 96 || k == 10 || k == 9 || k == 6 || k == 0 then ONE else ZERO {
      NextFold(0, k); NextFold(1, k); NextFold(2, k); NextFold(3, k);
    }
  }

  lemma Terms119()
    requires SYS_T == 119 && FOLDS == [Fold(8, false), Fold(0, false)]
    ensures forall k :: Term(Modulus(), k) == if k == 119 || k == 8 || k == 0 then ONE else ZERO
  {
    hide Add, FoldAt;
    AddZero(ONE);
    forall k ensures Term(Modulus(), k) == if k == 119 || k == 8 || k == 0 then ONE else ZERO {
      NextFold(0, k); NextFold(1, k);
    }
  }

  lemma PowerDerivative(n: nat)
    requires n % 2 == 0 && forall k :: k % 2 == 1 ==> Term(Modulus(), k) == if k == n + 1 then ONE else ZERO
    ensures Norm(Der(Modulus())) == Y(n)
  {
    hide Norm, Der, Y, Term, FoldAt;
    forall k ensures Term(Norm(Der(Modulus())), k) == Term(Y(n), k) {
      NormTerm(Der(Modulus()), k); DerTerm(Modulus(), k);
    }
    Equal(Norm(Der(Modulus())), Y(n));
  }

  /** In every variant F is squarefree. */
  lemma ModulusSquarefree()
    requires IsVariant(BUILD)
    ensures IsSquarefree(Modulus())
  {
    hide Times, Norm, Der, Y, Term, FoldAt;
    RootFree.VariantFolds();
    MonicNormal(Modulus());
    SplitZero();
    forall h: seq<Gf>, q: seq<Gf> | Normal(h) && Norm(Modulus()) == Times(Times(h, h), q) ensures |h| <= 1 {
      if SYS_T == 64 { Square64(h, q); }
      else if SYS_T == 128 { Square128(h, q); }
      else if SYS_T == 96 {
        Terms96();
        PowerDerivative(8);
        LowestTerm();
        DerivativePower(h, q, 8);
      } else {
        Terms119();
        PowerDerivative(118);
        LowestTerm();
        DerivativePower(h, q, 118);
      }
    }
  }

  lemma LowestTerm()
    ensures Modulus()[0] == Term(Modulus(), 0)
  {
  }
}
