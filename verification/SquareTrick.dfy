/** The derivative is a square, and what that says of the two parity-check matrices. */
module SquareTrick {
  import opened Params
  import opened Field
  import opened Frobenius
  import opened Polynomials
  import opened Recurrences
  import opened Decoding
  import opened Products
  import opened GoppaCode

  /** The square of a polynomial: every coefficient squared, at twice its place. */
  function SquarePoly(p: seq<Gf>): (q: seq<Gf>)
    ensures |q| == if p == [] then 0 else 2 * |p| - 1
  {
    if p == [] then []
    else if |p| == 1 then [Square(p[0])]
    else [Square(p[0]), ZERO] + SquarePoly(p[1..])
  }

  function Root(a: Gf): Gf { Frob(GFBITS - 1, a) }

  lemma RootSquare(a: Gf)
    ensures Square(Root(a)) == a
  {
    hide Square;
    FrobFixes(a);
  }

  lemma {:induction false} SquareTerm(p: seq<Gf>, k: int)
    ensures Term(SquarePoly(p), k) == if k % 2 == 0 then Square(Term(p, k / 2)) else ZERO
    decreases |p|
  {
    hide Mul;
    ZeroLeft(ZERO);
    if |p| > 1 {
      SquareTerm(p[1..], k - 2);
    }
  }

  lemma {:induction false} SquareMonic(p: seq<Gf>)
    requires Monic(p)
    ensures Monic(SquarePoly(p))
  {
    hide Mul;
    OneLeft(ONE);
    if |p| > 1 {
      SquareMonic(p[1..]);
    }
  }

  lemma {:induction false} SquareValue(p: seq<Gf>, x: Gf)
    ensures Value(SquarePoly(p), x) == Square(Value(p, x))
    decreases |p|
  {
    hide Mul, Add, Square;
    if p == [] {
      SquareConstants();
    } else if |p| == 1 {
      ValueConstant(p, x);
      ValueConstant(SquarePoly(p), x);
    } else {
      var (r, q) := (p[1..], SquarePoly(p[1..]));
      SquareValue(r, x);
      ValueCons(ZERO, q, x);
      ValueCons(Square(p[0]), [ZERO] + q, x);
      assert SquarePoly(p) == [Square(p[0])] + ([ZERO] + q);
      var v := Value(q, x);
      AddZero(Mul(x, v));
      MulAssoc(x, x, v);
      SquareIs(x);
      SquareMul(x, Value(r, x));
      SquareAdd(p[0], Mul(x, Value(r, x)));
    }
  }

  lemma SquareIs(x: Gf)
    ensures Square(x) == Mul(x, x)
  {
  }

  lemma SquareConstants()
    ensures Square(ZERO) == ZERO && Square(ONE) == ONE
  {
    hide Mul;
    ZeroLeft(ZERO); OneLeft(ONE);
  }

  /** Squares multiply as their roots do. */
  lemma {:induction false} SquareProduct(p: seq<Gf>, q: seq<Gf>, k: int)
    ensures Conv(SquarePoly(p), SquarePoly(q), k) == if k % 2 == 0 then Square(Conv(p, q, k / 2)) else ZERO
    decreases |p|
  {
    hide Mul, Add, Square, Term;
    var s := SquarePoly(q);
    SquareConstants();
    SquareTerm(q, k);
    if p != [] {
      var (c, j) := (p[0], k / 2);
      ZeroRight(Square(c));
      AddZero(ZERO);
      SquareMul(c, Term(q, j));
      if |p| == 1 {
        assert SquarePoly(p)[1..] == [] && p[1..] == [];
        AddZero(Mul(Square(c), Term(s, k)));
        AddZero(Mul(c, Term(q, j)));
      } else {
        var r := SquarePoly(p[1..]);
        SquareProduct(p[1..], q, k - 2);
        assert SquarePoly(p)[1..] == [ZERO] + r && ([ZERO] + r)[1..] == r;
        ZeroLeft(Term(s, k - 1));
        AddZero(Conv(r, s, k - 2));
        SquareAdd(Mul(c, Term(q, j)), Conv(p[1..], q, j - 1));
      }
    }
  }

  /** In characteristic two the cross terms of a square cancel. */
  lemma {:induction false} SelfProduct(p: seq<Gf>, k: int)
    ensures Conv(p, p, k) == Term(SquarePoly(p), k)
    decreases |p|
  {
    hide Mul, Add, Term;
    if p == [] {
      NoTerms(k);
    } else {
      var (c, r) := (p[0], p[1..]);
      ConvHead(p, p, k);
      ConvCons(r, c, r, k - 1);
      assert [c] + r == p;
      ConsTerm(p, k);
      SelfProduct(r, k - 2);
      SquareTerm(p, k); SquareTerm(r, k - 2);
      if k == 0 {
        TermEarly(r, -1); TermEarly(SquarePoly(r), -2);
        ZeroRight(c); AddZero(ZERO); AddZero(Mul(c, c));
      } else {
        var (m, n) := (Mul(c, Term(r, k - 1)), Term(SquarePoly(r), k - 2));
        AddAssoc(m, m, n); AddCancel(m, m); AddZero(n);
        if k % 2 == 0 { ConsTerm(p, k / 2); }
      }
    }
  }

  lemma TermEarly(p: seq<Gf>, k: int)
    requires k < 0
    ensures Term(p, k) == ZERO
  {
  }

  // ----- the derivative

  /** What one more factor does to a derivative D and its polynomial P. */
  lemma DerivativeStep(D: seq<Gf>, P: seq<Gf>, a: Gf, k: int)
    requires |P| == |D| + 1
    requires Term(D, k) == if k >= 0 && k % 2 == 0 then Term(P, k + 1) else ZERO
    requires Term(D, k - 1) == if k >= 1 && k % 2 == 1 then Term(P, k) else ZERO
    ensures Term(SumOf(TimesLinear(D, a), ONE, P), k)
         == if k >= 0 && k % 2 == 0 then Term(TimesLinear(P, a), k + 1) else ZERO
  {
    hide Mul, Add, TimesLinear, SumOf;
    TermSum(TimesLinear(D, a), ONE, P, k);
    TermLinear(D, a, k);
    TermLinear(P, a, k + 1);
    OneLeft(Term(P, k));
    ZeroRight(a);
    var x := Mul(a, Term(P, k + 1));
    AddZero(x); AddZero(ZERO); AddZero(Term(P, k));
    AddCancel(Term(P, k), Term(P, k));
  }

  /** The derivative of a product keeps every other coefficient of the product. */
  lemma {:induction false} DerivativeTerm(e: seq<bool>, u: seq<Gf>, a: seq<Gf>, k: int)
    requires |e| <= |a| && |e| <= |u| && forall i :: 0 <= i < |u| ==> u[i] == ONE
    ensures Term(Numerator(e, u, a), k) == if k >= 0 && k % 2 == 0 then Term(RootPoly(e, a), k + 1) else ZERO
    decreases |e|
  {
    hide Mul, Add, TimesLinear, SumOf;
    if e != [] {
      var n := |e| - 1;
      var d := e[..n];
      DerivativeTerm(d, u, a, k);
      DerivativeTerm(d, u, a, k - 1);
      if e[n] {
        DerivativeStep(Numerator(d, u, a), RootPoly(d, a), a[n], k);
      }
    }
  }

  /** The polynomial whose square is the derivative. */
  function DerivativeRoot(e: seq<bool>, a: seq<Gf>): (r: seq<Gf>)
    requires |e| <= |a|
    ensures |r| == (Weight(e) + 1) / 2
  {
    var d := Derivative(e, a);
    seq((Weight(e) + 1) / 2, j requires 0 <= j < (Weight(e) + 1) / 2 => Root(Term(d, 2 * j)))
  }

  lemma DerivativeSquare(e: seq<bool>, a: seq<Gf>, k: int)
    requires |e| <= |a|
    ensures Conv(DerivativeRoot(e, a), DerivativeRoot(e, a), k) == Term(Derivative(e, a), k)
  {
    hide Square, Root, Numerator, RootPoly, Conv;
    var (r, d) := (DerivativeRoot(e, a), Derivative(e, a));
    SelfProduct(r, k);
    SquareTerm(r, k);
    SquareConstants();
    DerivativeTerm(e, AllOnes(|e|), a, k);
    if k % 2 == 0 {
      RootSquare(Term(d, k));
      assert 2 * (k / 2) == k;
    }
  }

  // ----- squarefree polynomials

  /** r is a multiple of g. */
  ghost predicate Multiple(g: seq<Gf>, r: seq<Gf>)
  {
    exists b: seq<Gf> :: IsProduct(r, g, b)
  }

  ghost predicate IsProduct(r: seq<Gf>, g: seq<Gf>, b: seq<Gf>)
  {
    forall k :: Conv(g, b, k) == Term(r, k)
  }

  /** g divides every polynomial whose square it divides. */
  ghost predicate Radical(g: seq<Gf>)
  {
    forall r: seq<Gf> :: Multiple(g, SquarePoly(r)) ==> Multiple(g, r)
  }

  /** A multiple of a radical g that is a derivative is a multiple of its square. */
  lemma SquareDivides(e: seq<bool>, a: seq<Gf>, g: seq<Gf>, b: seq<Gf>) returns (c: seq<Gf>)
    requires |e| <= |a| && Monic(g) && Radical(g) && Divides(g, b, e, a)
    ensures Divides(SquarePoly(g), c, e, a)
  {
    hide Conv, Term, Derivative, DerivativeRoot, SquarePoly, Weight;
    var r := DerivativeRoot(e, a);
    var d := Derivative(e, a);
    forall k ensures Conv(g, b, k) == Term(SquarePoly(r), k) {
      DerivativeSquare(e, a, k);
      SelfProduct(r, k);
    }
    assert IsProduct(SquarePoly(r), g, b);
    var q: seq<Gf> :| IsProduct(r, g, q);
    var t := Trim(g, q, r);
    c := SquarePoly(t);
    forall k ensures Conv(SquarePoly(g), c, k) == Term(d, k) {
      SquareProduct(g, t, k);
      SquareTerm(r, k);
      DerivativeSquare(e, a, k);
      SelfProduct(r, k);
    }
  }

  /** A check with 1/g is the combination of those with 1/g^2 whose coefficients are those of g. */
  lemma Unsquared(e: seq<bool>, a: seq<Gf>, g: seq<Gf>, h: seq<Gf>, y: seq<Gf>, k: nat)
    requires |e| == |a| == |h| == |y| && |g| > 0 && k < |g| - 1
    requires Inverts(e, h, a, g) && forall i :: 0 <= i < |e| ==> y[i] == Square(h[i])
    requires MomentsVanish(Chosen(e, y), a, 2 * |g| - 2)
    ensures Moment(Chosen(e, h), a, k) == ZERO
  {
    hide Value, Moment, Weighted, MomentSum, Mul;
    var (u, v) := (Chosen(e, h), Chosen(e, y));
    forall i | 0 <= i < |e| ensures u[i] == Mul(v[i], Value(g, a[i])) {
      MulAssoc(h[i], h[i], Value(g, a[i]));
      OneRight(h[i]);
      ZeroLeft(Value(g, a[i]));
    }
    assert u == Scale(v, a, g);
    ScaleMoment(v, a, g, k);
    MomentSumIsWeighted(g, v, a, k);
    MomentSumZero(g, v, a, k);
  }

  /**
   The checks with 1/g hold exactly when those with 1/g^2, twice as many, do: the binary code of a
   squarefree g is the code of its square.
   */
  lemma SameChecks(e: seq<bool>, a: seq<Gf>, g: seq<Gf>, h: seq<Gf>, y: seq<Gf>)
    requires |e| == |a| == |h| == |y| && Distinct(a) && Monic(g) && Radical(g)
    requires Inverts(e, h, a, g) && forall i :: 0 <= i < |e| ==> y[i] == Square(h[i])
    ensures MomentsVanish(Chosen(e, h), a, |g| - 1) <==> MomentsVanish(Chosen(e, y), a, 2 * |g| - 2)
  {
    hide Conv, Term, Derivative, Value, Distinct, Radical, Numerator, Moment, Square, Mul, Chosen;
    var g2 := SquarePoly(g);
    SquareMonic(g);
    assert h[..|e|] == h && y[..|e|] == y;
    forall i | 0 <= i < |e| && e[i] ensures Mul(y[i], Value(g2, a[i])) == ONE {
      SquareValue(g, a[i]);
      SquareMul(h[i], Value(g, a[i]));
      SquareConstants();
    }
    if MomentsVanish(Chosen(e, h), a, |g| - 1) {
      ChecksDivide(e, h, a, g);
      var c := SquareDivides(e, a, g, Numerator(e, h, a));
      DivideChecks(e, y, a, g2, c);
    }
    if MomentsVanish(Chosen(e, y), a, 2 * |g| - 2) {
      forall k | 0 <= k < |g| - 1 ensures Moment(Chosen(e, h), a, k) == ZERO {
        Unsquared(e, a, g, h, y, k);
      }
    }
  }
}
