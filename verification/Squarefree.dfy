/** Squarefree polynomials divide whatever has a square that they divide. */
module Squarefree {
  import opened Field
  import opened Frobenius
  import opened Recurrences
  import opened Polynomials
  import opened Decoding
  import opened Products
  import opened PolynomialRing
  import opened SquareTrick
  import opened GoppaCode

  /** No square of a polynomial of positive degree divides g. */
  ghost predicate IsSquarefree(g: seq<Gf>)
  {
    forall h: seq<Gf>, q: seq<Gf> :: Normal(h) && Norm(g) == Times(Times(h, h), q) ==> |h| <= 1
  }

  lemma TimesNorm(p: seq<Gf>, q: seq<Gf>)
    ensures Times(p, q) == Times(Norm(p), Norm(q))
  {
    hide Times, Conv, Norm;
    forall k ensures Term(Times(p, q), k) == Term(Times(Norm(p), Norm(q)), k) {
      TimesTerm(p, q, k); TimesTerm(Norm(p), Norm(q), k);
      forall j ensures Term(Norm(p), j) == Term(p, j) && Term(Norm(q), j) == Term(q, j) {
        NormTerm(p, j); NormTerm(q, j);
      }
      SameTerms(p, q, Norm(q), k);
      ConvComm(p, Norm(q), k);
      SameTerms(Norm(q), p, Norm(p), k);
      ConvComm(Norm(p), Norm(q), k);
    }
    Equal(Times(p, q), Times(Norm(p), Norm(q)));
  }

  /** (u + v)^2 = u^2 + v^2. */
  lemma SquareSum(u: seq<Gf>, v: seq<Gf>)
    requires Normal(u) && Normal(v)
    ensures Times(Plus(u, v), Plus(u, v)) == Plus(Times(u, u), Times(v, v))
  {
    hide Times, Plus;
    var s := Plus(u, v);
    TimesPlus(s, u, v);
    TimesComm(s, u); TimesPlus(u, u, v);
    TimesComm(s, v); TimesPlus(v, u, v);
    var (uu, uv, vv) := (Times(u, u), Times(u, v), Times(v, v));
    TimesComm(u, v);
    PlusAssoc(uu, uv, Plus(uv, vv));
    PlusAssoc(uv, uv, vv); PlusNone(uv); PlusNone(vv);
  }

  /** (a b)^2 = a (a b^2). */
  lemma SquareTimes(a: seq<Gf>, b: seq<Gf>)
    ensures Times(Times(a, b), Times(a, b)) == Times(a, Times(a, Times(b, b)))
  {
    hide Times;
    TimesAssoc(a, b, Times(a, b));
    TimesSwap(b, a, b);
  }

  /** With c = gcd(g, r), g = c d and g | r^2: the cofactor d divides c. */
  lemma CofactorDivides(g: seq<Gf>, r: seq<Gf>, a: seq<Gf>, c: seq<Gf>, u: seq<Gf>, v: seq<Gf>, d: seq<Gf>, q: seq<Gf>)
    returns (k: seq<Gf>)
    requires Normal(g) && Normal(r) && Normal(a) && g != [] && Common(g, r, c, u, v, d, q)
    requires Times(r, r) == Times(g, a)
    ensures Normal(k) && c == Times(d, k)
  {
    hide Times, Plus;
    if c == [] { TimesComm([], d); TimesUnits(d); }
    // 1 = u d + v q.
    var (ud, vq) := (Times(u, d), Times(v, q));
    TimesSwap(u, c, d); TimesSwap(v, c, q);
    TimesPlus(c, ud, vq);
    TimesUnits(c);
    SplitZero();
    Cancel(c, Plus(ud, vq), [ONE]);
    // c q^2 = d a.
    SquareTimes(c, q);
    TimesAssoc(c, d, a);
    Cancel(c, Times(c, Times(q, q)), Times(d, a));
    // c = c (u d + v q)^2 = c (u d)^2 + v^2 c q^2.
    SquareSum(ud, vq);
    TimesUnits([ONE]);
    TimesPlus(c, Times(ud, ud), Times(vq, vq));
    SquareTimes(v, q);
    TimesSwap(c, v, Times(v, Times(q, q))); TimesSwap(c, v, Times(q, q));
    TimesSwap(v, d, a); TimesSwap(v, d, Times(v, a));
    TimesAssoc(u, d, ud); TimesSwap(u, d, ud);
    TimesSwap(c, d, Times(u, ud));
    k := Plus(Times(c, Times(u, ud)), Times(v, Times(v, a)));
    TimesPlus(d, Times(c, Times(u, ud)), Times(v, Times(v, a)));
  }

  /** A squarefree g divides every r whose square it divides. */
  lemma SquarefreeDivides(g: seq<Gf>, r: seq<Gf>, a: seq<Gf>) returns (b: seq<Gf>)
    requires Normal(g) && Normal(r) && Normal(a) && g != [] && IsSquarefree(g)
    requires Times(r, r) == Times(g, a)
    ensures r == Times(g, b)
  {
    hide Times, Plus, IsSquarefree, Mul, Inv;
    var c, u, v, d, q := Bezout(g, r);
    var k := CofactorDivides(g, r, a, c, u, v, d, q);
    TimesComm(Times(d, k), d); TimesAssoc(d, d, k);
    CofactorConstant(g, d, k);
    // d is a constant, so that r = c q = g (q / d).
    TimesUnits(c); TimesComm(c, []);
    var e := Norm([Inv(d[0])]);
    InvMul(d[0]);
    ConstantInverse(d, e);
    b := Times(e, q);
    TimesAssoc(c, d, b); TimesAssoc(d, e, q);
    TimesUnits(q);
  }

  lemma CofactorConstant(g: seq<Gf>, d: seq<Gf>, k: seq<Gf>)
    requires Normal(g) && Normal(d) && IsSquarefree(g) && g != [] && g == Times(Times(d, d), k)
    ensures |d| == 1
  {
    hide Times;
    NormNormal(g);
    if d == [] {
      TimesUnits([]); TimesComm([], k); TimesNone(k);
    }
  }

  lemma ConstantInverse(d: seq<Gf>, e: seq<Gf>)
    requires |d| == 1 && Normal(d) && e == Norm([Inv(d[0])])
    ensures Normal(e) && Times(d, e) == [ONE]
  {
    hide Times, Conv, Mul, Inv;
    InvMul(d[0]); ZeroRight(d[0]); SplitZero();
    assert e == [Inv(d[0])];
    forall k ensures Term(Times(d, e), k) == Term([ONE], k) {
      TimesTerm(d, e, k);
      if k < 0 { ConvEarly(d, e, k); }
      if k == 0 { TopProduct(d, e); }
      if k > 0 { ConvLate(d, e, k); }
    }
    Equal(Times(d, e), [ONE]);
  }

  /** Squarefree polynomials are radical. */
  lemma SquarefreeRadical(g: seq<Gf>)
    requires Monic(g) && IsSquarefree(g)
    ensures Radical(g)
  {
    hide Times, Conv, IsSquarefree, SquarePoly, Norm;
    SplitZero();
    MonicNormal(g);
    forall r: seq<Gf> | Multiple(g, SquarePoly(r)) ensures Multiple(g, r) {
      var a: seq<Gf> :| IsProduct(SquarePoly(r), g, a);
      var (s, t) := (Norm(r), Norm(a));
      TimesNorm(r, r); TimesNorm(g, a);
      forall k ensures Term(Times(r, r), k) == Term(Times(g, a), k) {
        TimesTerm(r, r, k); TimesTerm(g, a, k); SelfProduct(r, k);
        assert Conv(g, a, k) == Term(SquarePoly(r), k);
      }
      Equal(Times(r, r), Times(g, a));
      var b := SquarefreeDivides(g, s, t);
      forall k ensures Conv(g, b, k) == Term(r, k) {
        TimesTerm(g, b, k); NormTerm(r, k);
      }
      assert IsProduct(r, g, b);
    }
  }

  lemma MonicNormal(g: seq<Gf>)
    requires Monic(g)
    ensures Normal(g) && Norm(g) == g
  {
    SplitZero();
  }

  /**
   The binary vectors that satisfy the SYS_T checks with 1/g are those that satisfy the 2 SYS_T
   checks with 1/g^2, for every squarefree g without roots among the points.
   */
  lemma SameBinaryCode(e: seq<bool>, a: seq<Gf>, g: seq<Gf>, h: seq<Gf>, y: seq<Gf>)
    requires |e| == |a| == |h| == |y| && Distinct(a) && Monic(g) && IsSquarefree(g)
    requires Inverts(e, h, a, g) && forall i :: 0 <= i < |e| ==> y[i] == Square(h[i])
    ensures MomentsVanish(Chosen(e, h), a, |g| - 1) <==> MomentsVanish(Chosen(e, y), a, 2 * |g| - 2)
  {
    hide IsSquarefree, Radical, Distinct, Inverts, MomentsVanish, Square, Chosen;
    SquarefreeRadical(g);
    SameChecks(e, a, g, h, y);
  }
}
