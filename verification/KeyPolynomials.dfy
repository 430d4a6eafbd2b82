/** What F gives to minimal polynomials: no repeated factor, no root. */
module KeyPolynomials {
  import opened Params
  import opened Field
  import opened Frobenius
  import opened Polynomials
  import opened Recurrences
  import opened Products
  import opened PolynomialRing
  import opened Squarefree
  import opened ExtensionField
  import opened MinimalPolynomial
  import FieldMatrices
  import GoppaCode
  import SkGen

  // ----- multiples of F

  lemma ModulusNormal()
    ensures Normal(Modulus()) && Norm(Modulus()) == Modulus()
  {
    SplitZero();
  }

  lemma ZeroClass(p: seq<Gf>, k: seq<Gf>)
    requires Normal(p) && Normal(k) && p == Times(Modulus(), k)
    ensures Congruent(p, [])
  {
    hide Times, Plus;
    NormNormal(p);
    PlusNone(Times(Modulus(), k));
    assert Norm([]) == [];
    Witness(p, [], k);
  }

  lemma ClassZero(p: seq<Gf>) returns (k: seq<Gf>)
    requires Normal(p) && Congruent(p, [])
    ensures Normal(k) && p == Times(Modulus(), k)
  {
    hide Times, Plus;
    k :| Normal(k) && Norm(p) == Plus(Times(Modulus(), k), Norm([]));
    assert Norm([]) == [];
    NormNormal(p);
    PlusNone(Times(Modulus(), k));
  }

  /** The multiples of a multiple of F. */
  lemma ZeroTimes(p: seq<Gf>, s: seq<Gf>)
    requires Normal(p) && Congruent(p, [])
    ensures Congruent(Times(s, p), [])
  {
    hide Times, Congruent;
    CongruentTimes(s, p, []);
    TimesNone(s);
  }

  /** The remainder modulo F. */
  lemma Residue(p: seq<Gf>) returns (r: seq<Gf>)
    requires Normal(p)
    ensures Normal(r) && |r| <= SYS_T && Congruent(p, r)
  {
    hide Times, Plus, Norm;
    var k;
    ModulusNormal();
    k, r := Divide(p, Modulus());
    NormNormal(p); NormNormal(r);
    Witness(p, r, k);
  }

  // ----- minimal polynomials

  lemma MinimalShape(g: seq<Gf>, f: seq<Gf>)
    requires IsMinimal(g, f)
    ensures |g| == SYS_T + 1 && Normal(g) && Norm(g) == g && Monic(g) && Congruent(PolyAt(g, f), [])
  {
    hide Congruent, SumAt;
    SplitZero();
  }

  /** No polynomial of lower degree vanishes at f. */
  lemma ShortVanishing(g: seq<Gf>, f: seq<Gf>, x: seq<Gf>)
    requires IsMinimal(g, f) && Normal(x) && |x| <= SYS_T && Congruent(PolyAt(x, f), [])
    ensures x == []
  {
    hide Congruent, SumAt;
  }

  lemma NormalFactor(p: seq<Gf>, q: seq<Gf>) returns (t: seq<Gf>)
    ensures Normal(t) && Times(p, q) == Times(p, t)
  {
    hide Times, Norm;
    t := Norm(q);
    NormedTimes(q, p);
    TimesComm(p, q);
  }

  /** If F is squarefree, so is every minimal polynomial of degree SYS_T modulo F. */
  lemma MinimalSquarefree(g: seq<Gf>, f: seq<Gf>)
    requires IsSquarefree(Modulus()) && IsMinimal(g, f)
    ensures IsSquarefree(g)
  {
    hide Times, Norm, SumAt, Congruent, IsMinimal;
    MinimalShape(g, f);
    forall h: seq<Gf>, q: seq<Gf> | Normal(h) && Norm(g) == Times(Times(h, h), q) ensures |h| <= 1 {
      var t := NormalFactor(Times(h, h), q);
      RepeatedFactor(g, f, h, t);
    }
  }

  /** With g = h^2 t and r = h t: r(f)^2 = g(f) t(f) = 0, so that r(f) = 0. */
  lemma RepeatedFactor(g: seq<Gf>, f: seq<Gf>, h: seq<Gf>, t: seq<Gf>)
    requires IsSquarefree(Modulus()) && IsMinimal(g, f) && Normal(h) && Normal(t) && g == Times(Times(h, h), t)
    ensures |h| <= 1
  {
    hide Times, Norm, SumAt, Congruent, IsMinimal, IsSquarefree, PolyAt;
    MinimalShape(g, f); ModulusNormal();
    var r := Times(h, t);
    TimesAssoc(h, h, t);
    if h == [] { TimesComm(h, r); TimesNone(r); }
    if t == [] { TimesNone(Times(h, h)); }
    ProductLength(h, t);
    ProductLength(h, r);
    if |h| > 1 {
      var (u, v) := (PolyAt(r, f), PolyAt(t, f));
      // r r = h t (h t) = (h (h t)) t.
      TimesAssoc(h, t, r); TimesSwap(h, t, r); TimesComm(t, g);
      PolyAtTimes(r, r, f); PolyAtTimes(g, t, f);
      TimesComm(PolyAt(g, f), v); ZeroTimes(PolyAt(g, f), v);
      var k := ClassZero(Times(u, u));
      var b := SquarefreeDivides(Modulus(), u, k);
      var c := NormalFactor(Modulus(), b);
      ZeroClass(u, c);
      ShortVanishing(g, f, r);
    }
  }

  // ----- division by x - a

  /** p = (x - a) q + p(a). */
  lemma LinearFactor(p: seq<Gf>, a: Gf)
    ensures Norm(p) == Plus(Times([a, ONE], Norm(Quotient(p, a))), Constant(Value(p, a)))
  {
    hide Times, Norm, Plus, Conv, Value, Mul, Add, Quotient, Constant, Term;
    var (q, u, c) := (Quotient(p, a), [a, ONE], Constant(Value(p, a)));
    LinearUnit(a);
    forall k ensures Term(Norm(p), k) == Term(Plus(Times(u, Norm(q)), c), k) {
      NormTerm(p, k);
      GoppaCode.DivisionActs(p, a, [ONE], k);
      ConvComm(p, [ONE], k); UnitConv(p, k);
      UnitTerm(k); OneRight(Value(p, a)); ZeroRight(Value(p, a));
      NormedTimes(q, u); TimesTerm(q, u, k);
      PlusTerm(Times(u, Norm(q)), c, k);
      AddComm(Term(c, k), Conv(q, u, k));
    }
    Equal(Norm(p), Plus(Times(u, Norm(q)), c));
  }

  lemma UnitTerm(k: int)
    ensures Term([ONE], k) == if k == 0 then ONE else ZERO
  {
  }

  lemma LinearUnit(a: Gf)
    ensures TimesLinear([ONE], a) == [a, ONE]
  {
    hide Mul, Add;
    OneRight(a); AddZero(ONE);
    assert [ONE][1..] == [];
  }

  lemma TimesValue(p: seq<Gf>, q: seq<Gf>, x: Gf)
    ensures Value(Times(p, q), x) == Mul(Value(p, x), Value(q, x))
  {
    hide Times, Conv, Value, Mul;
    var r := Times(p, q);
    forall k ensures Conv(p, q, k) == Conv([ONE], r, k) { TimesTerm(p, q, k); UnitConv(r, k); }
    ProductValue(p, q, [ONE], r, x);
    ValueConstant([ONE], x);
    OneLeft(Value(r, x));
  }

  lemma LinearRoot(a: Gf)
    ensures Value([a, ONE], a) == ZERO
  {
    hide Mul, Add;
    ValueConstant([ONE], a);
    assert [a, ONE][1..] == [ONE];
    OneRight(a); AddCancel(a, a);
  }

  // ----- y is a polynomial in f

  function Variable(): (p: seq<Gf>)
    ensures Normal(p) && |p| == 2
  {
    SplitZero();
    [ZERO, ONE]
  }

  /** The remainders of the powers of f. */
  lemma {:induction false} Powers(f: seq<Gf>, n: nat) returns (cols: seq<seq<Gf>>)
    ensures HoldPowers(cols, f, n) && |cols| == n && forall c :: 0 <= c < n ==> |cols[c]| == SYS_T
  {
    hide Norm, Congruent, PolyPow;
    if n == 0 {
      cols := [];
    } else {
      cols := Powers(f, n - 1);
      var r := Residue(PolyPow(f, n - 1));
      cols := cols + [GoppaCode.Padded(r, SYS_T)];
      NormPadded(r, SYS_T);
    }
  }

  lemma NormPadded(r: seq<Gf>, n: nat)
    requires Normal(r) && |r| <= n
    ensures Norm(GoppaCode.Padded(r, n)) == r
  {
    hide Norm, Term;
    var p := GoppaCode.Padded(r, n);
    forall k ensures Term(Norm(p), k) == Term(r, k) { NormTerm(p, k); GoppaCode.PaddedTerm(r, n, k); }
    Equal(Norm(p), r);
  }

  lemma {:induction false} SumPrefix(x: seq<Gf>, f: seq<Gf>, n: nat, m: nat)
    requires m <= n <= |x|
    ensures SumAt(x, f, m) == SumAt(x[..n], f, m)
  {
    hide Times, Plus, PolyPow, Constant;
    if m > 0 {
      SumPrefix(x, f, n, m - 1);
    }
  }

  /** 1, f, .., f^(t-1) and y are one vector too many: some combination of the powers is a multiple of y. */
  lemma VariableRelation(f: seq<Gf>) returns (x: seq<Gf>, c: Gf)
    ensures |x| == SYS_T && (!AllZero(x) || c != ZERO)
    ensures Congruent(PolyAt(x, f), Times(Constant(c), Variable()))
  {
    hide Times, Plus, Norm, Congruent, Constant, SumAt, PolyPow, SkGen.FromColumns, FieldMatrices.Dot;
    var cols := Powers(f, SYS_T);
    var y := GoppaCode.Padded(Variable(), SYS_T);
    var all := cols + [y];
    var w := FieldMatrices.RelationExists(SkGen.FromColumns(all), SYS_T + 1, {});
    x, c := w[..SYS_T], w[SYS_T];
    WholeAllZero(w);
    CombinationPower(all, f, w, SYS_T);
    SumPrefix(w, f, SYS_T, SYS_T);
    CombinationZero(all, w);
    NormPadded(Variable(), SYS_T);
    LastCombination(all, w);
  }

  lemma WholeAllZero(w: seq<Gf>)
    requires |w| > 0 && exists c :: 0 <= c < |w| && w[c] != ZERO
    ensures !AllZero(w[..|w| - 1]) || w[|w| - 1] != ZERO
  {
    var c :| 0 <= c < |w| && w[c] != ZERO;
    if c < |w| - 1 { assert w[..|w| - 1][c] != ZERO; }
  }

  lemma CombinationZero(cols: seq<seq<Gf>>, x: seq<Gf>)
    requires |cols| == |x| && forall c :: 0 <= c < |cols| ==> |cols[c]| == SYS_T
    requires FieldMatrices.Shape(SkGen.FromColumns(cols), SYS_T, |x|)
    requires FieldMatrices.Relation(SkGen.FromColumns(cols), x)
    ensures Norm(Combination(cols, x, |x|)) == []
  {
    hide Norm, Combination, FieldMatrices.Dot;
    var (v, m) := (Combination(cols, x, |x|), SkGen.FromColumns(cols));
    forall r | 0 <= r < SYS_T ensures v[r] == ZERO {
      CombinationDot(cols, x, |x|, r);
      assert m[r][..|x|] == m[r];
    }
    NormZero(v);
  }

  lemma LastCombination(cols: seq<seq<Gf>>, x: seq<Gf>)
    requires 0 < |cols| == |x| && forall c :: 0 <= c < |cols| ==> |cols[c]| == SYS_T
    requires Norm(Combination(cols, x, |x|)) == []
    ensures Norm(Combination(cols, x, |x| - 1)) == Times(Constant(x[|x| - 1]), Norm(cols[|x| - 1]))
  {
    hide Norm, Plus, Times, Constant, SumOf;
    var n := |x| - 1;
    NormSum(Combination(cols, x, n), x[n], cols[n]);
    PlusZero(Norm(Combination(cols, x, n)), Times(Constant(x[n]), Norm(cols[n])));
  }

  /** If f has a minimal polynomial of degree SYS_T, y is a polynomial in f. */
  lemma VariableOf(g: seq<Gf>, f: seq<Gf>) returns (h: seq<Gf>)
    requires IsMinimal(g, f)
    ensures Normal(h) && Congruent(PolyAt(h, f), Variable())
  {
    hide Times, Congruent, Constant, PolyAt, Inv, Mul;
    var x, c := VariableRelation(f);
    if c == ZERO {
      ConstantZero(Variable());
    }
    var u := Inv(c);
    InvMul(c); MulComm(c, u);
    h := Times(Constant(u), x);
    PolyAtScaled(u, x, f);
    CongruentTimes(Constant(u), PolyAt(x, f), Times(Constant(c), Variable()));
    TimesAssoc(Constant(u), Constant(c), Variable());
    ConstantMul(u, c); ConstantOne();
    TimesUnits(Variable());
  }

  lemma ConstantOne()
    ensures Constant(ONE) == [ONE]
  {
    SplitZero();
  }

  // ----- roots

  /** The quotient of g by x - a has a remainder r at f, not zero, that (y - b) takes to a multiple of F. */
  lemma RootFactor(g: seq<Gf>, f: seq<Gf>, a: Gf) returns (b: Gf, r: seq<Gf>)
    requires IsMinimal(g, f) && Value(g, a) == ZERO
    ensures Normal(r) && r != [] && |r| <= SYS_T && Congruent(Times([b, ONE], r), [])
  {
    hide Times, Plus, Norm, Congruent, Constant, PolyAt, Value, Quotient, IsMinimal;
    MinimalShape(g, f);
    var h := VariableOf(g, f);
    b := Value(h, a);
    var (e, q, w) := ([a, ONE], Norm(Quotient(g, a)), Norm(Quotient(h, a)));
    NormNormal(h);
    // g = e q and h = e w + b.
    LinearFactor(g, a); LinearFactor(h, a);
    ConstantNone(); PlusNone(Times(e, q));
    PolyAtTimes(e, q, f);
    PolyAtTimes(e, w, f); PolyAtPlus(Times(e, w), Constant(b), f); PolyAtConstant(b, f);
    var (s, t, v) := (PolyAt(e, f), PolyAt(q, f), PolyAt(w, f));
    r := Residue(t);
    if r == [] {
      ShortVanishing(g, f, q);
      TimesNone(e);
    }
    // (y + b) r = (y + b) t = e(f) w(f) t = w(f) g(f) = 0.
    VariableShift(b, Times(s, v), PolyAt(h, f));
    var l := Plus(Variable(), Constant(b));
    LinearIs(b);
    CongruentSym(t, r);
    CongruentTimes(l, r, t);
    CongruentTimes(t, l, Times(s, v));
    TimesComm(t, l); TimesComm(s, v); TimesSwap(t, v, s); TimesComm(t, s);
    ZeroTimes(PolyAt(g, f), v);
    CongruentTrans(Times(l, r), Times(l, t), Times(t, Times(s, v)));
    CongruentTrans(Times(l, r), Times(t, Times(s, v)), []);
  }

  lemma ConstantNone()
    ensures Constant(ZERO) == []
  {
  }

  lemma LinearIs(b: Gf)
    ensures Plus(Variable(), Constant(b)) == [b, ONE]
  {
    hide Plus, Add, Constant;
    var l := Plus(Variable(), Constant(b));
    SplitZero();
    AddZero(b); AddZero(ONE); AddZero(ZERO);
    forall k ensures Term(l, k) == Term([b, ONE], k) {
      PlusTerm(Variable(), Constant(b), k);
    }
    Equal(l, [b, ONE]);
  }

  /** If y = p + b then y + b = p. */
  lemma VariableShift(b: Gf, p: seq<Gf>, h: seq<Gf>)
    requires Normal(p) && h == Plus(p, Constant(b)) && Congruent(h, Variable())
    ensures Congruent(Plus(Variable(), Constant(b)), p)
  {
    hide Plus, Congruent, Constant;
    CongruentRefl(Constant(b));
    CongruentPlus(h, Variable(), Constant(b), Constant(b));
    PlusAssoc(p, Constant(b), Constant(b));
    PlusNone(Constant(b)); PlusNone(p);
    CongruentSym(p, Plus(Variable(), Constant(b)));
  }

  /** If F has no root in the base field, no minimal polynomial of degree SYS_T modulo F has one. */
  lemma MinimalNoRoot(g: seq<Gf>, f: seq<Gf>, a: Gf)
    requires (forall b :: Value(Modulus(), b) != ZERO) && IsMinimal(g, f)
    ensures Value(g, a) != ZERO
  {
    hide Times, Congruent, IsMinimal, Value, Mul;
    if Value(g, a) == ZERO {
      var b, r := RootFactor(g, f, a);
      SplitZero(); ModulusNormal();
      var l := [b, ONE];
      var k := ClassZero(Times(l, r));
      ProductLength(l, r);
      if k == [] { TimesNone(Modulus()); }
      ProductLength(Modulus(), k);
      // F(b) k = 0 for a constant k.
      TimesValue(l, r, b); TimesValue(Modulus(), k, b);
      LinearRoot(b); ZeroLeft(Value(r, b)); ValueConstant(k, b);
      NoZeroDivisors(Value(Modulus(), b), Value(k, b));
    }
  }
}
