/**
 What the relation that genpoly_gen finds says: out, with a leading one, is the minimal polynomial
 of f modulo F, and there is none of degree SYS_T when genpoly_gen fails.
 */
module MinimalPolynomial {
  import opened Params
  import opened Field
  import opened Frobenius
  import opened Recurrences
  import opened Products
  import opened PolynomialRing
  import opened ExtensionField
  import FieldMatrices
  import GoppaCode
  import SkGen

  // ----- residue classes modulo F

  lemma Witness(p: seq<Gf>, r: seq<Gf>, q: seq<Gf>)
    requires Normal(q) && Norm(p) == Plus(Times(Modulus(), q), Norm(r))
    ensures Congruent(p, r)
  {
    hide Times, Plus, Norm;
  }

  lemma CongruentSym(p: seq<Gf>, r: seq<Gf>)
    requires Congruent(p, r)
    ensures Congruent(r, p)
  {
    hide Times, Plus, Norm;
    var f := Modulus();
    var q: seq<Gf> :| Normal(q) && Norm(p) == Plus(Times(f, q), Norm(r));
    var t := Times(f, q);
    PlusAssoc(t, t, Norm(r)); PlusNone(t); PlusNone(Norm(r));
    Witness(r, p, q);
  }

  lemma CongruentPlus(p: seq<Gf>, r: seq<Gf>, s: seq<Gf>, t: seq<Gf>)
    requires Normal(p) && Normal(r) && Normal(s) && Normal(t) && Congruent(p, r) && Congruent(s, t)
    ensures Congruent(Plus(p, s), Plus(r, t))
  {
    hide Times, Plus, Norm;
    var f := Modulus();
    var u: seq<Gf> :| Normal(u) && Norm(p) == Plus(Times(f, u), Norm(r));
    var v: seq<Gf> :| Normal(v) && Norm(s) == Plus(Times(f, v), Norm(t));
    NormNormal(p); NormNormal(r); NormNormal(s); NormNormal(t);
    NormNormal(Plus(p, s)); NormNormal(Plus(r, t));
    var (a, b) := (Times(f, u), Times(f, v));
    TimesPlus(f, u, v);
    PlusCross(a, r, b, t);
    Witness(Plus(p, s), Plus(r, t), Plus(u, v));
  }

  lemma PlusCross(a: seq<Gf>, b: seq<Gf>, c: seq<Gf>, d: seq<Gf>)
    ensures Plus(Plus(a, b), Plus(c, d)) == Plus(Plus(a, c), Plus(b, d))
  {
    hide Plus;
    PlusAssoc(a, b, Plus(c, d));
    PlusAssoc(b, c, d); PlusComm(b, c); PlusAssoc(c, b, d);
    PlusAssoc(a, c, Plus(b, d));
  }

  lemma CongruentTimes(s: seq<Gf>, p: seq<Gf>, r: seq<Gf>)
    requires Normal(p) && Normal(r) && Congruent(p, r)
    ensures Congruent(Times(s, p), Times(s, r))
  {
    hide Times, Plus, Norm;
    var f := Modulus();
    var u: seq<Gf> :| Normal(u) && Norm(p) == Plus(Times(f, u), Norm(r));
    NormNormal(p); NormNormal(r);
    NormNormal(Times(s, p)); NormNormal(Times(s, r));
    TimesPlus(s, Times(f, u), r);
    TimesSwap(s, f, u);
    Witness(Times(s, p), Times(s, r), Times(s, u));
  }

  /** Remainders are unique. */
  lemma SmallMultiple(r: seq<Gf>)
    requires Normal(r) && |r| <= SYS_T && Congruent(r, [])
    ensures r == []
  {
    hide Times, Plus, Norm, Conv, Mul;
    var f := Modulus();
    var q: seq<Gf> :| Normal(q) && Norm(r) == Plus(Times(f, q), Norm([]));
    NormNormal(r); NormNormal([]);
    PlusNone(Times(f, q));
    if q != [] {
      TopProduct(f, q);
      TimesTerm(f, q, |f| + |q| - 2);
      OneLeft(q[|q| - 1]);
      TermBeyond(r, |f| + |q| - 2);
    } else {
      TimesNone(f);
    }
  }

  // ----- polynomials evaluated at an element

  /** f to the power n, as a polynomial. */
  function PolyPow(f: seq<Gf>, n: nat): (p: seq<Gf>)
    ensures Normal(p)
  {
    SplitZero();
    if n == 0 then [ONE] else Times(f, PolyPow(f, n - 1))
  }

  function Constant(c: Gf): (p: seq<Gf>)
    ensures Normal(p) && forall k :: Term(p, k) == if k == 0 then c else ZERO
  {
    if c == ZERO then [] else [c]
  }

  /** The sum of x[c] f^c for c below n. */
  function SumAt(x: seq<Gf>, f: seq<Gf>, n: nat): (p: seq<Gf>)
    ensures Normal(p)
  {
    if n == 0 then [] else Plus(SumAt(x, f, n - 1), Times(Constant(Term(x, n - 1)), PolyPow(f, n - 1)))
  }

  /** The polynomial x at f. */
  function PolyAt(x: seq<Gf>, f: seq<Gf>): (p: seq<Gf>)
    ensures Normal(p)
  {
    SumAt(x, f, |x|)
  }

  lemma ConstantZero(p: seq<Gf>)
    ensures Times(Constant(ZERO), p) == []
  {
    hide Times;
    TimesComm([], p);
    TimesNone(p);
  }

  lemma {:induction false} SumStable(x: seq<Gf>, f: seq<Gf>, n: nat)
    requires n >= |x|
    ensures SumAt(x, f, n) == PolyAt(x, f)
  {
    hide Times, Plus, PolyPow;
    if n > |x| {
      SumStable(x, f, n - 1);
      ConstantZero(PolyPow(f, n - 1));
      PlusNone(SumAt(x, f, n - 1));
    }
  }

  lemma {:induction false} SumSame(x: seq<Gf>, y: seq<Gf>, f: seq<Gf>, n: nat)
    requires forall k :: Term(x, k) == Term(y, k)
    ensures SumAt(x, f, n) == SumAt(y, f, n)
  {
    hide Times, Plus, PolyPow, Constant, Term;
    if n > 0 {
      SumSame(x, y, f, n - 1);
    }
  }

  lemma PolyAtNorm(x: seq<Gf>, f: seq<Gf>)
    ensures PolyAt(Norm(x), f) == PolyAt(x, f)
  {
    hide Norm, SumAt, Term;
    forall k ensures Term(Norm(x), k) == Term(x, k) { NormTerm(x, k); }
    SumSame(Norm(x), x, f, |x|);
    SumStable(Norm(x), f, |x|);
  }

  lemma ConstantAdd(a: Gf, b: Gf)
    ensures Constant(Add(a, b)) == Plus(Constant(a), Constant(b))
  {
    hide Plus, Add, Term;
    forall k ensures Term(Constant(Add(a, b)), k) == Term(Plus(Constant(a), Constant(b)), k) {
      PlusTerm(Constant(a), Constant(b), k);
      AddZero(ZERO);
    }
    Equal(Constant(Add(a, b)), Plus(Constant(a), Constant(b)));
  }

  lemma ConstantMul(a: Gf, b: Gf)
    ensures Constant(Mul(a, b)) == Times(Constant(a), Constant(b))
  {
    hide Times, Mul, Term, Conv;
    var (c, d) := (Constant(a), Constant(b));
    ZeroLeft(b); ZeroRight(a); NoZeroDivisors(a, b);
    if a == ZERO {
      ConstantZero(d);
    } else if b == ZERO {
      TimesNone(c);
    } else {
      forall k ensures Term(Constant(Mul(a, b)), k) == Term(Times(c, d), k) {
        TimesTerm(c, d, k);
        if k < 0 { ConvEarly(c, d, k); }
        if k == 0 { TopProduct(c, d); }
        if k > 0 { ConvLate(c, d, k); }
      }
      Equal(Constant(Mul(a, b)), Times(c, d));
    }
  }

  lemma {:induction false} SumPlus(x: seq<Gf>, y: seq<Gf>, f: seq<Gf>, n: nat)
    ensures SumAt(Plus(x, y), f, n) == Plus(SumAt(x, f, n), SumAt(y, f, n))
  {
    hide Times, Plus, PolyPow, Constant, Term, Add;
    if n == 0 {
      PlusNone([]);
    } else {
      SumPlus(x, y, f, n - 1);
      PlusTerm(x, y, n - 1);
      var (a, b, p) := (Constant(Term(x, n - 1)), Constant(Term(y, n - 1)), PolyPow(f, n - 1));
      ConstantAdd(Term(x, n - 1), Term(y, n - 1));
      TimesComm(Plus(a, b), p); TimesPlus(p, a, b); TimesComm(p, a); TimesComm(p, b);
      PlusCross(SumAt(x, f, n - 1), SumAt(y, f, n - 1), Times(a, p), Times(b, p));
    }
  }

  /** c x at f is c times x at f. */
  lemma {:induction false} SumScaled(c: Gf, x: seq<Gf>, f: seq<Gf>, n: nat)
    ensures SumAt(Times(Constant(c), x), f, n) == Times(Constant(c), SumAt(x, f, n))
  {
    hide Times, Plus, PolyPow, Constant, Term, Mul;
    if n == 0 {
      TimesNone(Constant(c));
    } else {
      SumScaled(c, x, f, n - 1);
      ScaledTerm(c, x, n - 1);
      var (a, p) := (Constant(Term(x, n - 1)), PolyPow(f, n - 1));
      ConstantMul(c, Term(x, n - 1));
      TimesAssoc(Constant(c), a, p);
      TimesPlus(Constant(c), SumAt(x, f, n - 1), Times(a, p));
    }
  }

  lemma ScaledTerm(c: Gf, x: seq<Gf>, k: int)
    ensures Term(Times(Constant(c), x), k) == Mul(c, Term(x, k))
  {
    hide Times, Mul, Add;
    TimesTerm(Constant(c), x, k);
    ZeroLeft(Term(x, k));
    AddZero(Mul(c, Term(x, k)));
    if c != ZERO { assert Constant(c)[1..] == []; }
  }

  /** y x at f is f times x at f. */
  lemma {:induction false} SumShift(x: seq<Gf>, f: seq<Gf>, n: nat)
    ensures SumAt([ZERO] + x, f, n + 1) == Times(f, SumAt(x, f, n))
  {
    hide Times, Plus, Constant;
    if n == 0 {
      ConstantZero(PolyPow(f, 0));
      PlusNone([]);
      TimesNone(f);
      assert SumAt([ZERO] + x, f, 0) == [];
    } else {
      SumShift(x, f, n - 1);
      var (a, p) := (Constant(Term(x, n - 1)), PolyPow(f, n - 1));
      assert Term([ZERO] + x, n) == Term(x, n - 1);
      TimesSwap(a, f, p);
      TimesPlus(f, SumAt(x, f, n - 1), Times(a, p));
    }
  }

  /** a b = a[0] b + y (a[1..] b). */
  lemma TimesHead(a: seq<Gf>, b: seq<Gf>)
    requires |a| > 0
    ensures Times(a, b) == Plus(Times(Constant(a[0]), b), Norm([ZERO] + Times(a[1..], b)))
  {
    hide Times, Plus, Constant, Norm, Mul, Add, Conv;
    var (u, v) := (Times(Constant(a[0]), b), [ZERO] + Times(a[1..], b));
    forall k ensures Term(Times(a, b), k) == Term(Plus(u, Norm(v)), k) {
      TimesTerm(a, b, k); ConvHead(a, b, k);
      PlusTerm(u, Norm(v), k); NormTerm(v, k);
      ScaledTerm(a[0], b, k);
      TimesTerm(a[1..], b, k - 1);
      ConsTerm(v, k);
      assert v[1..] == Times(a[1..], b);
      if k == 0 { ConvEarly(a[1..], b, -1); }
    }
    Equal(Times(a, b), Plus(u, Norm(v)));
  }

  /** Evaluation respects products. */
  lemma {:induction false} PolyAtTimes(a: seq<Gf>, b: seq<Gf>, f: seq<Gf>)
    ensures PolyAt(Times(a, b), f) == Times(PolyAt(a, f), PolyAt(b, f))
    decreases |a|
  {
    hide Times, Plus, Constant, Norm, SumAt;
    if a == [] {
      TimesComm([], b); TimesNone(b);
      SumNothing(f);
      TimesComm([], PolyAt(b, f)); TimesNone(PolyAt(b, f));
    } else {
      var (c, d) := (a[0], a[1..]);
      PolyAtTimes(d, b, f);
      TimesHead(a, b);
      var (u, v) := (Times(Constant(c), b), Times(d, b));
      PolyAtPlus(u, Norm([ZERO] + v), f);
      PolyAtNorm([ZERO] + v, f);
      PolyAtShift(v, f);
      PolyAtScaled(c, b, f);
      PolyAtHead(a, f);
      var (p, q, r) := (Constant(c), Times(f, PolyAt(d, f)), PolyAt(b, f));
      TimesComm(Plus(p, q), r); TimesPlus(r, p, q); TimesComm(r, p); TimesComm(r, q);
      TimesAssoc(f, PolyAt(d, f), r);
    }
  }

  lemma SumNothing(f: seq<Gf>)
    ensures PolyAt([], f) == []
  {
  }

  lemma PolyAtPlus(x: seq<Gf>, y: seq<Gf>, f: seq<Gf>)
    ensures PolyAt(Plus(x, y), f) == Plus(PolyAt(x, f), PolyAt(y, f))
  {
    hide Plus, SumAt;
    var n := |x| + |y| + |Plus(x, y)|;
    SumPlus(x, y, f, n);
    SumStable(x, f, n); SumStable(y, f, n); SumStable(Plus(x, y), f, n);
  }

  lemma PolyAtShift(x: seq<Gf>, f: seq<Gf>)
    ensures PolyAt([ZERO] + x, f) == Times(f, PolyAt(x, f))
  {
    hide Times, SumAt;
    SumShift(x, f, |x|);
  }

  lemma PolyAtScaled(c: Gf, x: seq<Gf>, f: seq<Gf>)
    ensures PolyAt(Times(Constant(c), x), f) == Times(Constant(c), PolyAt(x, f))
  {
    hide Times, SumAt, Constant;
    var n := |x| + |Times(Constant(c), x)|;
    SumScaled(c, x, f, n);
    SumStable(x, f, n); SumStable(Times(Constant(c), x), f, n);
  }

  lemma PolyAtConstant(c: Gf, f: seq<Gf>)
    ensures PolyAt(Constant(c), f) == Constant(c)
  {
    hide Times, Plus;
    if c != ZERO {
      assert SumAt([c], f, 0) == [];
      PlusNone(Constant(c));
      TimesUnits(Constant(c));
      assert PolyPow(f, 0) == [ONE];
    }
  }

  lemma PolyAtHead(a: seq<Gf>, f: seq<Gf>)
    requires |a| > 0
    ensures PolyAt(a, f) == Plus(Constant(a[0]), Times(f, PolyAt(a[1..], f)))
  {
    hide Times, Plus, SumAt, Constant, Norm, Add;
    var (c, v) := (Constant(a[0]), [ZERO] + a[1..]);
    forall k ensures Term(a, k) == Term(Plus(c, v), k) {
      PlusTerm(c, v, k);
      AddZero(Term(v, k)); AddZero(a[0]);
    }
    var n := |a| + |Plus(c, v)|;
    SumSame(a, Plus(c, v), f, n);
    SumStable(a, f, n); SumStable(Plus(c, v), f, n);
    PolyAtPlus(c, v, f);
    PolyAtConstant(a[0], f);
    PolyAtShift(a[1..], f);
  }

  // ----- the columns of genpoly_gen

  /** The sum of x[c] cols[c] for c below n. */
  function Combination(cols: seq<seq<Gf>>, x: seq<Gf>, n: nat): (v: seq<Gf>)
    requires n <= |cols| && n <= |x| && forall c :: 0 <= c < |cols| ==> |cols[c]| == SYS_T
    ensures |v| == SYS_T
  {
    if n == 0 then seq(SYS_T, r => ZERO)
    else SumOf(Combination(cols, x, n - 1), x[n - 1], cols[n - 1])
  }

  lemma {:induction false} CombinationDot(cols: seq<seq<Gf>>, x: seq<Gf>, n: nat, r: nat)
    requires n <= |cols| == |x| && r < SYS_T && forall c :: 0 <= c < |cols| ==> |cols[c]| == SYS_T
    ensures Combination(cols, x, n)[r] == FieldMatrices.Dot(SkGen.FromColumns(cols)[r][..n], x)
  {
    hide Mul, Add;
    if n > 0 {
      CombinationDot(cols, x, n - 1, r);
      var row := SkGen.FromColumns(cols)[r];
      assert row[..n][..n - 1] == row[..n - 1];
      MulComm(x[n - 1], cols[n - 1][r]);
    }
  }

  lemma NormSum(u: seq<Gf>, c: Gf, v: seq<Gf>)
    requires |u| == |v|
    ensures Norm(SumOf(u, c, v)) == Plus(Norm(u), Times(Constant(c), Norm(v)))
  {
    hide Norm, Plus, Times, Constant, SumOf, Add, Mul;
    var w := SumOf(u, c, v);
    forall k ensures Term(Norm(w), k) == Term(Plus(Norm(u), Times(Constant(c), Norm(v))), k) {
      NormTerm(w, k); NormTerm(u, k); NormTerm(v, k);
      PlusTerm(Norm(u), Times(Constant(c), Norm(v)), k);
      ScaledTerm(c, Norm(v), k);
      TermSum(u, c, v, k);
    }
    Equal(Norm(w), Plus(Norm(u), Times(Constant(c), Norm(v))));
  }

  lemma CongruentNorms(p: seq<Gf>, r: seq<Gf>)
    ensures Congruent(p, r) <==> Congruent(Norm(p), Norm(r))
  {
    hide Times, Plus, Norm;
    NormNormal(Norm(p)); NormNormal(Norm(r));
  }

  /** Column c is f^c modulo F. */
  lemma {:induction false} ColumnPower(cols: seq<seq<Gf>>, f: seq<Gf>, c: nat)
    requires |f| == SYS_T && SkGen.ArePowers(cols, f) && c <= SYS_T
    ensures |cols[c]| == SYS_T && Congruent(PolyPow(f, c), Norm(cols[c]))
    decreases c
  {
    hide Times, Plus, Norm, Congruent;
    if c == 0 {
      UnitNorm();
      CongruentRefl([ONE]);
    } else if c == 1 {
      assert PolyPow(f, 0) == [ONE];
      FirstPower(f);
      CongruentRefl(Norm(f));
    } else {
      ColumnPower(cols, f, c - 1);
      var b := cols[c - 1];
      assert IsModularProduct(cols[c], b, f);
      CongruentNorms(Times(b, f), cols[c]);
      NormNormal(Times(b, f));
      NormedTimes(b, f);
      CongruentTimes(f, PolyPow(f, c - 1), Norm(b));
      CongruentTrans(PolyPow(f, c), Times(f, Norm(b)), Norm(cols[c]));
    }
  }

  lemma UnitNorm()
    ensures Norm(SkGen.Unit()) == [ONE]
  {
    hide Norm;
    SplitZero();
    forall k ensures Term(Norm(SkGen.Unit()), k) == Term([ONE], k) { NormTerm(SkGen.Unit(), k); }
    Equal(Norm(SkGen.Unit()), [ONE]);
  }

  lemma FirstPower(f: seq<Gf>)
    ensures Times(f, [ONE]) == Norm(f)
  {
    hide Times, Norm, Conv;
    forall k ensures Term(Times(f, [ONE]), k) == Term(Norm(f), k) {
      TimesTerm(f, [ONE], k); NormTerm(f, k); ConvComm(f, [ONE], k); UnitConv(f, k);
    }
    Equal(Times(f, [ONE]), Norm(f));
  }

  lemma NormedTimes(b: seq<Gf>, f: seq<Gf>)
    ensures Times(b, f) == Times(f, Norm(b))
  {
    hide Times, Norm, Conv;
    TimesComm(b, f);
    forall k ensures Term(Times(f, b), k) == Term(Times(f, Norm(b)), k) {
      TimesTerm(f, b, k); TimesTerm(f, Norm(b), k);
      forall j ensures Term(Norm(b), j) == Term(b, j) { NormTerm(b, j); }
      GoppaCode.SameTerms(f, b, Norm(b), k);
    }
    Equal(Times(f, b), Times(f, Norm(b)));
  }

  /** The first n columns are the powers of f modulo F. */
  ghost predicate HoldPowers(cols: seq<seq<Gf>>, f: seq<Gf>, n: nat)
  {
    n <= |cols| && forall c :: 0 <= c < n ==> Congruent(PolyPow(f, c), Norm(cols[c]))
  }

  /** The columns weighted by x are the polynomial x at f, modulo F. */
  lemma {:induction false} CombinationPower(cols: seq<seq<Gf>>, f: seq<Gf>, x: seq<Gf>, n: nat)
    requires HoldPowers(cols, f, n) && n <= |x| && forall c :: 0 <= c < |cols| ==> |cols[c]| == SYS_T
    ensures Congruent(SumAt(x, f, n), Norm(Combination(cols, x, n)))
  {
    hide Times, Plus, Norm, Congruent, Constant, PolyPow, SumOf;
    if n == 0 {
      NormNothing();
      CongruentRefl([]);
    } else {
      var (c, v, b) := (x[n - 1], cols[n - 1], Combination(cols, x, n - 1));
      CombinationPower(cols, f, x, n - 1);
      CongruentTimes(Constant(c), PolyPow(f, n - 1), Norm(v));
      CongruentPlus(SumAt(x, f, n - 1), Norm(b), Times(Constant(c), PolyPow(f, n - 1)), Times(Constant(c), Norm(v)));
      NormSum(b, c, v);
    }
  }

  lemma NormNothing()
    ensures Norm(seq(SYS_T, r => ZERO)) == []
  {
    hide Norm;
    var z := seq(SYS_T, r => ZERO);
    forall k ensures Term(Norm(z), k) == ZERO { NormTerm(z, k); }
    Equal(Norm(z), []);
  }

  lemma NormZero(v: seq<Gf>)
    ensures Norm(v) == [] <==> AllZero(v)
  {
    hide Norm;
    if Norm(v) == [] {
      forall k | 0 <= k < |v| ensures v[k] == ZERO { NormTerm(v, k); }
    }
    if AllZero(v) {
      forall k ensures Term(Norm(v), k) == ZERO { NormTerm(v, k); }
      Equal(Norm(v), []);
    }
  }

  /** A relation among the columns is a polynomial that vanishes at f. */
  lemma RelationVanishes(cols: seq<seq<Gf>>, f: seq<Gf>, x: seq<Gf>)
    requires |f| == SYS_T && SkGen.ArePowers(cols, f) && |x| == SYS_T + 1
    ensures |cols| == SYS_T + 1 && forall c :: 0 <= c < |cols| ==> |cols[c]| == SYS_T
    ensures FieldMatrices.Relation(SkGen.FromColumns(cols), x) <==> Congruent(PolyAt(x, f), [])
  {
    hide Norm, Congruent, SumAt, Combination, FieldMatrices.Dot, IsModularProduct, PolyPow;
    forall c | 0 <= c < |cols| ensures Congruent(PolyPow(f, c), Norm(cols[c])) { ColumnPower(cols, f, c); }
    CombinationPower(cols, f, x, SYS_T + 1);
    var v := Combination(cols, x, SYS_T + 1);
    var m := SkGen.FromColumns(cols);
    forall r | 0 <= r < SYS_T ensures v[r] == FieldMatrices.Dot(m[r], x) {
      CombinationDot(cols, x, SYS_T + 1, r);
      assert m[r][..SYS_T + 1] == m[r];
    }
    NormZero(v);
    if FieldMatrices.Relation(m, x) {
      assert AllZero(v);
    }
    if Congruent(PolyAt(x, f), []) {
      CongruentSym(PolyAt(x, f), Norm(v));
      CongruentTrans(Norm(v), PolyAt(x, f), []);
      SmallMultiple(Norm(v));
    }
  }

  /** p is monic, of degree SYS_T, vanishes at f modulo F, and no nonzero polynomial of lower degree does. */
  ghost predicate IsMinimal(p: seq<Gf>, f: seq<Gf>)
  {
    && |p| == SYS_T + 1 && Monic(p) && Congruent(PolyAt(p, f), [])
    && forall x: seq<Gf> :: |x| <= SYS_T && Congruent(PolyAt(x, f), []) ==> AllZero(x)
  }

  lemma PolyAtPadded(x: seq<Gf>, f: seq<Gf>, n: nat)
    requires |x| <= n
    ensures |GoppaCode.Padded(x, n)| == n && PolyAt(GoppaCode.Padded(x, n), f) == PolyAt(x, f)
  {
    hide SumAt, Term;
    var y := GoppaCode.Padded(x, n);
    forall k ensures Term(y, k) == Term(x, k) { GoppaCode.PaddedTerm(x, n, k); }
    SumSame(y, x, f, n);
    SumStable(x, f, n);
  }

  /** There is only one such polynomial. */
  lemma MinimalUnique(p: seq<Gf>, q: seq<Gf>, f: seq<Gf>)
    requires IsMinimal(p, f) && IsMinimal(q, f)
    ensures p == q
  {
    hide SumAt, Congruent, Plus, Add;
    SplitZero();
    var d := Plus(p, q);
    forall k | k >= SYS_T ensures Term(d, k) == ZERO {
      PlusTerm(p, q, k); AddZero(ZERO); AddCancel(ONE, ONE);
    }
    Shorter(d, SYS_T);
    PolyAtPlus(p, q, f);
    CongruentPlus(PolyAt(p, f), [], PolyAt(q, f), []);
    PlusNone([]);
    assert d == [] by { assert AllZero(d); }
    PlusZero(p, q);
  }

  /** genpoly_gen returns 0 with the minimal polynomial of f, when f has one of degree SYS_T. */
  method MinimalPolynomialOf(out: array<Gf>, f: seq<Gf>) returns (ret: int)
    requires out.Length == SYS_T == |f|
    modifies out
    ensures ret == 0 || ret == -1
    ensures ret == 0 ==> IsMinimal(out[..] + [ONE], f)
    ensures ret == -1 ==> forall p: seq<Gf> :: !IsMinimal(p, f)
  {
    hide SumAt, Congruent, SkGen.ArePowers, SkGen.FromColumns, FieldMatrices.Relation, FieldMatrices.Dependent;
    ghost var cols;
    ret, cols := SkGen.GenpolyGen(out, f);
    SkGen.PowersShape(cols, f);
    if ret == 0 {
      RelationVanishes(cols, f, out[..] + [ONE]);
      Independent(cols, f);
    } else {
      NotMinimal(cols, f);
    }
  }

  lemma Independent(cols: seq<seq<Gf>>, f: seq<Gf>)
    requires |f| == SYS_T && SkGen.ArePowers(cols, f)
    requires |cols| == SYS_T + 1 && forall c :: 0 <= c < |cols| ==> |cols[c]| == SYS_T
    requires !FieldMatrices.Dependent(SkGen.FromColumns(cols), SYS_T, SYS_T + 1)
    ensures forall x: seq<Gf> :: |x| <= SYS_T && Congruent(PolyAt(x, f), []) ==> AllZero(x)
  {
    hide SumAt, Congruent, SkGen.ArePowers, SkGen.FromColumns, FieldMatrices.Relation;
    forall x: seq<Gf> | |x| <= SYS_T && Congruent(PolyAt(x, f), []) ensures AllZero(x) {
      var y := GoppaCode.Padded(x, SYS_T + 1);
      PolyAtPadded(x, f, SYS_T + 1);
      RelationVanishes(cols, f, y);
      if !AllZero(x) {
        InvolvesPadded(x);
      }
    }
  }

  lemma InvolvesPadded(x: seq<Gf>)
    requires |x| <= SYS_T && !AllZero(x)
    ensures FieldMatrices.Involves(GoppaCode.Padded(x, SYS_T + 1), SYS_T)
  {
    var y := GoppaCode.Padded(x, SYS_T + 1);
    var i :| 0 <= i < |x| && x[i] != ZERO;
    assert y[i] != ZERO;
  }

  lemma NotMinimal(cols: seq<seq<Gf>>, f: seq<Gf>)
    requires |f| == SYS_T && SkGen.ArePowers(cols, f)
    requires |cols| == SYS_T + 1 && forall c :: 0 <= c < |cols| ==> |cols[c]| == SYS_T
    requires FieldMatrices.Dependent(SkGen.FromColumns(cols), SYS_T, SYS_T + 1)
    ensures forall p: seq<Gf> :: !IsMinimal(p, f)
  {
    hide SumAt, Congruent, SkGen.ArePowers, SkGen.FromColumns, FieldMatrices.Relation;
    var y: seq<Gf> :| |y| == SYS_T + 1 && FieldMatrices.Involves(y, SYS_T)
                   && FieldMatrices.Relation(SkGen.FromColumns(cols), y);
    RelationVanishes(cols, f, y);
    var x := y[..SYS_T];
    assert GoppaCode.Padded(x, SYS_T + 1) == y;
    PolyAtPadded(x, f, SYS_T + 1);
    var i :| 0 <= i < |y| && y[i] != ZERO;
    assert x[i] != ZERO;
  }
}
