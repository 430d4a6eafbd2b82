/**
 Arithmetic modulo F(y), the polynomial of degree SYS_T that the folds of gf_mul_inplace stand for,
 whatever the folds are.
 */
module ExtensionField {
  import opened Params
  import opened Field
  import opened FieldMethods
  import opened Recurrences
  import opened Products
  import opened PolynomialRing
  import GoppaCode

  const FOLDS: seq<Fold> := BUILD.folds

  /** The coefficient of a fold term. */
  function FoldCoef(f: Fold): Gf
  {
    if f.byZ then TimesZ(ONE) else ONE
  }

  /** The coefficient of y^k in what y^SYS_T folds to, for the first n terms. */
  function FoldAt(n: nat, k: int): Gf
    requires n <= |FOLDS|
  {
    if n == 0 then ZERO
    else if FOLDS[n - 1].offset == k then Add(FoldAt(n - 1, k), FoldCoef(FOLDS[n - 1]))
    else FoldAt(n - 1, k)
  }

  /** F(y) = y^SYS_T + the fold terms. */
  function Modulus(): (f: seq<Gf>)
    ensures |f| == SYS_T + 1 && Monic(f)
    ensures forall k :: 0 <= k < SYS_T ==> f[k] == FoldAt(|FOLDS|, k)
  {
    seq(SYS_T, k requires 0 <= k < SYS_T => FoldAt(|FOLDS|, k)) + [ONE]
  }

  lemma OffsetBound(n: nat)
    requires n < |FOLDS|
    ensures FOLDS[n].offset < SYS_T
  {
  }

  lemma {:induction false} FoldAtOutside(n: nat, k: int)
    requires n <= |FOLDS| && (k < 0 || k >= SYS_T)
    ensures FoldAt(n, k) == ZERO
  {
    if n > 0 {
      OffsetBound(n - 1);
      FoldAtOutside(n - 1, k);
    }
  }

  /** p and r leave the same remainder modulo F. */
  ghost predicate Congruent(p: seq<Gf>, r: seq<Gf>)
  {
    exists q: seq<Gf> :: Normal(q) && Norm(p) == Plus(Times(Modulus(), q), Norm(r))
  }

  lemma CongruentRefl(p: seq<Gf>)
    ensures Congruent(p, p)
  {
    hide Times, Plus, Norm;
    TimesNone(Modulus());
    PlusNone(Norm(p));
    assert Norm(p) == Plus(Times(Modulus(), []), Norm(p));
  }

  lemma CongruentTrans(p: seq<Gf>, r: seq<Gf>, s: seq<Gf>)
    requires Congruent(p, r) && Congruent(r, s)
    ensures Congruent(p, s)
  {
    hide Times, Plus, Norm;
    var f := Modulus();
    var q: seq<Gf> :| Normal(q) && Norm(p) == Plus(Times(f, q), Norm(r));
    var t: seq<Gf> :| Normal(t) && Norm(r) == Plus(Times(f, t), Norm(s));
    TimesPlus(f, q, t);
    PlusAssoc(Times(f, q), Times(f, t), Norm(s));
    assert Norm(p) == Plus(Times(f, Plus(q, t)), Norm(s));
  }

  // ----- one fold

  /** p with f y^(i - SYS_T) F taken off, for the first n terms of F. */
  predicate Folded(r: seq<Gf>, p: seq<Gf>, i: nat, n: nat)
    requires n <= |FOLDS|
  {
    && |r| == |p| && SYS_T <= i < |p|
    && forall k :: 0 <= k < i ==> r[k] == Add(p[k], Mul(p[i], FoldAt(n, k - (i - SYS_T))))
  }

  lemma {:induction false} MonomialConv(g: seq<Gf>, f: Gf, d: nat, k: int)
    ensures Conv(Monomial(f, d), g, k) == Mul(f, Term(g, k - d))
    decreases d
  {
    hide Mul, Add, Term;
    var m := Monomial(f, d);
    if d == 0 {
      assert m == [f] && m[1..] == [];
      AddZero(Mul(f, Term(g, k)));
    } else {
      assert m[0] == ZERO && m[1..] == Monomial(f, d - 1);
      MonomialConv(g, f, d - 1, k - 1);
      ZeroLeft(Term(g, k));
      AddZero(Mul(f, Term(g, k - d)));
    }
  }

  /** A completed fold replaces the coefficient at i and stays in the same class. */
  lemma FoldCongruent(r: seq<Gf>, p: seq<Gf>, i: nat)
    requires Folded(r, p, i, |FOLDS|)
    ensures Congruent(p[..i + 1], r[..i])
  {
    hide Times, Plus, Norm, Mul, Add, FoldAt, Conv;
    var (f, d) := (Modulus(), i - SYS_T);
    var m := Norm(Monomial(p[i], d));
    var (u, v) := (Norm(p[..i + 1]), Plus(Times(f, m), Norm(r[..i])));
    forall k ensures Term(u, k) == Term(v, k) {
      NormTerm(p[..i + 1], k); PlusTerm(Times(f, m), Norm(r[..i]), k); NormTerm(r[..i], k);
      TimesTerm(f, m, k);
      forall j ensures Term(m, j) == Term(Monomial(p[i], d), j) { NormTerm(Monomial(p[i], d), j); }
      GoppaCode.SameTerms(f, m, Monomial(p[i], d), k);
      ConvComm(f, Monomial(p[i], d), k);
      MonomialConv(f, p[i], d, k);
      FoldTerm(r, p, i, k);
    }
    Equal(u, v);
  }

  lemma FoldTerm(r: seq<Gf>, p: seq<Gf>, i: nat, k: int)
    requires Folded(r, p, i, |FOLDS|)
    ensures Term(p[..i + 1], k) == Add(Mul(p[i], Term(Modulus(), k - (i - SYS_T))), Term(r[..i], k))
  {
    hide Mul, Add, FoldAt;
    var j := k - (i - SYS_T);
    ZeroRight(p[i]); OneRight(p[i]); AddZero(ZERO); AddZero(p[i]);
    if 0 <= k < i {
      if j < 0 { FoldAtOutside(|FOLDS|, j); }
      var x := Mul(p[i], FoldAt(|FOLDS|, j));
      AddComm(p[k], x); AddAssoc(x, x, p[k]); AddCancel(x, x); AddZero(p[k]);
      AddZero(p[k]);
    }
  }

  // ----- gf_mul_inplace

  /** The coefficients of the product of a and b. */
  predicate IsProductOf(p: seq<Gf>, a: seq<Gf>, b: seq<Gf>)
  {
    forall k :: 0 <= k < |p| ==> p[k] == Conv(a, b, k)
  }

  method MultiplyOut(prod: array<Gf>, in0: seq<Gf>, in1: seq<Gf>)
    requires prod.Length == 2 * SYS_T - 1 && |in0| == |in1| == SYS_T
    modifies prod
    ensures IsProductOf(prod[..], in0, in1)
  {
    hide Mul, Add, Conv;
    for k := 0 to prod.Length
      invariant forall m :: 0 <= m < k ==> prod[m] == ZERO
    {
      prod[k] := ZERO;
    }
    forall k | 0 <= k < prod.Length ensures Conv(in0[..0], in1, k) == ZERO { NoFactor(in1, k); }
    for i := 0 to SYS_T
      invariant forall k :: 0 <= k < prod.Length ==> prod[k] == Conv(in0[..i], in1, k)
    {
      AddRowProduct(prod, in0, in1, i);
    }
    assert in0[..SYS_T] == in0;
  }

  lemma NoFactor(s: seq<Gf>, k: int)
    ensures Conv([], s, k) == ZERO
  {
  }

  method AddRowProduct(prod: array<Gf>, in0: seq<Gf>, in1: seq<Gf>, i: nat)
    requires prod.Length == 2 * SYS_T - 1 && |in0| == |in1| == SYS_T && i < SYS_T
    requires forall k :: 0 <= k < prod.Length ==> prod[k] == Conv(in0[..i], in1, k)
    modifies prod
    ensures forall k :: 0 <= k < prod.Length ==> prod[k] == Conv(in0[..i + 1], in1, k)
  {
    hide Mul, Add, Conv;
    forall k | 0 <= k < prod.Length ensures Add(Conv(in0[..i], in1, k), ZERO) == Conv(in0[..i], in1, k) {
      AddZero(Conv(in0[..i], in1, k));
    }
    for j := 0 to SYS_T
      invariant forall k :: 0 <= k < prod.Length ==>
                  prod[k] == Add(Conv(in0[..i], in1, k), if 0 <= k - i < j then Mul(in0[i], Term(in1, k - i)) else ZERO)
    {
      var p := GfMul(in0[i], in1[j]);
      prod[i + j] := Add(prod[i + j], p);
    }
    ZeroRight(in0[i]);
    forall k | 0 <= k < prod.Length ensures prod[k] == Conv(in0[..i + 1], in1, k) {
      ConvAppend(in0[..i], in0[i], in1, k);
      assert in0[..i + 1] == in0[..i] + [in0[i]];
    }
  }

  /** prod[i - SYS_T + offset] ^= prod[i], or z prod[i], for every term of F. */
  method FoldOne(prod: array<Gf>, i: nat)
    requires SYS_T <= i < prod.Length
    modifies prod
    ensures Folded(prod[..], old(prod[..]), i, |FOLDS|)
  {
    hide Mul, Add, FoldAt;
    ghost var p := prod[..];
    ghost var x := p[i];
    NoFolds(p, i);
    for n := 0 to |FOLDS|
      invariant prod[i] == x
      invariant Folded(prod[..], p, i, n)
    {
      OffsetBound(n);
      var f := FOLDS[n];
      var t := prod[i];
      if f.byZ {
        t := GfMul(prod[i], TimesZ(ONE));
      }
      ghost var b := prod[..];
      prod[i - SYS_T + f.offset] := Add(prod[i - SYS_T + f.offset], t);
      OneRight(x);
      FoldedStep(prod[..], b, p, i, n);
    }
  }

  lemma NoFolds(p: seq<Gf>, i: nat)
    requires SYS_T <= i < |p|
    ensures Folded(p, p, i, 0)
  {
    hide Mul, Add;
    forall k | 0 <= k < i ensures p[k] == Add(p[k], Mul(p[i], FoldAt(0, k - (i - SYS_T)))) {
      ZeroRight(p[i]); AddZero(p[k]);
    }
  }

  lemma FoldedStep(r: seq<Gf>, b: seq<Gf>, p: seq<Gf>, i: nat, n: nat)
    requires n < |FOLDS| && Folded(b, p, i, n) && |r| == |b|
    requires FOLDS[n].offset < SYS_T
    requires r == b[i - SYS_T + FOLDS[n].offset := Add(b[i - SYS_T + FOLDS[n].offset], Mul(p[i], FoldCoef(FOLDS[n])))]
    ensures Folded(r, p, i, n + 1)
  {
    hide Mul, Add;
    var (d, o, x) := (i - SYS_T, FOLDS[n].offset, p[i]);
    forall k | 0 <= k < i ensures r[k] == Add(p[k], Mul(x, FoldAt(n + 1, k - d))) {
      if k == d + o {
        MulAddRight(x, FoldAt(n, o), FoldCoef(FOLDS[n]));
        AddAssoc(p[k], Mul(x, FoldAt(n, o)), Mul(x, FoldCoef(FOLDS[n])));
      }
    }
  }

  /** r, of SYS_T coefficients, is the product of a and b modulo F. */
  ghost predicate IsModularProduct(r: seq<Gf>, a: seq<Gf>, b: seq<Gf>)
  {
    |r| == SYS_T && Congruent(Times(a, b), r)
  }

  lemma ProductClass(p: seq<Gf>, a: seq<Gf>, b: seq<Gf>)
    requires |a| == |b| == SYS_T && |p| == 2 * SYS_T - 1 && IsProductOf(p, a, b)
    ensures Norm(p) == Times(a, b) && Norm(Times(a, b)) == Times(a, b)
  {
    hide Times, Norm, Conv;
    forall k ensures Term(Norm(p), k) == Term(Times(a, b), k) {
      NormTerm(p, k); TimesTerm(a, b, k);
      if k < 0 { ConvEarly(a, b, k); }
      if k > 2 * SYS_T - 2 { ConvLate(a, b, k); }
    }
    Equal(Norm(p), Times(a, b));
    NormNormal(Norm(p));
  }

  lemma CongruentNorm(p: seq<Gf>, t: seq<Gf>, r: seq<Gf>)
    requires Norm(p) == Norm(t) && Congruent(p, r)
    ensures Congruent(t, r)
  {
    hide Times, Plus, Norm;
  }

  /** gf_mul_inplace: the product modulo F(y), whatever the offsets below SYS_T are. */
  method GfMulInplace(out: array<Gf>, in0: seq<Gf>, in1: seq<Gf>)
    requires out.Length == SYS_T == |in0| == |in1|
    modifies out
    ensures IsModularProduct(out[..], in0, in1)
  {
    hide Congruent, Times, Norm, Folded;
    var prod := new Gf[2 * SYS_T - 1](_ => ZERO);
    MultiplyOut(prod, in0, in1);
    ghost var p := prod[..];
    ProductClass(p, in0, in1);
    CongruentRefl(p);
    assert p[..2 * SYS_T - 1] == p;
    var i := 2 * SYS_T - 2;
    while i >= SYS_T
      invariant SYS_T - 1 <= i <= 2 * SYS_T - 2
      invariant Congruent(p, prod[..][..i + 1])
    {
      ghost var b := prod[..];
      FoldOne(prod, i);
      FoldCongruent(prod[..], b, i);
      CongruentTrans(p, b[..i + 1], prod[..][..i]);
      i := i - 1;
    }
    ghost var last := prod[..];
    for k := 0 to SYS_T
      invariant prod[..] == last
      invariant forall m :: 0 <= m < k ==> out[m] == prod[m]
    {
      out[k] := prod[k];
    }
    assert out[..] == prod[..][..SYS_T];
    CongruentNorm(p, Times(in0, in1), out[..]);
  }
}
