/**
 Polynomials without superfluous coefficients: a ring in which equality of coefficients is
 equality, and in which division and the identity of Bezout work.
 */
module PolynomialRing {
  import opened Field
  import opened Frobenius
  import opened Recurrences
  import opened Products

  /** The top coefficient, if there is one, is not zero. */
  predicate Normal(p: seq<Gf>)
  {
    p == [] || p[|p| - 1] != ZERO
  }

  function Norm(p: seq<Gf>): (q: seq<Gf>)
    ensures Normal(q) && |q| <= |p|
  {
    if p == [] then [] else if p[|p| - 1] == ZERO then Norm(p[..|p| - 1]) else p
  }

  lemma {:induction false} NormTerm(p: seq<Gf>, k: int)
    ensures Term(Norm(p), k) == Term(p, k)
  {
    if p != [] && p[|p| - 1] == ZERO {
      NormTerm(p[..|p| - 1], k);
    }
  }

  lemma NormNormal(p: seq<Gf>)
    requires Normal(p)
    ensures Norm(p) == p
  {
  }

  function Plus(p: seq<Gf>, q: seq<Gf>): (r: seq<Gf>)
    ensures Normal(r)
  {
    var n := if |p| > |q| then |p| else |q|;
    Norm(seq(n, i requires 0 <= i < n => Add(Term(p, i), Term(q, i))))
  }

  function Times(p: seq<Gf>, q: seq<Gf>): (r: seq<Gf>)
    ensures Normal(r)
  {
    Norm(seq(|p| + |q|, k requires 0 <= k < |p| + |q| => Conv(p, q, k)))
  }

  lemma PlusTerm(p: seq<Gf>, q: seq<Gf>, k: int)
    ensures Term(Plus(p, q), k) == Add(Term(p, k), Term(q, k))
  {
    hide Add;
    AddZero(ZERO);
    var n := if |p| > |q| then |p| else |q|;
    NormTerm(seq(n, i requires 0 <= i < n => Add(Term(p, i), Term(q, i))), k);
  }

  lemma TimesTerm(p: seq<Gf>, q: seq<Gf>, k: int)
    ensures Term(Times(p, q), k) == Conv(p, q, k)
  {
    hide Conv;
    NormTerm(seq(|p| + |q|, i requires 0 <= i < |p| + |q| => Conv(p, q, i)), k);
    if k < 0 { ConvEarly(p, q, k); }
    if k >= |p| + |q| { ConvLate(p, q, k); }
  }

  lemma Equal(p: seq<Gf>, q: seq<Gf>)
    requires Normal(p) && Normal(q) && forall k :: Term(p, k) == Term(q, k)
    ensures p == q
  {
    assert Term(p, |p| - 1) == Term(q, |p| - 1) && Term(p, |q| - 1) == Term(q, |q| - 1);
    assert |p| == |q|;
    forall i | 0 <= i < |p| ensures p[i] == q[i] {
      assert Term(p, i) == Term(q, i);
    }
  }

  // ----- ring laws

  lemma PlusComm(p: seq<Gf>, q: seq<Gf>)
    ensures Plus(p, q) == Plus(q, p)
  {
    hide Plus, Term, Add;
    forall k ensures Term(Plus(p, q), k) == Term(Plus(q, p), k) {
      PlusTerm(p, q, k); PlusTerm(q, p, k); AddComm(Term(p, k), Term(q, k));
    }
    Equal(Plus(p, q), Plus(q, p));
  }

  lemma PlusAssoc(p: seq<Gf>, q: seq<Gf>, r: seq<Gf>)
    ensures Plus(Plus(p, q), r) == Plus(p, Plus(q, r))
  {
    hide Plus, Term, Add;
    var (u, v) := (Plus(Plus(p, q), r), Plus(p, Plus(q, r)));
    forall k ensures Term(u, k) == Term(v, k) {
      PlusTerm(p, q, k); PlusTerm(Plus(p, q), r, k); PlusTerm(q, r, k); PlusTerm(p, Plus(q, r), k);
      AddAssoc(Term(p, k), Term(q, k), Term(r, k));
    }
    Equal(u, v);
  }

  lemma PlusNone(p: seq<Gf>)
    requires Normal(p)
    ensures Plus(p, []) == p && Plus([], p) == p && Plus(p, p) == []
  {
    hide Plus, Add;
    forall k ensures Term(Plus(p, []), k) == Term(p, k) && Term(Plus(p, p), k) == ZERO {
      PlusTerm(p, [], k); PlusTerm(p, p, k); AddZero(Term(p, k)); AddCancel(Term(p, k), Term(p, k));
    }
    Equal(Plus(p, []), p);
    Equal(Plus(p, p), []);
    PlusComm(p, []);
  }

  lemma PlusZero(p: seq<Gf>, q: seq<Gf>)
    requires Normal(p) && Normal(q) && Plus(p, q) == []
    ensures p == q
  {
    hide Plus;
    PlusAssoc(p, q, q);
    PlusNone(p); PlusNone(q);
  }

  lemma TimesComm(p: seq<Gf>, q: seq<Gf>)
    ensures Times(p, q) == Times(q, p)
  {
    hide Times, Term, Conv;
    forall k ensures Term(Times(p, q), k) == Term(Times(q, p), k) {
      TimesTerm(p, q, k); TimesTerm(q, p, k); ConvComm(p, q, k);
    }
    Equal(Times(p, q), Times(q, p));
  }

  lemma {:induction false} TwiceIsConv(c: seq<Gf>, g: seq<Gf>, s: seq<Gf>, n: int)
    ensures Twice(c, g, s, n) == Conv(c, Times(g, s), n)
    decreases |c|
  {
    hide Times, Term, Mul, Add;
    if c != [] {
      TwiceIsConv(c[1..], g, s, n - 1);
      TimesTerm(g, s, n);
    }
  }

  lemma TimesSwap(a: seq<Gf>, b: seq<Gf>, c: seq<Gf>)
    ensures Times(a, Times(b, c)) == Times(b, Times(a, c))
  {
    hide Times, Term, Conv, Twice;
    var (u, v) := (Times(a, Times(b, c)), Times(b, Times(a, c)));
    forall k ensures Term(u, k) == Term(v, k) {
      TimesTerm(a, Times(b, c), k); TimesTerm(b, Times(a, c), k);
      TwiceIsConv(a, b, c, k); TwiceIsConv(b, a, c, k); TwiceSwap(a, b, c, k);
    }
    Equal(u, v);
  }

  lemma TimesAssoc(a: seq<Gf>, b: seq<Gf>, c: seq<Gf>)
    ensures Times(Times(a, b), c) == Times(a, Times(b, c))
  {
    hide Times;
    TimesComm(Times(a, b), c);
    TimesSwap(c, a, b);
    TimesComm(c, b);
  }

  lemma {:induction false} ConvPlus(c: seq<Gf>, p: seq<Gf>, q: seq<Gf>, k: int)
    ensures Conv(c, Plus(p, q), k) == Add(Conv(c, p, k), Conv(c, q, k))
    decreases |c|
  {
    hide Plus, Term, Mul, Add;
    if c == [] {
      AddZero(ZERO);
    } else {
      ConvPlus(c[1..], p, q, k - 1);
      PlusTerm(p, q, k);
      MulAddRight(c[0], Term(p, k), Term(q, k));
      AddCross(Mul(c[0], Term(p, k)), Mul(c[0], Term(q, k)), Conv(c[1..], p, k - 1), Conv(c[1..], q, k - 1));
    }
  }

  lemma TimesPlus(a: seq<Gf>, p: seq<Gf>, q: seq<Gf>)
    ensures Times(a, Plus(p, q)) == Plus(Times(a, p), Times(a, q))
  {
    hide Plus, Times, Term, Conv, Add;
    var (u, v) := (Times(a, Plus(p, q)), Plus(Times(a, p), Times(a, q)));
    forall k ensures Term(u, k) == Term(v, k) {
      TimesTerm(a, Plus(p, q), k); TimesTerm(a, p, k); TimesTerm(a, q, k);
      PlusTerm(Times(a, p), Times(a, q), k);
      ConvPlus(a, p, q, k);
    }
    Equal(u, v);
  }

  lemma TimesUnits(p: seq<Gf>)
    requires Normal(p)
    ensures Times(p, [ONE]) == p && Times([ONE], p) == p && Times(p, []) == []
  {
    hide Times, Conv;
    forall k ensures Term(Times([ONE], p), k) == Term(p, k) && Term(Times(p, []), k) == ZERO {
      TimesTerm([ONE], p, k); UnitConv(p, k); TimesTerm(p, [], k); ConvNone(p, k);
    }
    Equal(Times([ONE], p), p);
    Equal(Times(p, []), []);
    TimesComm(p, [ONE]);
  }

  /** The top coefficient of a product is the product of the top coefficients. */
  lemma TopProduct(p: seq<Gf>, q: seq<Gf>)
    requires |p| > 0 && |q| > 0
    ensures Conv(p, q, |p| + |q| - 2) == Mul(p[|p| - 1], q[|q| - 1])
  {
    hide Mul, Add;
    var (n, d) := (|p| - 1, p[..|p| - 1]);
    ConvAppend(d, p[n], q, n + |q| - 1);
    assert d + [p[n]] == p;
    ConvLate(d, q, n + |q| - 1);
    AddZero(Mul(p[n], q[|q| - 1]));
  }

  lemma NoDivisorsOfZero(p: seq<Gf>, q: seq<Gf>)
    requires Normal(p) && Normal(q) && Times(p, q) == []
    ensures p == [] || q == []
  {
    hide Times, Conv, Mul;
    if p != [] && q != [] {
      TopProduct(p, q);
      TimesTerm(p, q, |p| + |q| - 2);
      NoZeroDivisors(p[|p| - 1], q[|q| - 1]);
    }
  }

  lemma Cancel(a: seq<Gf>, p: seq<Gf>, q: seq<Gf>)
    requires Normal(a) && Normal(p) && Normal(q) && a != [] && Times(a, p) == Times(a, q)
    ensures p == q
  {
    hide Times, Plus;
    TimesPlus(a, p, q);
    PlusNone(Times(a, p));
    NoDivisorsOfZero(a, Plus(p, q));
    PlusZero(p, q);
  }

  // ----- division and Bezout's identity

  /** What brings the top of a polynomial a of length n or more down to that of b. */
  function Monomial(f: Gf, d: nat): (m: seq<Gf>)
    ensures |m| == d + 1 && m[d] == f
  {
    seq(d, i => ZERO) + [f]
  }

  lemma Shorter(p: seq<Gf>, n: nat)
    requires Normal(p) && forall k :: k >= n ==> Term(p, k) == ZERO
    ensures |p| <= n
  {
    assert p == [] || Term(p, |p| - 1) != ZERO;
  }

  lemma {:induction false} Divide(a: seq<Gf>, b: seq<Gf>) returns (k: seq<Gf>, r: seq<Gf>)
    requires Normal(a) && Normal(b) && b != []
    ensures Normal(k) && Normal(r) && |r| < |b| && a == Plus(Times(b, k), r)
    decreases |a|
  {
    hide Times, Plus, Conv, Mul, Inv, Add;
    if |a| < |b| {
      k, r := [], a;
      TimesUnits(b); PlusNone(a);
    } else {
      var (n, t) := (|a| - 1, b[|b| - 1]);
      var f := Mul(Inv(t), a[n]);
      var m := Monomial(f, |a| - |b|);
      InvMul(t);
      NoZeroDivisors(Inv(t), a[n]);
      ZeroRight(t); SplitZero();
      var bm := Times(b, m);
      var c := Plus(a, bm);
      forall j | j >= n ensures Term(c, j) == ZERO {
        PlusTerm(a, bm, j); TimesTerm(b, m, j);
        if j == n {
          TopProduct(b, m);
          MulAssoc(t, Inv(t), a[n]); OneLeft(a[n]); AddCancel(a[n], a[n]);
        } else {
          ConvLate(b, m, j); AddZero(ZERO);
        }
      }
      Shorter(c, n);
      var h;
      h, r := Divide(c, b);
      k := Plus(h, m);
      DivideStep(a, bm, c, Times(b, h), r);
      TimesPlus(b, h, m);
    }
  }

  lemma DivideStep(a: seq<Gf>, bm: seq<Gf>, c: seq<Gf>, bh: seq<Gf>, r: seq<Gf>)
    requires Normal(a) && Normal(bm) && Normal(bh) && Normal(r) && c == Plus(a, bm) && c == Plus(bh, r)
    ensures a == Plus(Plus(bh, bm), r)
  {
    hide Plus;
    // a = c + bm = bh + r + bm.
    PlusAssoc(a, bm, bm); PlusNone(bm); PlusNone(a);
    PlusAssoc(bh, r, bm); PlusComm(r, bm); PlusAssoc(bh, bm, r);
  }

  /** c = u a + v b divides a and b. */
  ghost predicate Common(a: seq<Gf>, b: seq<Gf>, c: seq<Gf>, u: seq<Gf>, v: seq<Gf>, p: seq<Gf>, q: seq<Gf>)
  {
    && Normal(c) && Normal(u) && Normal(v) && Normal(p) && Normal(q)
    && c == Plus(Times(u, a), Times(v, b)) && a == Times(c, p) && b == Times(c, q)
  }

  lemma {:induction false} Bezout(a: seq<Gf>, b: seq<Gf>)
    returns (c: seq<Gf>, u: seq<Gf>, v: seq<Gf>, p: seq<Gf>, q: seq<Gf>)
    requires Normal(a) && Normal(b)
    ensures Common(a, b, c, u, v, p, q)
    decreases |b|
  {
    hide Times, Plus;
    if b == [] {
      SplitZero();
      c, u, v, p, q := a, [ONE], [], [ONE], [];
      TimesUnits(a); TimesUnits([]); PlusNone(a);
      TimesComm([], []);
    } else {
      var k, r := Divide(a, b);
      var u', v', p', q';
      c, u', v', p', q' := Bezout(b, r);
      BezoutStep(a, b, k, r, c, u', v', p', q');
      u, v, p, q := v', Plus(u', Times(v', k)), Plus(Times(p', k), q'), p';
    }
  }

  lemma BezoutStep(a: seq<Gf>, b: seq<Gf>, k: seq<Gf>, r: seq<Gf>,
                   c: seq<Gf>, u: seq<Gf>, v: seq<Gf>, p: seq<Gf>, q: seq<Gf>)
    requires Normal(a) && Normal(b) && Normal(k) && Normal(r) && a == Plus(Times(b, k), r)
    requires Common(b, r, c, u, v, p, q)
    ensures Common(a, b, c, v, Plus(u, Times(v, k)), Plus(Times(p, k), q), p)
  {
    hide Times, Plus;
    // a = c p k + c q.
    TimesAssoc(c, p, k); TimesPlus(c, Times(p, k), q);
    // c = u b + v r, and v a = v b k + v r.
    TimesPlus(v, Times(b, k), r);
    var (ub, vr, w) := (Times(u, b), Times(v, r), Times(v, Times(b, k)));
    TimesComm(Plus(u, Times(v, k)), b); TimesPlus(b, u, Times(v, k));
    TimesComm(b, u); TimesSwap(b, v, k);
    // v a + (u b + w) = (w + v r) + (u b + w) = u b + v r.
    PlusComm(ub, w); PlusAssoc(Plus(w, vr), w, ub);
    PlusComm(w, vr); PlusAssoc(vr, w, w); PlusNone(w); PlusNone(vr);
    PlusComm(vr, ub);
  }

  lemma TimesNone(p: seq<Gf>)
    ensures Times(p, []) == []
  {
    hide Times, Conv;
    forall k ensures Term(Times(p, []), k) == ZERO {
      TimesTerm(p, [], k); ConvNone(p, k);
    }
    Equal(Times(p, []), []);
  }

  lemma TermBeyond(r: seq<Gf>, k: int)
    requires k >= |r|
    ensures Term(r, k) == ZERO
  {
  }

  lemma ProductLength(p: seq<Gf>, q: seq<Gf>)
    requires Normal(p) && Normal(q) && p != [] && q != []
    ensures |Times(p, q)| == |p| + |q| - 1
  {
    hide Times, Conv, Mul;
    var n := |p| + |q| - 2;
    TopProduct(p, q); TimesTerm(p, q, n);
    NoZeroDivisors(p[|p| - 1], q[|q| - 1]);
    forall k | k >= n + 1 ensures Term(Times(p, q), k) == ZERO {
      TimesTerm(p, q, k); ConvLate(p, q, k);
    }
    Shorter(Times(p, q), n + 1);
    if |Times(p, q)| <= n { TermBeyond(Times(p, q), n); }
  }
}
