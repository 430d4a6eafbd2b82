/** Polynomials over the field, as coefficient sequences from the constant term up. */
module Polynomials {
  import opened Field
  import opened Frobenius

  /** The value at x, by Horner's rule. */
  function Value(p: seq<Gf>, x: Gf): Gf
  {
    if p == [] then ZERO else Add(p[0], Mul(x, Value(p[1..], x)))
  }

  /** The quotient of p by x - a. */
  function Quotient(p: seq<Gf>, a: Gf): (q: seq<Gf>)
    ensures |q| == if p == [] then 0 else |p| - 1
    decreases |p|
  {
    if |p| <= 1 then [] else [Value(p[1..], a)] + Quotient(p[1..], a)
  }

  /** The product of p and x - a. */
  function TimesLinear(p: seq<Gf>, a: Gf): (q: seq<Gf>)
    ensures |q| == |p| + 1
  {
    if p == [] then [ZERO] else
      var q := TimesLinear(p[1..], a);
      [Mul(a, p[0])] + q[0 := Add(p[0], q[0])]
  }

  /** The number of chosen positions. */
  function Weight(e: seq<bool>): (w: nat)
    ensures w <= |e|
  {
    if e == [] then 0 else
      Weight(e[..|e| - 1]) + if e[|e| - 1] then 1 else 0
  }

  /** The product of x - a[i] over the chosen positions. */
  function RootPoly(e: seq<bool>, a: seq<Gf>): (p: seq<Gf>)
    requires |e| <= |a|
    ensures |p| == Weight(e) + 1
  {
    if e == [] then [ONE] else
      var q := RootPoly(e[..|e| - 1], a);
      if e[|e| - 1] then TimesLinear(q, a[|e| - 1]) else q
  }

  predicate Distinct(a: seq<Gf>)
  {
    forall i, j :: 0 <= i < j < |a| ==> a[i] != a[j]
  }

  /** p vanishes at every chosen point. */
  predicate Vanishes(p: seq<Gf>, e: seq<bool>, a: seq<Gf>)
    requires |e| <= |a|
  {
    forall i :: 0 <= i < |e| && e[i] ==> Value(p, a[i]) == ZERO
  }

  // ----- values

  lemma ValueCons(c: Gf, p: seq<Gf>, x: Gf)
    ensures Value([c] + p, x) == Add(c, Mul(x, Value(p, x)))
  {
    hide Mul, Add;
    assert ([c] + p)[1..] == p;
  }

  lemma ValueConstant(p: seq<Gf>, x: Gf)
    requires |p| == 1
    ensures Value(p, x) == p[0]
  {
    hide Mul, Add;
    assert p[1..] == [];
    ZeroRight(x); AddZero(p[0]);
  }

  lemma {:induction false} ValueBump(p: seq<Gf>, c: Gf, x: Gf)
    requires |p| > 0
    ensures Value(p[0 := Add(c, p[0])], x) == Add(c, Value(p, x))
  {
    hide Mul, Add;
    var q := p[0 := Add(c, p[0])];
    assert q[1..] == p[1..];
    AddAssoc(c, p[0], Mul(x, Value(p[1..], x)));
  }

  /** The factor theorem: p(x) = p(a) + (x - a) q(x). */
  lemma {:induction false} Division(p: seq<Gf>, a: Gf, x: Gf)
    ensures Value(p, x) == Add(Value(p, a), Mul(Add(x, a), Value(Quotient(p, a), x)))
    decreases |p|
  {
    hide Mul, Add;
    if |p| <= 1 {
      ZeroRight(Add(x, a)); ZeroRight(x); ZeroRight(a);
      AddZero(Value(p, a));
    } else {
      var r := p[1..];
      Division(r, a, x);
      var (ra, q) := (Value(r, a), Value(Quotient(r, a), x));
      ValueCons(ra, Quotient(r, a), x);
      DivisionStep(p[0], x, a, ra, q);
    }
  }

  lemma DivisionStep(c: Gf, x: Gf, a: Gf, v: Gf, q: Gf)
    ensures Add(c, Mul(x, Add(v, Mul(Add(x, a), q))))
         == Add(Add(c, Mul(a, v)), Mul(Add(x, a), Add(v, Mul(x, q))))
  {
    hide *;
    var d := Add(x, a);
    // x (d q) = d (x q), and x v = a v + d v.
    MulAssoc(x, d, q); MulComm(x, d); MulAssoc(d, x, q);
    MulAddRight(x, v, Mul(d, q)); MulAddRight(d, v, Mul(x, q));
    MulAddLeft(x, a, v);
    var xv, av, w := Mul(x, v), Mul(a, v), Mul(d, Mul(x, q));
    AddComm(xv, av); AddAssoc(av, av, xv); AddCancel(av, av); AddZero(xv);
    assert Add(av, Mul(d, v)) == xv;
    AddAssoc(Add(c, av), Mul(d, v), w);
    AddAssoc(c, av, Mul(d, v));
    AddAssoc(c, xv, w);
  }

  lemma {:induction false} QuotientTop(p: seq<Gf>, a: Gf)
    requires |p| > 1
    ensures Quotient(p, a)[|p| - 2] == p[|p| - 1]
    decreases |p|
  {
    hide Mul, Add;
    if |p| == 2 {
      var r := p[1..];
      ValueConstant(r, a);
      assert Quotient(p, a) == [p[1]] + Quotient(r, a);
    } else {
      QuotientTop(p[1..], a);
    }
  }

  /** A polynomial with a nonzero top coefficient has no more roots than its degree. */
  lemma {:induction false} RootBound(p: seq<Gf>, e: seq<bool>, a: seq<Gf>)
    requires |p| > 0 && p[|p| - 1] != ZERO
    requires |e| <= |a| && Distinct(a) && Vanishes(p, e, a)
    ensures Weight(e) < |p|
    decreases |e|
  {
    hide Mul, Add, Quotient;
    if e != [] {
      var n := |e| - 1;
      var d := e[..n];
      if !e[n] {
        RootBound(p, d, a);
      } else if |p| == 1 {
        ValueConstant(p, a[n]);
        assert false;
      } else {
        var q := Quotient(p, a[n]);
        forall i | 0 <= i < |d| && d[i] ensures Value(q, a[i]) == ZERO {
          assert e[i];
          Division(p, a[n], a[i]);
          AddZero(Mul(Add(a[i], a[n]), Value(q, a[i])));
          AddCancel(a[i], a[n]);
          NoZeroDivisors(Add(a[i], a[n]), Value(q, a[i]));
        }
        QuotientTop(p, a[n]);
        RootBound(q, d, a);
      }
    }
  }

  // ----- polynomials with given roots

  lemma {:induction false} TimesLinearValue(p: seq<Gf>, a: Gf, x: Gf)
    ensures Value(TimesLinear(p, a), x) == Mul(Add(x, a), Value(p, x))
  {
    hide Mul, Add;
    if p == [] {
      ZeroRight(Add(x, a)); ZeroRight(x); AddZero(ZERO);
    } else {
      var q := TimesLinear(p[1..], a);
      var v := Value(p[1..], x);
      TimesLinearValue(p[1..], a, x);
      ValueBump(q, p[0], x);
      ValueCons(Mul(a, p[0]), q[0 := Add(p[0], q[0])], x);
      LinearStep(p[0], x, a, v);
    }
  }

  lemma LinearStep(c: Gf, x: Gf, a: Gf, v: Gf)
    ensures Add(Mul(a, c), Mul(x, Add(c, Mul(Add(x, a), v)))) == Mul(Add(x, a), Add(c, Mul(x, v)))
  {
    hide *;
    var d := Add(x, a);
    MulAddRight(d, c, Mul(x, v)); MulAddRight(x, c, Mul(d, v));
    MulAddLeft(x, a, c);
    MulAssoc(x, d, v); MulComm(x, d); MulAssoc(d, x, v);
    AddComm(Mul(x, c), Mul(a, c));
    AddAssoc(Mul(a, c), Mul(x, c), Mul(d, Mul(x, v)));
  }

  lemma {:induction false} TimesLinearTop(p: seq<Gf>, a: Gf)
    requires |p| > 0
    ensures TimesLinear(p, a)[|p|] == p[|p| - 1]
  {
    hide Mul, Add;
    if |p| == 1 {
      AddZero(p[0]);
    } else {
      TimesLinearTop(p[1..], a);
    }
  }

  /** The product over the chosen points is monic, and its roots are exactly those points. */
  lemma {:induction false} RootPolyRoots(e: seq<bool>, a: seq<Gf>, x: Gf)
    requires |e| <= |a|
    ensures RootPoly(e, a)[Weight(e)] == ONE
    ensures Value(RootPoly(e, a), x) == ZERO <==> exists i :: 0 <= i < |e| && e[i] && a[i] == x
  {
    hide Mul, Add, TimesLinear;
    if e == [] {
      ZeroRight(x); AddZero(ONE); SplitZero();
    } else {
      var n := |e| - 1;
      var d := e[..n];
      var q := RootPoly(d, a);
      RootPolyRoots(d, a, x);
      if e[n] {
        TimesLinearValue(q, a[n], x);
        TimesLinearTop(q, a[n]);
        NoZeroDivisors(Add(x, a[n]), Value(q, x));
        AddCancel(x, a[n]);
      }
      ChosenLast(e, a, x);
    }
  }

  lemma ChosenLast(e: seq<bool>, a: seq<Gf>, x: Gf)
    requires 0 < |e| <= |a|
    ensures (exists i :: 0 <= i < |e| && e[i] && a[i] == x)
       <==> (exists i :: 0 <= i < |e| - 1 && e[..|e| - 1][i] && a[i] == x) || (e[|e| - 1] && a[|e| - 1] == x)
  {
    var d := e[..|e| - 1];
    forall i | 0 <= i < |d| ensures d[i] == e[i] {}
  }

  // ----- weights

  lemma {:induction false} WeightSet(e: seq<bool>, f: nat, b: bool)
    requires f < |e| && e[f] != b
    ensures Weight(e[f := b]) == Weight(e) + if b then 1 else -1
  {
    var n := |e| - 1;
    var g := e[f := b];
    if f == n {
      assert g[..n] == e[..n];
    } else {
      WeightSet(e[..n], f, b);
      assert g[..n] == e[..n][f := b];
    }
  }
}
