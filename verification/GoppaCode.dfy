/** Checks with 1/g and divisibility by g: the Goppa code of a polynomial g. */
module GoppaCode {
  import opened Field
  import opened Frobenius
  import opened Polynomials
  import opened Recurrences
  import opened Decoding
  import opened Products

  // The checks with 1/g make the public key, those with 1/g^2 are what the decoder uses. For a
  // squarefree g both have the same binary solutions; this module is the part about a single
  // polynomial.

  /** The sum of h[i] times the product of x - a[k] over the chosen k other than i. */
  function Numerator(e: seq<bool>, h: seq<Gf>, a: seq<Gf>): (p: seq<Gf>)
    requires |e| <= |h| && |e| <= |a|
    ensures |p| == Weight(e)
  {
    if e == [] then [] else
      var n := |e| - 1;
      var q := Numerator(e[..n], h, a);
      if e[n] then SumOf(TimesLinear(q, a[n]), h[n], RootPoly(e[..n], a)) else q
  }

  /** The sum of h[i] times the quotient of g - g(a[i]) by x - a[i]. */
  function Tail(e: seq<bool>, h: seq<Gf>, a: seq<Gf>, g: seq<Gf>): (p: seq<Gf>)
    requires |e| <= |h| && |e| <= |a| && |g| > 0
    ensures |p| == |g| - 1
  {
    if e == [] then seq(|g| - 1, i => ZERO) else
      var n := |e| - 1;
      var q := Tail(e[..n], h, a, g);
      if e[n] then SumOf(q, h[n], Quotient(g, a[n])) else q
  }

  /** h[i] is the inverse of g(a[i]) at the chosen positions. */
  predicate Inverts(e: seq<bool>, h: seq<Gf>, a: seq<Gf>, g: seq<Gf>)
    requires |e| <= |h| && |e| <= |a|
  {
    forall i :: 0 <= i < |e| && e[i] ==> Mul(h[i], Value(g, a[i])) == ONE
  }

  function AllOnes(n: nat): (h: seq<Gf>)
    ensures |h| == n && forall i :: 0 <= i < n ==> h[i] == ONE
  {
    seq(n, i => ONE)
  }

  /** The derivative of the product of x - a[i] over the chosen positions. */
  function Derivative(e: seq<bool>, a: seq<Gf>): (p: seq<Gf>)
    requires |e| <= |a|
    ensures |p| == Weight(e)
  {
    Numerator(e, AllOnes(|e|), a)
  }

  // ----- g times the numerator

  /** Division by x - a, as it acts on any factor s. */
  lemma {:induction false} DivisionActs(g: seq<Gf>, a: Gf, s: seq<Gf>, k: int)
    ensures Conv(g, s, k) == Add(Mul(Value(g, a), Term(s, k)), Conv(Quotient(g, a), TimesLinear(s, a), k))
    decreases |g|
  {
    hide Mul, Add, Term, TimesLinear;
    if |g| == 0 {
      ZeroLeft(Term(s, k)); AddZero(ZERO);
    } else if |g| == 1 {
      ValueConstant(g, a);
      AddZero(Mul(g[0], Term(s, k)));
      assert g[1..] == [];
    } else {
      var r := g[1..];
      DivisionActs(r, a, s, k - 1);
      QuotientCons(g, a);
      var (q, ls, v) := (Quotient(r, a), TimesLinear(s, a), Value(r, a));
      ConvHead([v] + q, ls, k);
      assert ([v] + q)[1..] == q;
      TermLinear(s, a, k);
      ActStep(g[0], a, v, Term(s, k), Term(s, k - 1), Conv(q, ls, k - 1));
    }
  }

  lemma QuotientCons(g: seq<Gf>, a: Gf)
    requires |g| > 1
    ensures Quotient(g, a) == [Value(g[1..], a)] + Quotient(g[1..], a)
  {
    hide Value;
  }

  lemma ActStep(c: Gf, a: Gf, v: Gf, x: Gf, y: Gf, r: Gf)
    ensures Add(Mul(c, x), Add(Mul(v, y), r))
         == Add(Mul(Add(c, Mul(a, v)), x), Add(Mul(v, Add(Mul(a, x), y)), r))
  {
    hide *;
    MulAddLeft(c, Mul(a, v), x);
    MulAddRight(v, Mul(a, x), y);
    MulAssoc(v, a, x); MulComm(v, a);
    var (cx, w, vy) := (Mul(c, x), Mul(Mul(a, v), x), Mul(v, y));
    AddAssoc(w, vy, r);
    AddAssoc(cx, w, Add(w, Add(vy, r)));
    AddAssoc(w, w, Add(vy, r)); AddCancel(w, w); AddZero(Add(vy, r));
  }

  /** g A = D + S P: the numerator A, the derivative D, the tail S and the product P of the x - a[i]. */
  lemma {:induction false} Expansion(e: seq<bool>, h: seq<Gf>, u: seq<Gf>, a: seq<Gf>, g: seq<Gf>, k: int)
    requires |e| <= |h| && |e| <= |a| && |e| <= |u| && |g| > 0
    requires Inverts(e, h, a, g)
    requires forall i :: 0 <= i < |u| ==> u[i] == ONE
    ensures Conv(g, Numerator(e, h, a), k)
         == Add(Term(Numerator(e, u, a), k), Conv(Tail(e, h, a, g), RootPoly(e, a), k))
    decreases |e|
  {
    hide Mul, Add, Conv, Term, Quotient, TimesLinear, SumOf, Value;
    if e == [] {
      ConvNone(g, k); NoTerms(k);
      ConvZeros(Tail(e, h, a, g), RootPoly(e, a), k);
      AddZero(ZERO);
    } else {
      var n := |e| - 1;
      var d := e[..n];
      Expansion(d, h, u, a, g, k);
      if e[n] {
        Expansion(d, h, u, a, g, k - 1);
        ExpansionStep(d, h, u, a, g, n, k);
      }
    }
  }

  lemma NoTerms(k: int)
    ensures Term([], k) == ZERO
  {
  }

  lemma ExpansionStep(d: seq<bool>, h: seq<Gf>, u: seq<Gf>, a: seq<Gf>, g: seq<Gf>, n: nat, k: int)
    requires n == |d| && n < |h| && n < |a| && n < |u| && |g| > 0
    requires Mul(h[n], Value(g, a[n])) == ONE && u[n] == ONE
    requires Conv(g, Numerator(d, h, a), k)
          == Add(Term(Numerator(d, u, a), k), Conv(Tail(d, h, a, g), RootPoly(d, a), k))
    requires Conv(g, Numerator(d, h, a), k - 1)
          == Add(Term(Numerator(d, u, a), k - 1), Conv(Tail(d, h, a, g), RootPoly(d, a), k - 1))
    ensures Conv(g, SumOf(TimesLinear(Numerator(d, h, a), a[n]), h[n], RootPoly(d, a)), k)
         == Add(Term(SumOf(TimesLinear(Numerator(d, u, a), a[n]), u[n], RootPoly(d, a)), k),
                Conv(SumOf(Tail(d, h, a, g), h[n], Quotient(g, a[n])), TimesLinear(RootPoly(d, a), a[n]), k))
  {
    hide Mul, Add, Conv, Term, Quotient, TimesLinear, SumOf, Value, Numerator, RootPoly, Tail;
    var (b, c) := (a[n], h[n]);
    var (A, D, S, P) := (Numerator(d, h, a), Numerator(d, u, a), Tail(d, h, a, g), RootPoly(d, a));
    var (q, lp) := (Quotient(g, b), TimesLinear(P, b));
    ConvSumRight(g, TimesLinear(A, b), c, P, k);
    ConvLinear(g, A, b, k);
    TermSum(TimesLinear(D, b), u[n], P, k);
    TermLinear(D, b, k);
    SumIs(S, c, q);
    ConvSum(SumOf(S, c, q), S, c, q, lp, k);
    ConvLinear(S, P, b, k);
    DivisionActs(g, b, P, k);
    StepSums(b, c, Value(g, b), Term(D, k), Term(D, k - 1), Term(P, k),
             Conv(S, P, k), Conv(S, P, k - 1), Conv(q, lp, k));
  }

  lemma SumIs(u: seq<Gf>, f: Gf, v: seq<Gf>)
    requires |u| == |v|
    ensures IsSum(SumOf(u, f, v), u, f, v)
  {
  }

  lemma StepSums(b: Gf, c: Gf, v: Gf, d: Gf, d1: Gf, p: Gf, s: Gf, s1: Gf, q: Gf)
    requires Mul(c, v) == ONE
    ensures Add(Add(Mul(b, Add(d, s)), Add(d1, s1)), Mul(c, Add(Mul(v, p), q)))
         == Add(Add(Add(Mul(b, d), d1), Mul(ONE, p)), Add(Add(Mul(b, s), s1), Mul(c, q)))
  {
    hide *;
    MulAddRight(b, d, s);
    AddCross(Mul(b, d), Mul(b, s), d1, s1);
    MulAddRight(c, Mul(v, p), q);
    MulAssoc(c, v, p);
    AddCross(Add(Mul(b, d), d1), Add(Mul(b, s), s1), Mul(ONE, p), Mul(c, q));
  }

  // ----- the tail lists the moments

  predicate MomentsVanish(v: seq<Gf>, a: seq<Gf>, n: nat)
    requires |v| <= |a|
  {
    forall k :: 0 <= k < n ==> Moment(v, a, k) == ZERO
  }

  lemma {:induction false} QuotientAt(g: seq<Gf>, a: Gf, j: nat)
    requires j + 1 < |g|
    ensures Quotient(g, a)[j] == Value(g[j + 1..], a)
    decreases |g|
  {
    hide Value;
    if j > 0 {
      QuotientAt(g[1..], a, j - 1);
      assert g[1..][j..] == g[j + 1..];
    }
  }

  /** h at the chosen positions, zero elsewhere. */
  function Picked(e: seq<bool>, h: seq<Gf>): (v: seq<Gf>)
    requires |e| <= |h|
    ensures |v| == |e| && forall i :: 0 <= i < |e| ==> v[i] == if e[i] then h[i] else ZERO
  {
    Chosen(e, h[..|e|])
  }

  lemma {:induction false} TailAt(e: seq<bool>, h: seq<Gf>, a: seq<Gf>, g: seq<Gf>, j: nat)
    requires |e| <= |h| && |e| <= |a| && j + 1 < |g|
    ensures Tail(e, h, a, g)[j] == Weighted(Picked(e, h), a, g[j + 1..], 0)
    decreases |e|
  {
    hide Mul, Add, Quotient, Value;
    if e != [] {
      var n := |e| - 1;
      TailAt(e[..n], h, a, g, j);
      assert Picked(e, h)[..n] == Picked(e[..n], h);
      var x := Value(g[j + 1..], a[n]);
      OneLeft(x);
      assert Pow(a[n], 0) == ONE;
      if e[n] {
        QuotientAt(g, a[n], j);
      } else {
        ZeroLeft(x);
        AddZero(Tail(e[..n], h, a, g)[j]);
      }
    }
  }

  lemma VanishingTail(e: seq<bool>, h: seq<Gf>, a: seq<Gf>, g: seq<Gf>)
    requires |e| <= |h| && |e| <= |a| && |g| > 0
    requires MomentsVanish(Picked(e, h), a, |g| - 1)
    ensures AllZero(Tail(e, h, a, g))
  {
    hide Weighted, Moment, MomentSum;
    forall j | 0 <= j < |g| - 1 ensures Tail(e, h, a, g)[j] == ZERO {
      TailAt(e, h, a, g, j);
      MomentSumZero(g[j + 1..], Picked(e, h), a, 0);
      MomentSumIsWeighted(g[j + 1..], Picked(e, h), a, 0);
    }
  }

  lemma {:induction false} TailVanishing(e: seq<bool>, h: seq<Gf>, a: seq<Gf>, g: seq<Gf>, n: nat)
    requires |e| <= |h| && |e| <= |a| && Monic(g) && n < |g|
    requires AllZero(Tail(e, h, a, g))
    ensures MomentsVanish(Picked(e, h), a, n)
    decreases n
  {
    hide Weighted, Moment, MomentSum, Mul, Add;
    if n > 0 {
      TailVanishing(e, h, a, g, n - 1);
      var v := Picked(e, h);
      var j := |g| - 1 - n;
      var p := g[j + 1..];
      var q := p[..n - 1];
      TailAt(e, h, a, g, j);
      MomentSumIsWeighted(p, v, a, 0);
      assert p == q + [ONE];
      MomentSumAppend(q, ONE, v, a, 0);
      MomentSumZero(q, v, a, 0);
      var m := Moment(v, a, n - 1);
      OneLeft(m); AddZero(m);
    }
  }

  // ----- the checks hold exactly when g divides the derivative

  /** b times g is the derivative, and b is short enough to be the quotient. */
  ghost predicate Divides(g: seq<Gf>, b: seq<Gf>, e: seq<bool>, a: seq<Gf>)
    requires |e| <= |a|
  {
    |b| <= Weight(e) && forall k :: Conv(g, b, k) == Term(Derivative(e, a), k)
  }

  lemma ChecksDivide(e: seq<bool>, h: seq<Gf>, a: seq<Gf>, g: seq<Gf>)
    requires |e| <= |h| && |e| <= |a| && |g| > 0 && Inverts(e, h, a, g)
    requires MomentsVanish(Picked(e, h), a, |g| - 1)
    ensures Divides(g, Numerator(e, h, a), e, a)
  {
    hide Numerator, Conv, Term, Tail, Add, Inverts;
    VanishingTail(e, h, a, g);
    forall k ensures Conv(g, Numerator(e, h, a), k) == Term(Derivative(e, a), k) {
      Expansion(e, h, AllOnes(|e|), a, g, k);
      ConvZeros(Tail(e, h, a, g), RootPoly(e, a), k);
      AddZero(Term(Derivative(e, a), k));
    }
  }

  lemma {:induction false} TooManyRoots(p: seq<Gf>, e: seq<bool>, a: seq<Gf>)
    requires |e| <= |a| && Distinct(a) && Vanishes(p, e, a) && |p| <= Weight(e)
    ensures AllZero(p)
    decreases |p|
  {
    hide Value;
    if p != [] {
      var n := |p| - 1;
      if p[n] != ZERO {
        RootBound(p, e, a);
        assert false;
      }
      forall i | 0 <= i < |e| && e[i] ensures Value(p[..n], a[i]) == ZERO {
        ValuePad(p[..n], a[i], 1);
        assert p[..n] + [ZERO] == p;
      }
      TooManyRoots(p[..n], e, a);
    }
  }

  lemma {:induction false} ValuePad(p: seq<Gf>, x: Gf, n: nat)
    ensures Value(p + seq(n, i => ZERO), x) == Value(p, x)
    ensures n == 1 ==> p + seq(n, i => ZERO) == p + [ZERO]
    decreases |p| + n
  {
    hide Mul, Add;
    var q := p + seq(n, i => ZERO);
    if p != [] {
      ValuePad(p[1..], x, n);
      assert q[1..] == p[1..] + seq(n, i => ZERO);
    } else if n > 0 {
      ValuePad(p, x, n - 1);
      assert q[1..] == [] + seq(n - 1, i => ZERO);
      ZeroRight(x); AddZero(ZERO);
    }
  }

  function Padded(b: seq<Gf>, n: nat): (p: seq<Gf>)
    requires |b| <= n
    ensures |p| == n
  {
    b + seq(n - |b|, i => ZERO)
  }

  lemma PaddedTerm(b: seq<Gf>, n: nat, k: int)
    requires |b| <= n
    ensures Term(Padded(b, n), k) == Term(b, k)
  {
  }

  lemma {:induction false} SameTerms(c: seq<Gf>, s: seq<Gf>, t: seq<Gf>, k: int)
    requires forall j :: Term(s, j) == Term(t, j)
    ensures Conv(c, s, k) == Conv(c, t, k)
  {
    hide Term, Mul, Add;
    if c != [] {
      SameTerms(c[1..], s, t, k - 1);
    }
  }

  lemma DivideChecks(e: seq<bool>, h: seq<Gf>, a: seq<Gf>, g: seq<Gf>, b: seq<Gf>)
    requires |e| <= |h| && |e| <= |a| && Monic(g) && Inverts(e, h, a, g) && Distinct(a)
    requires Divides(g, b, e, a)
    ensures MomentsVanish(Picked(e, h), a, |g| - 1)
  {
    hide Numerator, Conv, Term, Tail, RootPoly, Value, Add, Mul, Inverts, Distinct, Weight, MomentsVanish;
    var (A, S, P) := (Numerator(e, h, a), Tail(e, h, a, g), RootPoly(e, a));
    var f := SumOf(A, ONE, Padded(b, Weight(e)));
    forall k ensures Conv(g, f, k) == Conv(S, P, k) {
      Remainder(e, h, a, g, b, k);
    }
    forall i | 0 <= i < |e| && e[i] ensures Value(f, a[i]) == ZERO {
      ProductValue(g, f, S, P, a[i]);
      RootPolyRoots(e, a, a[i]);
      ZeroRight(Value(S, a[i]));
      NoZeroDivisors(Value(g, a[i]), Value(f, a[i]));
      Invertible(e, h, a, g, i);
    }
    TooManyRoots(f, e, a);
    forall k ensures Conv(S, P, k) == ZERO {
      ConvComm(g, f, k);
      ConvZeros(f, g, k);
    }
    RootPolyRoots(e, a, ZERO);
    MonicCancel(S, P);
    TailVanishing(e, h, a, g, |g| - 1);
  }

  lemma Invertible(e: seq<bool>, h: seq<Gf>, a: seq<Gf>, g: seq<Gf>, i: nat)
    requires |e| <= |h| && |e| <= |a| && Inverts(e, h, a, g) && i < |e| && e[i]
    ensures Value(g, a[i]) != ZERO
  {
    hide Value, Mul;
    ZeroRight(h[i]);
    SplitZero();
  }

  lemma Remainder(e: seq<bool>, h: seq<Gf>, a: seq<Gf>, g: seq<Gf>, b: seq<Gf>, k: int)
    requires |e| <= |h| && |e| <= |a| && |g| > 0 && Inverts(e, h, a, g)
    requires Divides(g, b, e, a)
    ensures Conv(g, SumOf(Numerator(e, h, a), ONE, Padded(b, Weight(e))), k)
         == Conv(Tail(e, h, a, g), RootPoly(e, a), k)
  {
    hide Numerator, Conv, Term, Tail, RootPoly, Value, Add, Mul, Inverts, Weight;
    var (x, y) := (Term(Derivative(e, a), k), Conv(Tail(e, h, a, g), RootPoly(e, a), k));
    var p := Padded(b, Weight(e));
    ConvSumRight(g, Numerator(e, h, a), ONE, p, k);
    Expansion(e, h, AllOnes(|e|), a, g, k);
    forall j ensures Term(p, j) == Term(b, j) { PaddedTerm(b, Weight(e), j); }
    SameTerms(g, p, b, k);
    OneLeft(x);
    AddComm(x, y); AddAssoc(y, x, x); AddCancel(x, x); AddZero(y);
  }
}
