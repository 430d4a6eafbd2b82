/** Power sums over a set of points: why the shortest recurrence of a syndrome locates the errors. */
module Decoding {
  import opened Params
  import opened Field
  import opened Frobenius
  import opened Polynomials
  import opened Recurrences
  import opened BerlekampMassey

  function Pow(a: Gf, k: nat): Gf
  {
    if k == 0 then ONE else Mul(Pow(a, k - 1), a)
  }

  /** The sum of v[i] a[i]^k. */
  function Moment(v: seq<Gf>, a: seq<Gf>, k: nat): Gf
    requires |v| <= |a|
  {
    if v == [] then ZERO else
      var n := |v| - 1;
      Add(Moment(v[..n], a, k), Mul(v[n], Pow(a[n], k)))
  }

  /** The sum of v[i] a[i]^k p(a[i]). */
  function Weighted(v: seq<Gf>, a: seq<Gf>, p: seq<Gf>, k: nat): Gf
    requires |v| <= |a|
  {
    if v == [] then ZERO else
      var n := |v| - 1;
      Add(Weighted(v[..n], a, p, k), Mul(v[n], Mul(Pow(a[n], k), Value(p, a[n]))))
  }

  /** The sum of p[j] times the moment of order k + j. */
  function MomentSum(p: seq<Gf>, v: seq<Gf>, a: seq<Gf>, k: nat): Gf
    requires |v| <= |a|
    decreases |p|
  {
    if p == [] then ZERO else Add(Mul(p[0], Moment(v, a, k)), MomentSum(p[1..], v, a, k + 1))
  }

  /** v[i] at the chosen positions, zero elsewhere. */
  function Chosen(e: seq<bool>, y: seq<Gf>): (v: seq<Gf>)
    requires |e| == |y|
    ensures |v| == |e|
    ensures forall i :: 0 <= i < |e| ==> v[i] == if e[i] then y[i] else ZERO
  {
    seq(|e|, i requires 0 <= i < |e| => if e[i] then y[i] else ZERO)
  }

  /** s lists the moments of v. */
  predicate IsSyndrome(s: seq<Gf>, v: seq<Gf>, a: seq<Gf>)
    requires |v| <= |a|
  {
    forall j :: 0 <= j < |s| ==> s[j] == Moment(v, a, j)
  }

  // ----- power sums of polynomials

  lemma {:induction false} WeightedEmpty(v: seq<Gf>, a: seq<Gf>, k: nat)
    requires |v| <= |a|
    ensures Weighted(v, a, [], k) == ZERO
  {
    hide Mul, Add, Pow;
    if v != [] {
      var n := |v| - 1;
      WeightedEmpty(v[..n], a, k);
      ZeroRight(Pow(a[n], k)); ZeroRight(v[n]); AddZero(ZERO);
    }
  }

  /** v x (c + a r) = c (v x) + v (x a) r. */
  lemma WeightedTerm(v: Gf, x: Gf, a: Gf, c: Gf, r: Gf)
    ensures Mul(v, Mul(x, Add(c, Mul(a, r)))) == Add(Mul(c, Mul(v, x)), Mul(v, Mul(Mul(x, a), r)))
  {
    hide *;
    MulAddRight(x, c, Mul(a, r));
    MulAssoc(x, a, r);
    MulAddRight(v, Mul(x, c), Mul(Mul(x, a), r));
    MulAssoc(v, x, c); MulComm(Mul(v, x), c);
  }

  lemma {:induction false} WeightedStep(v: seq<Gf>, a: seq<Gf>, p: seq<Gf>, k: nat)
    requires |v| <= |a| && |p| > 0
    ensures Weighted(v, a, p, k) == Add(Mul(p[0], Moment(v, a, k)), Weighted(v, a, p[1..], k + 1))
  {
    hide Mul, Add;
    if v == [] {
      ZeroRight(p[0]); AddZero(ZERO);
    } else {
      var n := |v| - 1;
      var (u, x, r) := (v[..n], Pow(a[n], k), Value(p[1..], a[n]));
      WeightedStep(u, a, p, k);
      WeightedTerm(v[n], x, a[n], p[0], r);
      MulAddRight(p[0], Moment(u, a, k), Mul(v[n], x));
      AddCross(Mul(p[0], Moment(u, a, k)), Weighted(u, a, p[1..], k + 1),
               Mul(p[0], Mul(v[n], x)), Mul(v[n], Mul(Mul(x, a[n]), r)));
    }
  }

  lemma {:induction false} MomentSumIsWeighted(p: seq<Gf>, v: seq<Gf>, a: seq<Gf>, k: nat)
    requires |v| <= |a|
    ensures MomentSum(p, v, a, k) == Weighted(v, a, p, k)
    decreases |p|
  {
    hide Mul, Add, Weighted;
    if p == [] {
      WeightedEmpty(v, a, k);
    } else {
      MomentSumIsWeighted(p[1..], v, a, k + 1);
      WeightedStep(v, a, p, k);
    }
  }

  lemma {:induction false} MomentSumAppend(p: seq<Gf>, z: Gf, v: seq<Gf>, a: seq<Gf>, k: nat)
    requires |v| <= |a|
    ensures MomentSum(p + [z], v, a, k) == Add(MomentSum(p, v, a, k), Mul(z, Moment(v, a, k + |p|)))
    decreases |p|
  {
    hide Mul, Add, Moment;
    if p == [] {
      assert ([] + [z])[1..] == [];
      AddComm(Mul(z, Moment(v, a, k)), ZERO);
    } else {
      MomentSumAppend(p[1..], z, v, a, k + 1);
      assert (p + [z])[1..] == p[1..] + [z];
      AddAssoc(Mul(p[0], Moment(v, a, k)), MomentSum(p[1..], v, a, k + 1), Mul(z, Moment(v, a, k + |p|)));
    }
  }

  /** The recurrence c applied to a syndrome is the power sum of the polynomial with reversed coefficients. */
  lemma {:induction false} ConvIsWeighted(c: seq<Gf>, s: seq<Gf>, v: seq<Gf>, a: seq<Gf>, k: nat)
    requires |v| <= |a| && IsSyndrome(s, v, a) && k + |c| <= |s|
    ensures Conv(c, s, k + |c| - 1) == MomentSum(Reversed(c), v, a, k)
    decreases |c|
  {
    hide Mul, Add, Moment;
    if c != [] {
      var d := c[1..];
      ConvIsWeighted(d, s, v, a, k);
      MomentSumAppend(Reversed(d), c[0], v, a, k);
      AddComm(Mul(c[0], Moment(v, a, k + |d|)), MomentSum(Reversed(d), v, a, k));
    }
  }

  lemma {:induction false} WeightedZero(v: seq<Gf>, a: seq<Gf>, p: seq<Gf>, k: nat)
    requires |v| <= |a|
    requires forall i :: 0 <= i < |v| ==> v[i] == ZERO || Value(p, a[i]) == ZERO
    ensures Weighted(v, a, p, k) == ZERO
  {
    hide Mul, Add, Value, Pow;
    if v != [] {
      var n := |v| - 1;
      WeightedZero(v[..n], a, p, k);
      ZeroRight(Pow(a[n], k)); ZeroRight(v[n]);
      ZeroLeft(Mul(Pow(a[n], k), Value(p, a[n])));
      AddZero(ZERO);
    }
  }

  /** When all but one term vanish, the sum is that term. */
  lemma {:induction false} WeightedOne(v: seq<Gf>, a: seq<Gf>, p: seq<Gf>, f: nat)
    requires f < |v| <= |a|
    requires forall i :: 0 <= i < |v| && i != f ==> v[i] == ZERO || Value(p, a[i]) == ZERO
    ensures Weighted(v, a, p, 0) == Mul(v[f], Value(p, a[f]))
  {
    hide Mul, Add, Value;
    var n := |v| - 1;
    OneLeft(Value(p, a[n]));
    if f == n {
      WeightedZero(v[..n], a, p, 0);
      AddZero(Mul(v[n], Value(p, a[n])));
    } else {
      WeightedOne(v[..n], a, p, f);
      ZeroRight(v[n]); ZeroLeft(Value(p, a[n]));
      AddZero(Mul(v[f], Value(p, a[f])));
    }
  }

  /** v[i] p(a[i]), position by position. */
  function Scale(v: seq<Gf>, a: seq<Gf>, p: seq<Gf>): (w: seq<Gf>)
    requires |v| <= |a|
    ensures |w| == |v|
    ensures forall i :: 0 <= i < |v| ==> w[i] == Mul(v[i], Value(p, a[i]))
  {
    seq(|v|, i requires 0 <= i < |v| => Mul(v[i], Value(p, a[i])))
  }

  lemma {:induction false} ScaleMoment(v: seq<Gf>, a: seq<Gf>, p: seq<Gf>, k: nat)
    requires |v| <= |a|
    ensures Moment(Scale(v, a, p), a, k) == Weighted(v, a, p, k)
  {
    hide Mul, Add, Value, Pow;
    if v != [] {
      var n := |v| - 1;
      ScaleMoment(v[..n], a, p, k);
      assert Scale(v, a, p)[..n] == Scale(v[..n], a, p);
      var (x, r) := (Pow(a[n], k), Value(p, a[n]));
      MulAssoc(v[n], r, x); MulComm(r, x);
    }
  }

  lemma {:induction false} MomentSumZero(p: seq<Gf>, v: seq<Gf>, a: seq<Gf>, k: nat)
    requires |v| <= |a|
    requires forall j :: k <= j < k + |p| ==> Moment(v, a, j) == ZERO
    ensures MomentSum(p, v, a, k) == ZERO
    decreases |p|
  {
    hide Mul, Add, Moment;
    if p != [] {
      MomentSumZero(p[1..], v, a, k + 1);
      ZeroRight(p[0]); AddZero(ZERO);
    }
  }

  // ----- the locator of an error vector

  lemma ChosenRoots(e: seq<bool>, y: seq<Gf>, a: seq<Gf>)
    requires |e| == |y| == |a|
    ensures forall i :: 0 <= i < |e| ==> Chosen(e, y)[i] == ZERO || Value(RootPoly(e, a), a[i]) == ZERO
  {
    hide Value, RootPoly;
    forall i | 0 <= i < |e| && e[i] ensures Value(RootPoly(e, a), a[i]) == ZERO { RootPolyRoots(e, a, a[i]); }
  }

  lemma RootsCancel(e: seq<bool>, y: seq<Gf>, a: seq<Gf>, k: nat)
    requires |e| == |y| == |a|
    ensures MomentSum(RootPoly(e, a), Chosen(e, y), a, k) == ZERO
  {
    hide Value, Weighted, MomentSum, RootPoly;
    MomentSumIsWeighted(RootPoly(e, a), Chosen(e, y), a, k);
    ChosenRoots(e, y, a);
    WeightedZero(Chosen(e, y), a, RootPoly(e, a), k);
  }

  /** The recurrence whose reversed coefficients are the product of x - a[i] over the error positions. */
  lemma ErrorsGenerate(e: seq<bool>, y: seq<Gf>, a: seq<Gf>, s: seq<Gf>)
    requires |e| == |y| == |a| && Weight(e) == SYS_T && |s| == 2 * SYS_T
    requires IsSyndrome(s, Chosen(e, y), a)
    ensures Short(s)
  {
    hide Value, Conv, Weighted, Moment, MomentSum, RootPoly;
    var p := RootPoly(e, a);
    var g := Reversed(p);
    var v := Chosen(e, y);
    ReversedTwice(p);
    RootPolyRoots(e, a, ZERO);
    forall k | SYS_T <= k < |s| ensures Conv(g, s, k) == ZERO {
      ConvIsWeighted(g, s, v, a, k - SYS_T);
      RootsCancel(e, y, a, k - SYS_T);
    }
    assert Generates(g, SYS_T, s, |s|);
  }

  lemma ReversedTwice(c: seq<Gf>)
    ensures Reversed(Reversed(c)) == c
  {
  }

  /** The weights times the values of the locator have no moment of order below SYS_T. */
  lemma LocatorMoments(e: seq<bool>, y: seq<Gf>, a: seq<Gf>, s: seq<Gf>, c: seq<Gf>, l: int, k: nat)
    requires |e| == |y| == |a| && |s| == 2 * SYS_T && |c| == SYS_T + 1
    requires IsSyndrome(s, Chosen(e, y), a)
    requires l <= SYS_T && Generates(c, l, s, 2 * SYS_T) && k < SYS_T
    ensures Moment(Scale(Chosen(e, y), a, Reversed(c)), a, k) == ZERO
  {
    hide Value, Conv, Weighted, Moment, MomentSum;
    var v := Chosen(e, y);
    ScaleMoment(v, a, Reversed(c), k);
    MomentSumIsWeighted(Reversed(c), v, a, k);
    ConvIsWeighted(c, s, v, a, k);
  }

  /** Every error position is a root of the locator. */
  lemma ErrorsAreRoots(e: seq<bool>, y: seq<Gf>, a: seq<Gf>, s: seq<Gf>, c: seq<Gf>, l: int, f: nat)
    requires |e| == |y| == |a| && Weight(e) == SYS_T && |s| == 2 * SYS_T && |c| == SYS_T + 1
    requires Distinct(a) && IsSyndrome(s, Chosen(e, y), a)
    requires l <= SYS_T && Generates(c, l, s, 2 * SYS_T)
    requires f < |e| && e[f] && y[f] != ZERO
    ensures Value(Reversed(c), a[f]) == ZERO
  {
    hide Value, Generates, Weighted, Moment, MomentSum, RootPoly, Mul;
    var d := e[f := false];
    var q := RootPoly(d, a);
    var w := Scale(Chosen(e, y), a, Reversed(c));
    WeightSet(e, f, false);
    forall k | 0 <= k < SYS_T ensures Moment(w, a, k) == ZERO {
      LocatorMoments(e, y, a, s, c, l, k);
    }
    MomentSumZero(q, w, a, 0);
    MomentSumIsWeighted(q, w, a, 0);
    forall i | 0 <= i < |w| && i != f ensures w[i] == ZERO || Value(q, a[i]) == ZERO {
      if e[i] {
        assert d[i];
        RootPolyRoots(d, a, a[i]);
      } else {
        ZeroLeft(Value(Reversed(c), a[i]));
      }
    }
    WeightedOne(w, a, q, f);
    RootPolyRoots(d, a, a[f]);
    NoZeroDivisors(w[f], Value(q, a[f]));
    NoZeroDivisors(y[f], Value(Reversed(c), a[f]));
  }

  /** The roots of the locator within the support are exactly the error positions. */
  lemma LocatorRoots(e: seq<bool>, y: seq<Gf>, a: seq<Gf>, s: seq<Gf>, c: seq<Gf>, l: int, f: nat)
    requires |e| == |y| == |a| && Weight(e) == SYS_T && |s| == 2 * SYS_T && |c| == SYS_T + 1
    requires Distinct(a) && IsSyndrome(s, Chosen(e, y), a)
    requires l <= SYS_T && Generates(c, l, s, 2 * SYS_T)
    requires forall i :: 0 <= i < |e| ==> y[i] != ZERO
    requires f < |e|
    ensures Value(Reversed(c), a[f]) == ZERO <==> e[f]
  {
    hide Value, Conv, Moment, Silent, IsSyndrome;
    forall i | 0 <= i < |e| && e[i] ensures Value(Reversed(c), a[i]) == ZERO {
      ErrorsAreRoots(e, y, a, s, c, l, i);
    }
    if !e[f] && Value(Reversed(c), a[f]) == ZERO {
      SplitZero();
      WeightSet(e, f, true);
      RootBound(Reversed(c), e[f := true], a);
    }
  }
}
