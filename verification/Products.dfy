/** Products of polynomials, through their coefficients: coefficient k of c times s is Conv(c, s, k). */
module Products {
  import opened Field
  import opened Polynomials
  import opened Recurrences

  /** u + f v, coefficient by coefficient. */
  function SumOf(u: seq<Gf>, f: Gf, v: seq<Gf>): (d: seq<Gf>)
    requires |u| == |v|
    ensures IsSum(d, u, f, v)
  {
    seq(|u|, i requires 0 <= i < |u| => Add(u[i], Mul(f, v[i])))
  }

  lemma TermSum(u: seq<Gf>, f: Gf, v: seq<Gf>, k: int)
    requires |u| == |v|
    ensures Term(SumOf(u, f, v), k) == Add(Term(u, k), Mul(f, Term(v, k)))
  {
    hide Mul, Add;
    ZeroRight(f); AddZero(ZERO);
  }

  lemma {:induction false} ConvSumRight(c: seq<Gf>, u: seq<Gf>, f: Gf, v: seq<Gf>, k: int)
    requires |u| == |v|
    ensures Conv(c, SumOf(u, f, v), k) == Add(Conv(c, u, k), Mul(f, Conv(c, v, k)))
  {
    hide Mul, Add, Term, SumOf;
    if c == [] {
      ZeroRight(f); AddZero(ZERO);
    } else {
      var (d, x, y) := (c[1..], Term(u, k), Term(v, k));
      ConvSumRight(d, u, f, v, k - 1);
      TermSum(u, f, v, k);
      MulAddRight(c[0], x, Mul(f, y));
      MulAssoc(c[0], f, y); MulComm(c[0], f); MulAssoc(f, c[0], y);
      MulAddRight(f, Mul(c[0], y), Conv(d, v, k - 1));
      AddCross(Mul(c[0], x), Mul(f, Mul(c[0], y)), Conv(d, u, k - 1), Mul(f, Conv(d, v, k - 1)));
    }
  }

  // ----- multiplication by x - a

  lemma {:induction false} TermLinear(p: seq<Gf>, a: Gf, k: int)
    ensures Term(TimesLinear(p, a), k) == Add(Mul(a, Term(p, k)), Term(p, k - 1))
    decreases |p|
  {
    hide Mul, Add;
    ZeroRight(a); AddZero(ZERO);
    if p != [] {
      TermLinear(p[1..], a, k - 1);
      AddZero(Mul(a, p[0])); AddZero(p[0]);
      if k == 1 {
        AddZero(Mul(a, Term(p[1..], 0)));
        AddComm(p[0], Mul(a, Term(p, 1)));
      }
    }
  }

  lemma {:induction false} ConvLinear(c: seq<Gf>, p: seq<Gf>, a: Gf, k: int)
    ensures Conv(c, TimesLinear(p, a), k) == Add(Mul(a, Conv(c, p, k)), Conv(c, p, k - 1))
  {
    hide Mul, Add, Term, TimesLinear;
    if c == [] {
      ZeroRight(a); AddZero(ZERO);
    } else {
      var (d, x, y) := (c[1..], Term(p, k), Term(p, k - 1));
      ConvLinear(d, p, a, k - 1);
      TermLinear(p, a, k);
      MulAddRight(c[0], Mul(a, x), y);
      MulAssoc(c[0], a, x); MulComm(c[0], a); MulAssoc(a, c[0], x);
      MulAddRight(a, Mul(c[0], x), Conv(d, p, k - 1));
      AddCross(Mul(a, Mul(c[0], x)), Mul(c[0], y), Mul(a, Conv(d, p, k - 1)), Conv(d, p, k - 2));
    }
  }

  // ----- commutativity and degrees

  lemma {:induction false} ConvCons(c: seq<Gf>, z: Gf, s: seq<Gf>, k: int)
    ensures Conv(c, [z] + s, k) == Add(Mul(z, Term(c, k)), Conv(c, s, k - 1))
  {
    hide Mul, Add;
    if c == [] {
      ZeroRight(z); AddZero(ZERO);
    } else {
      var d := c[1..];
      ConvCons(d, z, s, k - 1);
      ConsTerm(c, k); ConsTerm([z] + s, k);
      assert ([z] + s)[1..] == s;
      if k == 0 {
        MulComm(c[0], z);
        ZeroRight(c[0]); ZeroRight(z);
        AddZero(Conv(d, s, -2));
        AddZero(Mul(z, c[0])); AddZero(Conv(d, s, k - 2));
      } else {
        ConvConsStep(c[0], z, Term(s, k - 1), Term(d, k - 1), Conv(d, s, k - 2));
      }
    }
  }

  lemma ConsTerm(c: seq<Gf>, k: int)
    requires |c| > 0
    ensures Term(c, k) == if k == 0 then c[0] else Term(c[1..], k - 1)
  {
  }

  lemma ConvConsStep(c: Gf, z: Gf, s: Gf, d: Gf, r: Gf)
    ensures Add(Mul(c, s), Add(Mul(z, d), r)) == Add(Mul(z, d), Add(Mul(c, s), r))
  {
    hide *;
    AddAssoc(Mul(c, s), Mul(z, d), r);
    AddComm(Mul(c, s), Mul(z, d));
    AddAssoc(Mul(z, d), Mul(c, s), r);
  }

  lemma {:induction false} ConvNone(c: seq<Gf>, k: int)
    ensures Conv(c, [], k) == ZERO
  {
    hide Mul, Add;
    if c != [] {
      ConvNone(c[1..], k - 1);
      ZeroRight(c[0]); AddZero(ZERO);
    }
  }

  lemma {:induction false} ConvComm(c: seq<Gf>, s: seq<Gf>, k: int)
    ensures Conv(c, s, k) == Conv(s, c, k)
  {
    hide Mul, Add;
    if c == [] {
      ConvNone(s, k);
    } else {
      ConvComm(c[1..], s, k - 1);
      ConvCons(s, c[0], c[1..], k);
      assert [c[0]] + c[1..] == c;
    }
  }

  /** The degree of a product is at most the sum of the degrees. */
  lemma {:induction false} ConvLate(c: seq<Gf>, s: seq<Gf>, k: int)
    requires k > |c| + |s| - 2
    ensures Conv(c, s, k) == ZERO
  {
    hide Mul, Add;
    if c != [] {
      ConvLate(c[1..], s, k - 1);
      ZeroRight(c[0]); AddZero(ZERO);
    }
  }

  predicate AllZero(c: seq<Gf>)
  {
    forall i :: 0 <= i < |c| ==> c[i] == ZERO
  }

  predicate Monic(g: seq<Gf>)
  {
    |g| > 0 && g[|g| - 1] == ONE
  }

  /** The top coefficient of a product by a monic polynomial. */
  lemma TopTerm(c: seq<Gf>, p: seq<Gf>)
    requires |c| > 0 && Monic(p)
    ensures Conv(c, p, |c| + |p| - 2) == c[|c| - 1]
  {
    hide Mul, Add;
    var (n, d) := (|c| - 1, c[..|c| - 1]);
    ConvAppend(d, c[n], p, n + |p| - 1);
    assert d + [c[n]] == c;
    ConvLate(d, p, n + |p| - 1);
    OneRight(c[n]); AddZero(c[n]);
  }

  lemma DropTop(c: seq<Gf>, p: seq<Gf>, k: int)
    requires |c| > 0 && c[|c| - 1] == ZERO
    ensures Conv(c[..|c| - 1], p, k) == Conv(c, p, k)
  {
    hide Mul, Add, Conv, Term;
    var (n, d) := (|c| - 1, c[..|c| - 1]);
    ConvAppend(d, ZERO, p, k);
    assert d + [ZERO] == c;
    ZeroLeft(Term(p, k - n)); AddZero(Conv(d, p, k));
  }

  /** Monic polynomials are not zero divisors. */
  lemma {:induction false} MonicCancel(c: seq<Gf>, p: seq<Gf>)
    requires Monic(p) && forall k :: Conv(c, p, k) == ZERO
    ensures AllZero(c)
    decreases |c|
  {
    hide Conv;
    if c != [] {
      var d := c[..|c| - 1];
      TopTerm(c, p);
      forall k ensures Conv(d, p, k) == ZERO {
        DropTop(c, p, k);
      }
      MonicCancel(d, p);
    }
  }

  /** A quotient by a monic polynomial, without superfluous coefficients. */
  lemma {:induction false} Trim(g: seq<Gf>, b: seq<Gf>, r: seq<Gf>) returns (c: seq<Gf>)
    requires Monic(g) && forall k :: Conv(g, b, k) == Term(r, k)
    ensures c == [] || |c| + |g| - 1 <= |r|
    ensures forall k :: Conv(g, c, k) == Term(r, k)
    decreases |b|
  {
    hide Conv;
    if b == [] || |b| + |g| - 1 <= |r| {
      c := b;
    } else {
      TopTerm(b, g);
      ConvComm(g, b, |b| + |g| - 2);
      assert Term(r, |b| + |g| - 2) == ZERO;
      var d := b[..|b| - 1];
      forall k ensures Conv(g, d, k) == Term(r, k) {
        DropTop(b, g, k); ConvComm(g, b, k); ConvComm(g, d, k);
      }
      c := Trim(g, d, r);
    }
  }

  lemma {:induction false} ConvZeros(c: seq<Gf>, s: seq<Gf>, k: int)
    requires AllZero(c)
    ensures Conv(c, s, k) == ZERO
  {
    hide Mul, Add;
    if c != [] {
      ConvZeros(c[1..], s, k - 1);
      ZeroLeft(Term(s, k)); AddZero(ZERO);
    }
  }

  // ----- values of products

  function PowerOf(x: Gf, k: nat): Gf
  {
    if k == 0 then ONE else Mul(x, PowerOf(x, k - 1))
  }

  /** The value at x of the first n coefficients of c times s. */
  function ValueTo(c: seq<Gf>, s: seq<Gf>, x: Gf, n: nat): Gf
  {
    if n == 0 then ZERO else Add(ValueTo(c, s, x, n - 1), Mul(Conv(c, s, n - 1), PowerOf(x, n - 1)))
  }

  lemma {:induction false} ValueToSame(c: seq<Gf>, s: seq<Gf>, d: seq<Gf>, t: seq<Gf>, x: Gf, n: nat)
    requires forall k :: Conv(c, s, k) == Conv(d, t, k)
    ensures ValueTo(c, s, x, n) == ValueTo(d, t, x, n)
  {
    hide Mul, Add, Conv, PowerOf;
    if n > 0 {
      ValueToSame(c, s, d, t, x, n - 1);
    }
  }

  /** c s = c[0] s + x (c[1..] s). */
  lemma {:induction false} ValueToCons(c: seq<Gf>, s: seq<Gf>, x: Gf, n: nat)
    requires |c| > 0
    ensures ValueTo(c, s, x, n + 1)
         == Add(Mul(c[0], ValueTo([ONE], s, x, n + 1)), Mul(x, ValueTo(c[1..], s, x, n)))
  {
    hide Mul, Add, Conv;
    var d := c[1..];
    var (t, p, w) := (Term(s, n), PowerOf(x, n), Conv(d, s, n - 1));
    UnitConv(s, n); UnitConv(s, 0);
    ConvHead(c, s, n);
    if n == 0 {
      ConvEarly(d, s, -1);
      ZeroRight(x); AddZero(Mul(c[0], t)); AddZero(t);
      OneRight(Mul(c[0], t)); OneRight(t);
      AddZero(Mul(c[0], t));
      AddZero(Mul(c[0], ValueTo([ONE], s, x, 1)));
    } else {
      ValueToCons(c, s, x, n - 1);
      var (u, v, q) := (ValueTo([ONE], s, x, n), ValueTo(d, s, x, n - 1), PowerOf(x, n - 1));
      MulAddRight(c[0], u, Mul(t, p));
      MulAssoc(c[0], t, p);
      MulAddRight(x, v, Mul(w, q));
      MulAssoc(x, w, q); MulComm(x, w); MulAssoc(w, x, q);
      MulAddLeft(Mul(c[0], t), w, p);
      AddCross(Mul(c[0], u), Mul(x, v), Mul(Mul(c[0], t), p), Mul(w, p));
    }
  }

  lemma ConvHead(c: seq<Gf>, s: seq<Gf>, k: int)
    requires |c| > 0
    ensures Conv(c, s, k) == Add(Mul(c[0], Term(s, k)), Conv(c[1..], s, k - 1))
  {
  }

  lemma UnitConv(s: seq<Gf>, k: int)
    ensures Conv([ONE], s, k) == Term(s, k)
  {
    hide Mul, Add;
    OneLeft(Term(s, k)); AddZero(Term(s, k));
    assert [ONE][1..] == [];
  }

  lemma {:induction false} ValueToNone(s: seq<Gf>, x: Gf, n: nat)
    ensures ValueTo([], s, x, n) == ZERO
  {
    hide Mul, Add;
    if n > 0 {
      ValueToNone(s, x, n - 1);
      ZeroLeft(PowerOf(x, n - 1)); AddZero(ZERO);
    }
  }

  lemma {:induction false} ValueToProduct(c: seq<Gf>, s: seq<Gf>, x: Gf, n: nat)
    requires n >= |c| + |s|
    ensures ValueTo(c, s, x, n) == Mul(Value(c, x), ValueTo([ONE], s, x, n))
    decreases |c|
  {
    hide Mul, Add, Conv, PowerOf, ValueTo;
    if c == [] {
      ValueToNone(s, x, n);
      ZeroLeft(ValueTo([ONE], s, x, n));
    } else {
      var (d, v) := (c[1..], ValueTo([ONE], s, x, n));
      ValueToCons(c, s, x, n - 1);
      ValueToProduct(d, s, x, n - 1);
      UnitMore(s, x, n);
      MulAddLeft(c[0], Mul(x, Value(d, x)), v);
      MulAssoc(x, Value(d, x), v);
    }
  }

  lemma UnitMore(s: seq<Gf>, x: Gf, n: nat)
    requires n >= |s| + 1
    ensures ValueTo([ONE], s, x, n) == ValueTo([ONE], s, x, n - 1)
  {
    hide Mul, Add, Conv, PowerOf;
    UnitConv(s, n - 1);
    ZeroLeft(PowerOf(x, n - 1));
    AddZero(ValueTo([ONE], s, x, n - 1));
  }

  lemma {:induction false} UnitValue(s: seq<Gf>, x: Gf, n: nat)
    requires n >= |s| + 1
    ensures ValueTo([ONE], s, x, n) == Value(s, x)
  {
    hide Mul, Add, Conv, PowerOf, ValueTo;
    ValueToProduct(s, [ONE], x, n);
    forall k ensures Conv([ONE], s, k) == Conv(s, [ONE], k) { ConvComm([ONE], s, k); }
    ValueToSame([ONE], s, s, [ONE], x, n);
    ValueToOne(x, n);
    OneRight(Value(s, x));
  }

  lemma {:induction false} ValueToOne(x: Gf, n: nat)
    requires n >= 1
    ensures ValueTo([ONE], [ONE], x, n) == ONE
    decreases n
  {
    hide Mul, Add, Conv;
    UnitConv([ONE], n - 1);
    if n == 1 {
      OneLeft(ONE); AddZero(ONE);
      assert ValueTo([ONE], [ONE], x, 0) == ZERO;
    } else {
      ValueToOne(x, n - 1);
      ZeroLeft(PowerOf(x, n - 1)); AddZero(ONE);
    }
  }

  /** The value of a product is the product of the values, whatever way the product was formed. */
  lemma ProductValue(c: seq<Gf>, s: seq<Gf>, d: seq<Gf>, t: seq<Gf>, x: Gf)
    requires forall k :: Conv(c, s, k) == Conv(d, t, k)
    ensures Mul(Value(c, x), Value(s, x)) == Mul(Value(d, x), Value(t, x))
  {
    hide Mul, Add, Conv, ValueTo, Value;
    var n := |c| + |s| + |d| + |t| + 1;
    ValueToSame(c, s, d, t, x, n);
    ValueToProduct(c, s, x, n); ValueToProduct(d, t, x, n);
    UnitValue(s, x, n); UnitValue(t, x, n);
  }
}
