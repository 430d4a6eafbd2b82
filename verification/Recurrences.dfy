/** Linear recurrences over the field: the theory behind the Berlekamp-Massey algorithm. */
module Recurrences {
  import opened Field
  import opened Frobenius

  /** The k-th term, zero outside the sequence. */
  function Term(s: seq<Gf>, k: int): Gf
  {
    if 0 <= k < |s| then s[k] else ZERO
  }

  /** The k-th coefficient of the product of c and s: the sum of c[i] s[k - i]. */
  function Conv(c: seq<Gf>, s: seq<Gf>, k: int): Gf
  {
    if c == [] then ZERO else Add(Mul(c[0], Term(s, k)), Conv(c[1..], s, k - 1))
  }

  /** c, with constant term one, has degree at most l and annihilates terms l, ..., n - 1 of s. */
  predicate Generates(c: seq<Gf>, l: int, s: seq<Gf>, n: int)
  {
    |c| > 0 && c[0] == ONE && 0 <= l && VanishesAbove(c, l) && Silent(c, s, l, n)
  }

  predicate VanishesAbove(c: seq<Gf>, l: int)
  {
    forall i :: 0 <= i < |c| && l < i ==> c[i] == ZERO
  }

  predicate Silent(c: seq<Gf>, s: seq<Gf>, lo: int, hi: int)
  {
    forall k :: lo <= k < hi ==> Conv(c, s, k) == ZERO
  }

  /** No recurrence of length l or less than l, of any number of coefficients, generates n terms. */
  ghost predicate Minimal(l: int, s: seq<Gf>, n: int)
  {
    forall g: seq<Gf>, m: int :: Generates(g, m, s, n) ==> l <= m
  }

  function Reversed(c: seq<Gf>): (r: seq<Gf>)
    ensures |r| == |c|
    ensures forall i :: 0 <= i < |c| ==> r[i] == c[|c| - 1 - i]
  {
    if c == [] then [] else Reversed(c[1..]) + [c[0]]
  }

  // ----- sums of products

  lemma {:induction false} ConvAppend(c: seq<Gf>, z: Gf, s: seq<Gf>, k: int)
    ensures Conv(c + [z], s, k) == Add(Conv(c, s, k), Mul(z, Term(s, k - |c|)))
  {
    hide Mul, Add;
    if c == [] {
      AddZero(Mul(z, Term(s, k)));
      AddComm(Mul(z, Term(s, k)), ZERO);
    } else {
      ConvAppend(c[1..], z, s, k - 1);
      assert (c + [z])[1..] == c[1..] + [z];
      AddAssoc(Mul(c[0], Term(s, k)), Conv(c[1..], s, k - 1), Mul(z, Term(s, k - |c|)));
    }
  }

  /** Coefficients beyond index k meet only terms before the sequence. */
  lemma {:induction false} ConvEarly(c: seq<Gf>, s: seq<Gf>, k: int)
    requires k < 0
    ensures Conv(c, s, k) == ZERO
  {
    hide Mul, Add;
    if c != [] {
      ConvEarly(c[1..], s, k - 1);
      ZeroRight(c[0]);
      AddZero(ZERO);
    }
  }

  lemma {:induction false} ConvPrefix(c: seq<Gf>, s: seq<Gf>, k: int, n: nat)
    requires n <= |c| && k < n
    ensures Conv(c[..n], s, k) == Conv(c, s, k)
    decreases |c|
  {
    hide Mul, Add;
    if n == 0 {
      ConvEarly(c, s, k);
    } else {
      ConvPrefix(c[1..], s, k - 1, n - 1);
      assert c[..n][1..] == c[1..][..n - 1];
    }
  }

  /** c + f b, coefficient by coefficient. */
  predicate IsSum(d: seq<Gf>, c: seq<Gf>, f: Gf, b: seq<Gf>)
  {
    |d| == |c| == |b| && forall i :: 0 <= i < |d| ==> d[i] == Add(c[i], Mul(f, b[i]))
  }

  lemma {:induction false} ConvSum(d: seq<Gf>, c: seq<Gf>, f: Gf, b: seq<Gf>, s: seq<Gf>, k: int)
    requires IsSum(d, c, f, b)
    ensures Conv(d, s, k) == Add(Conv(c, s, k), Mul(f, Conv(b, s, k)))
    decreases |d|
  {
    hide Mul, Add;
    if d == [] {
      ZeroRight(f);
      AddZero(ZERO);
    } else {
      ConvSum(d[1..], c[1..], f, b[1..], s, k - 1);
      var x := Term(s, k);
      MulAddLeft(c[0], Mul(f, b[0]), x);
      MulAssoc(f, b[0], x);
      MulAddRight(f, Mul(b[0], x), Conv(b[1..], s, k - 1));
      AddCross(Mul(c[0], x), Mul(f, Mul(b[0], x)), Conv(c[1..], s, k - 1), Mul(f, Conv(b[1..], s, k - 1)));
    }
  }

  /** b times x, with its top coefficient dropped. */
  function Shifted(b: seq<Gf>): (d: seq<Gf>)
    requires |b| > 0
    ensures |d| == |b|
  {
    [ZERO] + b[..|b| - 1]
  }

  lemma ConvShift(b: seq<Gf>, s: seq<Gf>, k: int)
    requires |b| > 0 && b[|b| - 1] == ZERO
    ensures Conv(Shifted(b), s, k) == Conv(b, s, k - 1)
  {
    hide Mul, Add;
    var d := b[..|b| - 1];
    assert Shifted(b)[1..] == d;
    ZeroLeft(Term(s, k));
    AddZero(Conv(d, s, k - 1));
    ConvAppend(d, ZERO, s, k - 1);
    assert d + [ZERO] == b;
    ZeroLeft(Term(s, k - 1 - |d|));
  }

  // ----- Massey's lower bound

  /** The sum of c[i] g[j] s[n - i - j]. */
  function Twice(c: seq<Gf>, g: seq<Gf>, s: seq<Gf>, n: int): Gf
  {
    if c == [] then ZERO else Add(Mul(c[0], Conv(g, s, n)), Twice(c[1..], g, s, n - 1))
  }

  lemma {:induction false} TwiceEmpty(g: seq<Gf>, s: seq<Gf>, n: int)
    ensures Twice(g, [], s, n) == ZERO
  {
    hide Mul, Add;
    if g != [] {
      TwiceEmpty(g[1..], s, n - 1);
      ZeroRight(g[0]);
      AddZero(ZERO);
    }
  }

  lemma {:induction false} TwiceCons(g: seq<Gf>, c: seq<Gf>, s: seq<Gf>, n: int)
    requires |c| > 0
    ensures Twice(g, c, s, n) == Add(Mul(c[0], Conv(g, s, n)), Twice(g, c[1..], s, n - 1))
  {
    hide Mul, Add;
    if g == [] {
      ZeroRight(c[0]);
      AddZero(ZERO);
    } else {
      var h, x, y := g[1..], Term(s, n), Conv(c[1..], s, n - 1);
      TwiceCons(h, c, s, n - 1);
      MulAddRight(g[0], Mul(c[0], x), y);
      MulAddRight(c[0], Mul(g[0], x), Conv(h, s, n - 1));
      MulAssoc(g[0], c[0], x); MulAssoc(c[0], g[0], x); MulComm(g[0], c[0]);
      AddCross(Mul(g[0], Mul(c[0], x)), Mul(g[0], y),
               Mul(c[0], Conv(h, s, n - 1)), Twice(h, c[1..], s, n - 2));
    }
  }

  lemma {:induction false} TwiceSwap(c: seq<Gf>, g: seq<Gf>, s: seq<Gf>, n: int)
    ensures Twice(c, g, s, n) == Twice(g, c, s, n)
  {
    hide Mul, Add;
    if c == [] {
      TwiceEmpty(g, s, n);
    } else {
      TwiceSwap(c[1..], g, s, n - 1);
      TwiceCons(g, c, s, n);
    }
  }

  lemma {:induction false} TwiceZero(c: seq<Gf>, g: seq<Gf>, s: seq<Gf>, n: int)
    requires forall i :: 0 <= i < |c| ==> c[i] == ZERO || Conv(g, s, n - i) == ZERO
    ensures Twice(c, g, s, n) == ZERO
  {
    hide Mul, Add, Conv;
    if c != [] {
      var d := c[1..];
      forall i | 0 <= i < |d| ensures d[i] == ZERO || Conv(g, s, n - 1 - i) == ZERO {
        assert c[i + 1] == ZERO || Conv(g, s, n - (i + 1)) == ZERO;
      }
      TwiceZero(d, g, s, n - 1);
      assert c[0] == ZERO || Conv(g, s, n - 0) == ZERO;
      NoZeroDivisors(c[0], Conv(g, s, n));
      AddZero(ZERO);
    }
  }

  /**
   Massey's theorem: when c, of length l, generates n terms but not the next one, every recurrence
   that does generate it is at least n + 1 - l long.
   */
  lemma {:induction false} Massey(c: seq<Gf>, l: int, g: seq<Gf>, m: int, s: seq<Gf>, n: nat)
    requires Generates(c, l, s, n) && Conv(c, s, n) != ZERO
    requires Generates(g, m, s, n + 1)
    ensures n + 1 - l <= m
  {
    hide Mul, Add, Conv;
    if m <= n - l {
      forall i | 0 <= i < |c| ensures c[i] == ZERO || Conv(g, s, n - i) == ZERO {
      }
      TwiceZero(c, g, s, n);
      TwiceSwap(c, g, s, n);
      var h := g[1..];
      forall j | 0 <= j < |h| ensures h[j] == ZERO || Conv(c, s, n - 1 - j) == ZERO {
        assert h[j] == g[j + 1];
      }
      TwiceZero(h, c, s, n - 1);
      var d := Conv(c, s, n);
      OneLeft(d); AddZero(d);
    }
  }
}
