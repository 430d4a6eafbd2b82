/** The control bits of a permutation, and the theorem that their network carries it out. */
module ControlBits {
  import opened Permutations
  import opened Cycles
  import opened Benes

  /** The point x after the conditional swaps of neighbours selected by bits. */
  function Swap(bits: seq<bool>, x: int): (y: int)
    requires 0 <= x < 2 * |bits|
    ensures 0 <= y < 2 * |bits| && y / 2 == x / 2
  {
    if bits[x / 2] then Flip(x) else x
  }

  lemma SwapTwice(bits: seq<bool>, x: int)
    requires 0 <= x < 2 * |bits|
    ensures Swap(bits, Swap(bits, x)) == x
  {
  }

  /** f: the low bits of the least elements of the cycles through the even points. */
  ghost function FirstBits(pi: seq<int>): (f: seq<bool>)
    requires IsPerm(pi) && |pi| % 2 == 0
    ensures |f| == |pi| / 2
  {
    seq(|pi| / 2, j requires 0 <= j < |pi| / 2 => CycleMin(PiBar(pi), 2 * j) % 2 == 1)
  }

  /** Some iterate i of pibar takes 2 j to the least point of its cycle, and bit j is the low bit of that point. */
  lemma FirstBitLeast(pi: seq<int>, j: nat) returns (i: nat)
    requires IsPerm(pi) && |pi| % 2 == 0 && j < |pi| / 2
    ensures FirstBits(pi)[j] <==> Iter(PiBar(pi), i, 2 * j) % 2 == 1
    ensures forall k: nat :: Iter(PiBar(pi), i, 2 * j) <= Iter(PiBar(pi), k, 2 * j)
  {
    hide IsPerm, LeastOf, Iter, PiBarAt, Reversing, ReversesAt;
    var p := PiBar(pi);
    PiBarReverses(pi);
    i := LeastAttained(p, 2 * j);
    forall k: nat ensures Iter(p, i, 2 * j) <= Iter(p, k, 2 * j) { CycleMinAll(p, 2 * j, k); }
  }

  lemma LeastAttained(p: seq<int>, x: int) returns (i: nat)
    requires Reversing(p) && 0 <= x < |p|
    ensures CycleMin(p, x) == Iter(p, i, x)
  {
    hide IsPerm, LeastOf, Iter;
    i := LeastOfIsLeast(p, |p| / 2, x);
  }

  /** l: the low bits of F(pi(y)) for even y. */
  ghost function LastBits(pi: seq<int>): (l: seq<bool>)
    requires IsPerm(pi) && |pi| % 2 == 0
    ensures |l| == |pi| / 2
  {
    seq(|pi| / 2, k requires 0 <= k < |pi| / 2 => Swap(FirstBits(pi), At(pi, 2 * k)) % 2 == 1)
  }

  /** M = F . pi . L. */
  ghost function MiddleAt(pi: seq<int>, x: int): (y: int)
    requires IsPerm(pi) && |pi| % 2 == 0 && 0 <= x < |pi|
    ensures 0 <= y < |pi|
  {
    Swap(FirstBits(pi), At(pi, Swap(LastBits(pi), x)))
  }

  lemma MiddleInjective(pi: seq<int>, x: int, y: int)
    requires IsPerm(pi) && |pi| % 2 == 0 && 0 <= x < |pi| && 0 <= y < |pi|
    requires MiddleAt(pi, x) == MiddleAt(pi, y)
    ensures x == y
  {
    hide IsPerm;
    var f, l := FirstBits(pi), LastBits(pi);
    var a, b := Swap(l, x), Swap(l, y);
    SwapTwice(f, At(pi, a)); SwapTwice(f, At(pi, b));
    AtInjective(pi, a, b);
    SwapTwice(l, x); SwapTwice(l, y);
  }

  /** The parity of F(y) is that of the least element of the cycle of y. */
  lemma FirstParity(pi: seq<int>, y: int)
    requires IsPerm(pi) && |pi| % 2 == 0 && 0 <= y < |pi|
    ensures Swap(FirstBits(pi), y) % 2 == CycleMin(PiBar(pi), y) % 2
  {
    hide IsPerm, CycleMin, PiBarAt, Reversing, ReversesAt;
    PiBarReverses(pi);
    CycleMinFlip(PiBar(pi), y);
    assert FirstBits(pi)[y / 2] == (CycleMin(PiBar(pi), 2 * (y / 2)) % 2 == 1);
  }

  /** The image of a neighbour is one step of pibar away from the flipped image. */
  lemma NeighbourImage(pi: seq<int>, x: int)
    requires IsPerm(pi) && |pi| % 2 == 0 && 0 <= x < |pi|
    ensures At(pi, Flip(x)) == Iter(PiBar(pi), 1, Flip(At(pi, x)))
  {
    hide IsPerm;
    var p, y := PiBar(pi), Flip(At(pi, x));
    InverseAt(pi, x);
    assert Iter(p, 1, y) == At(p, Iter(p, 0, y)) == PiBarAt(pi, y);
  }

  /** F sends the images of two neighbours to points of different parity. */
  lemma NeighboursPart(pi: seq<int>, x: int)
    requires IsPerm(pi) && |pi| % 2 == 0 && 0 <= x < |pi|
    ensures Swap(FirstBits(pi), At(pi, Flip(x))) % 2 != Swap(FirstBits(pi), At(pi, x)) % 2
  {
    hide IsPerm, CycleMin, Iter, PiBarAt, Reversing, Swap, At, FirstBits;
    var y := At(pi, x);
    PiBarReverses(pi);
    NeighbourImage(pi, x);
    CycleMinSame(PiBar(pi), Flip(y), 1);
    CycleMinFlip(PiBar(pi), y);
    FirstParity(pi, y);
    FirstParity(pi, At(pi, Flip(x)));
  }

  /** The middle permutation keeps the parity of every index. */
  lemma MiddleKeepsParity(pi: seq<int>, x: int)
    requires IsPerm(pi) && |pi| % 2 == 0 && 0 <= x < |pi|
    ensures MiddleAt(pi, x) % 2 == x % 2
  {
    hide IsPerm, CycleMin, At, FirstBits;
    var k := x / 2;
    var l := LastBits(pi);
    var a, b := Swap(FirstBits(pi), At(pi, 2 * k)), Swap(FirstBits(pi), At(pi, 2 * k + 1));
    NeighboursPart(pi, 2 * k);
    assert l[k] == (a % 2 == 1);
    assert MiddleAt(pi, x) == if Swap(l, x) == 2 * k then a else b;
  }

  lemma HalfInjective(pi: seq<int>, b: nat, i: nat, j: nat)
    requires IsPerm(pi) && |pi| % 2 == 0 && b < 2 && 2 * i + b < |pi| && 2 * j + b < |pi|
    requires MiddleAt(pi, 2 * i + b) / 2 == MiddleAt(pi, 2 * j + b) / 2
    ensures i == j
  {
    hide IsPerm, MiddleAt;
    MiddleKeepsParity(pi, 2 * i + b);
    MiddleKeepsParity(pi, 2 * j + b);
    MiddleInjective(pi, 2 * i + b, 2 * j + b);
  }

  lemma MakePerm(h: seq<int>)
    requires forall i :: 0 <= i < |h| ==> 0 <= h[i] < |h|
    requires forall i, j :: 0 <= i < j < |h| ==> h[i] != h[j]
    ensures IsPerm(h)
  {
  }

  ghost function HalfAt(pi: seq<int>, b: nat, j: nat): (y: int)
    requires IsPerm(pi) && |pi| % 2 == 0 && b < 2 && 2 * j + b < |pi|
    ensures 0 <= y < |pi| / 2
  {
    hide IsPerm;
    MiddleAt(pi, 2 * j + b) / 2
  }

  /** The even (b = 0) or odd (b = 1) half of the middle permutation. */
  ghost function Half(pi: seq<int>, b: nat): (h: seq<int>)
    requires IsPerm(pi) && |pi| % 2 == 0 && b < 2
    ensures IsPerm(h) && |h| == |pi| / 2
    ensures forall j :: 0 <= j < |h| ==> h[j] == HalfAt(pi, b, j)
  {
    hide IsPerm, HalfAt;
    var h := seq(|pi| / 2, j requires 0 <= j < |pi| / 2 => HalfAt(pi, b, j));
    HalfDistinct(pi, b, h);
    MakePerm(h);
    h
  }

  lemma HalfDistinct(pi: seq<int>, b: nat, h: seq<int>)
    requires IsPerm(pi) && |pi| % 2 == 0 && b < 2 && |h| == |pi| / 2
    requires forall j :: 0 <= j < |h| ==> h[j] == HalfAt(pi, b, j)
    ensures forall i, j :: 0 <= i < j < |h| ==> h[i] != h[j]
  {
    hide IsPerm, MiddleAt;
    forall i, j | 0 <= i < j < |h| ensures h[i] != h[j] {
      if h[i] == h[j] { HalfInjective(pi, b, i, j); }
    }
  }

  lemma OuterLayers(w: nat, f: seq<bool>, a: seq<seq<bool>>, b: seq<seq<bool>>, l: seq<bool>)
    requires w > 1 && |f| == |l| == Pow2(w - 1)
    requires IsNetwork(w - 1, a, Order(w - 1)) && IsNetwork(w - 1, b, Order(w - 1))
    ensures IsNetwork(w, [f] + WeaveAll(a, b) + [l], Order(w))
  {
  }

  /** The control bits of pi, layer by layer. */
  ghost function Bits(w: nat, pi: seq<int>): (cb: seq<seq<bool>>)
    requires w > 0 && |pi| == Pow2(w) && IsPerm(pi)
    ensures IsNetwork(w, cb, Order(w))
    decreases w
  {
    hide IsPerm, FirstBits, LastBits;
    if w == 1 then [[pi[0] == 1]]
    else
      var a, b := Bits(w - 1, Half(pi, 0)), Bits(w - 1, Half(pi, 1));
      OuterLayers(w, FirstBits(pi), a, b, LastBits(pi));
      [FirstBits(pi)] + WeaveAll(a, b) + [LastBits(pi)]
  }

  /** A layer of neighbour swaps permutes by Swap. */
  lemma LayerZero<T>(w: nat, p: seq<T>, bits: seq<bool>, x: int)
    requires w > 0 && |p| == Pow2(w) && |bits| == Pow2(w - 1) && 0 <= x < |p|
    ensures Layer(w, p, bits, 0)[x] == p[Swap(bits, x)]
  {
    assert Layer(w, p, bits, 0)[x] == LayerAt(w, p, bits, 0, x);
  }

  lemma HalvesMakeMiddle(pi: seq<int>, x: int)
    requires IsPerm(pi) && |pi| % 2 == 0 && 0 <= x < |pi|
    ensures 2 * Half(pi, x % 2)[x / 2] + x % 2 == MiddleAt(pi, x)
  {
    hide IsPerm, MiddleAt;
    MiddleKeepsParity(pi, x);
    assert Half(pi, x % 2)[x / 2] == HalfAt(pi, x % 2, x / 2);
  }

  lemma PermuteAt<T>(p: seq<T>, q: seq<int>, x: int)
    requires |q| == |p| && IsPerm(q) && 0 <= x < |p|
    ensures Permute(p, q)[x] == p[At(q, x)]
  {
  }

  /** Both halves of the middle permutation, on both halves of the positions. */
  lemma WeaveHalves<T>(p: seq<T>, pi: seq<int>, x: int)
    requires |pi| == |p| && IsPerm(pi) && |pi| % 2 == 0 && 0 <= x < |p|
    ensures Weave(Permute(Evens(p), Half(pi, 0)), Permute(Odds(p), Half(pi, 1)))[x] == p[MiddleAt(pi, x)]
  {
    hide IsPerm, MiddleAt;
    HalvesMakeMiddle(pi, x);
    if x % 2 == 0 {
      PermuteAt(Evens(p), Half(pi, 0), x / 2);
    } else {
      PermuteAt(Odds(p), Half(pi, 1), x / 2);
    }
  }

  /** F . M . L = pi. */
  lemma OuterUndone(pi: seq<int>, x: int)
    requires IsPerm(pi) && |pi| % 2 == 0 && 0 <= x < |pi|
    ensures Swap(FirstBits(pi), MiddleAt(pi, Swap(LastBits(pi), x))) == At(pi, x)
  {
    hide IsPerm, FirstBits, LastBits;
    SwapTwice(LastBits(pi), x);
    SwapTwice(FirstBits(pi), At(pi, x));
  }

  /**
   The network with the control bits of pi moves every sequence as pi prescribes. Applied to the
   identity it gives pi.
   */
  lemma {:induction false} NetworkPermutes<T>(w: nat, pi: seq<int>, p: seq<T>)
    requires w > 0 && |p| == |pi| == Pow2(w) && IsPerm(pi)
    ensures Run(w, p, Bits(w, pi), Order(w)) == Permute(p, pi)
    decreases w
  {
    hide IsPerm, FirstBits, LastBits, MiddleAt, Swap, Run, Layer, Weave, Permute, At;
    if w == 1 {
      OneBit(pi, p);
    } else {
      var f, l := FirstBits(pi), LastBits(pi);
      var a, b := Bits(w - 1, Half(pi, 0)), Bits(w - 1, Half(pi, 1));
      var p1 := Layer(w, p, f, 0);
      var p2 := Weave(Permute(Evens(p1), Half(pi, 0)), Permute(Odds(p1), Half(pi, 1)));
      NetworkPermutes(w - 1, Half(pi, 0), Evens(p1));
      NetworkPermutes(w - 1, Half(pi, 1), Odds(p1));
      WeaveParts(p1);
      RunWeave(w - 1, Evens(p1), Odds(p1), a, b, Order(w - 1));
      ThreeParts(w, p, f, WeaveAll(a, b), l, Up(Order(w - 1)));
      var p3 := Layer(w, p2, l, 0);
      forall x | 0 <= x < |p| ensures p3[x] == Permute(p, pi)[x] {
        LayerZero(w, p2, l, x);
        WeaveHalves(p1, pi, Swap(l, x));
        LayerZero(w, p, f, MiddleAt(pi, Swap(l, x)));
        OuterUndone(pi, x);
        PermuteAt(p, pi, x);
      }
      assert p3 == Permute(p, pi);
    }
  }

  lemma OneBit<T>(pi: seq<int>, p: seq<T>)
    requires |p| == |pi| == 2 && IsPerm(pi)
    ensures Run(1, p, Bits(1, pi), Order(1)) == Permute(p, pi)
  {
    var cb := [pi[0] == 1];
    var r := Layer(1, p, cb, 0);
    assert Run(1, p, [cb], [0]) == Run(1, r, [cb][1..], [0][1..]) == r;
    LayerZero(1, p, cb, 0);
    LayerZero(1, p, cb, 1);
    assert r == Permute(p, pi);
  }

  /** The outer two layers of a network around its middle. */
  lemma ThreeParts<T>(w: nat, p: seq<T>, f: seq<bool>, m: seq<seq<bool>>, l: seq<bool>, order: seq<nat>)
    requires w > 0 && |p| == Pow2(w) && |f| == |l| == Pow2(w - 1) && IsNetwork(w, m, order)
    ensures IsNetwork(w, [f] + m + [l], [0] + order + [0])
    ensures Run(w, p, [f] + m + [l], [0] + order + [0])
         == Layer(w, Run(w, Layer(w, p, f, 0), m, order), l, 0)
  {
    var q := Run(w, Layer(w, p, f, 0), m, order);
    assert ([f] + m)[1..] == m && ([0] + order)[1..] == order;
    assert Run(w, p, [f] + m, [0] + order) == q;
    RunAppend(w, p, [f] + m, [l], [0] + order, [0]);
    assert Run(w, q, [l], [0]) == Run(w, Layer(w, q, l, 0), [l][1..], [0][1..]) == Layer(w, q, l, 0);
  }
}
