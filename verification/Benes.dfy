/** Benes networks: their layers, as functions on sequences, and how they interleave. */
module Benes {
  import opened Cycles

  function Pow2(w: nat): (n: nat)
    ensures n > 0
  {
    if w == 0 then 1 else 2 * Pow2(w - 1)
  }

  // ----- interleaving

  function Weave<T>(a: seq<T>, b: seq<T>): (r: seq<T>)
    requires |a| == |b|
    ensures |r| == 2 * |a|
  {
    seq(2 * |a|, i requires 0 <= i < 2 * |a| => if i % 2 == 0 then a[i / 2] else b[i / 2])
  }

  function Evens<T>(p: seq<T>): (r: seq<T>)
    requires |p| % 2 == 0
    ensures |r| == |p| / 2
  {
    seq(|p| / 2, i requires 0 <= i < |p| / 2 => p[2 * i])
  }

  function Odds<T>(p: seq<T>): (r: seq<T>)
    requires |p| % 2 == 0
    ensures |r| == |p| / 2
  {
    seq(|p| / 2, i requires 0 <= i < |p| / 2 => p[2 * i + 1])
  }

  // ----- layers

  /** The number of the pair that position x belongs to when pairs are 2^s apart. */
  function PairOf(x: int, s: nat): int
    decreases s
  {
    if s == 0 then x / 2 else 2 * PairOf(x / 2, s - 1) + x % 2
  }

  /** The position 2^s away with which x is paired: x ^ (1 << s). */
  function PartnerOf(x: int, s: nat): int
    decreases s
  {
    if s == 0 then Flip(x) else 2 * PartnerOf(x / 2, s - 1) + x % 2
  }

  lemma {:induction false} PairInRange(w: nat, x: int, s: nat)
    requires s < w && 0 <= x < Pow2(w)
    ensures 0 <= PairOf(x, s) < Pow2(w - 1)
    ensures 0 <= PartnerOf(x, s) < Pow2(w)
    decreases s
  {
    if s > 0 { PairInRange(w - 1, x / 2, s - 1); }
  }

  /** Position x after a layer of conditional swaps at distance 2^s. */
  function LayerAt<T>(w: nat, p: seq<T>, cb: seq<bool>, s: nat, x: int): T
    requires s < w && |p| == Pow2(w) && |cb| == Pow2(w - 1) && 0 <= x < |p|
  {
    PairInRange(w, x, s);
    if cb[PairOf(x, s)] then p[PartnerOf(x, s)] else p[x]
  }

  function Layer<T>(w: nat, p: seq<T>, cb: seq<bool>, s: nat): (r: seq<T>)
    requires s < w && |p| == Pow2(w) && |cb| == Pow2(w - 1)
    ensures |r| == |p|
  {
    seq(|p|, x requires 0 <= x < |p| => LayerAt(w, p, cb, s, x))
  }

  /** A layer at distance 2^(s+1) acts on the even and on the odd positions separately. */
  lemma LayerWeave<T>(w: nat, e: seq<T>, o: seq<T>, a: seq<bool>, b: seq<bool>, s: nat)
    requires s < w && |e| == |o| == Pow2(w) && |a| == |b| == Pow2(w - 1)
    ensures Layer(w + 1, Weave(e, o), Weave(a, b), s + 1) == Weave(Layer(w, e, a, s), Layer(w, o, b, s))
  {
    hide LayerAt, PairOf, PartnerOf;
    var e', o' := Layer(w, e, a, s), Layer(w, o, b, s);
    var l, r := Layer(w + 1, Weave(e, o), Weave(a, b), s + 1), Weave(e', o');
    forall x | 0 <= x < |l| ensures l[x] == r[x] {
      LayerWeaveAt(w, e, o, a, b, s, x);
      assert r[x] == if x % 2 == 0 then e'[x / 2] else o'[x / 2];
    }
  }

  lemma LayerWeaveAt<T>(w: nat, e: seq<T>, o: seq<T>, a: seq<bool>, b: seq<bool>, s: nat, x: int)
    requires s < w && |e| == |o| == Pow2(w) && |a| == |b| == Pow2(w - 1) && 0 <= x < 2 * |e|
    ensures LayerAt(w + 1, Weave(e, o), Weave(a, b), s + 1, x)
         == if x % 2 == 0 then LayerAt(w, e, a, s, x / 2) else LayerAt(w, o, b, s, x / 2)
  {
    PairInRange(w, x / 2, s);
    PairInRange(w + 1, x, s + 1);
  }

  /** The control bits of a network: one sequence of 2^(w-1) bits for every layer. */
  ghost predicate IsNetwork(w: nat, cb: seq<seq<bool>>, order: seq<nat>)
    requires w > 0
  {
    |cb| == |order| && forall k :: 0 <= k < |cb| ==> |cb[k]| == Pow2(w - 1) && order[k] < w
  }

  /** The layers one after the other. */
  ghost function Run<T>(w: nat, p: seq<T>, cb: seq<seq<bool>>, order: seq<nat>): (r: seq<T>)
    requires w > 0 && |p| == Pow2(w) && IsNetwork(w, cb, order)
    ensures |r| == |p|
    decreases |order|
  {
    if order == [] then p else Run(w, Layer(w, p, cb[0], order[0]), cb[1..], order[1..])
  }

  /** Distances 2^0, 2^1, .., 2^(w-1), .., 2^1, 2^0. */
  function Order(w: nat): (order: seq<nat>)
    requires w > 0
    ensures |order| == 2 * w - 1 && forall k :: 0 <= k < |order| ==> order[k] < w
  {
    if w == 1 then [0] else [0] + Up(Order(w - 1)) + [0]
  }

  function Up(order: seq<nat>): (r: seq<nat>)
    ensures |r| == |order|
  {
    seq(|order|, k requires 0 <= k < |order| => order[k] + 1)
  }

  /** The order of the check in controlbitsfrompermutation: up to w-1, then down from w-2. */
  lemma {:induction false} OrderUpDown(w: nat, k: nat)
    requires w > 0 && k < 2 * w - 1
    ensures Order(w)[k] == if k < w then k else 2 * w - 2 - k
  {
    if w > 1 && 0 < k < 2 * w - 2 { OrderUpDown(w - 1, k - 1); }
  }

  function WeaveAll<T>(a: seq<seq<T>>, b: seq<seq<T>>): (r: seq<seq<T>>)
    requires |a| == |b| && forall k :: 0 <= k < |a| ==> |a[k]| == |b[k]|
    ensures |r| == |a|
  {
    seq(|a|, k requires 0 <= k < |a| => Weave(a[k], b[k]))
  }

  lemma WeaveNetworks(w: nat, a: seq<seq<bool>>, b: seq<seq<bool>>, order: seq<nat>)
    requires w > 0 && IsNetwork(w, a, order) && IsNetwork(w, b, order)
    ensures IsNetwork(w + 1, WeaveAll(a, b), Up(order))
  {
  }

  /** Running interleaved bits is running both parts, on the even and on the odd positions. */
  lemma {:induction false} RunWeave<T>(w: nat, e: seq<T>, o: seq<T>, a: seq<seq<bool>>, b: seq<seq<bool>>,
                                       order: seq<nat>)
    requires w > 0 && |e| == |o| == Pow2(w) && IsNetwork(w, a, order) && IsNetwork(w, b, order)
    ensures IsNetwork(w + 1, WeaveAll(a, b), Up(order))
    ensures Run(w + 1, Weave(e, o), WeaveAll(a, b), Up(order)) == Weave(Run(w, e, a, order), Run(w, o, b, order))
    decreases |order|
  {
    hide Layer, Weave;
    WeaveNetworks(w, a, b, order);
    if order != [] {
      LayerWeave(w, e, o, a[0], b[0], order[0]);
      RunWeave(w, Layer(w, e, a[0], order[0]), Layer(w, o, b[0], order[0]), a[1..], b[1..], order[1..]);
      assert WeaveAll(a, b)[1..] == WeaveAll(a[1..], b[1..]);
      assert Up(order)[1..] == Up(order[1..]);
    }
  }

  lemma WeaveParts<T>(p: seq<T>)
    requires |p| % 2 == 0
    ensures p == Weave(Evens(p), Odds(p))
  {
  }

  lemma {:induction false} RunAppend<T>(w: nat, p: seq<T>, a: seq<seq<bool>>, b: seq<seq<bool>>, m: seq<nat>,
                                        n: seq<nat>)
    requires w > 0 && |p| == Pow2(w) && IsNetwork(w, a, m) && IsNetwork(w, b, n)
    ensures IsNetwork(w, a + b, m + n)
    ensures Run(w, p, a + b, m + n) == Run(w, Run(w, p, a, m), b, n)
    decreases |m|
  {
    if m == [] {
      assert a + b == b && m + n == n;
    } else {
      RunAppend(w, Layer(w, p, a[0], m[0]), a[1..], b, m[1..], n);
      assert (a + b)[1..] == a[1..] + b && (m + n)[1..] == m[1..] + n;
    }
  }
}
