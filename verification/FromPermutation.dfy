/**
 layer and controlbitsfrompermutation (src/controlbits.rs): the stored control bits, cut into
 layers, and the check at the end that they turn the identity into pi.
 */
module FromPermutation {
  import opened Permutations
  import opened Benes
  import opened ControlBits
  import opened Words
  import opened CycleMinima
  import opened CbRecursion
  import opened FlipNetworks

  /** m * 2^s. */
  function Scale(m: nat, s: nat): (a: nat)
    decreases s
  {
    if s == 0 then m else 2 * Scale(m, s - 1)
  }

  lemma {:induction false} ScaleNext(m: nat, s: nat)
    ensures Scale(m + 1, s) == Scale(m, s) + Pow2(s)
    ensures Scale(0, s) == 0
    decreases s
  {
    if s > 0 { ScaleNext(m, s - 1); }
  }

  lemma {:induction false} ScaleMono(a: nat, b: nat, s: nat)
    ensures a < b <==> Scale(a, s) < Scale(b, s)
    decreases s
  {
    if s > 0 { ScaleMono(a, b, s - 1); }
  }

  lemma {:induction false} ScaleAll(w: nat, s: nat)
    requires s < w
    ensures Scale(Pow2(w - 1 - s), s) == Pow2(w - 1)
    decreases s
  {
    if s > 0 { ScaleAll(w - 1, s - 1); }
  }

  /** Both positions of pair m * 2^s + j, in block m of length 2^(s+1). */
  lemma {:induction false} PairPositions(s: nat, m: nat, j: nat)
    requires j < Pow2(s)
    ensures var a := Scale(m, s); var x := 2 * a + j; var y := x + Pow2(s);
            PairOf(x, s) == a + j == PairOf(y, s) && PartnerOf(x, s) == y && PartnerOf(y, s) == x
    decreases s
  {
    hide PairOf, PartnerOf;
    var (x, y) := (2 * Scale(m, s) + j, 2 * Scale(m, s) + j + Pow2(s));
    PairUnfold(x, s); PairUnfold(y, s);
    if s > 0 {
      PairPositions(s - 1, m, j / 2);
      HalfPositions(Scale(m, s - 1), Pow2(s - 1), j);
    }
  }

  lemma PairUnfold(x: int, s: nat)
    ensures PairOf(x, s) == if s == 0 then x / 2 else 2 * PairOf(x / 2, s - 1) + x % 2
    ensures PartnerOf(x, s)
         == if s == 0 then (if x % 2 == 0 then x + 1 else x - 1) else 2 * PartnerOf(x / 2, s - 1) + x % 2
  {
  }

  lemma HalfPositions(a: int, c: int, j: int)
    ensures (4 * a + j) / 2 == 2 * a + j / 2 && (4 * a + j) % 2 == j % 2
    ensures (4 * a + j + 2 * c) / 2 == 2 * a + j / 2 + c && (4 * a + j + 2 * c) % 2 == j % 2
  {
  }

  /** The n/2 control bits that start at byte base. */
  function LayerBits(cb: seq<bv8>, base: nat, h: nat): (r: seq<bool>)
    requires 8 * base + h <= 8 * |cb|
    ensures |r| == h
  {
    BitsOf(cb)[8 * base..8 * base + h]
  }

  /** layer: one layer of conditional swaps at distance 2^s, in place, with bits from byte base on. */
  method LayerInPlace(p: array<int>, cb: array<bv8>, base: nat, ghost w: nat, s: nat, n: nat)
    requires Separate(cb, p)
    requires s < w && p.Length == n == Pow2(w) && 8 * base + n / 2 <= 8 * cb.Length
    requires n % 2 == 0 && n / 2 == Pow2(w - 1)
    modifies p
    ensures p[..] == Layer(w, old(p[..]), LayerBits(cb[..], base, n / 2), s)
  {
    hide Layer, BitsOf, Bit, Pow2, Scale, LayerBits;
    ghost var o, bits := p[..], LayerBits(cb[..], base, n / 2);
    ghost var goal := Layer(w, o, bits, s);
    ghost var blocks, m := Pow2(w - 1 - s), 0;
    var stride := PowerOf(s);
    var index, i := 0, 0;
    ScaleNext(0, s);
    ScaleAll(w, s);
    while i < n
      invariant index == Scale(m, s) && i == 2 * index && m <= blocks
      invariant forall y :: 0 <= y < n ==> p[y] == if y < i then goal[y] else o[y]
      decreases blocks - m
    {
      ScaleMono(m, blocks, s);
      ScaleNext(m, s);
      ScaleMono(blocks, m + 1, s);
      for j := 0 to stride
        invariant index == Scale(m, s) + j
        invariant forall y :: 0 <= y < i + j || i + stride <= y < i + stride + j ==> p[y] == goal[y]
        invariant forall y :: i + j <= y < i + stride || i + stride + j <= y < n ==> p[y] == o[y]
      {
        PairAt(w, o, bits, s, m, j);
        LayerBit(cb[..], base, n / 2, index);
        if Bit(cb[base + index / 8], index % 8) {
          p[i + j], p[i + j + stride] := p[i + j + stride], p[i + j];
        }
        index := index + 1;
      }
      i := i + stride * 2;
      m := m + 1;
    }
  }

  lemma LayerBit(cb: seq<bv8>, base: nat, h: nat, k: nat)
    requires 8 * base + h <= 8 * |cb| && k < h
    ensures LayerBits(cb, base, h)[k] == Bit(cb[base + k / 8], k % 8)
  {
    assert LayerBits(cb, base, h)[k] == BitsOf(cb)[8 * base + k];
  }

  lemma PairAt(w: nat, o: seq<int>, bits: seq<bool>, s: nat, m: nat, j: nat)
    requires s < w && |o| == Pow2(w) && |bits| == Pow2(w - 1) && j < Pow2(s)
    requires 2 * Scale(m, s) + j + Pow2(s) < |o|
    ensures var x := 2 * Scale(m, s) + j; var y := x + Pow2(s); var b := bits[Scale(m, s) + j];
            Layer(w, o, bits, s)[x] == (if b then o[y] else o[x])
            && Layer(w, o, bits, s)[y] == (if b then o[x] else o[y])
  {
    PairPositions(s, m, j);
    var x := 2 * Scale(m, s) + j;
    assert Layer(w, o, bits, s)[x] == LayerAt(w, o, bits, s, x);
    assert Layer(w, o, bits, s)[x + Pow2(s)] == LayerAt(w, o, bits, s, x + Pow2(s));
  }

  method PowerOf(s: nat) returns (p: nat)
    ensures p == Pow2(s)
  {
    p := 1;
    for k := 0 to s
      invariant p == Pow2(k)
    {
      p := 2 * p;
    }
  }


  // ----- reading the layers back

  lemma {:induction false} FlipLayersBelow(o: seq<bool>, pos: nat, cb: seq<seq<bool>>, i: nat)
    requires i < |o| && i < pos
    ensures FlipLayers(o, pos, 1, cb)[i] == o[i]
    decreases |cb|
  {
    if cb != [] {
      FlipAllAt(o, pos, cb[0], i);
      FlipLayersBelow(FlipAll(o, pos, 1, cb[0]), Place(pos, 1, |cb[0]|), cb[1..], i);
    }
  }

  /** Layers flipped into clear bits can be read back. */
  lemma {:induction false} FlipLayersAt(o: seq<bool>, pos: nat, cb: seq<seq<bool>>, h: nat, k: nat, j: nat)
    requires forall i :: pos <= i < |o| ==> !o[i]
    requires forall i :: 0 <= i < |cb| ==> |cb[i]| == h
    requires k < |cb| && j < h && Behind(pos, 1, h, k) + j < |o|
    ensures FlipLayers(o, pos, 1, cb)[Behind(pos, 1, h, k) + j] == cb[k][j]
    decreases |cb|
  {
    PlaceIs(pos, 1, h);
    var o1 := FlipAll(o, pos, 1, cb[0]);
    if k == 0 {
      FlipAllAt(o, pos, cb[0], pos + j);
      FlipLayersBelow(o1, pos + h, cb[1..], pos + j);
    } else {
      forall i | pos + h <= i < |o| ensures !o1[i] { FlipAllAt(o, pos, cb[0], i); }
      FlipLayersAt(o1, pos + h, cb[1..], h, k - 1, j);
    }
  }

  lemma {:induction false} BehindBytes(bytes: nat, h: nat, k: nat, base: nat)
    requires h == 8 * bytes
    ensures Behind(8 * base, 1, h, k) == 8 * Behind(base, 1, bytes, k)
    decreases k
  {
    PlaceIs(8 * base, 1, h);
    PlaceIs(base, 1, bytes);
    if k > 0 { BehindBytes(bytes, h, k - 1, base + bytes); }
  }

  lemma {:induction false} BehindNext(pos: nat, h: nat, k: nat)
    ensures Behind(pos, 1, h, k + 1) == Behind(pos, 1, h, k) + h
    decreases k
  {
    PlaceIs(pos, 1, h);
    if k > 0 { BehindNext(Place(pos, 1, h), h, k - 1); }
  }

  /** One more layer of a network. */
  lemma RunNext<T>(w: nat, p: seq<T>, cb: seq<seq<bool>>, order: seq<nat>, k: nat)
    requires w > 0 && |p| == Pow2(w) && IsNetwork(w, cb, order) && k < |cb|
    ensures IsNetwork(w, cb[..k], order[..k]) && IsNetwork(w, cb[..k + 1], order[..k + 1])
    ensures Run(w, p, cb[..k + 1], order[..k + 1]) == Layer(w, Run(w, p, cb[..k], order[..k]), cb[k], order[k])
  {
    hide Layer;
    var q := Run(w, p, cb[..k], order[..k]);
    var c, o := [cb[k]], [order[k]];
    RunAppend(w, p, cb[..k], c, order[..k], o);
    assert cb[..k + 1] == cb[..k] + c && order[..k + 1] == order[..k] + o;
    assert c[1..] == [] && o[1..] == [];
    assert Run(w, q, c, o) == Run(w, Layer(w, q, c[0], o[0]), c[1..], o[1..]);
  }

  // ----- controlbitsfrompermutation

  /** The layers that the bytes hold: bytes of n/16 for each of the 2w-1 layers. */
  function StoredLayers(w: nat, cb: seq<bv8>, size: nat): (layers: seq<seq<bool>>)
    requires w > 0 && Behind(0, 1, size, 2 * w - 1) <= |cb|
    ensures |layers| == 2 * w - 1 && forall k :: 0 <= k < |layers| ==> |layers[k]| == 8 * size
  {
    seq(2 * w - 1, k requires 0 <= k < 2 * w - 1 => StoredLayer(w, cb, size, k))
  }

  function StoredLayer(w: nat, cb: seq<bv8>, size: nat, k: nat): (bits: seq<bool>)
    requires k < 2 * w - 1 && Behind(0, 1, size, 2 * w - 1) <= |cb|
    ensures |bits| == 8 * size
  {
    BehindNext(0, size, k);
    BehindMono(0, size, k + 1, 2 * w - 1);
    LayerBits(cb, Behind(0, 1, size, k), 8 * size)
  }

  lemma {:induction false} BehindMono(pos: nat, h: nat, a: nat, b: nat)
    requires a <= b
    ensures Behind(pos, 1, h, a) <= Behind(pos, 1, h, b)
    decreases b
  {
    if a < b {
      BehindMono(pos, h, a, b - 1);
      BehindNext(pos, h, b - 1);
    }
  }

  lemma StoredBit(w: nat, layers: seq<seq<bool>>, cb: seq<bv8>, size: nat, k: nat, j: nat)
    requires w > 0 && Behind(0, 1, size, 2 * w - 1) <= |cb| && k < 2 * w - 1 == |layers| && j < 8 * size
    requires forall i :: 0 <= i < |layers| ==> |layers[i]| == 8 * size
    requires BitsOf(cb) == FlipLayers(Clear(8 * |cb|), 0, 1, layers)
    ensures StoredLayer(w, cb, size, k)[j] == layers[k][j]
  {
    hide FlipLayers;
    BehindNext(0, size, k);
    BehindMono(0, size, k + 1, 2 * w - 1);
    BehindBytes(size, 8 * size, k, 0);
    FlipLayersAt(Clear(8 * |cb|), 0, layers, 8 * size, k, j);
  }

  /** What cbrecursion leaves in cleared bytes is the network of pi. */
  lemma StoredBits(w: nat, pi: seq<int>, cb: seq<bv8>, size: nat)
    requires w > 0 && |pi| == Pow2(w) && IsPerm(pi) && Pow2(w - 1) == 8 * size
    requires Behind(0, 1, size, 2 * w - 1) <= |cb|
    requires BitsOf(cb) == FlipLayers(Clear(8 * |cb|), 0, 1, Bits(w, pi))
    ensures StoredLayers(w, cb, size) == Bits(w, pi)
  {
    hide IsPerm, FlipLayers, BitsOf, StoredLayer, Bits, Behind;
    var layers := Bits(w, pi);
    forall k | 0 <= k < 2 * w - 1 ensures StoredLayer(w, cb, size, k) == layers[k] {
      forall j | 0 <= j < 8 * size ensures StoredLayer(w, cb, size, k)[j] == layers[k][j] {
        StoredBit(w, layers, cb, size, k, j);
      }
    }
  }

  function Clear(n: nat): (o: seq<bool>)
    ensures |o| == n && forall i :: 0 <= i < n ==> !o[i]
  {
    seq(n, i => false)
  }

  method Fill0(out: array<bv8>, base: nat)
    requires base <= out.Length
    modifies out
    ensures forall i :: base <= i < out.Length ==> out[i] == 0
    ensures forall i :: 0 <= i < base ==> out[i] == old(out[i])
  {
    for i := base to out.Length
      invariant forall k :: base <= k < i ==> out[k] == 0
      invariant forall k :: 0 <= k < base ==> out[k] == old(out[k])
    {
      out[i] := 0;
    }
  }

  lemma ZeroBits(cb: seq<bv8>)
    requires forall i :: 0 <= i < |cb| ==> cb[i] == 0
    ensures BitsOf(cb) == Clear(8 * |cb|)
  {
  }

  /** The layers of the stored network on the identity: distances 2^0, .., 2^(w-1), .., 2^0. */
  method Replay(out: array<bv8>, start: nat, w: nat, n: nat) returns (test: array<int>, base: nat)
    requires 4 <= w && n == Pow2(w) && n % 2 == 0 && n / 2 == Pow2(w - 1) == 8 * (n / 16)
    requires start == 0 && Behind(0, 1, n / 16, 2 * w - 1) <= out.Length
    ensures fresh(test) && test.Length == n
    ensures IsNetwork(w, StoredLayers(w, out[..], n / 16), Order(w))
    ensures test[..] == Run(w, Identity(n), StoredLayers(w, out[..], n / 16), Order(w))
  {
    hide Run, Layer, LayerBits;
    ghost var size := n / 16;
    ghost var cb, order := StoredLayers(w, out[..], size), Order(w);
    base := start;
    test := new int[n](i => i);
    assert test[..] == Identity(n) == Run(w, Identity(n), cb[..0], order[..0]) by {
      RunNone(w, Identity(n), cb[..0], order[..0]);
    }
    for i := 0 to w
      invariant base == Behind(0, 1, size, i)
      invariant IsNetwork(w, cb[..i], order[..i]) && test[..] == Run(w, Identity(n), cb[..i], order[..i])
    {
      base := ReplayLayer(out, base, w, n, i, i, test);
    }
    for i := w - 1 downto 0
      invariant base == Behind(0, 1, size, 2 * w - 1 - i)
      invariant IsNetwork(w, cb[..2 * w - 1 - i], order[..2 * w - 1 - i])
      invariant test[..] == Run(w, Identity(n), cb[..2 * w - 1 - i], order[..2 * w - 1 - i])
    {
      base := ReplayLayer(out, base, w, n, i, 2 * w - 2 - i, test);
    }
    assert cb[..2 * w - 1] == cb && order[..2 * w - 1] == order;
  }

  lemma RunNone<T>(w: nat, p: seq<T>, cb: seq<seq<bool>>, order: seq<nat>)
    requires w > 0 && |p| == Pow2(w) && cb == [] && order == []
    ensures Run(w, p, cb, order) == p
  {
  }

  /** Layer number k of the check, at distance 2^i. */
  method ReplayLayer(out: array<bv8>, base: nat, w: nat, n: nat, i: nat, ghost k: nat,
                     test: array<int>) returns (next: nat)
    requires Separate(out, test)
    requires 4 <= w && n == Pow2(w) == test.Length && n % 2 == 0 && n / 2 == Pow2(w - 1) == 8 * (n / 16)
    requires Behind(0, 1, n / 16, 2 * w - 1) <= out.Length && base == Behind(0, 1, n / 16, k)
    requires k < 2 * w - 1 && i == (if k < w then k else 2 * w - 2 - k)
    requires IsNetwork(w, StoredLayers(w, out[..], n / 16)[..k], Order(w)[..k])
    requires test[..] == Run(w, Identity(n), StoredLayers(w, out[..], n / 16)[..k], Order(w)[..k])
    modifies test
    ensures IsNetwork(w, StoredLayers(w, out[..], n / 16)[..k + 1], Order(w)[..k + 1])
    ensures test[..] == Run(w, Identity(n), StoredLayers(w, out[..], n / 16)[..k + 1], Order(w)[..k + 1])
    ensures next == Behind(0, 1, n / 16, k + 1)
  {
    hide Run, Layer, LayerBits, Behind;
    ghost var cb, order := StoredLayers(w, out[..], n / 16), Order(w);
    BehindNext(0, n / 16, k);
    BehindMono(0, n / 16, k + 1, 2 * w - 1);
    OrderUpDown(w, k);
    RunNext(w, Identity(n), cb, order, k);
    assert cb[k] == StoredLayer(w, out[..], n / 16, k) == LayerBits(out[..], base, n / 2);
    LayerInPlace(test, out, base, w, i, n);
    next := base + n / 16;
  }

  /**
   controlbitsfrompermutation: out holds a network that turns the identity into pi. The check at
   its end finds no difference, so its loop body runs once.
   */
  method ControlBitsFromPermutation(out: array<bv8>, pi: seq<int>, w: nat, n: nat)
    requires 4 <= w <= 14 && n == Pow2(w) == |pi| && IsPerm(pi)
    requires out.Length == ((2 * w - 1) * n / 2 + 7) / 8
    modifies out
    ensures n % 16 == 0 && Behind(0, 1, n / 16, 2 * w - 1) == out.Length
    ensures StoredLayers(w, out[..], n / 16) == Bits(w, pi)
    ensures IsNetwork(w, StoredLayers(w, out[..], n / 16), Order(w))
    ensures Run(w, Identity(n), StoredLayers(w, out[..], n / 16), Order(w)) == pi
  {
    hide IsPerm, Run, Bits, StoredLayers, Behind;
    Sizes(w, n, out.Length);
    NetworkPermutes(w, pi, Identity(n));
    PermuteIdentity(pi);
    var temp := new int[2 * n];
    var aux := seq(n / 2, j requires 0 <= j < n / 2 => pi[2 * j + 1] * H + pi[2 * j]);
    var sub, diff, agreed := 0, false, false;
    while !agreed
      invariant !agreed ==> sub == 0 && !diff
      invariant agreed ==> StoredLayers(w, out[..], n / 16) == Bits(w, pi)
      decreases !agreed
    {
      Attempt(out, sub, temp, aux, pi, w, n);
      var test;
      test, sub := Replay(out, sub, w, n);
      for i := 0 to n
        invariant !diff
      {
        if pi[i] != test[i] { diff := true; }
      }
      agreed := !diff;
    }
  }

  /** The bytes are cleared from the slice on, and cbrecursion runs on the slice. */
  method Attempt(out: array<bv8>, sub: nat, temp: array<int>, aux: seq<int>, ghost pi: seq<int>, w: nat, n: nat)
    requires Separate(out, temp) && 4 <= w <= 14 && n == Pow2(w) == |pi| && IsPerm(pi) && 2 * n <= temp.Length
    requires sub == 0 && |aux| == n / 2 && forall j :: 0 <= j < n / 2 ==> aux[j] == pi[2 * j + 1] * H + pi[2 * j]
    requires out.Length == ((2 * w - 1) * n / 2 + 7) / 8
    modifies out, temp
    ensures Behind(0, 1, n / 16, 2 * w - 1) == out.Length
    ensures StoredLayers(w, out[..], n / 16) == Bits(w, pi)
  {
    hide IsPerm, Bits, StoredLayers, Behind, BitsOf, FlipLayers, PairWords, Pow2, Place, Count, Holds;
    Sizes(w, n, out.Length);
    Fill0(out, sub);
    ZeroBits(out[..]);
    AuxHolds(temp[..], aux, pi);
    CbRecursion.CbRecursion(out, 8 * sub, 1, 0, w, n, temp, aux, pi);
    StoredBits(w, pi, out[..], n / 16);
  }

  lemma AuxHolds(t: seq<int>, aux: seq<int>, pi: seq<int>)
    requires |pi| % 2 == 0 && |aux| == |pi| / 2
    requires forall j :: 0 <= j < |aux| ==> aux[j] == pi[2 * j + 1] * H + pi[2 * j]
    ensures Holds(t, aux, 0, pi)
  {
  }

  lemma Sixteen(w: nat)
    requires w >= 4
    ensures Pow2(w) == 16 * Pow2(w - 4) && Pow2(w - 1) == 8 * Pow2(w - 4)
  {
    assert Pow2(w - 1) == 2 * Pow2(w - 2) == 4 * Pow2(w - 3);
  }

  lemma Bytes(k: nat, s: nat)
    ensures (k * (16 * s) / 2 + 7) / 8 == k * s
    ensures k * (8 * s) == 8 * (k * s) && 1 * s * k == k * s
  {
    assert k * (16 * s) == 16 * (k * s);
  }

  lemma Sizes(w: nat, n: nat, len: nat)
    requires 4 <= w && n == Pow2(w) && len == ((2 * w - 1) * n / 2 + 7) / 8
    ensures n % 16 == 0 && n / 2 == Pow2(w - 1) == 8 * (n / 16) && n % 2 == 0
    ensures Behind(0, 1, n / 16, 2 * w - 1) == len && Place(0, 1, Count(w)) <= 8 * len
  {
    hide Pow2, Behind, Place, Count;
    var s := Pow2(w - 4);
    Sixteen(w);
    Bytes(2 * w - 1, s);
    BehindIs(0, 1, s, 2 * w - 1);
    PlaceIs(0, 1, Count(w));
    CountClosed(w);
  }
}
