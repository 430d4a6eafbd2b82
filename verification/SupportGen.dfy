/**
 support_gen (src/benes.rs): the support from the control bits of a permutation. Any control bits
 carry out exactly one permutation, so a secret key always has a support.
 */
module SupportGen {
  import opened Params
  import opened Field
  import opened Permutations
  import opened Benes
  import opened FlipNetworks
  import opened FromPermutation
  import opened Words
  import opened ApplyBenes
  import opened Strides
  import opened SupportPoints
  import opened Polynomials

  const COND_BYTES: nat := if GFBITS == 12 then 5888 else 12800

  function LayersOf(c: seq<bv8>): (cb: seq<seq<bool>>)
    requires |c| == COND_BYTES
  {
    if GFBITS == 12 then Layers12(c) else Layers13(c, false)
  }

  /** The network with control bits c carries out the permutation pi. */
  ghost predicate Realizes(c: seq<bv8>, pi: seq<int>)
    requires |c| == COND_BYTES
  {
    && |pi| == FIELD_SIZE && IsPerm(pi)
    && forall p: seq<bool>, q: seq<bool> :: |p| == FIELD_SIZE && Applied(GFBITS, q, p, LayersOf(c)) ==>
        q == Permute(p, pi)
  }

  /** s is the support for pi. */
  predicate IsSupport(s: seq<Gf>, pi: seq<int>)
  {
    |pi| == FIELD_SIZE && (forall i :: 0 <= i < |pi| ==> 0 <= pi[i] < FIELD_SIZE) && s == Support(pi)
  }

  lemma RealizesBounds(c: seq<bv8>, pi: seq<int>)
    requires |c| == COND_BYTES && Realizes(c, pi)
    ensures |pi| == FIELD_SIZE && forall i :: 0 <= i < |pi| ==> 0 <= pi[i] < FIELD_SIZE
  {
    hide LayersOf, Applied;
  }

  // ----- every network carries out some permutation

  /** Where the element at x comes from in a layer. */
  function LayerSource(w: nat, cb: seq<bool>, s: nat): (q: seq<int>)
    requires s < w && |cb| == Pow2(w - 1)
    ensures |q| == Pow2(w)
  {
    Layer(w, Identity(Pow2(w)), cb, s)
  }

  lemma LayerPermutes(w: nat, p: seq<bool>, cb: seq<bool>, s: nat)
    requires s < w && |p| == Pow2(w) && |cb| == Pow2(w - 1)
    ensures IsPerm(LayerSource(w, cb, s))
    ensures Layer(w, p, cb, s) == Permute(p, LayerSource(w, cb, s))
  {
    hide PairOf, PartnerOf, Pow2;
    var q := LayerSource(w, cb, s);
    forall x | 0 <= x < |q| ensures 0 <= q[x] < |q| && q[q[x]] == x && Layer(w, p, cb, s)[x] == p[q[x]] {
      LayerSourceAt(w, p, cb, s, x);
    }
    forall x, y | 0 <= x < y < |q| ensures q[x] != q[y] {
      assert q[q[x]] == x && q[q[y]] == y;
    }
  }

  lemma LayerSourceAt(w: nat, p: seq<bool>, cb: seq<bool>, s: nat, x: nat)
    requires s < w && |p| == Pow2(w) && |cb| == Pow2(w - 1) && x < Pow2(w)
    ensures var q := LayerSource(w, cb, s);
            0 <= q[x] < |q| && q[q[x]] == x && Layer(w, p, cb, s)[x] == p[q[x]]
  {
    hide PairOf, PartnerOf, Pow2;
    PairInRange(w, x, s);
    PartnerBit(x, s);
    var (q, y) := (LayerSource(w, cb, s), PartnerOf(x, s));
    PairInRange(w, y, s);
    assert q[x] == LayerAt(w, Identity(Pow2(w)), cb, s, x) && q[y] == LayerAt(w, Identity(Pow2(w)), cb, s, y);
    assert Layer(w, p, cb, s)[x] == LayerAt(w, p, cb, s, x);
  }

  /** The permutation that a network carries out. */
  lemma {:induction false} RunPermutes(w: nat, cb: seq<seq<bool>>, order: seq<nat>) returns (pi: seq<int>)
    requires w > 0 && IsNetwork(w, cb, order)
    ensures |pi| == Pow2(w) && IsPerm(pi)
    ensures forall p: seq<bool> :: |p| == Pow2(w) ==> Run(w, p, cb, order) == Permute(p, pi)
    decreases |order|
  {
    hide Layer, LayerSource, Pow2, IsPerm, Permute;
    if order == [] {
      pi := Identity(Pow2(w));
      forall p: seq<bool> | |p| == Pow2(w) ensures Run(w, p, cb, order) == Permute(p, pi) {
        PermuteNothing(p);
      }
    } else {
      var q := LayerSource(w, cb[0], order[0]);
      var r := RunPermutes(w, cb[1..], order[1..]);
      LayerPermutes(w, seq(Pow2(w), i => false), cb[0], order[0]);
      pi := Permute(q, r);
      PermuteIsPerm(q, r);
      PermuteLength(q, r);
      forall p: seq<bool> | |p| == Pow2(w) ensures Run(w, p, cb, order) == Permute(p, pi) {
        LayerPermutes(w, p, cb[0], order[0]);
        PermuteTwice(p, q, r);
      }
    }
  }

  lemma PermuteNothing(p: seq<bool>)
    ensures Permute(p, Identity(|p|)) == p
  {
  }

  lemma PermuteLength(q: seq<int>, r: seq<int>)
    requires |q| == |r| && IsPerm(r)
    ensures |Permute(q, r)| == |q|
  {
  }

  lemma PermuteTwice(p: seq<bool>, q: seq<int>, r: seq<int>)
    requires |p| == |q| == |r| && IsPerm(q) && IsPerm(r) && IsPerm(Permute(q, r))
    ensures Permute(Permute(p, q), r) == Permute(p, Permute(q, r))
  {
  }

  /** Any control bits at all make up a permutation. */
  lemma RealizesSome(c: seq<bv8>)
    requires |c| == COND_BYTES
    ensures exists pi: seq<int> :: Realizes(c, pi)
  {
    hide Run, IsPerm, Permute, Pow2, CutLayer, Order;
    FieldSize();
    ApplyBenes.Sizes();
    var cb := LayersOf(c);
    assert IsNetwork(GFBITS, cb, Order(GFBITS)) by { OrderBounds(GFBITS); }
    var pi := RunPermutes(GFBITS, cb, Order(GFBITS));
    assert Realizes(c, pi);
  }

  lemma OrderBounds(w: nat)
    requires w > 0
    ensures |Order(w)| == 2 * w - 1 && forall k :: 0 <= k < |Order(w)| ==> Order(w)[k] < w
  {
  }

  /** A network carries out only one permutation. */
  lemma RealizesOne(c: seq<bv8>, pi: seq<int>, rho: seq<int>)
    requires |c| == COND_BYTES && Realizes(c, pi) && Realizes(c, rho)
    ensures pi == rho
  {
    hide Run, Pow2, CutLayer, Order, LayersOf;
    forall i | 0 <= i < |pi| ensures pi[i] == rho[i] {
      var p := seq(FIELD_SIZE, x requires 0 <= x < FIELD_SIZE => x == pi[i]);
      var q := RunOf(c, p);
      assert q == Permute(p, pi) == Permute(p, rho);
      assert q[i] == p[pi[i]] && q[i] == p[rho[i]];
    }
  }

  lemma RunOf(c: seq<bv8>, p: seq<bool>) returns (q: seq<bool>)
    requires |c| == COND_BYTES && |p| == FIELD_SIZE
    ensures Applied(GFBITS, q, p, LayersOf(c))
  {
    hide Run, Pow2, CutLayer, Order;
    FieldSize();
    ApplyBenes.Sizes();
    OrderBounds(GFBITS);
    q := Run(GFBITS, p, LayersOf(c), Order(GFBITS));
  }

  /** The support that control bits stand for. */
  ghost function SupportOf(c: seq<bv8>): (l: seq<Gf>)
    requires |c| == COND_BYTES
    ensures |l| == SYS_N && forall pi: seq<int> :: Realizes(c, pi) ==> IsSupport(l, pi)
  {
    hide Realizes;
    RealizesSome(c);
    var pi: seq<int> :| Realizes(c, pi);
    RealizesBounds(c, pi);
    OnlySupport(c, pi);
    Support(pi)
  }

  lemma OnlySupport(c: seq<bv8>, pi: seq<int>)
    requires |c| == COND_BYTES && Realizes(c, pi)
    ensures |pi| == FIELD_SIZE && (forall i :: 0 <= i < |pi| ==> 0 <= pi[i] < FIELD_SIZE)
    ensures forall rho: seq<int> :: Realizes(c, rho) ==> IsSupport(Support(pi), rho)
  {
    hide Realizes;
    RealizesBounds(c, pi);
    forall rho: seq<int> | Realizes(c, rho) ensures IsSupport(Support(pi), rho) {
      RealizesOne(c, pi, rho);
    }
  }

  /** Whatever the control bits are, the support has no repetition. */
  lemma SupportOfDistinct(c: seq<bv8>)
    requires |c| == COND_BYTES
    ensures Distinct(SupportOf(c))
  {
    hide Support, IsPerm, Distinct;
    RealizesSome(c);
    var pi: seq<int> :| Realizes(c, pi);
    FieldSize();
    SupportDistinct(pi);
  }

  /** Bit j of the reversed index, for every index. */
  function Plane(j: nat): (p: seq<bool>)
    requires j < GFBITS
    ensures |p| == FIELD_SIZE && forall i :: 0 <= i < FIELD_SIZE ==> p[i] == Reverse(i, GFBITS)[j]
  {
    seq(FIELD_SIZE, i requires 0 <= i < FIELD_SIZE => Reverse(i, GFBITS)[j])
  }

  /** The layers that controlbitsfrompermutation stores are the ones that apply_benes reads. */
  lemma SameLayers(c: seq<bv8>)
    requires |c| == COND_BYTES
    ensures Behind(0, 1, FIELD_SIZE / 16, 2 * GFBITS - 1) == |c|
    ensures StoredLayers(GFBITS, c, FIELD_SIZE / 16) == LayersOf(c)
  {
    hide Behind, BitsOf, StoredLayer, CutLayer;
    var (w, size) := (GFBITS, FIELD_SIZE / 16);
    BehindIs(0, 1, size, 2 * w - 1);
    forall k | 0 <= k < 2 * w - 1 ensures StoredLayer(w, c, size, k) == LayersOf(c)[k] {
      StoredIsCut(w, c, size, k);
    }
  }

  lemma StoredIsCut(w: nat, c: seq<bv8>, size: nat, k: nat)
    requires k < 2 * w - 1 && Behind(0, 1, size, 2 * w - 1) <= |c|
    ensures size * k + size <= |c| && StoredLayer(w, c, size, k) == CutLayer(c, size, k)
  {
    hide BitsOf;
    BehindIs(0, 1, size, k);
    BehindNext(0, size, k);
    BehindMono(0, size, k + 1, 2 * w - 1);
  }

  /** Where bit j of layer k stands among the control bits. */
  function ControlPlace(k: nat, j: nat): (p: nat)
    requires k < 2 * GFBITS - 1 && j < FIELD_SIZE / 2
    ensures p == FIELD_SIZE / 2 * k + j && p < 8 * COND_BYTES
  {
    j + if GFBITS == 12 then 2048 * k else 4096 * k
  }

  /** The layers lie one behind the other, each from its lowest pair on. */
  lemma LayerBit(c: seq<bv8>, k: nat, j: nat)
    requires |c| == COND_BYTES && k < 2 * GFBITS - 1 && j < FIELD_SIZE / 2
    ensures |LayersOf(c)| == 2 * GFBITS - 1 && |LayersOf(c)[k]| == FIELD_SIZE / 2
    ensures LayersOf(c)[k][j] == BitsOf(c)[ControlPlace(k, j)]
  {
    hide BitsOf;
  }

  method MakePlane(j: nat) returns (a: array<bv8>)
    requires j < GFBITS
    ensures fresh(a) && 8 * a.Length == FIELD_SIZE && BitsOf(a[..]) == Plane(j)
  {
    hide BitsOf, Reverse;
    a := new bv8[FIELD_SIZE / 8](_ => 0);
    ClearBits(a[..]);
    for i := 0 to FIELD_SIZE
      invariant forall k :: 0 <= k < FIELD_SIZE ==> BitsOf(a[..])[k] == (k < i && Plane(j)[k])
    {
      SetBit(a, i, Reverse(i, GFBITS)[j]);
    }
  }

  /** apply_benes without rev, in either build. */
  method Apply(r: array<bv8>, c: seq<bv8>)
    requires 8 * r.Length == FIELD_SIZE && |c| == COND_BYTES
    modifies r
    ensures Applied(GFBITS, BitsOf(r[..]), old(BitsOf(r[..])), LayersOf(c))
  {
    hide Applied, BitsOf;
    if GFBITS == 12 {
      ApplyBenes12(r, c);
    } else {
      ApplyBenes13(r, c, false);
    }
  }

  lemma TheSupport(c: seq<bv8>, s: seq<Gf>)
    requires |c| == COND_BYTES && forall pi: seq<int> :: Realizes(c, pi) ==> IsSupport(s, pi)
    ensures s == SupportOf(c)
  {
    hide Realizes, Support, SupportOf;
    RealizesSome(c);
    var pi: seq<int> :| Realizes(c, pi);
    assert IsSupport(s, pi) && IsSupport(SupportOf(c), pi);
  }

  /** (a << 1) | b, for a word that has room for it. */
  function Pushed(a: Gf, b: bool): Gf
  {
    Add(if b then ONE else ZERO, TimesZ(a))
  }

  /** The bits that the planes hold at position i. */
  function BitsAcross(planes: seq<seq<bool>>, i: nat): (b: seq<bool>)
    requires forall j :: 0 <= j < |planes| ==> i < |planes[j]|
    ensures |b| == |planes|
  {
    seq(|planes|, j requires 0 <= j < |planes| => planes[j][i])
  }

  /**
   support_gen: when the control bits are those of a permutation pi, entry i of the support is the bit-reversed
   pi(i), the same that pk_gen uses.
   */
  method SupportGen(c: seq<bv8>) returns (s: seq<Gf>)
    requires |c| == COND_BYTES
    ensures s == SupportOf(c)
  {
    hide BitsOf, Applied, LayersOf, Plane, Realizes, SupportOf;
    ghost var planes: seq<seq<bool>> := [];
    var bytes: seq<seq<bv8>> := [];
    for j := 0 to GFBITS
      invariant |planes| == |bytes| == j
      invariant forall k :: 0 <= k < j ==> |bytes[k]| == FIELD_SIZE / 8 && planes[k] == BitsOf(bytes[k])
      invariant forall k :: 0 <= k < j ==> Applied(GFBITS, planes[k], Plane(k), LayersOf(c))
    {
      var l := MakePlane(j);
      Apply(l, c);
      planes := planes + [BitsOf(l[..])];
      bytes := bytes + [l[..]];
    }
    var a := new Gf[SYS_N](_ => ZERO);
    for i := 0 to SYS_N
      invariant forall k :: 0 <= k < i ==> a[k] == FromBits(BitsAcross(planes, k))
    {
      a[i] := Collect(bytes, planes, i);
    }
    s := a[..];
    forall pi: seq<int> | Realizes(c, pi) ensures IsSupport(s, pi) {
      RealizesBounds(c, pi);
      forall i | 0 <= i < SYS_N ensures s[i] == Point(pi[i]) {
        PlanesReverse(planes, c, pi, i);
      }
    }
    TheSupport(c, s);
  }

  /** s[i] <<= 1; s[i] |= bit i of plane j, from the last plane down. */
  method Collect(bytes: seq<seq<bv8>>, ghost planes: seq<seq<bool>>, i: nat) returns (a: Gf)
    requires |planes| == |bytes| == GFBITS && i < FIELD_SIZE
    requires forall k :: 0 <= k < |planes| ==> |planes[k]| == FIELD_SIZE
    requires forall k :: 0 <= k < |bytes| ==> |bytes[k]| == FIELD_SIZE / 8 && planes[k] == BitsOf(bytes[k])
    ensures a == FromBits(BitsAcross(planes, i))
  {
    hide Bit, Add, TimesZ;
    a := ZERO;
    ghost var b := BitsAcross(planes, i);
    for j := GFBITS downto 0
      invariant a == FromBits(b[j..])
    {
      assert b[j..][1..] == b[j + 1..];
      a := Pushed(a, Bit(bytes[j][i / 8], i % 8));
    }
    assert b[0..] == b;
  }

  lemma PlanesReverse(planes: seq<seq<bool>>, c: seq<bv8>, pi: seq<int>, i: nat)
    requires |planes| == GFBITS && |c| == COND_BYTES && Realizes(c, pi) && |pi| == FIELD_SIZE && i < SYS_N
    requires forall j :: 0 <= j < GFBITS ==>
        |planes[j]| == FIELD_SIZE && Applied(GFBITS, planes[j], Plane(j), LayersOf(c))
    requires 0 <= pi[i] < FIELD_SIZE
    ensures FromBits(BitsAcross(planes, i)) == Point(pi[i])
  {
    hide IsPerm, LayersOf, Reverse, FromBits, Applied;
    forall j | 0 <= j < GFBITS ensures planes[j][i] == Reverse(pi[i], GFBITS)[j] {
      assert Applied(GFBITS, planes[j], Plane(j), LayersOf(c));
    }
    assert BitsAcross(planes, i) == Reverse(pi[i], GFBITS);
  }
}
