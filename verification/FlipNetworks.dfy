/** Where the control bits of a network lie: interleaved below, outer layers around. */
module FlipNetworks {
  import opened Words
  import opened Benes

  lemma WeaveStep(a: seq<bool>, b: seq<bool>)
    requires |a| == |b|
    ensures var w := Weave(a, b);
            if a == [] then w == []
            else |w| >= 2 && w[0] == a[0] && w[1..] != [] && w[1..][0] == b[0] && w[1..][1..] == Weave(a[1..], b[1..])
  {
  }

  lemma {:induction false} FlipWeave(o: seq<bool>, pos: nat, step: nat, a: seq<bool>, b: seq<bool>)
    requires |a| == |b|
    ensures FlipAll(o, pos, step, Weave(a, b))
         == FlipAll(FlipAll(o, pos, 2 * step, a), pos + step, 2 * step, b)
    decreases |a|
  {
    hide FlipAt, Weave;
    var w := Weave(a, b);
    WeaveStep(a, b);
    if a != [] {
      var o1 := FlipAt(o, pos, a[0]);
      var o2 := FlipAt(o1, pos + step, b[0]);
      assert FlipAll(o1, pos + step, step, w[1..]) == FlipAll(o2, pos + 2 * step, step, Weave(a[1..], b[1..]));
      FlipWeave(o2, pos + 2 * step, step, a[1..], b[1..]);
      FlipAllCommutes(o1, pos + step, b[0], pos + 2 * step, 2 * step, a[1..]);
    }
  }

  lemma {:induction false} FlipWeaveLayers(o: seq<bool>, pos: nat, step: nat, a: seq<seq<bool>>, b: seq<seq<bool>>)
    requires |a| == |b| && forall k :: 0 <= k < |a| ==> |a[k]| == |b[k]|
    ensures FlipLayers(o, pos, step, WeaveAll(a, b))
         == FlipLayers(FlipLayers(o, pos, 2 * step, a), pos + step, 2 * step, b)
    decreases |a|
  {
    hide FlipAll, Weave;
    if a != [] {
      var o1 := FlipAll(o, pos, 2 * step, a[0]);
      var o2 := FlipAll(o1, pos + step, 2 * step, b[0]);
      var pos' := Place(pos, 2 * step, |a[0]|);
      FlipWeave(o, pos, step, a[0], b[0]);
      PlaceTwice(pos, step, |a[0]|);
      PlaceLater(pos, 2 * step, |a[0]|, step);
      assert WeaveAll(a, b)[1..] == WeaveAll(a[1..], b[1..]);
      assert FlipLayers(o, pos, step, WeaveAll(a, b)) == FlipLayers(o2, pos', step, WeaveAll(a[1..], b[1..]));
      FlipWeaveLayers(o2, pos', step, a[1..], b[1..]);
      FlipLayersCommute(o1, pos + step, 2 * step, b[0], pos', 2 * step, a[1..]);
    }
  }

  lemma {:induction false} PlaceLater(pos: nat, step: nat, h: nat, d: nat)
    ensures Place(pos + d, step, h) == Place(pos, step, h) + d
    decreases h
  {
    if h > 0 { PlaceLater(pos, step, h - 1, d); }
  }

  lemma {:induction false} PlaceTwice(pos: nat, step: nat, h: nat)
    ensures Place(pos, step, 2 * h) == Place(pos, 2 * step, h)
    decreases h
  {
    if h > 0 {
      PlaceTwice(pos, step, h - 1);
      assert Place(pos, step, 2 * h) == Place(pos, step, 2 * h - 1) + step;
    }
  }

  /** The position behind k layers of h bits. */
  function Behind(pos: nat, step: nat, h: nat, k: nat): nat
    decreases k
  {
    if k == 0 then pos else Behind(Place(pos, step, h), step, h, k - 1)
  }

  lemma {:induction false} BehindIs(pos: nat, step: nat, h: nat, k: nat)
    ensures Behind(pos, step, h, k) == pos + step * h * k
    decreases k
  {
    if k > 0 {
      PlaceIs(pos, step, h);
      BehindIs(Place(pos, step, h), step, h, k - 1);
      assert step * h * k == step * h + step * h * (k - 1);
    }
  }

  /** Flips for the layers m, and then for the bits l behind them. */
  lemma {:induction false} FlipLayersAppend(o: seq<bool>, pos: nat, step: nat, m: seq<seq<bool>>, l: seq<bool>, h: nat)
    requires forall k :: 0 <= k < |m| ==> |m[k]| == h
    ensures FlipLayers(o, pos, step, m + [l])
         == FlipAll(FlipLayers(o, pos, step, m), Behind(pos, step, h, |m|), step, l)
    decreases |m|
  {
    if m == [] {
      assert m + [l] == [l] && [l][1..] == [];
    } else {
      FlipLayersAppend(FlipAll(o, pos, step, m[0]), Place(pos, step, h), step, m[1..], l, h);
      assert (m + [l])[1..] == m[1..] + [l];
    }
  }

  lemma {:induction false} FlipLayersOuter(o: seq<bool>, p: nat, s: nat, a: seq<seq<bool>>, q: nat, t: nat,
                                           l: seq<bool>)
    ensures FlipAll(FlipLayers(o, p, s, a), q, t, l) == FlipLayers(FlipAll(o, q, t, l), p, s, a)
  {
    FlipLayersCommute(o, q, t, l, p, s, a);
  }

  /** The order in which cbrecursion flips: first bits, last bits, even half, odd half. */
  lemma FlipNetwork(o: seq<bool>, pos: nat, step: nat, f: seq<bool>, a: seq<seq<bool>>, b: seq<seq<bool>>,
                    l: seq<bool>, h: nat)
    requires |f| == 2 * h && |a| == |b|
    requires forall k :: 0 <= k < |a| ==> |a[k]| == |b[k]| == h
    ensures
      var p1 := Place(pos, step, |f|);
      var o1 := FlipAll(FlipAll(o, pos, step, f), Behind(p1, step, 2 * h, |a|), step, l);
      FlipLayers(o, pos, step, [f] + WeaveAll(a, b) + [l])
        == FlipLayers(FlipLayers(o1, p1, 2 * step, a), p1 + step, 2 * step, b)
  {
    hide FlipAll, Weave, Place, Behind;
    var m := WeaveAll(a, b);
    var p1 := Place(pos, step, |f|);
    var p2 := Behind(p1, step, 2 * h, |a|);
    var of := FlipAll(o, pos, step, f);
    assert ([f] + m + [l])[1..] == m + [l] && ([f] + m + [l])[0] == f;
    assert FlipLayers(o, pos, step, [f] + m + [l]) == FlipLayers(of, p1, step, m + [l]);
    hide FlipLayers;
    FlipLayersAppend(of, p1, step, m, l, 2 * h);
    FlipWeaveLayers(of, p1, step, a, b);
    var oa := FlipLayers(of, p1, 2 * step, a);
    FlipLayersOuter(oa, p1 + step, 2 * step, b, p2, step, l);
    FlipLayersOuter(of, p1, 2 * step, a, p2, step, l);
  }

  // ----- every position once

  /** The layers one behind the other. */
  function Joined(cb: seq<seq<bool>>): seq<bool>
  {
    if cb == [] then [] else cb[0] + Joined(cb[1..])
  }

  /** i is one of the first n positions that start at pos and lie step apart. */
  ghost predicate IsPlace(i: nat, pos: nat, step: nat, n: nat)
  {
    exists k: nat :: k < n && Place(pos, step, k) == i
  }

  /** In r, bit number k is flipped into its own position of o, for every k. */
  predicate Flipped(r: seq<bool>, o: seq<bool>, pos: nat, step: nat, bits: seq<bool>)
    requires |r| == |o|
  {
    forall k: nat :: k < |bits| ==>
      (Place(pos, step, k) < |o| && r[Place(pos, step, k)] == (o[Place(pos, step, k)] != bits[k]))
  }

  /** The same, and no other bit changed. */
  ghost predicate FlipsOnly(r: seq<bool>, o: seq<bool>, pos: nat, step: nat, bits: seq<bool>)
  {
    && |r| == |o| && Flipped(r, o, pos, step, bits)
    && forall i: nat :: i < |o| && !IsPlace(i, pos, step, |bits|) ==> r[i] == o[i]
  }

  /** The same for the bits a from p on and the bits b from q on. */
  ghost predicate FlipsBoth(r: seq<bool>, o: seq<bool>, p: nat, q: nat, step: nat, a: seq<bool>, b: seq<bool>)
  {
    && |r| == |o| && Flipped(r, o, p, step, a) && Flipped(r, o, q, step, b)
    && forall i: nat :: i < |o| && !IsPlace(i, p, step, |a|) && !IsPlace(i, q, step, |b|) ==> r[i] == o[i]
  }

  /** No position from p on is one from q on. */
  ghost predicate Apart(p: nat, q: nat, step: nat)
  {
    forall j: nat, k: nat :: Place(p, step, j) != Place(q, step, k)
  }

  /** The positions of the two halves do not meet. */
  lemma HalvesApart(pos: nat, step: nat)
    requires step > 0
    ensures Apart(pos, pos + step, 2 * step)
  {
    var (q, s) := (pos + step, 2 * step);
    forall j: nat, k: nat ensures Place(pos, s, j) != Place(q, s, k) {
      PlaceIs(pos, s, j);
      PlaceIs(q, s, k);
      OddMultiple(step, s, j, k);
    }
  }

  lemma OddMultiple(step: nat, s: nat, j: nat, k: nat)
    requires step > 0 && s == 2 * step
    ensures s * j != step + s * k
  {
    if j > k { MultipleUp(s, j, k + 1); } else { MultipleUp(s, k, j); }
    assert s * (k + 1) == s * k + s;
  }

  lemma MultipleUp(s: nat, j: nat, k: nat)
    requires j >= k
    ensures s * j >= s * k
  {
  }

  lemma {:induction false} FlipAllHit(o: seq<bool>, pos: nat, step: nat, bits: seq<bool>, k: nat)
    requires step > 0 && k < |bits| && Place(pos, step, k) < |o|
    ensures FlipAll(o, pos, step, bits)[Place(pos, step, k)] == (o[Place(pos, step, k)] != bits[k])
    decreases |bits|
  {
    hide FlipAt;
    var o1 := FlipAt(o, pos, bits[0]);
    if k == 0 {
      var next := pos + step;
      forall j: nat | j < |bits| - 1 ensures Place(next, step, j) != pos {}
      FlipAllMiss(o1, next, step, bits[1..], pos);
      FlipAtIs(o, pos, bits[0], pos);
    } else {
      PlaceShift(pos, step, k - 1);
      FlipAllHit(o1, pos + step, step, bits[1..], k - 1);
      FlipAtIs(o, pos, bits[0], Place(pos, step, k));
      PlaceMono(pos, step, 0, k);
    }
  }

  lemma FlipAtIs(o: seq<bool>, pos: nat, b: bool, i: nat)
    requires i < |o|
    ensures FlipAt(o, pos, b)[i] == if i == pos then o[i] != b else o[i]
  {
  }

  lemma {:induction false} FlipAllMiss(o: seq<bool>, pos: nat, step: nat, bits: seq<bool>, i: nat)
    requires i < |o| && !IsPlace(i, pos, step, |bits|)
    ensures FlipAll(o, pos, step, bits)[i] == o[i]
    decreases |bits|
  {
    hide FlipAt;
    if bits != [] {
      assert Place(pos, step, 0) == pos;
      FlipAtIs(o, pos, bits[0], i);
      var next := pos + step;
      forall k: nat | k < |bits| - 1 ensures Place(next, step, k) != i {
        PlaceShift(pos, step, k);
      }
      FlipAllMiss(FlipAt(o, pos, bits[0]), next, step, bits[1..], i);
    }
  }

  /** For any step, every position is flipped once, by its own bit. */
  lemma FlipAllOnly(o: seq<bool>, pos: nat, step: nat, bits: seq<bool>)
    requires step > 0 && Place(pos, step, |bits|) <= |o| + step - 1
    ensures FlipsOnly(FlipAll(o, pos, step, bits), o, pos, step, bits)
  {
    hide FlipAll;
    var r := FlipAll(o, pos, step, bits);
    forall k: nat | k < |bits|
      ensures Place(pos, step, k) < |o| && r[Place(pos, step, k)] == (o[Place(pos, step, k)] != bits[k])
    {
      PlaceMono(pos, step, k, |bits|);
      FlipAllHit(o, pos, step, bits, k);
    }
    forall i: nat | i < |o| && !IsPlace(i, pos, step, |bits|) ensures r[i] == o[i] {
      FlipAllMiss(o, pos, step, bits, i);
    }
  }

  lemma {:induction false} FlipAllJoined(o: seq<bool>, pos: nat, step: nat, a: seq<bool>, b: seq<bool>)
    ensures FlipAll(o, pos, step, a + b) == FlipAll(FlipAll(o, pos, step, a), Place(pos, step, |a|), step, b)
    decreases |a|
  {
    if a == [] {
      assert a + b == b;
    } else {
      assert (a + b)[1..] == a[1..] + b;
      FlipAllJoined(FlipAt(o, pos, a[0]), pos + step, step, a[1..], b);
      PlaceShift(pos, step, |a| - 1);
    }
  }

  lemma {:induction false} FlipLayersJoined(o: seq<bool>, pos: nat, step: nat, cb: seq<seq<bool>>)
    ensures FlipLayers(o, pos, step, cb) == FlipAll(o, pos, step, Joined(cb))
    decreases |cb|
  {
    hide FlipAll;
    if cb == [] {
      FlipNothing(o, pos, step);
    } else {
      FlipAllJoined(o, pos, step, cb[0], Joined(cb[1..]));
      FlipLayersJoined(FlipAll(o, pos, step, cb[0]), Place(pos, step, |cb[0]|), step, cb[1..]);
    }
  }

  lemma FlipNothing(o: seq<bool>, pos: nat, step: nat)
    ensures FlipAll(o, pos, step, []) == o
  {
  }

  lemma {:induction false} JoinedLength(cb: seq<seq<bool>>, h: nat)
    requires forall k :: 0 <= k < |cb| ==> |cb[k]| == h
    ensures |Joined(cb)| == h * |cb|
  {
    if cb != [] {
      JoinedLength(cb[1..], h);
      assert h * |cb| == h + h * (|cb| - 1);
    }
  }

  /** Layers, at any step, flip each of their positions once, by its own bit. */
  lemma FlipLayersOnly(o: seq<bool>, pos: nat, step: nat, cb: seq<seq<bool>>)
    requires step > 0 && Place(pos, step, |Joined(cb)|) <= |o| + step - 1
    ensures FlipsOnly(FlipLayers(o, pos, step, cb), o, pos, step, Joined(cb))
  {
    hide FlipsOnly, FlipAll, FlipLayers;
    FlipLayersJoined(o, pos, step, cb);
    FlipAllOnly(o, pos, step, Joined(cb));
  }

  lemma BothFlipped(r: seq<bool>, m: seq<bool>, o: seq<bool>, p: nat, q: nat, step: nat, a: seq<bool>, b: seq<bool>)
    requires Apart(p, q, step) && FlipsOnly(m, o, p, step, a) && FlipsOnly(r, m, q, step, b)
    ensures FlipsBoth(r, o, p, q, step, a, b)
  {
    forall k: nat | k < |a| ensures !IsPlace(Place(p, step, k), q, step, |b|) {}
    forall k: nat | k < |b| ensures !IsPlace(Place(q, step, k), p, step, |a|) {}
  }
}
