/** The merge-exchange sorting network, as a function on sequences. */
module MergeExchange {
  import opened Permutations

  // The network is Algorithm M of Knuth, The Art of Computer Programming, volume 3, section 5.2.2.
  // Both sorting routines of the repository run its comparators, in two other orders.
  //
  // For a power of two p the network merges, in every residue class modulo p, the two ascending
  // classes modulo 2p. It first orders every pair (i, i+p), and then, for q = top, top/2, .., 2p,
  // every pair (i+p, i+q); only indices i in which bit p is clear take part.

  function Min(a: int, b: int): int { if b < a then b else a }

  function Max(a: int, b: int): int { if b < a then a else b }

  /** Bit p of i is clear, for p a power of two: i & p == 0. */
  predicate Clear(i: int, p: nat)
    requires p > 0
  {
    i % (2 * p) < p
  }

  /** q is b doubled some number of times. */
  predicate Doubled(q: nat, b: nat)
    requires b > 0
    ensures Doubled(q, b) ==> q >= b
  {
    q == b || (q > b && q % 2 == 0 && Doubled(q / 2, b))
  }

  /** One round of comparators (i, i+p), all at once. */
  function Pairs(x: seq<int>, p: nat): (y: seq<int>)
    requires p > 0
    ensures |y| == |x|
  {
    seq(|x|, i requires 0 <= i < |x| => PairsAt(x, p, i))
  }

  function PairsAt(x: seq<int>, p: nat, i: nat): int
    requires p > 0 && i < |x|
  {
    if Clear(i, p) then if i + p < |x| then Min(x[i], x[i + p]) else x[i]
    else if i >= p then Max(x[i - p], x[i]) else x[i]
  }

  /** One round of comparators (i+p, i+q), all at once. */
  function Stage(x: seq<int>, p: nat, q: nat): (y: seq<int>)
    requires p > 0
    ensures |y| == |x|
  {
    seq(|x|, i requires 0 <= i < |x| => StageAt(x, p, q, i))
  }

  function StageAt(x: seq<int>, p: nat, q: nat, i: nat): int
    requires p > 0 && i < |x|
  {
    if Clear(i, p) then if i >= q && i - q + p < |x| then Max(x[i - q + p], x[i]) else x[i]
    else if p <= i && i - p + q < |x| then Min(x[i], x[i - p + q]) else x[i]
  }

  /** The rounds top, top/2, .., q. */
  function Stages(x: seq<int>, p: nat, q: nat, top: nat): (y: seq<int>)
    requires p > 0 && q > 0
    ensures |y| == |x|
    decreases if q > top then 0 else top + 1 - q
  {
    if q > top then x else Stage(Stages(x, p, 2 * q, top), p, q)
  }

  /** The whole merge for p. */
  function Merge(x: seq<int>, p: nat, top: nat): (y: seq<int>)
    requires p > 0
    ensures |y| == |x|
  {
    Stages(Pairs(x, p), p, 2 * p, top)
  }

  /** The merges for p, p/2, .., 1. */
  function Merges(x: seq<int>, p: nat, top: nat): (y: seq<int>)
    ensures |y| == |x|
    decreases p
  {
    if p == 0 then x else Merges(Merge(x, p, top), p / 2, top)
  }

  /** The largest power of two that is reached from b by doubling while below half of n. */
  function Top(n: nat, b: nat): (top: nat)
    requires 0 < b
    ensures b <= top && n <= 2 * top && Doubled(top, b)
    ensures top == b || top < n
    decreases n - b
  {
    if b < n - b then
      var t := Top(n, 2 * b);
      DoubledTrans(t, b);
      t
    else b
  }

  /** The network on a sequence of any length. */
  function Network(x: seq<int>): (y: seq<int>)
    ensures |y| == |x|
  {
    if |x| < 2 then x else Merges(x, Top(|x|, 1), Top(|x|, 1))
  }

  // ----- arithmetic of powers of two

  lemma {:induction false} DoubledTrans(q: nat, b: nat)
    requires b > 0 && Doubled(q, 2 * b)
    ensures Doubled(q, b)
  {
    if q != 2 * b { DoubledTrans(q / 2, b); }
  }

  lemma {:induction false} DoubledStep(q: nat, b: nat)
    requires b > 0 && Doubled(q, b) && q != b
    ensures Doubled(q, 2 * b)
  {
    if q / 2 != b { DoubledStep(q / 2, b); }
  }

  lemma {:induction false} DoubledUp(q: nat, b: nat)
    requires b > 0 && Doubled(q, b)
    ensures Doubled(2 * q, b) && Doubled(2 * q, 2 * b)
  {
    if q != b { DoubledUp(q / 2, b); }
  }

  lemma {:induction false} DoubledMod(q: nat, b: nat)
    requires b > 0 && Doubled(q, b)
    ensures q % b == 0
  {
    if q != b {
      DoubledMod(q / 2, b);
      var k := q / 2 / b;
      assert q == b * (2 * k);
      ModUnique(q, b, 2 * k, 0);
    }
  }

  lemma DoubledHalf(q: nat, b: nat)
    requires b > 0 && Doubled(q, b) && Doubled(b, 1)
    ensures b > 1 ==> Doubled(q, b / 2) && Doubled(b / 2, 1)
  {
    if b > 1 { DoubledTrans(q, b / 2); }
  }

  lemma ModUnique(a: int, b: int, k: int, r: int)
    requires b > 0 && a == b * k + r && 0 <= r < b
    ensures a % b == r && a / b == k
  {
    var d := a / b - k;
    assert b * d == r - a % b by { assert a == b * (a / b) + a % b; }
    assert -b < b * d < b;
    assert d == 0;
  }

  lemma ClearShift(i: int, p: nat, q: int)
    requires p > 0 && q % (2 * p) == 0
    ensures Clear(i + q, p) == Clear(i, p)
  {
    ModUnique(i + q, 2 * p, i / (2 * p) + q / (2 * p), i % (2 * p));
  }

  lemma ClearFlip(i: int, p: nat)
    requires p > 0
    ensures Clear(i + p, p) == !Clear(i, p)
    ensures Clear(i - p, p) == !Clear(i, p)
    ensures 0 <= i && !Clear(i, p) ==> p <= i
  {
    var m := 2 * p;
    var r := i % m;
    assert i == m * (i / m) + r;
    if r < p {
      ModUnique(i + p, m, i / m, r + p);
      ModUnique(i - p, m, i / m - 1, r + p);
    } else {
      ModUnique(i + p, m, i / m + 1, r - p);
      ModUnique(i - p, m, i / m, r - p);
      if 0 <= i < p { ModUnique(i, m, 0, i); }
    }
  }

  // ----- order

  /** Elements d apart are ordered. */
  ghost predicate Apart(x: seq<int>, d: nat)
  {
    forall i, j :: 0 <= i < |x| && j == i + d && j < |x| ==> x[i] <= x[j]
  }

  /** The comparators (i, i+p) have nothing left to do. */
  ghost predicate Paired(x: seq<int>, p: nat)
    requires p > 0
  {
    forall i, j :: 0 <= i < |x| && j == i + p && j < |x| && Clear(i, p) ==> x[i] <= x[j]
  }

  /** The comparators (i+p, i+q) have nothing left to do. */
  ghost predicate Staged(x: seq<int>, p: nat, q: nat)
    requires p > 0
  {
    forall j, k :: p <= j < |x| && k == j - p + q && k < |x| && !Clear(j, p) ==> x[j] <= x[k]
  }

  ghost predicate Ascending(x: seq<int>)
  {
    forall i, j :: 0 <= i < j < |x| ==> x[i] <= x[j]
  }

  lemma PairsOrder(x: seq<int>, p: nat)
    requires p > 0 && Apart(x, 2 * p)
    ensures Apart(Pairs(x, p), 2 * p) && Paired(Pairs(x, p), p)
  {
    var y := Pairs(x, p);
    forall i, j | 0 <= i < |x| && j == i + 2 * p && j < |x| ensures y[i] <= y[j] {
      ClearShift(i, p, 2 * p); ClearFlip(i, p);
      assert y[i] == PairsAt(x, p, i) && y[j] == PairsAt(x, p, j);
    }
    forall i, j | 0 <= i < |x| && j == i + p && j < |x| && Clear(i, p) ensures y[i] <= y[j] {
      ClearFlip(i, p);
      assert y[i] == PairsAt(x, p, i) && y[j] == PairsAt(x, p, j);
    }
  }

  lemma StageApart(x: seq<int>, p: nat, q: nat)
    requires p > 0 && q > 0 && q % (2 * p) == 0
    requires Apart(x, 2 * p)
    ensures Apart(Stage(x, p, q), 2 * p)
  {
    var y := Stage(x, p, q);
    MultipleAtLeast(q, 2 * p);
    forall i, j | 0 <= i < |x| && j == i + 2 * p && j < |x| ensures y[i] <= y[j] {
      ClearShift(i, p, 2 * p); ClearFlip(i, p);
      assert y[i] == StageAt(x, p, q, i) && y[j] == StageAt(x, p, q, j);
    }
  }

  lemma StageStaged(x: seq<int>, p: nat, q: nat)
    requires p > 0 && q > 0 && q % (2 * p) == 0
    ensures Staged(Stage(x, p, q), p, q)
  {
    var y := Stage(x, p, q);
    forall j, k | p <= j < |x| && k == j - p + q && k < |x| && !Clear(j, p) ensures y[j] <= y[k] {
      ClearFlip(j, p); ClearShift(j - p, p, q);
      assert y[j] == StageAt(x, p, q, j) && y[k] == StageAt(x, p, q, k);
    }
  }

  lemma StagePaired(x: seq<int>, p: nat, q: nat)
    requires p > 0 && q > 0 && q % (2 * p) == 0
    requires Apart(x, 2 * p) && Paired(x, p) && Staged(x, p, 2 * q)
    ensures Paired(Stage(x, p, q), p)
  {
    var y := Stage(x, p, q);
    forall i, j | 0 <= i < |x| && j == i + p && j < |x| && Clear(i, p) ensures y[i] <= y[j] {
      ClearFlip(i, p);
      ApartMultiple(x, 2 * p, i, i + q);
      if i >= q {
        ApartMultiple(x, 2 * p, i - q + p, j);
        ClearShift(i - q, p, q); ClearFlip(i - q, p);
      }
      assert y[i] == StageAt(x, p, q, i) && y[j] == StageAt(x, p, q, j);
    }
  }

  lemma MultipleAtLeast(q: nat, b: nat)
    requires b > 0 && q > 0 && q % b == 0
    ensures q >= b
  {
    if q < b { ModUnique(q, b, 0, q); }
  }

  lemma {:induction false} ApartMultiple(x: seq<int>, d: nat, i: nat, j: nat)
    requires d > 0 && Apart(x, d) && i <= j && (j - i) % d == 0
    ensures j < |x| ==> x[i] <= x[j]
    decreases j - i
  {
    if i < j < |x| {
      MultipleAtLeast(j - i, d);
      var k := (j - i) / d;
      assert j - i - d == d * (k - 1) by { assert j - i == d * k; }
      ModUnique(j - i - d, d, k - 1, 0);
      ApartMultiple(x, d, i + d, j);
    }
  }

  lemma {:induction false} StagesOrder(x: seq<int>, p: nat, q: nat, top: nat)
    requires p > 0 && |x| <= 2 * top && Doubled(q, 2 * p) && Doubled(2 * top, q)
    requires Apart(x, 2 * p) && Paired(x, p)
    ensures var y := Stages(x, p, q, top); Apart(y, 2 * p) && Paired(y, p) && Staged(y, p, q)
    decreases if q > top then 0 else top + 1 - q
  {
    if q <= top {
      DoubledStep(2 * top, q);
      DoubledUp(q, 2 * p);
      StagesOrder(x, p, 2 * q, top);
      var z := Stages(x, p, 2 * q, top);
      DoubledMod(q, 2 * p);
      StageApart(z, p, q);
      StageStaged(z, p, q);
      StagePaired(z, p, q);
    }
  }

  /** Merging for p turns ascending classes modulo 2p into ascending classes modulo p. */
  lemma MergeOrder(x: seq<int>, p: nat, top: nat)
    requires p > 0 && |x| <= 2 * top && Doubled(top, p) && Apart(x, 2 * p)
    ensures Apart(Merge(x, p, top), p)
  {
    PairsOrder(x, p);
    DoubledUp(top, p);
    StagesOrder(Pairs(x, p), p, 2 * p, top);
    var y := Merge(x, p, top);
    forall i, j | 0 <= i < |x| && j == i + p && j < |x| ensures y[i] <= y[j] {
      ClearFlip(i, p);
    }
  }

  lemma {:induction false} MergesOrder(x: seq<int>, p: nat, top: nat)
    requires p > 0 && |x| <= 2 * top && Doubled(top, p) && Doubled(p, 1) && Apart(x, 2 * p)
    ensures Ascending(Merges(x, p, top))
    decreases p
  {
    MergeOrder(x, p, top);
    var y := Merge(x, p, top);
    if p == 1 {
      forall i, j | 0 <= i < j < |y| ensures y[i] <= y[j] { ApartMultiple(y, 1, i, j); }
    } else {
      DoubledTrans(top, p / 2);
      MergesOrder(y, p / 2, top);
    }
  }

  /** The network sorts every sequence. */
  lemma NetworkSorts(x: seq<int>)
    ensures Ascending(Network(x))
  {
    if |x| >= 2 {
      MergesOrder(x, Top(|x|, 1), Top(|x|, 1));
    }
  }

  // ----- the network only moves elements

  lemma PairsRearranges(x: seq<int>, p: nat)
    requires p > 0
    ensures Rearranges(Pairs(x, p), x)
  {
    var y := Pairs(x, p);
    var q := seq(|x|, i requires 0 <= i < |x| =>
      if Clear(i, p) then if i + p < |x| && x[i + p] < x[i] then i + p else i
      else if i >= p && x[i] < x[i - p] then i - p else i);
    forall i | 0 <= i < |x| ensures 0 <= q[i] < |x| && q[q[i]] == i && y[i] == x[q[i]] {
      ClearFlip(i, p);
      assert y[i] == PairsAt(x, p, i);
    }
    InvolutionRearranges(y, x, q);
  }

  lemma StageRearranges(x: seq<int>, p: nat, s: nat)
    requires p > 0 && s > 0 && s % (2 * p) == 0
    ensures Rearranges(Stage(x, p, s), x)
  {
    var y := Stage(x, p, s);
    MultipleAtLeast(s, 2 * p);
    var q := seq(|x|, i requires 0 <= i < |x| =>
      if Clear(i, p) then if i >= s && x[i] < x[i - s + p] then i - s + p else i
      else if p <= i && i - p + s < |x| && x[i - p + s] < x[i] then i - p + s else i);
    forall i | 0 <= i < |x| ensures 0 <= q[i] < |x| && q[q[i]] == i && y[i] == x[q[i]] {
      ClearFlip(i, p);
      ClearFlip(i - s, p); ClearShift(i - s, p, s);
      ClearShift(i - p, p, s);
      assert y[i] == StageAt(x, p, s, i);
    }
    InvolutionRearranges(y, x, q);
  }

  lemma {:induction false} StagesRearranges(x: seq<int>, p: nat, q: nat, top: nat)
    requires p > 0 && Doubled(q, 2 * p)
    ensures Rearranges(Stages(x, p, q, top), x)
    decreases if q > top then 0 else top + 1 - q
  {
    if q > top {
      RearrangesRefl(x);
    } else {
      DoubledMod(q, 2 * p);
      DoubledUp(q, 2 * p);
      StagesRearranges(x, p, 2 * q, top);
      StageRearranges(Stages(x, p, 2 * q, top), p, q);
      RearrangesTrans(Stages(x, p, q, top), Stages(x, p, 2 * q, top), x);
    }
  }

  lemma {:induction false} MergesRearranges(x: seq<int>, p: nat, top: nat)
    ensures Rearranges(Merges(x, p, top), x)
    decreases p
  {
    if p == 0 {
      RearrangesRefl(x);
    } else {
      PairsRearranges(x, p);
      StagesRearranges(Pairs(x, p), p, 2 * p, top);
      var y := Merge(x, p, top);
      RearrangesTrans(y, Pairs(x, p), x);
      MergesRearranges(y, p / 2, top);
      RearrangesTrans(Merges(x, p, top), y, x);
    }
  }

  /** The network loses and duplicates nothing. */
  lemma NetworkRearranges(x: seq<int>)
    ensures Rearranges(Network(x), x)
  {
    if |x| < 2 { RearrangesRefl(x); } else { MergesRearranges(x, Top(|x|, 1), Top(|x|, 1)); }
  }
}
