/** Both sorting loops as walks through a merge, index by index. */
module Sorting {
  import opened MergeExchange

  // int32_sort and uint64_sort run the comparators of MergeExchange.Network one at a time and in
  // place, but walk through a merge index by index instead of round by round, and uint64_sort even
  // starts again at index 0 in every round. AtIndex says what such a walk has done to every position
  // when it has reached index i.

  // ----- where an index-by-index walk stands

  /** The last round that has reached a clear position d above the index of the walk. */
  ghost function Level(d: int, b: nat): (r: nat)
    requires b > 0
    ensures r >= b && d < r && Doubled(r, b)
    decreases d - b
  {
    if d < b then b else DoubledTrans(Level(d, 2 * b), b); Level(d, 2 * b)
  }

  /** Position k when the walk has dealt with all indices below i. */
  ghost function AtIndex(s: seq<int>, p: nat, top: nat, i: int, k: nat): int
    requires p > 0 && k < |s|
  {
    if Clear(k, p) then Stages(s, p, Level(k - i, 2 * p), top)[k]
    else if k - p < i then Stages(s, p, 2 * p, top)[k]
    else s[k]
  }

  /** A clear position k when the walk is at index i and has compared it with i+2r and above. */
  ghost function AtRound(s: seq<int>, p: nat, top: nat, i: int, r: nat, k: nat): int
    requires p > 0 && k < |s|
  {
    Stages(s, p, Level(if k - i >= 2 * r then k - i - 1 else k - i, 2 * p), top)[k]
  }

  lemma {:induction false} LevelIs(d: int, b: nat, r: nat)
    requires b > 0 && Doubled(r, b) && d < r && (r == b || r <= 2 * d)
    ensures Level(d, b) == r
    decreases r - b
  {
    if r != b {
      DoubledStep(r, b);
      LevelIs(d, 2 * b, r);
    }
  }

  lemma {:induction false} LevelChange(d: int, b: nat)
    requires b > 0 && Level(d, b) != Level(d - 1, b)
    ensures d >= b && Doubled(d, b)
    decreases d - b
  {
    if d > b {
      LevelChange(d, 2 * b);
      DoubledTrans(d, b);
    }
  }

  /** A set position that the rounds from q on never reach. */
  lemma {:induction false} Untouched(s: seq<int>, p: nat, q: nat, top: nat, j: nat)
    requires p > 0 && q > 0 && j < |s| && !Clear(j, p) && p <= j && j - p + q >= |s|
    ensures Stages(s, p, q, top)[j] == s[j]
    decreases if q > top then 0 else top + 1 - q
  {
    if q <= top {
      Untouched(s, p, 2 * q, top, j);
      assert Stages(s, p, q, top)[j] == StageAt(Stages(s, p, 2 * q, top), p, q, j);
    }
  }

  /** Passing an index in which bit p is set changes nothing. */
  lemma SkipIndex(s: seq<int>, p: nat, top: nat, i: nat, k: nat)
    requires p > 0 && k < |s| && !Clear(i, p)
    ensures AtIndex(s, p, top, i, k) == AtIndex(s, p, top, i + 1, k)
  {
    ClearFlip(k, p);
    if Clear(k, p) && Level(k - i, 2 * p) != Level(k - i - 1, 2 * p) {
      LevelChange(k - i, 2 * p);
      DoubledMod(k - i, 2 * p);
      ClearShift(i, p, k - i);
    }
  }

  /** Entering an index: nothing is out of reach of round q. */
  lemma EnterIndex(s: seq<int>, p: nat, top: nat, i: nat, q: nat, k: nat)
    requires p > 0 && q > p && |s| <= i + 2 * q && k < |s| && Clear(k, p)
    ensures AtIndex(s, p, top, i, k) == AtRound(s, p, top, i, q, k)
  {
  }

  /** One comparator of the walk is the comparator of the network. */
  lemma CompareAt(s: seq<int>, p: nat, top: nat, i: nat, r: nat, a: int)
    requires p > 0 && Clear(i, p) && Doubled(r, 2 * p) && r <= top && i + r < |s|
    requires a == Stages(s, p, 2 * r, top)[i + p]
    ensures Clear(i + r, p)
    ensures Min(a, AtRound(s, p, top, i, r, i + r)) == Stages(s, p, r, top)[i + p]
    ensures Max(a, AtRound(s, p, top, i, r, i + r)) == AtRound(s, p, top, i, r / 2, i + r)
  {
    DoubledMod(r, 2 * p);
    ClearShift(i, p, r);
    ClearFlip(i, p);
    DoubledUp(r, 2 * p);
    LevelIs(r, 2 * p, 2 * r);
    LevelIs(r - 1, 2 * p, r);
    var z := Stages(s, p, 2 * r, top);
    assert Stages(s, p, r, top)[i + p] == StageAt(z, p, r, i + p);
    assert Stages(s, p, r, top)[i + r] == StageAt(z, p, r, i + r);
    DoubledEven(r, 2 * p);
  }

  lemma DoubledEven(r: nat, b: nat)
    requires b > 0 && b % 2 == 0 && Doubled(r, b)
    ensures r % 2 == 0
  {
  }

  /** The comparator with i+r leaves every other clear position where it was. */
  lemma OtherAt(s: seq<int>, p: nat, top: nat, i: nat, r: nat, k: nat)
    requires p > 0 && Doubled(r, 2 * p) && k < |s| && k != i + r && Clear(k, p)
    ensures AtRound(s, p, top, i, r, k) == AtRound(s, p, top, i, r / 2, k)
  {
    hide Clear, Stages;
    DoubledEven(r, 2 * p);
    if r <= k - i < 2 * r {
      DoubledUp(r, 2 * p);
      LevelIs(k - i, 2 * p, 2 * r);
      LevelIs(k - i - 1, 2 * p, 2 * r);
    }
  }

  /** Leaving an index. */
  lemma LeaveIndex(s: seq<int>, p: nat, top: nat, i: nat, k: nat)
    requires p > 0 && k < |s| && Clear(k, p)
    ensures AtRound(s, p, top, i, p, k) == AtIndex(s, p, top, i + 1, k)
  {
  }

  /** At the end of the walk the merge is complete. */
  lemma WalkEnds(s: seq<int>, p: nat, top: nat, i: nat, k: nat)
    requires p > 0 && k < |s| && |s| <= i + 2 * p
    ensures AtIndex(s, p, top, i, k) == Stages(s, p, 2 * p, top)[k]
  {
    ClearFlip(k, p);
    if !Clear(k, p) && k - p >= i { Untouched(s, p, 2 * p, top, k); }
  }

  /** A clear position below the rounds q, 2q, .. has no partner in them. */
  lemma {:induction false} UntouchedLow(s: seq<int>, p: nat, q: nat, top: nat, k: nat)
    requires p > 0 && k < |s| && Clear(k, p) && k < q
    ensures Stages(s, p, q, top)[k] == s[k]
    decreases if q > top then 0 else top + 1 - q
  {
    if q <= top {
      UntouchedLow(s, p, 2 * q, top, k);
      assert Stages(s, p, q, top)[k] == StageAt(Stages(s, p, 2 * q, top), p, q, k);
    }
  }

  lemma WalkStarts(s: seq<int>, p: nat, top: nat, k: nat)
    requires p > 0 && k < |s|
    ensures AtIndex(s, p, top, 0, k) == s[k]
  {
    ClearFlip(k, p);
    if Clear(k, p) { UntouchedLow(s, p, Level(k, 2 * p), top, k); }
  }

  // ----- one index of the walk

  /** Compares a, the value to be stored at i+p, with positions i+r, i+r/2, .., above i+p. */
  function Chain(x: seq<int>, p: nat, i: nat, a: int, r: nat): (y: seq<int>)
    requires i + p < |x| && i + r < |x|
    ensures |y| == |x|
    decreases r
  {
    if r <= p then x[i + p := a]
    else Chain(x[i + r := Max(a, x[i + r])], p, i, Min(a, x[i + r]), r / 2)
  }

  /** The walk stands at index i. */
  ghost predicate Walked(x: seq<int>, s: seq<int>, p: nat, top: nat, i: int)
    requires p > 0
  {
    |x| == |s| && forall k :: 0 <= k < |s| ==> x[k] == AtIndex(s, p, top, i, k)
  }

  lemma {:induction false} ChainWalks(x: seq<int>, s: seq<int>, p: nat, top: nat, i: nat, a: int, r: nat)
    requires p > 0 && Clear(i, p) && |x| == |s| && i + p < |s| && i + r < |s|
    requires r == p || Doubled(r, 2 * p)
    requires r <= top || r == p
    requires a == Stages(s, p, 2 * r, top)[i + p]
    requires forall k :: 0 <= k < |s| && Clear(k, p) ==> x[k] == AtRound(s, p, top, i, r, k)
    requires forall k :: 0 <= k < |s| && !Clear(k, p) && k != i + p ==> x[k] == AtIndex(s, p, top, i, k)
    ensures Walked(Chain(x, p, i, a, r), s, p, top, i + 1)
    decreases r
  {
    hide Clear, AtRound, Stages, Doubled;
    ClearFlip(i, p);
    if r <= p {
      var y := Chain(x, p, i, a, r);
      forall k | 0 <= k < |s| ensures y[k] == AtIndex(s, p, top, i + 1, k) {
        if Clear(k, p) { LeaveIndex(s, p, top, i, k); }
      }
    } else {
      CompareAt(s, p, top, i, r, a);
      HalfDoubled(r, p);
      var x' := x[i + r := Max(a, x[i + r])];
      forall k | 0 <= k < |s| && Clear(k, p) ensures x'[k] == AtRound(s, p, top, i, r / 2, k) {
        if k != i + r { OtherAt(s, p, top, i, r, k); }
      }
      ChainWalks(x', s, p, top, i, Min(a, x[i + r]), r / 2);
    }
  }

  lemma HalfDoubled(r: nat, p: nat)
    requires p > 0 && Doubled(r, 2 * p)
    ensures r / 2 == p || (r / 2 > p && Doubled(r / 2, 2 * p))
    ensures 2 * (r / 2) == r && Doubled(r / 2, p)
  {
    if r != 2 * p { DoubledTrans(r / 2, p); }
  }

  /** The walk makes one step at a clear index whose highest partner is i+q. */
  lemma ChainStep(x: seq<int>, s: seq<int>, p: nat, top: nat, i: nat, q: nat)
    requires p > 0 && Clear(i, p) && Doubled(q, 2 * p) && q <= top && i + q < |s| <= i + 2 * q
    requires Walked(x, s, p, top, i)
    ensures Walked(Chain(x, p, i, x[i + p], q), s, p, top, i + 1)
  {
    ClearFlip(i, p);
    Untouched(s, p, 2 * q, top, i + p);
    forall k | 0 <= k < |s| && Clear(k, p) ensures x[k] == AtRound(s, p, top, i, q, k) {
      EnterIndex(s, p, top, i, q, k);
    }
    ChainWalks(x, s, p, top, i, x[i + p], q);
  }

  // ----- a repeated index

  lemma {:induction false} LevelBelow(d: int, b: nat, r: nat)
    requires b > 0 && Doubled(r, b) && d < r
    ensures Doubled(r, Level(d, b))
    decreases r - b
  {
    if d >= b {
      DoubledStep(r, b);
      LevelBelow(d, 2 * b, r);
    }
  }

  /** Further rounds only lower set positions and raise clear ones. */
  lemma {:induction false} Monotone(s: seq<int>, p: nat, q: nat, r: nat, top: nat, j: nat)
    requires p > 0 && Doubled(q, 2 * p) && Doubled(r, q) && j < |s|
    ensures Clear(j, p) ==> Stages(s, p, r, top)[j] <= Stages(s, p, q, top)[j]
    ensures !Clear(j, p) ==> Stages(s, p, q, top)[j] <= Stages(s, p, r, top)[j]
    decreases r - q
  {
    if q != r && q <= top {
      DoubledStep(r, q);
      DoubledUp(q, 2 * p);
      Monotone(s, p, 2 * q, r, top, j);
      assert Stages(s, p, q, top)[j] == StageAt(Stages(s, p, 2 * q, top), p, q, j);
    } else if q != r {
      assert r > top;
    }
  }

  lemma RoundOrdered(s: seq<int>, p: nat, top: nat, i: nat, r: nat)
    requires p > 0 && Clear(i, p) && Doubled(r, 2 * p) && r <= top && i + r < |s|
    ensures Stages(s, p, r, top)[i + p] <= Stages(s, p, r, top)[i + r]
  {
    DoubledMod(r, 2 * p);
    ClearShift(i, p, r);
    ClearFlip(i, p);
    var z := Stages(s, p, 2 * r, top);
    assert Stages(s, p, r, top)[i + p] == StageAt(z, p, r, i + p);
    assert Stages(s, p, r, top)[i + r] == StageAt(z, p, r, i + r);
  }

  /** A comparator that the walk has already run is in order, and stays so. */
  lemma AlreadyOrdered(s: seq<int>, p: nat, top: nat, i: nat, m: int, r: nat)
    requires p > 0 && Clear(i, p) && i < m && Doubled(r, 2 * p) && r <= top && i + r < |s|
    ensures AtIndex(s, p, top, m, i + p) <= AtIndex(s, p, top, m, i + r)
  {
    hide Clear, Stages, Doubled;
    assert Clear(i + r, p) by { DoubledMod(r, 2 * p); ClearShift(i, p, r); }
    ClearFlip(i, p);
    DoubledRefl(2 * p);
    RoundOrdered(s, p, top, i, r);
    Monotone(s, p, 2 * p, r, top, i + p);
    LevelBelow(i + r - m, 2 * p, r);
    Monotone(s, p, Level(i + r - m, 2 * p), r, top, i + r);
  }

  lemma DoubledRefl(b: nat)
    requires b > 0
    ensures Doubled(b, b)
  {
  }

  /** Walking again through an index that is already dealt with does nothing. */
  lemma {:induction false} RepeatedChain(x: seq<int>, s: seq<int>, p: nat, top: nat, i: nat, m: int, r: nat)
    requires p > 0 && Clear(i, p) && i < m && i + p < |s| && i + r < |s|
    requires r == p || (Doubled(r, 2 * p) && r <= top)
    requires Walked(x, s, p, top, m)
    ensures Chain(x, p, i, x[i + p], r) == x
    decreases r
  {
    if r > p {
      AlreadyOrdered(s, p, top, i, m, r);
      HalfDoubled(r, p);
      assert x[i + r := Max(x[i + p], x[i + r])] == x;
      RepeatedChain(x, s, p, top, i, m, r / 2);
    }
  }
}
