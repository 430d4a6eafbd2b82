/** The methods of int32_sort.rs and uint64_sort.rs, on a slice lo..hi of an array. */
module SortMethods {
  import opened MergeExchange
  import opened Permutations
  import opened Sorting

  /** What is sorted: the values of i32 or of u64. */
  datatype Kind = I32 | U64

  predicate InKind(kind: Kind, v: int)
  {
    match kind
    case I32 => -0x8000_0000 <= v < 0x8000_0000
    case U64 => 0 <= v < 0x1_0000_0000_0000_0000
  }

  predicate AllIn(kind: Kind, s: seq<int>)
  {
    forall k :: 0 <= k < |s| ==> InKind(kind, s[k])
  }

  /** The highest bit of the word v. */
  predicate HighBit(kind: Kind, v: int)
  {
    match kind
    case I32 => v < 0
    case U64 => v >= 0x8000_0000_0000_0000
  }

  /** b.wrapping_sub(a) */
  function WrappingSub(kind: Kind, b: int, a: int): (d: int)
    ensures InKind(kind, d)
  {
    match kind
    case I32 => (b - a + 0x8000_0000) % 0x1_0000_0000 - 0x8000_0000
    case U64 => (b - a) % 0x1_0000_0000_0000_0000
  }

  /** The highest bit of (!b & a) | ((!b | a) & b.wrapping_sub(a)). */
  predicate Borrow(kind: Kind, a: int, b: int)
  {
    var (s, t) := (HighBit(kind, a), HighBit(kind, b));
    (!t && s) || ((!t || s) && HighBit(kind, WrappingSub(kind, b, a)))
  }

  /** The borrow of b - a: it compares unsigned words, and signed ones of the same sign. */
  lemma BorrowCompares(kind: Kind, a: int, b: int)
    requires InKind(kind, a) && InKind(kind, b)
    ensures Borrow(kind, a, b) == if kind == I32 && HighBit(kind, a) != HighBit(kind, b) then a < 0 else b < a
  {
  }

  /** int32_minmax: c is the sign of its mask c, which >>= 31 spreads over the word. */
  method Int32MinMax(a: int, b: int) returns (lo: int, hi: int)
    requires InKind(I32, a) && InKind(I32, b)
    ensures lo == Min(a, b) && hi == Max(a, b)
  {
    hide Borrow;
    BorrowCompares(I32, a, b);
    var ab := HighBit(I32, b) != HighBit(I32, a);
    var c := Borrow(I32, a, b);
    c := c != (ab && (c != HighBit(I32, b)));
    if c { return b, a; } else { return a, b; }
  }

  /** uint64_minmax: the highest bit of d, shifted down and negated, is the mask. */
  method Uint64MinMax(a: int, b: int) returns (lo: int, hi: int)
    requires InKind(U64, a) && InKind(U64, b)
    ensures lo == Min(a, b) && hi == Max(a, b)
  {
    hide Borrow;
    BorrowCompares(U64, a, b);
    var c := Borrow(U64, a, b);
    if c { return b, a; } else { return a, b; }
  }

  method MinMax(kind: Kind, a: int, b: int) returns (lo: int, hi: int)
    requires InKind(kind, a) && InKind(kind, b)
    ensures lo == Min(a, b) && hi == Max(a, b)
  {
    match kind
    case I32 => lo, hi := Int32MinMax(a, b);
    case U64 => lo, hi := Uint64MinMax(a, b);
  }

  lemma PairsIn(kind: Kind, s: seq<int>, p: nat)
    requires p > 0 && AllIn(kind, s)
    ensures AllIn(kind, Pairs(s, p))
  {
    hide InKind, Clear;
  }

  /** The first inner loop of a merge: the comparators (i, i+p). */
  method PairLoop(kind: Kind, x: array<int>, lo: nat, hi: nat, p: nat)
    requires lo <= hi <= x.Length && 0 < p < hi - lo && AllIn(kind, x[lo..hi])
    modifies x
    ensures AllIn(kind, x[lo..hi])
    ensures x[lo..hi] == Pairs(old(x[lo..hi]), p)
    ensures x[..lo] == old(x[..lo]) && x[hi..] == old(x[hi..])
  {
    hide InKind, Clear;
    PairsIn(kind, x[lo..hi], p);
    ghost var s := x[lo..hi];
    var n := hi - lo;
    var i := 0;
    while i < n - p
      invariant 0 <= i <= n - p
      invariant forall k :: 0 <= k < n ==>
        x[lo + k] == if (if Clear(k, p) then k < i else k - p < i) then PairsAt(s, p, k) else s[k]
      invariant x[..lo] == old(x[..lo]) && x[hi..] == old(x[hi..])
    {
      ClearFlip(i, p);
      if Clear(i, p) {
        var l, h := MinMax(kind, x[lo + i], x[lo + i + p]);
        x[lo + i] := l;
        x[lo + i + p] := h;
      }
      i := i + 1;
    }
    forall k | 0 <= k < n ensures x[lo + k] == PairsAt(s, p, k) { ClearFlip(k, p); }
    assert x[lo..hi] == Pairs(s, p);
  }

  /** The innermost loop of a merge: the comparators (i+p, i+r) for r = q, q/2, .. above p. */
  method ChainLoop(kind: Kind, x: array<int>, lo: nat, hi: nat, p: nat, q: nat, i: nat)
    requires lo <= hi <= x.Length && 0 < p < q && i + q < hi - lo && AllIn(kind, x[lo..hi])
    modifies x
    ensures AllIn(kind, x[lo..hi])
    ensures x[lo..hi] == Chain(old(x[lo..hi]), p, i, old(x[lo + i + p]), q)
    ensures x[..lo] == old(x[..lo]) && x[hi..] == old(x[hi..])
  {
    ghost var s := x[lo..hi];
    var a := x[lo + i + p];
    var r := q;
    while r > p
      invariant 0 <= r <= q
      invariant Chain(x[lo..hi], p, i, a, r) == Chain(s, p, i, s[i + p], q)
      invariant InKind(kind, a) && AllIn(kind, x[lo..hi])
      invariant x[..lo] == old(x[..lo]) && x[hi..] == old(x[hi..])
    {
      ghost var y := x[lo..hi];
      var l, h := MinMax(kind, a, x[lo + i + r]);
      x[lo + i + r] := h;
      assert x[lo..hi] == y[i + r := h];
      a := l;
      r := r / 2;
    }
    ghost var z := x[lo..hi];
    x[lo + i + p] := a;
    assert x[lo..hi] == z[i + p := a];
  }

  /** A merge is a walk from index 0, seen from the sequence it starts with. */
  lemma WalkBegins(s: seq<int>, p: nat, top: nat)
    requires p > 0
    ensures Walked(s, s, p, top, 0)
  {
    forall k | 0 <= k < |s| ensures s[k] == AtIndex(s, p, top, 0, k) { WalkStarts(s, p, top, k); }
  }

  lemma WalkFinishes(x: seq<int>, s: seq<int>, p: nat, top: nat, i: nat)
    requires p > 0 && |s| <= i + 2 * p && Walked(x, s, p, top, i)
    ensures x == Stages(s, p, 2 * p, top)
  {
    forall k | 0 <= k < |s| ensures x[k] == Stages(s, p, 2 * p, top)[k] { WalkEnds(s, p, top, i, k); }
  }

  lemma WalkSkips(x: seq<int>, s: seq<int>, p: nat, top: nat, i: nat)
    requires p > 0 && !Clear(i, p) && Walked(x, s, p, top, i)
    ensures Walked(x, s, p, top, i + 1)
  {
    forall k | 0 <= k < |s| ensures x[k] == AtIndex(s, p, top, i + 1, k) { SkipIndex(s, p, top, i, k); }
  }

  /** One merge of int32_sort: the index i is carried from one round to the next. */
  method MergeCarrying(x: array<int>, lo: nat, hi: nat, p: nat, top: nat)
    requires lo <= hi <= x.Length && 0 < p <= top < hi - lo <= 2 * top && Doubled(top, p)
    requires AllIn(I32, x[lo..hi])
    modifies x
    ensures AllIn(I32, x[lo..hi])
    ensures x[lo..hi] == Merge(old(x[lo..hi]), p, top)
    ensures x[..lo] == old(x[..lo]) && x[hi..] == old(x[hi..])
  {
    hide AllIn, Walked, Clear, Doubled, Stages, Chain, Pairs;
    var n := hi - lo;
    PairLoop(I32, x, lo, hi, p);
    ghost var s := x[lo..hi];
    var i := 0;
    var q := top;
    WalkBegins(s, p, top);
    while q > p
      invariant p <= q <= top && Doubled(q, p)
      invariant 0 <= i && n <= i + 2 * q
      invariant AllIn(I32, x[lo..hi])
      invariant Walked(x[lo..hi], s, p, top, i)
      invariant x[..lo] == old(x[..lo]) && x[hi..] == old(x[hi..])
    {
      DoubledStep(q, p);
      HalfDoubled(q, p);
      while i < n - q
        invariant 0 <= i && n <= i + 2 * q
        invariant AllIn(I32, x[lo..hi])
        invariant Walked(x[lo..hi], s, p, top, i)
        invariant x[..lo] == old(x[..lo]) && x[hi..] == old(x[hi..])
      {
        if Clear(i, p) {
          ChainStep(x[lo..hi], s, p, top, i, q);
          ChainLoop(I32, x, lo, hi, p, q, i);
        } else {
          WalkSkips(x[lo..hi], s, p, top, i);
        }
        i := i + 1;
      }
      q := q / 2;
    }
    WalkFinishes(x[lo..hi], s, p, top, i);
  }

  /** One merge of uint64_sort: every round starts again at index 0. */
  method MergeRestarting(x: array<int>, lo: nat, hi: nat, p: nat, top: nat)
    requires lo <= hi <= x.Length && 0 < p <= top < hi - lo <= 2 * top && Doubled(top, p)
    requires AllIn(U64, x[lo..hi])
    modifies x
    ensures AllIn(U64, x[lo..hi])
    ensures x[lo..hi] == Merge(old(x[lo..hi]), p, top)
    ensures x[..lo] == old(x[..lo]) && x[hi..] == old(x[hi..])
  {
    hide AllIn, Walked, Clear, Doubled, Stages, Chain, Pairs;
    var n := hi - lo;
    PairLoop(U64, x, lo, hi, p);
    ghost var s := x[lo..hi];
    ghost var m := 0;  // the walk stands here
    var q := top;
    WalkBegins(s, p, top);
    while q > p
      invariant p <= q <= top && Doubled(q, p)
      invariant 0 <= m && n <= m + 2 * q && (m == 0 || m <= n - 2 * q)
      invariant AllIn(U64, x[lo..hi])
      invariant Walked(x[lo..hi], s, p, top, m)
      invariant x[..lo] == old(x[..lo]) && x[hi..] == old(x[hi..])
    {
      DoubledStep(q, p);
      HalfDoubled(q, p);
      var i := 0;
      ghost var f := m;
      while i < n - q
        invariant 0 <= i <= n - q && m == if i < f then f else i
        invariant AllIn(U64, x[lo..hi])
        invariant Walked(x[lo..hi], s, p, top, m)
        invariant x[..lo] == old(x[..lo]) && x[hi..] == old(x[hi..])
      {
        if Clear(i, p) {
          if i < f {
            RepeatedChain(x[lo..hi], s, p, top, i, m, q);
          } else {
            ChainStep(x[lo..hi], s, p, top, i, q);
          }
          ChainLoop(U64, x, lo, hi, p, q, i);
        } else if i >= f {
          WalkSkips(x[lo..hi], s, p, top, i);
        }
        i := i + 1;
        if i > f { m := i; }
      }
      q := q / 2;
    }
    WalkFinishes(x[lo..hi], s, p, top, m);
  }

  /** int32_sort: the slice ends up ascending, with the elements it had. */
  method Int32Sort(x: array<int>, lo: nat, hi: nat)
    requires lo <= hi <= x.Length && AllIn(I32, x[lo..hi])
    modifies x
    ensures Ascending(x[lo..hi]) && Rearranges(x[lo..hi], old(x[lo..hi]))
    ensures x[..lo] == old(x[..lo]) && x[hi..] == old(x[hi..])
  {
    hide AllIn, Doubled, Ascending, Rearranges;
    ghost var s := x[lo..hi];
    NetworkSorts(s);
    NetworkRearranges(s);
    var n := hi - lo;
    if n < 2 { return; }
    var top := 1;
    while top < n - top
      invariant 1 <= top < n && Top(n, top) == Top(n, 1)
      decreases n - top
    {
      top := top + top;
    }
    var p: nat := top;
    while p > 0
      invariant p <= top && (p > 0 ==> Doubled(top, p) && Doubled(p, 1))
      invariant AllIn(I32, x[lo..hi])
      invariant Merges(x[lo..hi], p, top) == Network(s)
      invariant x[..lo] == old(x[..lo]) && x[hi..] == old(x[hi..])
    {
      MergeCarrying(x, lo, hi, p, top);
      DoubledHalf(top, p);
      p := p / 2;
    }
  }

  /** uint64_sort: the array ends up ascending, with the elements it had. */
  method Uint64Sort(x: array<int>)
    requires AllIn(U64, x[..])
    modifies x
    ensures Ascending(x[..]) && Rearranges(x[..], old(x[..]))
  {
    hide AllIn, Doubled, Ascending, Rearranges;
    ghost var s := x[..];
    NetworkSorts(s);
    NetworkRearranges(s);
    var n := x.Length;
    if n < 2 { return; }
    var top := 1;
    while top < n - top
      invariant 1 <= top < n && Top(n, top) == Top(n, 1)
      decreases n - top
    {
      top := top + top;
    }
    var p: nat := top;
    assert x[0..n] == x[..];
    while p > 0
      invariant p <= top && (p > 0 ==> Doubled(top, p) && Doubled(p, 1))
      invariant AllIn(U64, x[0..n])
      invariant Merges(x[0..n], p, top) == Network(s)
    {
      MergeRestarting(x, 0, n, p, top);
      DoubledHalf(top, p);
      p := p / 2;
    }
    assert x[0..n] == x[..];
  }
}
