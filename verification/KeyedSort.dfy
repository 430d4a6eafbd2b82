/** Sorting words key * base + value: how permutations are inverted and composed. */
module KeyedSort {
  import opened Permutations
  import opened MergeExchange
  import opened SortMethods

  predicate Below(v: seq<int>, base: int)
  {
    forall i :: 0 <= i < |v| ==> 0 <= v[i] < base
  }

  /** The words with keys p and values v. */
  function Keyed(p: seq<int>, v: seq<int>, base: int): (s: seq<int>)
    requires |p| == |v|
    ensures |s| == |p|
  {
    seq(|p|, x requires 0 <= x < |p| => p[x] * base + v[x])
  }

  lemma KeyedElem(p: seq<int>, v: seq<int>, base: int, x: int)
    requires |p| == |v| && 0 <= x < |p|
    ensures Keyed(p, v, base)[x] == p[x] * base + v[x]
  {
  }

  lemma KeyedAt(p: seq<int>, v: seq<int>, base: int, x: int)
    requires |p| == |v| && 0 <= x < |p| && base > 0 && 0 <= v[x] < base
    ensures Keyed(p, v, base)[x] / base == p[x] && Keyed(p, v, base)[x] % base == v[x]
  {
    ModUnique(p[x] * base + v[x], base, p[x], v[x]);
  }

  /** A permutation in ascending order is the identity. */
  lemma AscendingPerm(p: seq<int>)
    requires IsPerm(p) && Ascending(p)
    ensures p == Identity(|p|)
  {
    forall y | 0 <= y < |p| ensures p[y] == y {
      AtLeast(p, y);
      AtMost(p, y);
    }
  }

  lemma {:induction false} AtLeast(p: seq<int>, y: int)
    requires IsPerm(p) && Ascending(p) && 0 <= y < |p|
    ensures p[y] >= y
    decreases y
  {
    if y > 0 { AtLeast(p, y - 1); assert p[y - 1] != p[y]; }
  }

  lemma {:induction false} AtMost(p: seq<int>, y: int)
    requires IsPerm(p) && Ascending(p) && 0 <= y < |p|
    ensures p[y] <= y
    decreases |p| - y
  {
    if y + 1 < |p| { AtMost(p, y + 1); assert p[y] != p[y + 1]; }
  }

  /** Sorting by a permutation of keys puts every value at its key. */
  lemma SortedByKey(t: seq<int>, p: seq<int>, v: seq<int>, base: int)
    requires IsPerm(p) && |v| == |p| && base > 0 && Below(v, base)
    requires Ascending(t) && Rearranges(t, Keyed(p, v, base))
    ensures t == Keyed(Identity(|p|), Permute(v, Inverse(p)), base)
  {
    var s := Keyed(p, v, base);
    var q: seq<int> :| |q| == |s| && IsPerm(q) && t == Permute(s, q);
    var k := Permute(p, q);
    PermuteIsPerm(p, q);
    forall y | 0 <= y < |p| ensures t[y] / base == k[y] { KeyedAt(p, v, base, q[y]); }
    assert Ascending(k) by {
      forall i, j | 0 <= i < j < |k| ensures k[i] <= k[j] { DivMono(t[i], t[j], base); }
    }
    AscendingPerm(k);
    forall y | 0 <= y < |p| ensures t[y] == Keyed(Identity(|p|), Permute(v, Inverse(p)), base)[y] {
      assert p[q[y]] == k[y] == y;
      assert q[y] == Inverse(p)[y];
    }
  }

  lemma DivMono(a: int, b: int, base: int)
    requires a <= b && base > 0
    ensures a / base <= b / base
  {
    var d := b / base - a / base;
    assert base * d == b - a + a % base - b % base;
    assert base * d > -base;
  }

  /** The words fit into an i32 if there is room for the greatest key. */
  lemma KeyedWords(p: seq<int>, v: seq<int>, base: int)
    requires |p| == |v| && IsPerm(p) && base > 0 && Below(v, base) && |p| * base <= 0x8000_0000
    ensures AllIn(I32, Keyed(p, v, base))
  {
    forall x | 0 <= x < |p| ensures InKind(I32, Keyed(p, v, base)[x]) {
      KeyedElem(p, v, base, x);
      WordRoom(|p|, p[x], v[x], base);
    }
  }

  lemma {:induction false} WordRoom(n: nat, key: nat, value: int, base: int)
    requires key < n && 0 <= value < base
    ensures 0 <= key * base + value < n * base
    decreases n
  {
    assert n * base == (n - 1) * base + base;
    if key < n - 1 {
      WordRoom(n - 1, key, value, base);
    } else if key > 0 {
      WordRoom(n - 1, key - 1, value, base);
      assert key * base == (key - 1) * base + base;
    }
  }

  /** int32_sort on words whose keys are a permutation. */
  method SortKeyed(x: array<int>, lo: nat, hi: nat, ghost p: seq<int>, ghost v: seq<int>, ghost base: int)
    requires lo <= hi <= x.Length && |p| == |v| == hi - lo
    requires IsPerm(p) && base > 0 && Below(v, base) && x[lo..hi] == Keyed(p, v, base)
    requires (hi - lo) * base <= 0x8000_0000
    modifies x
    ensures x[lo..hi] == Keyed(Identity(hi - lo), Permute(v, Inverse(p)), base)
    ensures x[..lo] == old(x[..lo]) && x[hi..] == old(x[hi..])
  {
    KeyedWords(p, v, base);
    Int32Sort(x, lo, hi);
    SortedByKey(x[lo..hi], p, v, base);
  }
}
