/** Permutations of 0..n-1, written as the sequence of their values. */
module Permutations {

  predicate IsPerm(p: seq<int>)
  {
    && (forall i :: 0 <= i < |p| ==> 0 <= p[i] < |p|)
    && (forall i, j :: 0 <= i < j < |p| ==> p[i] != p[j])
  }

  function Identity(n: nat): (p: seq<int>)
    ensures IsPerm(p) && |p| == n
  {
    seq(n, i => i)
  }

  /** s rearranged by q: position i of the result holds s[q[i]]. */
  function Permute<T>(s: seq<T>, q: seq<int>): (r: seq<T>)
    requires |q| == |s| && IsPerm(q)
    ensures |r| == |s|
  {
    seq(|s|, i requires 0 <= i < |s| => s[q[i]])
  }

  lemma PermuteIsPerm(p: seq<int>, q: seq<int>)
    requires IsPerm(p) && IsPerm(q) && |p| == |q|
    ensures IsPerm(Permute(p, q))
  {
    var r := Permute(p, q);
    forall i, j | 0 <= i < j < |r| ensures r[i] != r[j] {
      assert q[i] != q[j];
      assert r[i] == p[q[i]] && r[j] == p[q[j]];
      if q[i] < q[j] { assert p[q[i]] != p[q[j]]; } else { assert p[q[j]] != p[q[i]]; }
    }
  }

  /** The values of a sequence without repetition, as many as its positions. */
  lemma {:induction false} ValuesCount(p: seq<int>, k: nat)
    requires k <= |p| && forall i, j :: 0 <= i < j < |p| ==> p[i] != p[j]
    ensures |set i | 0 <= i < k :: p[i]| == k
  {
    var s := set i | 0 <= i < k :: p[i];
    if k > 0 {
      var s' := set i | 0 <= i < k - 1 :: p[i];
      ValuesCount(p, k - 1);
      assert s == s' + {p[k - 1]};
    }
  }

  function Range(n: nat): (r: set<int>)
    ensures |r| == n && forall i :: i in r <==> 0 <= i < n
  {
    if n == 0 then {} else Range(n - 1) + {n - 1}
  }

  lemma {:induction false} SubsetCount<T>(a: set<T>, b: set<T>)
    requires a <= b
    ensures |a| <= |b|
    ensures |a| == |b| ==> a == b
  {
    if a != {} {
      var x :| x in a;
      SubsetCount(a - {x}, b - {x});
    }
  }

  /** A permutation takes every value. */
  lemma Surjective(p: seq<int>, y: int)
    requires IsPerm(p) && 0 <= y < |p|
    ensures exists x :: 0 <= x < |p| && p[x] == y
  {
    var s := set i | 0 <= i < |p| :: p[i];
    ValuesCount(p, |p|);
    SubsetCount(s, Range(|p|));
    assert y in s;
  }

  ghost function IndexOf(p: seq<int>, y: int): (x: int)
    requires IsPerm(p) && 0 <= y < |p|
    ensures 0 <= x < |p| && p[x] == y
  {
    Surjective(p, y);
    var x :| 0 <= x < |p| && p[x] == y;
    x
  }

  ghost function Inverse(p: seq<int>): (q: seq<int>)
    requires IsPerm(p)
    ensures |q| == |p| && IsPerm(q)
    ensures forall y :: 0 <= y < |p| ==> 0 <= q[y] < |p| && p[q[y]] == y
    ensures forall x :: 0 <= x < |p| ==> 0 <= p[x] < |p| && q[p[x]] == x
  {
    seq(|p|, y requires 0 <= y < |p| => IndexOf(p, y))
  }

  /** t holds the elements of s in another order. */
  ghost predicate Rearranges(t: seq<int>, s: seq<int>)
  {
    exists q: seq<int> :: |q| == |s| && IsPerm(q) && t == Permute(s, q)
  }

  lemma RearrangesTrans(u: seq<int>, t: seq<int>, s: seq<int>)
    requires Rearranges(u, t) && Rearranges(t, s)
    ensures Rearranges(u, s)
  {
    var p: seq<int> :| |p| == |t| && IsPerm(p) && u == Permute(t, p);
    var q: seq<int> :| |q| == |s| && IsPerm(q) && t == Permute(s, q);
    PermuteIsPerm(q, p);
    assert u == Permute(s, Permute(q, p));
  }

  lemma RearrangesRefl(s: seq<int>)
    ensures Rearranges(s, s)
  {
    assert s == Permute(s, Identity(|s|));
  }

  /** Moving every element to its partner under an involution is a rearrangement. */
  lemma InvolutionRearranges(t: seq<int>, s: seq<int>, q: seq<int>)
    requires |q| == |s| == |t|
    requires forall i :: 0 <= i < |q| ==> 0 <= q[i] < |q| && q[q[i]] == i && t[i] == s[q[i]]
    ensures Rearranges(t, s)
  {
    forall i, j | 0 <= i < j < |q| ensures q[i] != q[j] { assert q[q[i]] == i && q[q[j]] == j; }
    assert t == Permute(s, q);
  }

  /** A rearrangement keeps how often each element occurs. */
  lemma RearrangesMultiset(t: seq<int>, s: seq<int>)
    requires Rearranges(t, s)
    ensures multiset(t) == multiset(s)
  {
    var q: seq<int> :| |q| == |s| && IsPerm(q) && t == Permute(s, q);
    PermuteMultiset(s, q);
  }

  /** q without the position k at which it takes its greatest value. */
  lemma DropGreatest(q: seq<int>, k: nat)
    requires IsPerm(q) && k < |q| && q[k] == |q| - 1
    ensures IsPerm(q[..k] + q[k + 1..])
  {
    var r := q[..k] + q[k + 1..];
    forall i | 0 <= i < |r| ensures 0 <= r[i] < |r| {
      assert r[i] == q[if i < k then i else i + 1];
    }
    forall i, j | 0 <= i < j < |r| ensures r[i] != r[j] {
      assert r[i] == q[if i < k then i else i + 1] && r[j] == q[if j < k then j else j + 1];
    }
  }

  lemma {:induction false} PermuteMultiset(s: seq<int>, q: seq<int>)
    requires |q| == |s| && IsPerm(q)
    ensures multiset(Permute(s, q)) == multiset(s)
    decreases |s|
  {
    hide IsPerm;
    var n := |s|;
    if n > 0 {
      var k := IndexOf(q, n - 1);
      var t := Permute(s, q);
      var q', s' := q[..k] + q[k + 1..], s[..n - 1];
      DropGreatest(q, k);
      PermuteMultiset(s', q');
      DropPermuted(s, q, k);
      assert t == t[..k] + [t[k]] + t[k + 1..];
      assert s == s' + [s[n - 1]];
    }
  }

  lemma DropPermuted(s: seq<int>, q: seq<int>, k: nat)
    requires |q| == |s| && IsPerm(q) && k < |q| && q[k] == |q| - 1 && IsPerm(q[..k] + q[k + 1..])
    ensures Permute(s[..|s| - 1], q[..k] + q[k + 1..]) == Permute(s, q)[..k] + Permute(s, q)[k + 1..]
  {
  }
}
