/**
 The part of cbrecursion that finds, for every point, the least element of its cycle: a doubling
 loop on words that pack a power of the permutation with the least element seen so far, in two
 layouts, one for w <= 10 and one for larger w.
 */
module CycleMinima {
  import opened Permutations
  import opened Cycles
  import opened Benes
  import opened Words
  import opened KeyedSort
  import opened MergeExchange

  const H: int := 0x1_0000  // the words hold two halves of 16 bits
  const N: int := 0x400     // or a 10-bit field above a 10-bit minimum

  /** p^j. */
  function Power(p: seq<int>, j: nat): (q: seq<int>)
    requires IsPerm(p)
    ensures |q| == |p| && IsPerm(q)
    ensures forall x :: 0 <= x < |p| ==> q[x] == Iter(p, j, x)
  {
    hide IsPerm;
    var q := seq(|p|, x requires 0 <= x < |p| => Iter(p, j, x));
    PowerIsPerm(p, j, q);
    q
  }

  lemma PowerIsPerm(p: seq<int>, j: nat, q: seq<int>)
    requires IsPerm(p) && |q| == |p| && forall x :: 0 <= x < |p| ==> q[x] == Iter(p, j, x)
    ensures IsPerm(q)
  {
    forall x, y | 0 <= x < y < |q| ensures q[x] != q[y] {
      if q[x] == q[y] { IterInjective(p, j, x, y); }
    }
  }

  /** The least of the first k points from every start. */
  function Least(p: seq<int>, k: nat): (c: seq<int>)
    requires IsPerm(p) && k > 0
    ensures |c| == |p| && Below(c, |p|)
    ensures forall x :: 0 <= x < |p| ==> c[x] == LeastOf(p, k, x)
  {
    hide IsPerm;
    seq(|p|, x requires 0 <= x < |p| => LeastOf(p, k, x))
  }

  function MinSeq(a: seq<int>, b: seq<int>): (c: seq<int>)
    requires |a| == |b|
    ensures |c| == |a|
  {
    seq(|a|, x requires 0 <= x < |a| => Min(a[x], b[x]))
  }

  lemma PowerDouble(p: seq<int>, j: nat)
    requires IsPerm(p)
    ensures Permute(Power(p, j), Power(p, j)) == Power(p, 2 * j)
  {
    hide IsPerm, Iter;
    var q := Power(p, j);
    forall x | 0 <= x < |p| ensures Permute(q, q)[x] == Power(p, 2 * j)[x] {
      IterAdd(p, j, j, x);
      assert Permute(q, q)[x] == q[q[x]];
    }
  }

  lemma LeastDouble(p: seq<int>, j: nat)
    requires IsPerm(p) && j > 0
    ensures MinSeq(Least(p, j), Permute(Least(p, j), Power(p, j))) == Least(p, 2 * j)
  {
    hide IsPerm, Iter, LeastOf;
    var c, q := Least(p, j), Power(p, j);
    forall x | 0 <= x < |p| ensures MinSeq(c, Permute(c, q))[x] == Least(p, 2 * j)[x] {
      LeastOfDouble(p, j, j, x);
      assert Permute(c, q)[x] == c[q[x]];
    }
  }

  lemma InverseTwice(p: seq<int>)
    requires IsPerm(p)
    ensures Inverse(Inverse(p)) == p
  {
    forall x | 0 <= x < |p| ensures Inverse(Inverse(p))[x] == p[x] {
      assert Inverse(p)[p[x]] == x;
      assert Inverse(Inverse(p))[Inverse(p)[p[x]]] == p[x];
    }
  }

  lemma PermuteIdentity(q: seq<int>)
    requires IsPerm(q)
    ensures Permute(Identity(|q|), q) == q
  {
  }

  lemma PermBelow(p: seq<int>, base: int)
    requires IsPerm(p) && |p| <= base
    ensures Below(p, base)
  {
  }

  lemma PermuteBelow(v: seq<int>, q: seq<int>, base: int)
    requires IsPerm(q) && |q| == |v| && Below(v, base)
    ensures Below(Permute(v, q), base)
  {
  }

  /** A = (p << 16) + id, sorted: A = (id << 16) + p^-1. */
  method SortInverse(temp: array<int>, n: nat, ghost p: seq<int>)
    requires n <= temp.Length && |p| == n <= 0x8000 && IsPerm(p)
    requires temp[..n] == Keyed(p, Identity(n), H)
    modifies temp
    ensures temp[..n] == Keyed(Identity(n), Inverse(p), H)
    ensures temp[n..] == old(temp[n..])
  {
    hide IsPerm, Permute;
    PermBelow(Identity(n), H);
    assert temp[0..n] == temp[..n];
    SortKeyed(temp, 0, n, p, Identity(n), H);
    PermuteIdentity(Inverse(p));
    assert temp[0..n] == temp[..n];
  }

  /** A = (p^-1 << s) + v, sorted: A = (id << s) + v(p). */
  method SortCompose(temp: array<int>, lo: nat, n: nat, ghost p: seq<int>, ghost v: seq<int>, ghost base: int)
    requires lo + n <= temp.Length && |p| == |v| == n && IsPerm(p) && base > 0 && Below(v, base)
    requires temp[lo..lo + n] == Keyed(Inverse(p), v, base) && n * base <= 0x8000_0000
    modifies temp
    ensures temp[lo..lo + n] == Keyed(Identity(n), Permute(v, p), base)
    ensures temp[..lo] == old(temp[..lo]) && temp[lo + n..] == old(temp[lo + n..])
  {
    hide IsPerm, Permute;
    InverseTwice(p);
    SortKeyed(temp, lo, lo + n, Inverse(p), v, base);
  }

  // ----- w <= 10

  /** Shifting (x << 16) + q left by 20 loses x. */
  lemma Drop20(x: int, q: int)
    requires 0 <= q < N
    ensures I32((x * H + q) * (N * N)) == q * (N * N)
  {
    var v := (x * H + q) * (N * N) + 0x8000_0000;
    assert v == 0x1_0000_0000 * (16 * x) + (q * (N * N) + 0x8000_0000);
  }

  lemma WideFields(p: int, c: int)
    requires 0 <= c < H
    ensures (p * H + c) % H == c && (p * H + c) / H == p
  {
  }

  /** The fields of (x << 20) + (p << 10) + c. */
  lemma Fields(x: int, p: int, c: int)
    requires 0 <= p < N && 0 <= c < N
    ensures (x * (N * N) + (p * N + c)) % (N * N) == p * N + c
    ensures (p * N + c) % N == c
  {
  }

  /** A = (p << 16) + id, from B = (p << 10) + c. */
  method NarrowKeys(temp: array<int>, n: nat, ghost p: seq<int>, ghost c: seq<int>)
    requires 2 * n <= temp.Length && |p| == |c| == n <= N && Below(p, N) && Below(c, N)
    requires temp[n..2 * n] == Keyed(p, c, N)
    modifies temp
    ensures temp[..n] == Keyed(p, Identity(n), H)
    ensures temp[n..] == old(temp[n..])
  {
    ghost var b := temp[n..2 * n];
    for x := 0 to n
      invariant forall k :: 0 <= k < x ==> temp[k] == p[k] * H + k
      invariant forall k :: x <= k < temp.Length ==> temp[k] == old(temp[k])
    {
      assert temp[n + x] == b[x] == p[x] * N + c[x];
      temp[x] := Or(I32((temp[n + x] - temp[n + x] % N) * 0x40), x, H);
    }
  }

  /** A = (p^-1 << 20) + B. */
  method NarrowValues(temp: array<int>, n: nat, ghost q: seq<int>, ghost b: seq<int>)
    requires 2 * n <= temp.Length && |q| == |b| == n <= N && Below(q, N) && Below(b, N * N)
    requires temp[..n] == Keyed(Identity(n), q, H) && temp[n..2 * n] == b
    modifies temp
    ensures temp[..n] == Keyed(q, b, N * N)
    ensures temp[n..] == old(temp[n..])
  {
    ghost var a, b' := temp[..n], temp[n..2 * n];
    for x := 0 to n
      invariant forall k :: 0 <= k < x ==> temp[k] == q[k] * (N * N) + b[k]
      invariant forall k :: x <= k < temp.Length ==> temp[k] == old(temp[k])
    {
      assert temp[n + x] == b'[x] == b[x] && temp[x] == a[x] == x * H + q[x];
      Drop20(x, q[x]);
      temp[x] := Or(I32(temp[x] * (N * N)), temp[n + x], N * N);
    }
  }

  method NarrowWord(u: int, v: int, ghost x: int, ghost p: int, ghost c: int, ghost pp: int,
                    ghost d: int) returns (ppcx: int)
    requires 0 <= p < N && 0 <= c < N && 0 <= pp < N && 0 <= d < N
    requires u == x * (N * N) + (pp * N + d) && v == p * N + c
    ensures ppcx == pp * N + Min(c, d)
  {
    Fields(x, pp, d);
    Fields(0, p, c);
    var ppcpx := u % (N * N);
    ppcx := Or(ppcpx - ppcpx % N, v % N, N);
    if ppcpx < ppcx { ppcx := ppcpx; }
  }

  /** B = minimum of (pp << 10) + c(p) and (pp << 10) + c. */
  method NarrowMinima(temp: array<int>, n: nat, ghost p: seq<int>, ghost c: seq<int>, ghost pp: seq<int>,
                      ghost d: seq<int>)
    requires 2 * n <= temp.Length && |p| == |c| == |pp| == |d| == n
    requires Below(p, N) && Below(c, N) && Below(pp, N) && Below(d, N)
    requires temp[..n] == Keyed(Identity(n), Keyed(pp, d, N), N * N) && temp[n..2 * n] == Keyed(p, c, N)
    modifies temp
    ensures temp[n..2 * n] == Keyed(pp, MinSeq(c, d), N)
    ensures temp[2 * n..] == old(temp[2 * n..])
  {
    ghost var a, b := temp[..n], temp[n..2 * n];
    ghost var r := Keyed(pp, MinSeq(c, d), N);
    for x := 0 to n
      invariant forall k :: 0 <= k < temp.Length && !(n <= k < n + x) ==> temp[k] == old(temp[k])
      invariant forall k :: n <= k < n + x ==> temp[k] == r[k - n]
    {
      assert temp[x] == a[x] == x * (N * N) + (pp[x] * N + d[x]) && temp[n + x] == b[x] == p[x] * N + c[x];
      temp[n + x] := NarrowWord(temp[x], temp[n + x], x, p[x], c[x], pp[x], d[x]);
      assert r[x] == pp[x] * N + Min(c[x], d[x]);
    }
  }

  lemma KeyedBelow(p: seq<int>, v: seq<int>)
    requires |p| == |v| && Below(p, N) && Below(v, N)
    ensures Below(Keyed(p, v, N), N * N)
  {
  }

  lemma PermuteKeyed(p: seq<int>, v: seq<int>, base: int, q: seq<int>)
    requires |p| == |v| == |q| && IsPerm(q)
    ensures Permute(Keyed(p, v, base), q) == Keyed(Permute(p, q), Permute(v, q), base)
  {
  }

  /** One round of the doubling loop for w <= 10, on B = (p << 10) + c. */
  method DoubleNarrow(temp: array<int>, n: nat, ghost p: seq<int>, ghost c: seq<int>)
    requires 2 * n <= temp.Length && |p| == |c| == n <= N && IsPerm(p) && Below(c, N)
    requires temp[n..2 * n] == Keyed(p, c, N)
    modifies temp
    ensures temp[n..2 * n] == Keyed(Permute(p, p), MinSeq(c, Permute(c, p)), N)
    ensures temp[2 * n..] == old(temp[2 * n..])
  {
    hide IsPerm, Permute, Keyed, Below, Identity, MinSeq;
    ghost var b := Keyed(p, c, N);
    ghost var t := temp[n..];
    PermBelow(p, N);
    PermBelow(Inverse(p), N);
    KeyedBelow(p, c);
    PermuteBelow(p, p, N);
    PermuteBelow(c, p, N);
    PermuteKeyed(p, c, N, p);
    assert temp[n..2 * n] == t[..n] && temp[2 * n..] == t[n..];
    NarrowKeys(temp, n, p, c);
    SortInverse(temp, n, p);
    assert temp[n..2 * n] == temp[n..][..n];
    NarrowValues(temp, n, Inverse(p), b);
    assert temp[..n] == temp[0..n];
    SortCompose(temp, 0, n, p, b, N * N);
    assert temp[..n] == temp[0..n] && temp[n..2 * n] == temp[n..][..n] && temp[2 * n..] == temp[n..][n..];
    NarrowMinima(temp, n, p, c, Permute(p, p), Permute(c, p));
  }

  // ----- w > 10

  /** Shifting (x << 16) + q left by 16 loses x. */
  lemma Drop16(x: int, q: int)
    requires 0 <= q < 0x8000
    ensures I32((x * H + q) * H) == q * H
  {
    var v := (x * H + q) * H + 0x8000_0000;
    assert v == 0x1_0000_0000 * x + (q * H + 0x8000_0000);
  }

  /** A = (p << 16) + id, from B = (p << 16) + c. */
  method WideKeys(temp: array<int>, n: nat, ghost p: seq<int>, ghost c: seq<int>)
    requires 2 * n <= temp.Length && |p| == |c| == n <= H && Below(p, H) && Below(c, H)
    requires temp[n..2 * n] == Keyed(p, c, H)
    modifies temp
    ensures temp[..n] == Keyed(p, Identity(n), H)
    ensures temp[n..] == old(temp[n..])
  {
    ghost var b := temp[n..2 * n];
    for x := 0 to n
      invariant forall k :: 0 <= k < x ==> temp[k] == p[k] * H + k
      invariant forall k :: x <= k < temp.Length ==> temp[k] == old(temp[k])
    {
      assert temp[n + x] == b[x] == p[x] * H + c[x];
      temp[x] := Or(temp[n + x] - temp[n + x] % H, x, H);
    }
  }

  /** A = (q << 16) + c, from A = (id << 16) + q and B = (p << 16) + c. */
  method WideValues(temp: array<int>, n: nat, ghost q: seq<int>, ghost p: seq<int>, ghost c: seq<int>)
    requires 2 * n <= temp.Length && |q| == |p| == |c| == n && Below(q, 0x8000) && Below(c, H)
    requires temp[..n] == Keyed(Identity(n), q, H) && temp[n..2 * n] == Keyed(p, c, H)
    modifies temp
    ensures temp[..n] == Keyed(q, c, H)
    ensures temp[n..] == old(temp[n..])
  {
    ghost var a, b := temp[..n], temp[n..2 * n];
    ghost var r := Keyed(q, c, H);
    for x := 0 to n
      invariant forall k :: 0 <= k < x ==> temp[k] == r[k]
      invariant forall k :: x <= k < temp.Length ==> temp[k] == old(temp[k])
    {
      assert temp[n + x] == b[x] == p[x] * H + c[x] && temp[x] == a[x] == x * H + q[x];
      Drop16(x, q[x]);
      WideFields(p[x], c[x]);
      temp[x] := Or(I32(temp[x] * H), temp[n + x] % H, H);
    }
  }

  /** B = (q << 16) + p, from A = (q << 16) + c and B = (p << 16) + c. */
  method WideSwap(temp: array<int>, n: nat, ghost q: seq<int>, ghost p: seq<int>, ghost c: seq<int>)
    requires 2 * n <= temp.Length && |q| == |p| == |c| == n && Below(p, H) && Below(c, H)
    requires temp[..n] == Keyed(q, c, H) && temp[n..2 * n] == Keyed(p, c, H)
    modifies temp
    ensures temp[n..2 * n] == Keyed(q, p, H)
    ensures temp[..n] == old(temp[..n]) && temp[2 * n..] == old(temp[2 * n..])
  {
    ghost var a, b := temp[..n], temp[n..2 * n];
    ghost var r := Keyed(q, p, H);
    for x := 0 to n
      invariant forall k :: 0 <= k < temp.Length && !(n <= k < n + x) ==> temp[k] == old(temp[k])
      invariant forall k :: n <= k < n + x ==> temp[k] == r[k - n]
    {
      assert temp[n + x] == b[x] == p[x] * H + c[x] && temp[x] == a[x] == q[x] * H + c[x];
      WideFields(q[x], c[x]); WideFields(p[x], c[x]);
      temp[n + x] := Or(temp[x] - temp[x] % H, temp[n + x] / H, H);
    }
  }

  /** B = (pp << 16) + c, from B = (id << 16) + pp and A = (q << 16) + c. */
  method WideSquare(temp: array<int>, n: nat, ghost q: seq<int>, ghost pp: seq<int>, ghost c: seq<int>)
    requires 2 * n <= temp.Length && |q| == |pp| == |c| == n && Below(pp, 0x8000) && Below(c, H)
    requires temp[..n] == Keyed(q, c, H) && temp[n..2 * n] == Keyed(Identity(n), pp, H)
    modifies temp
    ensures temp[n..2 * n] == Keyed(pp, c, H)
    ensures temp[..n] == old(temp[..n]) && temp[2 * n..] == old(temp[2 * n..])
  {
    ghost var a, b := temp[..n], temp[n..2 * n];
    ghost var r := Keyed(pp, c, H);
    for x := 0 to n
      invariant forall k :: 0 <= k < temp.Length && !(n <= k < n + x) ==> temp[k] == old(temp[k])
      invariant forall k :: n <= k < n + x ==> temp[k] == r[k - n]
    {
      assert temp[n + x] == b[x] == x * H + pp[x] && temp[x] == a[x] == q[x] * H + c[x];
      WideFields(q[x], c[x]);
      Drop16(x, pp[x]);
      temp[n + x] := Or(I32(temp[n + x] * H), temp[x] % H, H);
    }
  }

  /** B = minimum of B and (p << 16) + d, from A = (id << 16) + d and B = (p << 16) + c. */
  method WideMinima(temp: array<int>, n: nat, ghost p: seq<int>, ghost c: seq<int>, ghost d: seq<int>)
    requires 2 * n <= temp.Length && |p| == |c| == |d| == n && Below(p, H) && Below(c, H) && Below(d, H)
    requires temp[..n] == Keyed(Identity(n), d, H) && temp[n..2 * n] == Keyed(p, c, H)
    modifies temp
    ensures temp[n..2 * n] == Keyed(p, MinSeq(c, d), H)
    ensures temp[2 * n..] == old(temp[2 * n..])
  {
    ghost var a, b := temp[..n], temp[n..2 * n];
    ghost var r := Keyed(p, MinSeq(c, d), H);
    for x := 0 to n
      invariant forall k :: 0 <= k < temp.Length && !(n <= k < n + x) ==> temp[k] == old(temp[k])
      invariant forall k :: n <= k < n + x ==> temp[k] == r[k - n]
    {
      assert temp[n + x] == b[x] == p[x] * H + c[x] && temp[x] == a[x] == x * H + d[x];
      WideFields(x, d[x]); WideFields(p[x], c[x]);
      var cpx := Or(temp[n + x] - temp[n + x] % H, temp[x] % H, H);
      if cpx < temp[n + x] { temp[n + x] := cpx; }
    }
  }

  /** One round of the doubling loop for w > 10, on B = (p << 16) + c. The last round leaves p alone. */
  method DoubleWide(temp: array<int>, n: nat, last: bool, ghost p: seq<int>, ghost c: seq<int>)
    requires 2 * n <= temp.Length && |p| == |c| == n <= 0x8000 && IsPerm(p) && Below(c, H)
    requires temp[n..2 * n] == Keyed(p, c, H)
    modifies temp
    ensures temp[n..2 * n] == Keyed(if last then p else Permute(p, p), MinSeq(c, Permute(c, p)), H)
    ensures temp[2 * n..] == old(temp[2 * n..])
  {
    hide IsPerm, Permute, Keyed, Below, Identity, MinSeq;
    ghost var t := temp[n..];
    ghost var q, pp, d := Inverse(p), Permute(p, p), Permute(c, p);
    WideBounds(n, p, q, pp);
    PermuteBelow(c, p, H);
    assert temp[n..2 * n] == t[..n] && temp[2 * n..] == t[n..];
    WideKeys(temp, n, p, c);
    SortInverse(temp, n, p);
    assert temp[n..2 * n] == temp[n..][..n];
    WideValues(temp, n, q, p, c);
    assert temp[n..2 * n] == temp[n..][..n] && temp[2 * n..] == temp[n..][n..];
    if !last {
      WideSwap(temp, n, q, p, c);
      assert temp[n..2 * n] == temp[n..n + n];
      SortCompose(temp, n, n, p, p, H);
      WideSquare(temp, n, q, pp, c);
    }
    ghost var u := temp[n..];
    assert temp[n..2 * n] == u[..n] && temp[2 * n..] == u[n..];
    assert temp[..n] == temp[0..n];
    SortCompose(temp, 0, n, p, c, H);
    assert temp[..n] == temp[0..n] && temp[n..2 * n] == temp[n..][..n] && temp[2 * n..] == temp[n..][n..];
    WideMinima(temp, n, if last then p else pp, c, d);
  }

  lemma WideBounds(n: nat, p: seq<int>, q: seq<int>, pp: seq<int>)
    requires |p| == n <= 0x8000 && IsPerm(p) && q == Inverse(p) && pp == Permute(p, p)
    ensures Below(p, H) && Below(q, 0x8000) && Below(pp, H) && Below(pp, 0x8000)
  {
  }

  // ----- the whole search

  method StartWord(u: int, x: int, ghost p: int) returns (word: int)
    requires 0 <= x && 0 <= p < 0x8000 && u == x * H + p
    ensures word == p * H + Min(p, x)
  {
    WideFields(x, p);
    var px := u % H;
    var cx := px;
    if x < cx { cx := x; }
    word := Or(I32(px * H), cx, H);
  }

  /** B = (p << 16) + min(id, p), from A = (id << 16) + p. */
  method StartMinima(temp: array<int>, n: nat, ghost p: seq<int>)
    requires 2 * n <= temp.Length && |p| == n <= 0x8000 && IsPerm(p)
    requires temp[..n] == Keyed(Identity(n), p, H)
    modifies temp
    ensures temp[n..2 * n] == Keyed(p, Least(p, 2), H)
    ensures temp[..n] == old(temp[..n]) && temp[2 * n..] == old(temp[2 * n..])
  {
    hide IsPerm;
    ghost var a := temp[..n];
    ghost var r := Keyed(p, Least(p, 2), H);
    PermBelow(p, 0x8000);
    for x := 0 to n
      invariant forall k :: 0 <= k < temp.Length && !(n <= k < n + x) ==> temp[k] == old(temp[k])
      invariant forall k :: n <= k < n + x ==> temp[k] == r[k - n]
    {
      assert temp[x] == a[x] == x * H + p[x];
      LeastOfTwo(p, x);
      temp[n + x] := StartWord(temp[x], x, p[x]);
      assert r[x] == p[x] * H + Least(p, 2)[x];
    }
  }

  lemma LeastOfTwo(p: seq<int>, x: int)
    requires IsPerm(p) && 0 <= x < |p|
    ensures Least(p, 2)[x] == Min(x, p[x])
  {
    assert LeastOf(p, 1, x) == x;
    assert Iter(p, 1, x) == At(p, Iter(p, 0, x));
  }

  /** A = (p << 16) + id, from A = (id << 16) + p. */
  method FlipWords(temp: array<int>, n: nat, ghost p: seq<int>)
    requires n <= temp.Length && |p| == n <= 0x8000 && Below(p, 0x8000)
    requires temp[..n] == Keyed(Identity(n), p, H)
    modifies temp
    ensures temp[..n] == Keyed(p, Identity(n), H)
    ensures temp[n..] == old(temp[n..])
  {
    ghost var a := temp[..n];
    for x := 0 to n
      invariant forall k :: 0 <= k < x ==> temp[k] == p[k] * H + k
      invariant forall k :: x <= k < temp.Length ==> temp[k] == old(temp[k])
    {
      assert temp[x] == a[x] == x * H + p[x];
      Drop16(x, p[x]);
      temp[x] := Or(I32(temp[x] * H), x, H);
    }
  }

  /** A = (q << 16) + p, from A = (id << 16) + q and B = (p << 16) + c. */
  method InverseOverPower(temp: array<int>, n: nat, ghost q: seq<int>, ghost p: seq<int>, ghost c: seq<int>)
    requires 2 * n <= temp.Length && |q| == |p| == |c| == n <= 0x8000
    requires Below(q, 0x8000) && Below(p, H) && Below(c, H)
    requires temp[..n] == Keyed(Identity(n), q, H) && temp[n..2 * n] == Keyed(p, c, H)
    modifies temp
    ensures temp[..n] == Keyed(q, p, H)
    ensures temp[n..] == old(temp[n..])
  {
    ghost var a, b := temp[..n], temp[n..2 * n];
    ghost var r := Keyed(q, p, H);
    for x := 0 to n
      invariant forall k :: 0 <= k < x ==> temp[k] == r[k]
      invariant forall k :: x <= k < temp.Length ==> temp[k] == old(temp[k])
    {
      assert temp[x] == a[x] == x * H + q[x] && temp[n + x] == b[x] == p[x] * H + c[x];
      Drop16(x, q[x]);
      WideFields(p[x], c[x]);
      temp[x] := I32(temp[x] * H) + temp[n + x] / H;
    }
  }

  method RepackOne(u: int, v: int, base: int, ghost x: int, ghost q: int, ghost p: int,
                   ghost c: int) returns (word: int)
    requires base == N || base == H
    requires 0 <= q < (if base == N then N else 0x8000) && 0 <= c < base
    requires u == x * H + q && v == p * H + c
    ensures word == q * base + c
  {
    hide I32;
    RepackWord(x, q, p, c, base);
    if base == N {
      word := Or(I32(u % H * N), v % N, N);
    } else {
      word := Or(I32(u * H), v % H, H);
    }
  }

  /** B = (q << 10) + c or (q << 16) + c, from A = (id << 16) + q and B = (p << 16) + c. */
  method Repack(temp: array<int>, n: nat, base: int, ghost q: seq<int>, ghost p: seq<int>, ghost c: seq<int>)
    requires 2 * n <= temp.Length && |q| == |p| == |c| == n && (base == N || base == H)
    requires Below(q, if base == N then N else 0x8000) && Below(p, H) && Below(c, base)
    requires temp[..n] == Keyed(Identity(n), q, H) && temp[n..2 * n] == Keyed(p, c, H)
    modifies temp
    ensures temp[n..2 * n] == Keyed(q, c, base)
    ensures temp[2 * n..] == old(temp[2 * n..])
  {
    ghost var a, b := temp[..n], temp[n..2 * n];
    ghost var r := Keyed(q, c, base);
    for x := 0 to n
      invariant forall k :: 0 <= k < temp.Length && !(n <= k < n + x) ==> temp[k] == old(temp[k])
      invariant forall k :: n <= k < n + x ==> temp[k] == r[k - n]
    {
      assert temp[x] == a[x] == x * H + q[x] && temp[n + x] == b[x] == p[x] * H + c[x];
      temp[n + x] := RepackOne(temp[x], temp[n + x], base, x, q[x], p[x], c[x]);
      assert r[x] == q[x] * base + c[x];
    }
  }

  lemma RepackWord(x: int, q: int, p: int, c: int, base: int)
    requires base == N || base == H
    requires 0 <= q < (if base == N then N else 0x8000) && 0 <= c < base
    ensures (p * H + c) % base == c
    ensures base == N ==> I32((x * H + q) % H * N) == q * base
    ensures base == H ==> I32((x * H + q) * H) == q * base
  {
    if base == H {
      Drop16(x, q);
      WideFields(p, c);
    } else {
      WideFields(x, q);
      assert p * H + c == N * (64 * p) + c;
    }
  }

  /** B = c, from B = (q << 10) + c or (q << 16) + c. */
  method Unpack(temp: array<int>, n: nat, base: int, ghost q: seq<int>, ghost c: seq<int>)
    requires 2 * n <= temp.Length && |q| == |c| == n && base > 0 && Below(c, base)
    requires temp[n..2 * n] == Keyed(q, c, base)
    modifies temp
    ensures temp[n..2 * n] == c
    ensures temp[2 * n..] == old(temp[2 * n..])
  {
    ghost var b := temp[n..2 * n];
    for x := 0 to n
      invariant forall k :: 0 <= k < temp.Length && !(n <= k < n + x) ==> temp[k] == old(temp[k])
      invariant forall k :: n <= k < n + x ==> temp[k] == c[k - n]
    {
      assert temp[n + x] == b[x];
      KeyedAt(q, c, base, x);
      temp[n + x] := temp[n + x] % base;
    }
  }

  lemma StepPower(p: seq<int>, i: nat)
    requires IsPerm(p)
    ensures Pow2(i + 1) == 2 * Pow2(i)
    ensures Permute(Power(p, Pow2(i)), Power(p, Pow2(i))) == Power(p, Pow2(i + 1))
    ensures MinSeq(Least(p, Pow2(i)), Permute(Least(p, Pow2(i)), Power(p, Pow2(i)))) == Least(p, Pow2(i + 1))
  {
    PowerDouble(p, Pow2(i));
    LeastDouble(p, Pow2(i));
  }

  lemma PowerOne(p: seq<int>)
    requires IsPerm(p)
    ensures Power(p, 2) == Permute(p, p)
  {
    forall x | 0 <= x < |p| ensures Power(p, 2)[x] == Permute(p, p)[x] {
      assert Iter(p, 2, x) == At(p, Iter(p, 1, x)) == At(p, At(p, Iter(p, 0, x)));
    }
  }

  lemma {:induction false} Pow2Le(a: nat, b: nat)
    requires a <= b
    ensures Pow2(a) <= Pow2(b)
    decreases b
  {
    if a < b { Pow2Le(a, b - 1); }
  }

  lemma SizeBounds(w: nat)
    requires 2 <= w <= 14
    ensures 4 <= Pow2(w) <= 0x4000 && Pow2(1) == 2 && Pow2(w) == 2 * Pow2(w - 1)
    ensures w <= 10 ==> Pow2(w) <= N
  {
    assert Pow2(4) == 16 && Pow2(8) == 256 by { assert Pow2(2) == 4; assert Pow2(6) == 64; }
    assert Pow2(10) == N && Pow2(14) == 0x4000 by { assert Pow2(12) == 0x1000; }
    Pow2Le(2, w);
    Pow2Le(w, 14);
    if w <= 10 { Pow2Le(w, 10); }
  }

  /** The doubling rounds with 10-bit fields. */
  method NarrowRounds(temp: array<int>, w: nat, n: nat, ghost p: seq<int>)
    requires 2 <= w <= 10 && n == Pow2(w) && 2 * n <= temp.Length && |p| == n && IsPerm(p)
    requires temp[n..2 * n] == Keyed(Permute(p, p), Least(p, 2), N)
    modifies temp
    ensures temp[n..2 * n] == Least(p, n / 2)
    ensures temp[2 * n..] == old(temp[2 * n..])
  {
    hide IsPerm, Permute, Keyed, Below, Identity, MinSeq, Power, Least, Inverse, Pow2;
    SizeBounds(w);
    PermBelow(p, 0x8000);
    PowerOne(p);
    for i := 1 to w - 1
      invariant temp[n..2 * n] == Keyed(Power(p, Pow2(i)), Least(p, Pow2(i)), N)
      invariant temp[2 * n..] == old(temp[2 * n..])
    {
      StepPower(p, i);
      LeastBounds(p, Pow2(i), n);
      DoubleNarrow(temp, n, Power(p, Pow2(i)), Least(p, Pow2(i)));
    }
    LeastBounds(p, n / 2, n);
    Unpack(temp, n, N, Power(p, n / 2), Least(p, n / 2));
  }

  /** The doubling rounds with 16-bit fields. */
  method WideRounds(temp: array<int>, w: nat, n: nat, ghost p: seq<int>)
    requires 10 < w <= 14 && n == Pow2(w) && 2 * n <= temp.Length && |p| == n && IsPerm(p)
    requires temp[n..2 * n] == Keyed(Permute(p, p), Least(p, 2), H)
    modifies temp
    ensures temp[n..2 * n] == Least(p, n / 2)
    ensures temp[2 * n..] == old(temp[2 * n..])
  {
    hide IsPerm, Permute, Keyed, Below, Identity, MinSeq, Power, Least, Inverse, Pow2;
    SizeBounds(w);
    PermBelow(p, 0x8000);
    PowerOne(p);
    ghost var r := Permute(p, p);
    for i := 1 to w - 1
      invariant |r| == n && (i < w - 1 ==> r == Power(p, Pow2(i)))
      invariant temp[n..2 * n] == Keyed(r, Least(p, Pow2(i)), H)
      invariant temp[2 * n..] == old(temp[2 * n..])
    {
      StepPower(p, i);
      LeastBounds(p, Pow2(i), n);
      DoubleWide(temp, n, i >= w - 2, r, Least(p, Pow2(i)));
      if i < w - 2 { r := Permute(r, r); }
    }
    LeastBounds(p, n / 2, n);
    Unpack(temp, n, H, r, Least(p, n / 2));
  }

  /** From A = (id << 16) + p to B = the least elements of the cycles. */
  method FindMinima(temp: array<int>, w: nat, n: nat, ghost p: seq<int>)
    requires 2 <= w <= 14 && n == Pow2(w) && 2 * n <= temp.Length && |p| == n && IsPerm(p)
    requires temp[..n] == Keyed(Identity(n), p, H)
    modifies temp
    ensures temp[n..2 * n] == Least(p, n / 2)
    ensures temp[2 * n..] == old(temp[2 * n..])
  {
    hide IsPerm, Permute, Keyed, Below, Identity, MinSeq, Power, Least, Inverse, Pow2;
    SizeBounds(w);
    PermBelow(p, 0x8000);
    StartMinima(temp, n, p);
    ghost var t := temp[n..];
    assert temp[n..2 * n] == t[..n] && temp[2 * n..] == t[n..];
    ghost var q, pp, c := Inverse(p), Permute(p, p), Least(p, 2);
    WideBounds(n, p, q, pp);
    LeastBounds(p, 2, n);
    FlipWords(temp, n, p);
    SortInverse(temp, n, p);
    assert temp[n..2 * n] == temp[n..][..n];
    InverseOverPower(temp, n, q, p, c);
    assert temp[..n] == temp[0..n];
    SortCompose(temp, 0, n, p, p, H);
    assert temp[..n] == temp[0..n] && temp[n..2 * n] == temp[n..][..n] && temp[2 * n..] == temp[n..][n..];
    PowerOne(p);
    if w <= 10 {
      PermBelow(Power(p, 2), N);
      Repack(temp, n, N, pp, p, c);
      NarrowRounds(temp, w, n, p);
    } else {
      Repack(temp, n, H, pp, p, c);
      WideRounds(temp, w, n, p);
    }
  }

  lemma LeastBounds(p: seq<int>, k: nat, n: nat)
    requires IsPerm(p) && |p| == n && k > 0
    ensures Below(Least(p, k), n)
    ensures n <= N ==> Below(Least(p, k), N)
    ensures n <= H ==> Below(Least(p, k), H)
  {
  }
}
