/**
 cbrecursion (src/controlbits.rs): the control bits of a permutation, computed in place on one
 scratch array that all the recursive calls share.
 */
module CbRecursion {
  import opened Permutations
  import opened Cycles
  import opened Benes
  import opened ControlBits
  import opened Words
  import opened KeyedSort
  import opened CycleMinima
  import opened FlipNetworks

  /** Two values of a permutation in one word, as pi is handed over. */
  function PairWords(pi: seq<int>): (s: seq<int>)
    requires |pi| % 2 == 0
    ensures |s| == |pi| / 2
  {
    seq(|pi| / 2, j requires 0 <= j < |pi| / 2 => pi[2 * j + 1] * H + pi[2 * j])
  }

  /** The words of pi are at aux for offset 0, and else in temp behind the first 2n words. */
  ghost predicate Holds(t: seq<int>, aux: seq<int>, off: nat, pi: seq<int>)
    requires |pi| % 2 == 0
  {
    if off == 0 then |pi| / 2 <= |aux| && aux[..|pi| / 2] == PairWords(pi)
    else off + |pi| / 2 <= |t| && t[off..off + |pi| / 2] == PairWords(pi)
  }

  method ReadWord(temp: array<int>, aux: seq<int>, off: nat, j: nat, ghost pi: seq<int>) returns (perm: int)
    requires |pi| % 2 == 0 && Holds(temp[..], aux, off, pi) && 2 * j < |pi|
    ensures perm == pi[2 * j + 1] * H + pi[2 * j]
  {
    perm := if off == 0 then aux[off + j] else temp[off + j];
    assert PairWords(pi)[j] == perm;
  }

  // ----- pibar

  function FlippedKeys(pi: seq<int>): (s: seq<int>)
    ensures |s| == |pi|
  {
    seq(|pi|, x requires 0 <= x < |pi| => Flip(pi[x]))
  }

  function Neighbours(pi: seq<int>): (s: seq<int>)
    requires |pi| % 2 == 0
    ensures |s| == |pi|
  {
    seq(|pi|, x requires 0 <= x < |pi| => pi[Flip(x)])
  }

  lemma FlippedKeysPerm(pi: seq<int>)
    requires IsPerm(pi) && |pi| % 2 == 0
    ensures IsPerm(FlippedKeys(pi))
  {
    var p := FlippedKeys(pi);
    forall i, j | 0 <= i < j < |p| ensures p[i] != p[j] { assert pi[i] != pi[j]; }
  }

  lemma NeighboursBelow(pi: seq<int>)
    requires IsPerm(pi) && |pi| % 2 == 0
    ensures forall x :: 0 <= x < |pi| ==> 0 <= Neighbours(pi)[x] < |pi|
  {
  }

  lemma PiBarByKeys(pi: seq<int>)
    requires IsPerm(pi) && |pi| % 2 == 0 && IsPerm(FlippedKeys(pi))
    ensures Permute(Neighbours(pi), Inverse(FlippedKeys(pi))) == PiBar(pi)
  {
    var k := FlippedKeys(pi);
    forall y | 0 <= y < |pi| ensures Permute(Neighbours(pi), Inverse(k))[y] == PiBar(pi)[y] {
      PiBarByKeysAt(pi, y);
    }
  }

  lemma PiBarByKeysAt(pi: seq<int>, y: int)
    requires IsPerm(pi) && |pi| % 2 == 0 && IsPerm(FlippedKeys(pi)) && 0 <= y < |pi|
    ensures Permute(Neighbours(pi), Inverse(FlippedKeys(pi)))[y] == PiBar(pi)[y]
  {
    hide IsPerm;
    var k := FlippedKeys(pi);
    var x := Inverse(k)[y];
    assert k[x] == Flip(pi[x]) == y;
    InverseAt(pi, x);
    assert At(pi, x) == Flip(y);
    assert Neighbours(pi)[x] == pi[Flip(x)];
    assert PiBar(pi)[y] == PiBarAt(pi, y);
  }

  method PairWord(perm: int, even: bool, ghost a: int, ghost b: int) returns (word: int)
    requires perm == b * H + a && 0 <= a < 0x4000 && 0 <= b < 0x4000
    ensures word == if even then Flip(a) * H + b else Flip(b) * H + a
  {
    WideFields(b, a);
    var low := perm % H;
    var high := perm / H;
    if even {
      word := JoinHalves(Flip(low), high);
    } else {
      word := JoinHalves(Flip(high), low);
    }
  }

  /** (hi << 16) | (lo & 0xffff). */
  function JoinHalves(hi: int, lo: int): (word: int)
    requires 0 <= hi < 0x8000 && 0 <= lo < 0x8000
    ensures word == hi * H + lo
  {
    Drop16(0, hi);
    Or(I32(hi * H), lo % H, H)
  }

  lemma PairElem(pi: seq<int>, x: int)
    requires |pi| % 2 == 0 && 0 <= x < |pi|
    ensures Keyed(FlippedKeys(pi), Neighbours(pi), H)[x] == Flip(pi[x]) * H + pi[Flip(x)]
  {
  }

  /** A = (pi(x) ^ 1 << 16) + pi(x ^ 1). */
  method LoadPairs(temp: array<int>, aux: seq<int>, off: nat, n: nat, ghost pi: seq<int>)
    requires n % 2 == 0 && 2 * n <= temp.Length && |pi| == n <= 0x4000 && IsPerm(pi)
    requires Holds(temp[..], aux, off, pi) && (off == 0 || 2 * n <= off)
    modifies temp
    ensures temp[..n] == Keyed(FlippedKeys(pi), Neighbours(pi), H)
    ensures temp[n..] == old(temp[n..])
  {
    hide IsPerm, Keyed, FlippedKeys, Neighbours, PairWords;
    PermBelow(pi, 0x4000);
    ghost var r := Keyed(FlippedKeys(pi), Neighbours(pi), H);
    for x := 0 to n
      invariant forall k :: 0 <= k < x ==> temp[k] == r[k]
      invariant forall k :: x <= k < temp.Length ==> temp[k] == old(temp[k])
      invariant Holds(temp[..], aux, off, pi)
    {
      var perm := ReadWord(temp, aux, off, x / 2, pi);
      var word := PairWord(perm, x % 2 == 0, pi[x / 2 * 2], pi[x / 2 * 2 + 1]);
      PairElem(pi, x);
      temp[x] := word;
    }
  }

  /** A = (pi << 16) + id. */
  method LoadKeys(temp: array<int>, aux: seq<int>, off: nat, n: nat, ghost pi: seq<int>)
    requires n % 2 == 0 && 2 * n <= temp.Length && |pi| == n <= 0x4000 && IsPerm(pi)
    requires Holds(temp[..], aux, off, pi) && (off == 0 || 2 * n <= off)
    modifies temp
    ensures temp[..n] == Keyed(pi, Identity(n), H)
    ensures temp[n..] == old(temp[n..])
  {
    hide IsPerm, Keyed;
    PermBelow(pi, 0x4000);
    ghost var r := Keyed(pi, Identity(n), H);
    for x := 0 to n
      invariant forall k :: 0 <= k < x ==> temp[k] == r[k]
      invariant forall k :: x <= k < temp.Length ==> temp[k] == old(temp[k])
      invariant Holds(temp[..], aux, off, pi)
    {
      var perm := ReadWord(temp, aux, off, x / 2, pi);
      KeyedElem(pi, Identity(n), H, x);
      WideFields(pi[x / 2 * 2 + 1], pi[x / 2 * 2]);
      if x % 2 == 0 {
        temp[x] := I32(perm % H * H) + x;
      } else {
        temp[x] := perm - perm % H + x;
      }
    }
  }

  // ----- the outer layers

  /** The images of all points under Swap. */
  function Swaps(bits: seq<bool>): (s: seq<int>)
    ensures |s| == 2 * |bits|
    ensures forall x :: 0 <= x < |s| ==> s[x] == Swap(bits, x)
  {
    seq(2 * |bits|, x requires 0 <= x < 2 * |bits| => Swap(bits, x))
  }

  lemma SwapsPerm(bits: seq<bool>)
    ensures IsPerm(Swaps(bits)) && Inverse(Swaps(bits)) == Swaps(bits)
  {
    var s := Swaps(bits);
    forall i, j | 0 <= i < j < |s| ensures s[i] != s[j] { SwapTwice(bits, i); SwapTwice(bits, j); }
    forall x | 0 <= x < |s| ensures Inverse(s)[x] == s[x] {
      SwapTwice(bits, x);
      assert Inverse(s)[s[s[x]]] == s[x];
    }
  }

  /** Where bit number j of a run that starts at pos0 belongs, and that the run fits. */
  predicate Runs(len: nat, pos0: nat, step: nat, j: nat, m: nat, pos: nat)
  {
    step > 0 && j <= m && pos == Place(pos0, step, j) && Place(pos0, step, m) <= len + step - 1
  }

  /** out[pos >> 3] ^= (v << (pos & 7)); pos += step. */
  method Emit(out: array<bv8>, pos: nat, step: nat, v: int,
              ghost o: seq<bool>, ghost pos0: nat, ghost bits: seq<bool>, ghost j: nat) returns (next: nat)
    requires j < |bits| && Runs(8 * out.Length, pos0, step, j, |bits|, pos)
    requires v == if bits[j] then 1 else 0
    requires BitsOf(out[..]) == FlipAll(o, pos0, step, bits[..j])
    modifies out
    ensures Runs(8 * out.Length, pos0, step, j + 1, |bits|, next)
    ensures BitsOf(out[..]) == FlipAll(o, pos0, step, bits[..j + 1])
  {
    PlaceMono(pos0, step, j, |bits|);
    XorBit(out, pos, v);
    FlipAllAppend(o, pos0, step, bits[..j], bits[j]);
    assert bits[..j + 1] == bits[..j] + [bits[j]];
    next := pos + step;
  }

  lemma RunsZero(len: nat, pos0: nat, step: nat, m: nat)
    requires step > 0 && Place(pos0, step, m) <= len + step - 1
    ensures Runs(len, pos0, step, 0, m, pos0)
  {
  }

  /** The first bits f go out; B = (pi^-1 << 16) + F, from A = (id << 16) + pi^-1 and B = c. */
  method FirstLayer(out: array<bv8>, pos0: nat, step: nat, temp: array<int>, n: nat,
                    ghost q: seq<int>, ghost c: seq<int>, ghost f: seq<bool>) returns (pos: nat)
    requires Separate(out, temp)
    requires 2 * n <= temp.Length && |q| == |c| == n == 2 * |f| <= 0x4000 && Below(q, 0x4000) && Below(c, H)
    requires temp[..n] == Keyed(Identity(n), q, H) && temp[n..2 * n] == c
    requires forall j :: 0 <= j < |f| ==> f[j] == (c[2 * j] % 2 == 1)
    requires step > 0 && Place(pos0, step, n / 2) <= 8 * out.Length + step - 1
    modifies out, temp
    ensures BitsOf(out[..]) == FlipAll(old(BitsOf(out[..])), pos0, step, f)
    ensures temp[n..2 * n] == Keyed(q, Swaps(f), H)
    ensures temp[..n] == old(temp[..n]) && temp[2 * n..] == old(temp[2 * n..])
    ensures pos == Place(pos0, step, n / 2)
  {
    hide BitsOf, FlipAll, Keyed, Swaps, Runs, Below, Place;
    RunsZero(8 * out.Length, pos0, step, |f|);
    ghost var a, b := temp[..n], temp[n..2 * n];
    ghost var r := Keyed(q, Swaps(f), H);
    ghost var o := BitsOf(out[..]);
    pos := pos0;
    FlipNone(o, pos0, step, f[..0]);
    for j := 0 to n / 2
      invariant Runs(8 * out.Length, pos0, step, j, |f|, pos)
      invariant BitsOf(out[..]) == FlipAll(o, pos0, step, f[..j])
      invariant forall k :: 0 <= k < 2 * j ==> temp[n + k] == r[k]
      invariant forall k :: 0 <= k < temp.Length && !(n <= k < n + 2 * j) ==> temp[k] == old(temp[k])
    {
      var x := 2 * j;
      assert temp[n + x] == b[x] && temp[x] == a[x] && temp[x + 1] == a[x + 1];
      FirstWords(q, f, x);
      pos := FirstStep(out, pos, step, temp, n, x, o, pos0, f, j, q[x], q[x + 1]);
    }
    assert f[..n / 2] == f;
    assert temp[n..2 * n] == r && temp[..n] == a;
    RunsEnd(8 * out.Length, pos0, step, |f|, pos);
  }

  lemma KeyedPair(p: seq<int>, v: seq<int>, x: int)
    requires |p| == |v| && 0 <= x && x + 1 < |p|
    ensures Keyed(p, v, H)[x] == p[x] * H + v[x] && Keyed(p, v, H)[x + 1] == p[x + 1] * H + v[x + 1]
  {
  }

  /** The words that the first layer reads and writes at a pair of positions. */
  lemma FirstWords(q: seq<int>, f: seq<bool>, x: nat)
    requires |q| == 2 * |f| && x + 1 < |q| && Below(q, 0x4000)
    ensures 0 <= q[x] < 0x4000 && 0 <= q[x + 1] < 0x4000
    ensures Keyed(Identity(|q|), q, H)[x] == x * H + q[x] && Keyed(Identity(|q|), q, H)[x + 1] == (x + 1) * H + q[x + 1]
    ensures Keyed(q, Swaps(f), H)[x] == q[x] * H + Swap(f, x)
    ensures Keyed(q, Swaps(f), H)[x + 1] == q[x + 1] * H + Swap(f, x + 1)
  {
    hide Keyed, Below;
    BelowAt(q, 0x4000, x);
    BelowAt(q, 0x4000, x + 1);
    KeyedPair(Identity(|q|), q, x);
    KeyedPair(q, Swaps(f), x);
  }

  lemma RunsEnd(len: nat, pos0: nat, step: nat, m: nat, pos: nat)
    requires Runs(len, pos0, step, m, m, pos)
    ensures pos == Place(pos0, step, m)
  {
  }

  method FirstStep(out: array<bv8>, pos: nat, step: nat, temp: array<int>, n: nat, x: nat, ghost o: seq<bool>,
                   ghost pos0: nat, ghost f: seq<bool>, ghost j: nat, ghost q0: int, ghost q1: int) returns (next: nat)
    requires Separate(out, temp)
    requires x == 2 * j && j < |f| && n == 2 * |f| <= 0x4000 && 2 * n <= temp.Length
    requires 0 <= q0 < 0x4000 && 0 <= q1 < 0x4000
    requires temp[x] == x * H + q0 && temp[x + 1] == (x + 1) * H + q1 && f[j] == (temp[n + x] % 2 == 1)
    requires Runs(8 * out.Length, pos0, step, j, |f|, pos) && BitsOf(out[..]) == FlipAll(o, pos0, step, f[..j])
    modifies out, temp
    ensures Runs(8 * out.Length, pos0, step, j + 1, |f|, next)
    ensures BitsOf(out[..]) == FlipAll(o, pos0, step, f[..j + 1])
    ensures temp[n + x] == q0 * H + Swap(f, x) && temp[n + x + 1] == q1 * H + Swap(f, x + 1)
    ensures forall k :: 0 <= k < temp.Length && k != n + x && k != n + x + 1 ==> temp[k] == old(temp[k])
  {
    hide BitsOf, FlipAll, Runs;
    var fj := temp[n + x] % 2;
    next := Emit(out, pos, step, fj, o, pos0, f, j);
    FirstPair(temp, n, x, fj, q0, q1);
  }

  method FirstPair(temp: array<int>, n: nat, x: nat, fj: int, ghost q0: int, ghost q1: int)
    requires x % 2 == 0 && x + 1 < n && 2 * n <= temp.Length && n <= 0x4000 && 0 <= fj < 2
    requires 0 <= q0 < 0x4000 && 0 <= q1 < 0x4000
    requires temp[x] == x * H + q0 && temp[x + 1] == (x + 1) * H + q1
    modifies temp
    ensures temp[n + x] == q0 * H + (if fj == 1 then Flip(x) else x)
    ensures temp[n + x + 1] == q1 * H + (if fj == 1 then Flip(x + 1) else x + 1)
    ensures forall k :: 0 <= k < temp.Length && k != n + x && k != n + x + 1 ==> temp[k] == old(temp[k])
  {
    var fx := x + fj;
    var fx1 := Flip(fx);
    Drop16(x, q0);
    Drop16(x + 1, q1);
    temp[n + x] := Or(I32(temp[x] * H), fx, H);
    temp[n + x + 1] := Or(I32(temp[x + 1] * H), fx1, H);
  }

  lemma BelowAt(v: seq<int>, base: int, x: int)
    requires Below(v, base) && 0 <= x < |v|
    ensures 0 <= v[x] < base
  {
  }

  lemma FlipNone(o: seq<bool>, pos: nat, step: nat, bits: seq<bool>)
    requires bits == []
    ensures FlipAll(o, pos, step, bits) == o
  {
  }

  /** The last bits l go out; A = (L << 16) + G, from B = (id << 16) + G. */
  method LastLayer(out: array<bv8>, pos0: nat, step: nat, temp: array<int>, n: nat,
                   ghost g: seq<int>, ghost l: seq<bool>) returns (pos: nat)
    requires Separate(out, temp)
    requires 2 * n <= temp.Length && |g| == n == 2 * |l| <= 0x4000 && Below(g, H)
    requires temp[n..2 * n] == Keyed(Identity(n), g, H)
    requires forall j :: 0 <= j < |l| ==> l[j] == (g[2 * j] % 2 == 1)
    requires step > 0 && Place(pos0, step, n / 2) <= 8 * out.Length + step - 1
    modifies out, temp
    ensures BitsOf(out[..]) == FlipAll(old(BitsOf(out[..])), pos0, step, l)
    ensures temp[..n] == Keyed(Swaps(l), g, H)
    ensures temp[n..] == old(temp[n..])
    ensures pos == Place(pos0, step, n / 2)
  {
    hide BitsOf, FlipAll, Keyed, Swaps, Runs;
    RunsZero(8 * out.Length, pos0, step, |l|);
    ghost var b := temp[n..2 * n];
    ghost var r := Keyed(Swaps(l), g, H);
    ghost var o := BitsOf(out[..]);
    pos := pos0;
    FlipNone(o, pos0, step, l[..0]);
    for j := 0 to n / 2
      invariant Runs(8 * out.Length, pos0, step, j, |l|, pos)
      invariant BitsOf(out[..]) == FlipAll(o, pos0, step, l[..j])
      invariant forall k :: 2 * j <= k < temp.Length ==> temp[k] == old(temp[k])
      invariant forall k :: 0 <= k < 2 * j ==> temp[k] == r[k]
    {
      var y := 2 * j;
      assert temp[n + y] == b[y] && temp[n + y + 1] == b[y + 1];
      KeyedPair(Identity(n), g, y);
      KeyedPair(Swaps(l), g, y);
      pos := LastStep(out, pos, step, temp, n, y, o, pos0, l, j, g[y], g[y + 1]);
    }
    assert l[..n / 2] == l;
    RunsEnd(8 * out.Length, pos0, step, |l|, pos);
  }

  method LastStep(out: array<bv8>, pos: nat, step: nat, temp: array<int>, n: nat, y: nat, ghost o: seq<bool>,
                  ghost pos0: nat, ghost l: seq<bool>, ghost j: nat, ghost g0: int, ghost g1: int) returns (next: nat)
    requires Separate(out, temp)
    requires y == 2 * j && j < |l| && n == 2 * |l| <= 0x4000 && 2 * n <= temp.Length
    requires 0 <= g0 < H && 0 <= g1 < H
    requires temp[n + y] == y * H + g0 && temp[n + y + 1] == (y + 1) * H + g1 && l[j] == (g0 % 2 == 1)
    requires Runs(8 * out.Length, pos0, step, j, |l|, pos) && BitsOf(out[..]) == FlipAll(o, pos0, step, l[..j])
    modifies out, temp
    ensures Runs(8 * out.Length, pos0, step, j + 1, |l|, next)
    ensures BitsOf(out[..]) == FlipAll(o, pos0, step, l[..j + 1])
    ensures temp[y] == Swap(l, y) * H + g0 && temp[y + 1] == Swap(l, y + 1) * H + g1
    ensures forall k :: 0 <= k < temp.Length && k != y && k != y + 1 ==> temp[k] == old(temp[k])
  {
    hide BitsOf, FlipAll, Runs;
    LowBit(y, g0);
    var lk := temp[n + y] % 2;
    next := Emit(out, pos, step, lk, o, pos0, l, j);
    LastPair(temp, n, y, lk, g0, g1);
  }

  method LastPair(temp: array<int>, n: nat, y: nat, lk: int, ghost g0: int, ghost g1: int)
    requires y % 2 == 0 && y + 1 < n && 2 * n <= temp.Length && n <= 0x4000 && 0 <= lk < 2
    requires 0 <= g0 < H && 0 <= g1 < H
    requires temp[n + y] == y * H + g0 && temp[n + y + 1] == (y + 1) * H + g1
    modifies temp
    ensures temp[y] == (if lk == 1 then Flip(y) else y) * H + g0
    ensures temp[y + 1] == (if lk == 1 then Flip(y + 1) else y + 1) * H + g1
    ensures forall k :: 0 <= k < temp.Length && k != y && k != y + 1 ==> temp[k] == old(temp[k])
  {
    var ly := y + lk;
    var ly1 := Flip(ly);
    WideFields(y, g0);
    WideFields(y + 1, g1);
    temp[y] := Or(I32(ly * H), temp[n + y] % H, H);
    temp[y + 1] := Or(I32(ly1 * H), temp[n + y + 1] % H, H);
  }

  lemma LowBit(y: int, g: int)
    ensures (y * H + g) % 2 == g % 2
  {
    assert y * H + g == 2 * (y * 0x8000) + g;
  }

  // ----- the middle

  /** F(pi(y)) for every y. */
  ghost function FirstImages(pi: seq<int>): (g: seq<int>)
    requires IsPerm(pi) && |pi| % 2 == 0
    ensures |g| == |pi| && g == Permute(Swaps(FirstBits(pi)), pi)
  {
    Permute(Swaps(FirstBits(pi)), pi)
  }

  /** M = F . pi . L as a sequence. */
  ghost function Middle(pi: seq<int>): (m: seq<int>)
    requires IsPerm(pi) && |pi| % 2 == 0
    ensures |m| == |pi| && Below(m, |pi|)
    ensures forall x :: 0 <= x < |m| ==> m[x] == MiddleAt(pi, x)
  {
    hide IsPerm;
    seq(|pi|, x requires 0 <= x < |pi| => MiddleAt(pi, x))
  }

  lemma FirstImagesAt(pi: seq<int>, y: int)
    requires IsPerm(pi) && |pi| % 2 == 0 && 0 <= y < |pi|
    ensures FirstImages(pi)[y] == Swap(FirstBits(pi), At(pi, y))
  {
    hide IsPerm, FirstBits;
    PermuteAt(Swaps(FirstBits(pi)), pi, y);
  }

  lemma MiddleByKeys(pi: seq<int>)
    requires IsPerm(pi) && |pi| % 2 == 0
    ensures IsPerm(Swaps(LastBits(pi)))
    ensures Permute(FirstImages(pi), Inverse(Swaps(LastBits(pi)))) == Middle(pi)
  {
    hide IsPerm, FirstBits, LastBits, MiddleAt, FirstImages;
    var s := Swaps(LastBits(pi));
    SwapsPerm(LastBits(pi));
    forall x | 0 <= x < |pi| ensures Permute(FirstImages(pi), s)[x] == Middle(pi)[x] {
      PermuteAt(FirstImages(pi), s, x);
      assert s[x] == Swap(LastBits(pi), x) == At(s, x);
      FirstImagesAt(pi, s[x]);
      MiddleUnfold(pi, x);
    }
  }

  lemma MiddleUnfold(pi: seq<int>, x: int)
    requires IsPerm(pi) && |pi| % 2 == 0 && 0 <= x < |pi|
    ensures MiddleAt(pi, x) == Swap(FirstBits(pi), At(pi, Swap(LastBits(pi), x)))
  {
  }

  /** What the loops read the control bits from. */
  lemma BitsRead(pi: seq<int>)
    requires IsPerm(pi) && |pi| % 2 == 0 && |pi| > 0
    ensures forall j :: 0 <= j < |pi| / 2 ==>
      FirstBits(pi)[j] == (Least(PiBar(pi), |pi| / 2)[2 * j] % 2 == 1)
    ensures forall j :: 0 <= j < |pi| / 2 ==> LastBits(pi)[j] == (FirstImages(pi)[2 * j] % 2 == 1)
  {
    hide IsPerm, FirstImages;
    forall j | 0 <= j < |pi| / 2
      ensures FirstBits(pi)[j] == (Least(PiBar(pi), |pi| / 2)[2 * j] % 2 == 1)
      ensures LastBits(pi)[j] == (FirstImages(pi)[2 * j] % 2 == 1)
    {
      FirstImagesAt(pi, 2 * j);
    }
  }

  lemma FirstImagesBelow(pi: seq<int>)
    requires IsPerm(pi) && |pi| % 2 == 0
    ensures forall x :: 0 <= x < |pi| ==> 0 <= FirstImages(pi)[x] < |pi|
  {
    hide IsPerm, FirstImages;
    forall x | 0 <= x < |pi| ensures 0 <= FirstImages(pi)[x] < |pi| { FirstImagesAt(pi, x); }
  }

  /** One value goes into the lower (even j) or the upper (odd j) half of a word. */
  function PutHalf(word: int, j: nat, m: int): int
    requires 0 <= m < 0x4000
  {
    if j % 2 == 0 then Or(word - word % H, m % H / 2, H)
    else Or(I32((m - m % 2) % H * 0x8000), word % H, H)
  }

  lemma PutHalves(word: int, j: nat, a: int, b: int)
    requires 0 <= a < 0x4000 && 0 <= b < 0x4000 && j % 2 == 0
    ensures PutHalf(word, j, a) % H == a / 2
    ensures forall v: int :: v % H == a / 2 ==> PutHalf(v, j + 1, b) == b / 2 * H + a / 2
  {
    assert word - word % H == H * (word / H);
    HighHalf(b);
  }

  lemma HighHalf(b: int)
    requires 0 <= b < 0x4000
    ensures I32((b - b % 2) % H * 0x8000) == b / 2 * H
  {
    assert (b - b % 2) * 0x8000 == b / 2 * H;
  }

  /** Word i of the even (b = 0) or odd (b = 1) half of m. */
  function HalfWord(m: seq<int>, b: nat, i: nat): int
    requires b < 2 && 4 * i + 4 <= |m|
  {
    m[4 * i + 2 + b] / 2 * H + m[4 * i + b] / 2
  }

  /** The first j values of a half of m stand at base, in quarter = |m| / 4 words. */
  ghost predicate Packed(t: seq<int>, base: nat, quarter: nat, m: seq<int>, b: nat, j: nat)
    requires b < 2 && |m| == 4 * quarter && j <= 2 * quarter && base + quarter <= |t|
  {
    && (forall k :: base <= k < base + j / 2 ==> t[k] == HalfWord(m, b, k - base))
    && (j % 2 == 1 ==> t[base + j / 2] % H == m[2 * j - 2 + b] / 2)
  }

  lemma PackOne(t: seq<int>, at: nat, j: nat, base: nat, quarter: nat, m: seq<int>, b: nat)
    requires b < 2 && |m| == 4 * quarter <= 0x4000 && j < 2 * quarter && base + quarter <= |t|
    requires Packed(t, base, quarter, m, b, j) && at == base + j / 2
    requires 0 <= m[2 * j + b] < 0x4000
    requires j % 2 == 1 ==> 0 <= m[2 * j - 2 + b] < 0x4000
    ensures Packed(t[at := PutHalf(t[at], j, m[2 * j + b])], base, quarter, m, b, j + 1)
  {
    hide PutHalf;
    if j % 2 == 0 {
      PutHalves(t[at], j, m[2 * j + b], 0);
    } else {
      PutHalves(0, j - 1, m[2 * j - 2 + b], m[2 * j + b]);
    }
  }

  lemma PackedKept(t: seq<int>, at: nat, v: int, base: nat, quarter: nat, m: seq<int>, b: nat, j: nat)
    requires b < 2 && |m| == 4 * quarter && j <= 2 * quarter && base + quarter <= |t|
    requires Packed(t, base, quarter, m, b, j) && at < |t| && !(base <= at < base + quarter)
    ensures Packed(t[at := v], base, quarter, m, b, j)
  {
  }

  /** The halves of M are packed behind position n + n/4, two values a word. */
  method PackHalves(temp: array<int>, n: nat, ghost quarter: nat, ghost m: seq<int>)
    requires n == |m| == 4 * quarter <= 0x4000 && 2 * n <= temp.Length && Below(m, n)
    requires temp[..n] == Keyed(Identity(n), m, H)
    modifies temp
    ensures Packed(temp[..], n + quarter, quarter, m, 0, 2 * quarter)
    ensures Packed(temp[..], n + 2 * quarter, quarter, m, 1, 2 * quarter)
    ensures temp[2 * n..] == old(temp[2 * n..])
  {
    hide Keyed, Packed;
    ghost var a := temp[..n];
    PackedNone(temp[..], n + quarter, quarter, m, 0);
    PackedNone(temp[..], n + 2 * quarter, quarter, m, 1);
    for j := 0 to n / 2
      invariant Packed(temp[..], n + quarter, quarter, m, 0, j)
      invariant Packed(temp[..], n + 2 * quarter, quarter, m, 1, j)
      invariant forall k :: 0 <= k < temp.Length && !(n <= k < 2 * n) ==> temp[k] == old(temp[k])
    {
      KeyedPair(Identity(n), m, 2 * j);
      assert temp[2 * j] == a[2 * j] && temp[2 * j + 1] == a[2 * j + 1];
      PackPair(temp, n, j, quarter, m);
    }
  }

  method PackPair(temp: array<int>, n: nat, j: nat, ghost quarter: nat, ghost m: seq<int>)
    requires n == |m| == 4 * quarter <= 0x4000 && 2 * n <= temp.Length && Below(m, n) && 2 * j < n
    requires temp[2 * j] == 2 * j * H + m[2 * j] && temp[2 * j + 1] == (2 * j + 1) * H + m[2 * j + 1]
    requires Packed(temp[..], n + quarter, quarter, m, 0, j) && Packed(temp[..], n + 2 * quarter, quarter, m, 1, j)
    modifies temp
    ensures Packed(temp[..], n + quarter, quarter, m, 0, j + 1)
    ensures Packed(temp[..], n + 2 * quarter, quarter, m, 1, j + 1)
    ensures forall k :: 0 <= k < temp.Length && !(n <= k < 2 * n) ==> temp[k] == old(temp[k])
  {
    hide Packed, PutHalf;
    WideFields(2 * j, m[2 * j]);
    WideFields(2 * j + 1, m[2 * j + 1]);
    ghost var t := temp[..];
    var at := n + n / 4 + j / 2;
    var v := PutHalf(temp[at], j, temp[2 * j] % H);
    PackOne(t, at, j, n + quarter, quarter, m, 0);
    PackedKept(t, at, v, n + 2 * quarter, quarter, m, 1, j);
    temp[at] := v;
    ghost var u := temp[..];
    assert u == t[at := v];
    at := n + n / 4 + (j + n / 2) / 2;
    v := PutHalf(temp[at], j, temp[2 * j + 1] % H);
    PackOne(u, at, j, n + 2 * quarter, quarter, m, 1);
    PackedKept(u, at, v, n + quarter, quarter, m, 0, j + 1);
    temp[at] := v;
    assert temp[..] == u[at := v];
  }

  lemma PackedNone(t: seq<int>, base: nat, quarter: nat, m: seq<int>, b: nat)
    requires b < 2 && |m| == 4 * quarter && base + quarter <= |t|
    ensures Packed(t, base, quarter, m, b, 0)
  {
  }

  // ----- the recursion

  /** The number of control bits, (2w-1) * 2^(w-1). */
  function Count(w: nat): (c: nat)
    requires w > 0
    ensures c > 0
  {
    if w == 1 then 1 else Pow2(w) + 2 * Count(w - 1)
  }

  lemma {:induction false} CountClosed(w: nat)
    requires w > 0
    ensures Count(w) == (2 * w - 1) * Pow2(w - 1)
  {
    if w > 1 {
      CountClosed(w - 1);
      var h := Pow2(w - 2);
      assert (2 * w - 1) * (2 * h) == 4 * h + 2 * ((2 * w - 3) * h);
    }
  }

  lemma BitsCount(w: nat, pi: seq<int>)
    requires w > 0 && |pi| == Pow2(w) && IsPerm(pi)
    ensures |Joined(Bits(w, pi))| == Count(w)
  {
    hide IsPerm, Bits, Joined;
    OrderLength(w);
    CountClosed(w);
    JoinedLength(Bits(w, pi), Pow2(w - 1));
  }

  lemma OrderLength(w: nat)
    requires w > 0
    ensures |Order(w)| == 2 * w - 1
  {
  }

  /** The packed values of m are the words of its halved half h. */
  lemma PackedWords(t: seq<int>, m: seq<int>, h: seq<int>, quarter: nat, base: nat, b: nat)
    requires |m| == 4 * quarter && |h| == 2 * quarter && b < 2 && base + quarter <= |t|
    requires forall j :: 0 <= j < |h| ==> h[j] == m[2 * j + b] / 2
    requires Packed(t, base, quarter, m, b, 2 * quarter)
    ensures t[base..base + quarter] == PairWords(h)
  {
    forall i | 0 <= i < quarter ensures t[base + i] == PairWords(h)[i] {
      assert t[base + i] == HalfWord(m, b, i);
      assert h[2 * i] == m[2 * (2 * i) + b] / 2 && h[2 * i + 1] == m[2 * (2 * i + 1) + b] / 2;
    }
  }

  lemma HalfOfMiddle(pi: seq<int>, b: nat)
    requires IsPerm(pi) && |pi| % 2 == 0 && b < 2
    ensures |Half(pi, b)| == |pi| / 2
    ensures forall j :: 0 <= j < |Half(pi, b)| ==> Half(pi, b)[j] == Middle(pi)[2 * j + b] / 2
  {
    hide IsPerm, MiddleAt;
    forall j | 0 <= j < |pi| / 2 ensures Half(pi, b)[j] == Middle(pi)[2 * j + b] / 2 {
      assert Half(pi, b)[j] == HalfAt(pi, b, j);
      assert Middle(pi)[2 * j + b] == MiddleAt(pi, 2 * j + b);
    }
  }

  /** B = the least elements of the cycles of pibar. */
  method MinimaPhase(temp: array<int>, aux: seq<int>, off: nat, w: nat, n: nat, ghost pi: seq<int>)
    requires 2 <= w <= 14 && n == Pow2(w) == |pi| && n % 2 == 0 && IsPerm(pi) && 2 * n <= temp.Length
    requires Holds(temp[..], aux, off, pi) && (off == 0 || 2 * n <= off)
    modifies temp
    ensures temp[n..2 * n] == Least(PiBar(pi), n / 2)
    ensures temp[2 * n..] == old(temp[2 * n..])
  {
    hide IsPerm, Keyed, Permute, PiBar, Least, FlippedKeys, Neighbours, PairWords;
    SizeBounds(w);
    FlippedKeysPerm(pi);
    NeighboursBelow(pi);
    PiBarByKeys(pi);
    LoadPairs(temp, aux, off, n, pi);
    assert temp[0..n] == temp[..n];
    assert temp[2 * n..] == temp[n..][n..];
    SortKeyed(temp, 0, n, FlippedKeys(pi), Neighbours(pi), H);
    assert temp[0..n] == temp[..n];
    assert temp[2 * n..] == temp[n..][n..];
    FindMinima(temp, w, n, PiBar(pi));
  }

  /** The first bits go out; B = (id << 16) + F(pi). */
  method FirstPhase(out: array<bv8>, pos0: nat, step: nat, temp: array<int>, aux: seq<int>, off: nat, n: nat,
                    ghost pi: seq<int>) returns (pos: nat)
    requires Separate(out, temp)
    requires 4 <= n == |pi| <= 0x4000 && n % 2 == 0 && IsPerm(pi) && 2 * n <= temp.Length
    requires Holds(temp[..], aux, off, pi) && (off == 0 || 2 * n <= off)
    requires temp[n..2 * n] == Least(PiBar(pi), n / 2)
    requires step > 0 && Place(pos0, step, n / 2) <= 8 * out.Length + step - 1
    modifies out, temp
    ensures pos == Place(pos0, step, n / 2)
    ensures BitsOf(out[..]) == FlipAll(old(BitsOf(out[..])), pos0, step, FirstBits(pi))
    ensures temp[n..2 * n] == Keyed(Identity(n), FirstImages(pi), H)
    ensures temp[2 * n..] == old(temp[2 * n..])
  {
    hide IsPerm, Keyed, Permute, PiBar, Least, FirstBits, BitsOf, FlipAll, LastBits, Swaps, PairWords;
    ghost var c, f := Least(PiBar(pi), n / 2), FirstBits(pi);
    PermBelow(Inverse(pi), 0x4000);
    BitsRead(pi);
    SwapsPerm(f);
    PermBelow(Swaps(f), H);
    ghost var t := temp[n..];
    assert temp[n..2 * n] == t[..n] && temp[2 * n..] == t[n..];
    LoadKeys(temp, aux, off, n, pi);
    SortInverse(temp, n, pi);
    assert temp[n..2 * n] == temp[n..][..n] && temp[2 * n..] == temp[n..][n..];
    pos := FirstLayer(out, pos0, step, temp, n, Inverse(pi), c, f);
    assert temp[n..2 * n] == temp[n..n + n] && temp[2 * n..] == temp[n + n..];
    SortCompose(temp, n, n, pi, Swaps(f), H);
    assert temp[n..2 * n] == temp[n..n + n] && temp[2 * n..] == temp[n + n..];
  }

  /** The last bits go out; A = (id << 16) + M. */
  method LastPhase(out: array<bv8>, pos0: nat, step: nat, temp: array<int>, n: nat,
                   ghost pi: seq<int>) returns (pos: nat)
    requires Separate(out, temp)
    requires 4 <= n == |pi| <= 0x4000 && n % 2 == 0 && IsPerm(pi) && 2 * n <= temp.Length
    requires temp[n..2 * n] == Keyed(Identity(n), FirstImages(pi), H)
    requires step > 0 && Place(pos0, step, n / 2) <= 8 * out.Length + step - 1
    modifies out, temp
    ensures pos == Place(pos0, step, n / 2)
    ensures BitsOf(out[..]) == FlipAll(old(BitsOf(out[..])), pos0, step, LastBits(pi))
    ensures temp[..n] == Keyed(Identity(n), Middle(pi), H)
    ensures temp[2 * n..] == old(temp[2 * n..])
  {
    hide IsPerm, Keyed, Permute, PiBar, FirstBits, BitsOf, FlipAll, LastBits, Swaps, Middle, FirstImages;
    ghost var l, g := LastBits(pi), FirstImages(pi);
    BitsRead(pi);
    FirstImagesBelow(pi);
    MiddleByKeys(pi);
    ghost var t := temp[n..];
    assert temp[n..2 * n] == t[..n] && temp[2 * n..] == t[n..];
    pos := LastLayer(out, pos0, step, temp, n, g, l);
    assert temp[0..n] == temp[..n] && temp[2 * n..] == temp[n..][n..];
    SortKeyed(temp, 0, n, Swaps(l), g, H);
    assert temp[0..n] == temp[..n] && temp[2 * n..] == temp[n..][n..];
  }

  /** The positions of one call: h pairs, 2w-3 layers in between with the bits of both halves. */
  lemma Positions(pos0: nat, step: nat, w: nat, h: nat, len: nat)
    requires w > 1 && h == Pow2(w - 1) && step > 0 && Place(pos0, step, Count(w)) <= len + step - 1
    ensures
      var p1 := Place(pos0, step, h);
      var p2 := Behind(p1, step, h, 2 * w - 3);
      && p1 + (2 * w - 3) * step * h == p2
      && Place(p2, step, h) - (2 * w - 2) * step * h == p1
      && p1 <= len + step - 1 && Place(p2, step, h) <= len + step - 1
      && Place(p1, 2 * step, Count(w - 1)) <= len + 2 * step - 1
      && Place(p1 + step, 2 * step, Count(w - 1)) <= len + 2 * step - 1
  {
    hide Place, Behind, Count;
    var c := Count(w - 1);
    var p1 := Place(pos0, step, h);
    var p2 := Behind(p1, step, h, 2 * w - 3);
    CountSplit(w, h);
    Products(step, h, 2 * w - 3, c);
    PlaceIs(pos0, step, 2 * h + 2 * c);
    PlaceIs(pos0, step, h);
    BehindIs(p1, step, h, 2 * w - 3);
    PlaceIs(p2, step, h);
    PlaceIs(p1, 2 * step, c);
    PlaceIs(p1 + step, 2 * step, c);
  }

  lemma CountSplit(w: nat, h: nat)
    requires w > 1 && h == Pow2(w - 1)
    ensures h > 0 && Count(w) == 2 * h + 2 * Count(w - 1) && 2 * Count(w - 1) == (2 * w - 3) * h
  {
    CountClosed(w - 1);
    var g := Pow2(w - 2);
    assert 2 * ((2 * w - 3) * g) == (2 * w - 3) * (2 * g);
  }

  lemma Products(step: nat, h: nat, k: nat, c: nat)
    requires 2 * c == k * h
    ensures k * step * h == 2 * step * c == step * h * k
    ensures (k + 1) * step * h == k * step * h + step * h
    ensures step * (2 * h + 2 * c) == step * h + 2 * step * c + step * h
    ensures h > 0 ==> step * h >= step
  {
    assert k * step * h == step * (k * h);
    assert step * (2 * c) == 2 * step * c;
    if h > 0 { assert step * h == step + step * (h - 1); }
  }

  /** The halves of M stand where the recursive calls look for them. */
  method PackPhase(temp: array<int>, n: nat, ghost aux: seq<int>, ghost quarter: nat, ghost pi: seq<int>)
    requires 4 <= n == |pi| == 4 * quarter <= 0x4000 && |pi| % 2 == 0 && IsPerm(pi) && 2 * n <= temp.Length
    requires temp[..n] == Keyed(Identity(n), Middle(pi), H)
    modifies temp
    ensures Holds(temp[..], aux, n + quarter, Half(pi, 0)) && Holds(temp[..], aux, n + 2 * quarter, Half(pi, 1))
    ensures temp[2 * n..] == old(temp[2 * n..])
  {
    hide IsPerm, Keyed, Middle, Packed, PairWords, Half, Below;
    PackHalves(temp, n, quarter, Middle(pi));
    HalfOfMiddle(pi, 0);
    HalfOfMiddle(pi, 1);
    PackedWords(temp[..], Middle(pi), Half(pi, 0), quarter, n + quarter, 0);
    PackedWords(temp[..], Middle(pi), Half(pi, 1), quarter, n + 2 * quarter, 1);
  }

  /** The flips of the two outer layers of one call. */
  ghost function OuterFlips(o: seq<bool>, pos: nat, step: nat, w: nat, pi: seq<int>): (r: seq<bool>)
    requires w > 1 && |pi| % 2 == 0 && IsPerm(pi)
    ensures |r| == |o|
  {
    hide IsPerm, FlipAll, FirstBits, LastBits;
    var p2 := Behind(Place(pos, step, |pi| / 2), step, |pi| / 2, 2 * w - 3);
    FlipAll(FlipAll(o, pos, step, FirstBits(pi)), p2, step, LastBits(pi))
  }

  /** The flips of one call: those of its outer layers, then those of both halves. */
  ghost function CallFlips(o: seq<bool>, pos: nat, step: nat, w: nat, pi: seq<int>): (r: seq<bool>)
    requires w > 1 && |pi| == Pow2(w) && |pi| % 2 == 0 && IsPerm(pi)
  {
    hide IsPerm, FlipLayers, OuterFlips, Half, Bits, Place;
    var p1 := Place(pos, step, |pi| / 2);
    var o1 := FlipLayers(OuterFlips(o, pos, step, w, pi), p1, 2 * step, Bits(w - 1, Half(pi, 0)));
    FlipLayers(o1, p1 + step, 2 * step, Bits(w - 1, Half(pi, 1)))
  }

  lemma BitsFlipped(o: seq<bool>, pos: nat, step: nat, w: nat, pi: seq<int>)
    requires w > 1 && |pi| == Pow2(w) && |pi| % 2 == 0 && IsPerm(pi)
    ensures FlipLayers(o, pos, step, Bits(w, pi)) == CallFlips(o, pos, step, w, pi)
  {
    hide IsPerm, FlipAll, FlipLayers, FirstBits, LastBits, Half;
    FlipNetwork(o, pos, step, FirstBits(pi), Bits(w - 1, Half(pi, 0)), Bits(w - 1, Half(pi, 1)), LastBits(pi),
      Pow2(w - 2));
  }

  /** One call up to the middle permutation. */
  method OuterCall(out: array<bv8>, pos0: nat, step: nat, off: nat, w: nat, n: nat,
                   temp: array<int>, aux: seq<int>, ghost pi: seq<int>) returns (pos: nat)
    requires Separate(out, temp)
    requires 2 <= w <= 14 && n == Pow2(w) == |pi| && n % 2 == 0 && IsPerm(pi) && 2 * n <= temp.Length
    requires Holds(temp[..], aux, off, pi) && (off == 0 || 2 * n <= off)
    requires step > 0 && Place(pos0, step, Count(w)) <= 8 * out.Length + step - 1
    modifies out, temp
    ensures pos == Place(pos0, step, n / 2)
    ensures BitsOf(out[..]) == OuterFlips(old(BitsOf(out[..])), pos0, step, w, pi)
    ensures temp[..n] == Keyed(Identity(n), Middle(pi), H)
    ensures temp[2 * n..] == old(temp[2 * n..])
  {
    hide IsPerm, Keyed, PiBar, Least, Middle, FirstImages, FirstBits, LastBits, PairWords, BitsOf, FlipAll, Half,
      Pow2, Place, Behind, Count, Separate;
    ghost var t := temp[..];
    assert t[2 * n..] == temp[2 * n..];
    HalfSize(w);
    SizeBounds(w);
    Positions(pos0, step, w, n / 2, 8 * out.Length);
    MinimaPhase(temp, aux, off, w, n, pi);
    HoldsKept(t, temp[..], aux, off, 2 * n, pi);
    pos := FirstPhase(out, pos0, step, temp, aux, off, n, pi);
    pos := pos + (2 * w - 3) * step * (n / 2);
    pos := LastPhase(out, pos, step, temp, n, pi);
    pos := pos - (2 * w - 2) * step * (n / 2);
  }

  lemma HalfSize(w: nat)
    requires w > 0
    ensures Pow2(w) / 2 == Pow2(w - 1)
  {
  }

  /**
   cbrecursion: flips each of the bits at pos0, pos0 + step, .. once, as its control bit of pi says,
   and touches no other bit and nothing of temp from 2n on.
   */
  method CbRecursion(out: array<bv8>, pos0: nat, step: nat, off: nat, w: nat, n: nat,
                     temp: array<int>, aux: seq<int>, ghost pi: seq<int>)
    requires Separate(out, temp)
    requires 1 <= w <= 14 && n == Pow2(w) == |pi| && n % 2 == 0 && IsPerm(pi) && 2 * n <= temp.Length
    requires Holds(temp[..], aux, off, pi) && (off == 0 || 2 * n <= off)
    requires step > 0 && Place(pos0, step, Count(w)) <= 8 * out.Length + step - 1
    modifies out, temp
    ensures BitsOf(out[..]) == FlipLayers(old(BitsOf(out[..])), pos0, step, Bits(w, pi))
    ensures |Joined(Bits(w, pi))| == Count(w)
    ensures FlipsOnly(BitsOf(out[..]), old(BitsOf(out[..])), pos0, step, Joined(Bits(w, pi)))
    ensures temp[2 * n..] == old(temp[2 * n..])
    decreases w, 0
  {
    hide FlipsOnly, Joined;
    hide IsPerm, PairWords, BitsOf, FlipLayers, OuterFlips, Half, Bits, Pow2, Place, Behind, Count, Separate, Holds,
      Middle, Keyed;
    ghost var o := BitsOf(out[..]);
    BitsCount(w, pi);
    FlipLayersOnly(o, pos0, step, Bits(w, pi));
    if w == 1 {
      var first := ReadWord(temp, aux, off, 0, pi);
      PowerOfOne();
      SingleBit(out, pos0, step, first, pi);
      return;
    }
    ghost var quarter := Quarter(w);
    BitsFlipped(o, pos0, step, w, pi);
    Positions(pos0, step, w, n / 2, 8 * out.Length);
    SizeBounds(w);
    var pos := OuterCall(out, pos0, step, off, w, n, temp, aux, pi);
    PackPhase(temp, n, aux, quarter, pi);
    CallHalves(out, pos, step, w, n, temp, aux, Half(pi, 0), Half(pi, 1), quarter);
  }

  /**
   The two recursive calls: no position of the one is a position of the other, and the first leaves
   the words of the second half alone.
   */
  method CallHalves(out: array<bv8>, pos: nat, step: nat, w: nat, n: nat, temp: array<int>, aux: seq<int>,
                    ghost h0: seq<int>, ghost h1: seq<int>, ghost quarter: nat)
    requires Separate(out, temp)
    requires 2 <= w <= 14 && n == 4 * quarter && |h0| == |h1| == n / 2 == Pow2(w - 1)
    requires IsPerm(h0) && IsPerm(h1) && 2 * n <= temp.Length
    requires Holds(temp[..], aux, n + quarter, h0) && Holds(temp[..], aux, n + 2 * quarter, h1)
    requires step > 0 && Place(pos, 2 * step, Count(w - 1)) <= 8 * out.Length + 2 * step - 1
    requires Place(pos + step, 2 * step, Count(w - 1)) <= 8 * out.Length + 2 * step - 1
    modifies out, temp
    ensures BitsOf(out[..]) == FlipLayers(FlipLayers(old(BitsOf(out[..])), pos, 2 * step, Bits(w - 1, h0)),
                                          pos + step, 2 * step, Bits(w - 1, h1))
    ensures Apart(pos, pos + step, 2 * step)
    ensures FlipsBoth(BitsOf(out[..]), old(BitsOf(out[..])), pos, pos + step, 2 * step,
                      Joined(Bits(w - 1, h0)), Joined(Bits(w - 1, h1)))
    ensures temp[2 * n..] == old(temp[2 * n..])
    decreases w - 1, 1
  {
    hide FlipsOnly, FlipsBoth, Joined, Apart;
    hide IsPerm, BitsOf, FlipLayers, Bits, Pow2, Place, Count, Separate, Holds;
    ghost var (o, u) := (BitsOf(out[..]), temp[..]);
    CbRecursion(out, pos, 2 * step, n + n / 4, w - 1, n / 2, temp, aux, h0);
    assert temp[..][n..] == temp[n..] == u[n..];
    HoldsKept(u, temp[..], aux, n + 2 * quarter, n, h1);
    ghost var m := BitsOf(out[..]);
    CbRecursion(out, pos + step, 2 * step, n + n / 2, w - 1, n / 2, temp, aux, h1);
    assert temp[..][n..] == temp[n..] == u[n..];
    HalvesApart(pos, step);
    BothFlipped(BitsOf(out[..]), m, o, pos, pos + step, 2 * step, Joined(Bits(w - 1, h0)), Joined(Bits(w - 1, h1)));
    SliceKept(u, temp[..], n, 2 * n, temp.Length);
    assert temp[2 * n..] == temp[..][2 * n..] == u[2 * n..] == old(temp[..])[2 * n..] == old(temp[2 * n..]);
  }

  /** pi is not overwritten as long as temp keeps its words from 2n on. */
  lemma HoldsKept(t: seq<int>, u: seq<int>, aux: seq<int>, off: nat, from: nat, pi: seq<int>)
    requires |pi| % 2 == 0 && |t| == |u| && from <= |t| && t[from..] == u[from..]
    requires Holds(t, aux, off, pi) && (off == 0 || from <= off)
    ensures Holds(u, aux, off, pi)
  {
    if off > 0 { SliceKept(t, u, from, off, off + |pi| / 2); }
  }

  lemma SliceKept(t: seq<int>, u: seq<int>, from: nat, a: nat, b: nat)
    requires |t| == |u| && from <= a <= b <= |t| && t[from..] == u[from..]
    ensures t[a..b] == u[a..b] && t[b..] == u[b..]
  {
    forall i | a <= i < |t| ensures t[i] == u[i] {
      assert t[i] == t[from..][i - from] && u[i] == u[from..][i - from];
    }
  }

  lemma PowerOfOne()
    ensures Pow2(1) == 2 && Count(1) == 1 && forall pos: nat, step: nat :: Place(pos, step, 1) == pos + step
  {
  }

  lemma Quarter(w: nat) returns (quarter: nat)
    requires w > 1
    ensures Pow2(w) == 4 * quarter && Pow2(w) / 4 == quarter && Pow2(w - 1) == 2 * quarter
  {
    quarter := Pow2(w - 2);
  }

  /** The bottom of the recursion: one bit. */
  method SingleBit(out: array<bv8>, pos: nat, step: nat, first: int, ghost pi: seq<int>)
    requires |pi| == 2 && IsPerm(pi) && first == pi[1] * H + pi[0]
    requires step > 0 && pos + step <= 8 * out.Length + step - 1
    modifies out
    ensures BitsOf(out[..]) == FlipLayers(old(BitsOf(out[..])), pos, step, Bits(1, pi))
  {
    hide BitsOf, FlipAt;
    ghost var o := BitsOf(out[..]);
    WideFields(pi[1], pi[0]);
    XorBit(out, pos, first % H);
    ghost var cb := [pi[0] == 1];
    ghost var layers := [cb];
    assert cb[1..] == [] && layers[1..] == [];
    assert FlipAll(o, pos, step, cb) == FlipAt(o, pos, cb[0]);
  }
}
