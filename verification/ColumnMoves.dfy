/** The column exchanges of mov_columns (src/pk_gen.rs, lines 122-177), on sequences of any kind. */
module ColumnMoves {
  import opened Permutations
  import opened BinaryMatrices

  /** The number of columns that are looked through for pivots, and of pivots to be found. */
  const WINDOW: nat := 64
  const PIVOTS: nat := 32

  /** Strictly increasing columns of the window; column c[j] is exchanged with column j. */
  predicate IsChoice(c: seq<nat>)
  {
    && (forall j :: 0 <= j < |c| ==> j <= c[j] < WINDOW)
    && forall j, k :: 0 <= j < k < |c| ==> c[j] < c[k]
  }

  /** A choice is known from the columns in it. */
  lemma ChoiceUnique(c: seq<nat>, d: seq<nat>)
    requires IsChoice(c) && IsChoice(d) && |c| == |d| && forall k :: 0 <= k < WINDOW ==> (k in c <==> k in d)
    ensures c == d
  {
    forall j | 0 <= j < |c| ensures c[j] == d[j] { ChoiceAt(c, d, j); }
  }

  lemma {:induction false} ChoiceAt(c: seq<nat>, d: seq<nat>, j: nat)
    requires IsChoice(c) && IsChoice(d) && |c| == |d| && forall k :: 0 <= k < WINDOW ==> (k in c <==> k in d)
    requires j < |c|
    ensures c[j] == d[j]
    decreases j
  {
    forall i | 0 <= i < j ensures c[i] == d[i] { ChoiceAt(c, d, i); }
    assert c[j] in c && d[j] in d;
    var a :| 0 <= a < |d| && d[a] == c[j];
    var b :| 0 <= b < |c| && c[b] == d[j];
  }

  function Swap(a: nat, b: nat, i: nat): nat
  {
    if i == a then b else if i == b then a else i
  }

  /**
   Where the entry at position i comes from when positions base + j and base + c[j] were exchanged
   for every j < n.
   */
  function From(base: nat, c: seq<nat>, n: nat, i: nat): nat
    requires n <= |c|
  {
    if n == 0 then i else From(base, c, n - 1, Swap(base + n - 1, base + c[n - 1], i))
  }

  function To(base: nat, c: seq<nat>, n: nat, i: nat): nat
    requires n <= |c|
  {
    if n == 0 then i else Swap(base + n - 1, base + c[n - 1], To(base, c, n - 1, i))
  }

  lemma {:induction false} FromTo(base: nat, c: seq<nat>, n: nat, i: nat)
    requires n <= |c|
    ensures From(base, c, n, To(base, c, n, i)) == i && To(base, c, n, From(base, c, n, i)) == i
  {
    if n > 0 {
      FromTo(base, c, n - 1, i);
      FromTo(base, c, n - 1, Swap(base + n - 1, base + c[n - 1], i));
    }
  }

  /** Entries outside the window stay where they are, and those inside stay inside. */
  lemma {:induction false} FromRange(base: nat, c: seq<nat>, n: nat, i: nat)
    requires n <= |c| && IsChoice(c)
    ensures From(base, c, n, i) == i || (base <= i < base + WINDOW && base <= From(base, c, n, i) < base + WINDOW)
    ensures To(base, c, n, i) == i || (base <= i < base + WINDOW && base <= To(base, c, n, i) < base + WINDOW)
  {
    if n > 0 {
      FromRange(base, c, n - 1, i);
      FromRange(base, c, n - 1, Swap(base + n - 1, base + c[n - 1], i));
    }
  }

  /** Past the exchanges made so far nothing has moved. */
  lemma {:induction false} FromBeyond(base: nat, c: seq<nat>, n: nat, k: nat)
    requires n <= |c| && IsChoice(c) && n <= k && (n > 0 ==> c[n - 1] < k)
    ensures From(base, c, n, base + k) == base + k
  {
    if n > 1 {
      assert c[n - 2] < c[n - 1];
    }
    if n > 0 {
      FromBeyond(base, c, n - 1, k);
    }
  }

  /** Column j of the window ends up with what was in column c[j]. */
  lemma {:induction false} FromChosen(base: nat, c: seq<nat>, n: nat, j: nat)
    requires j < n <= |c| && IsChoice(c)
    ensures From(base, c, n, base + j) == base + c[j]
  {
    if j == n - 1 {
      if j > 0 { assert c[j - 1] < c[j]; }
      FromBeyond(base, c, n - 1, c[j]);
    } else {
      assert c[j] < c[n - 1];
      FromChosen(base, c, n - 1, j);
    }
  }

  lemma FromBelow(base: nat, c: seq<nat>, n: nat, i: nat, size: nat)
    requires n <= |c| && IsChoice(c) && base + WINDOW <= size
    ensures From(base, c, n, i) < size <==> i < size
    ensures To(base, c, n, i) < size <==> i < size
  {
    FromRange(base, c, n, i);
  }

  /** s after the first n exchanges. */
  function Moved<T>(s: seq<T>, base: nat, c: seq<nat>, n: nat): (r: seq<T>)
    requires n <= |c| && IsChoice(c) && base + WINDOW <= |s|
    ensures |r| == |s|
  {
    seq(|s|, i requires 0 <= i < |s| => FromBelow(base, c, n, i, |s|); s[From(base, c, n, i)])
  }

  function Exchanged<T>(s: seq<T>, a: nat, b: nat): (r: seq<T>)
    requires a < |s| && b < |s|
    ensures |r| == |s|
    ensures forall i :: 0 <= i < |s| ==> Swap(a, b, i) < |s| && r[i] == s[Swap(a, b, i)]
  {
    s[a := s[b]][b := s[a]]
  }

  lemma MovedNone<T>(s: seq<T>, base: nat, c: seq<nat>)
    requires IsChoice(c) && base + WINDOW <= |s|
    ensures Moved(s, base, c, 0) == s
  {
  }

  /** One more exchange. */
  lemma MovedNext<T>(s: seq<T>, base: nat, c: seq<nat>, n: nat)
    requires n < |c| && IsChoice(c) && base + WINDOW <= |s|
    ensures Moved(s, base, c, n + 1) == Exchanged(Moved(s, base, c, n), base + n, base + c[n])
  {
  }

  lemma MovedPerm(s: seq<int>, base: nat, c: seq<nat>, n: nat)
    requires n <= |c| && IsChoice(c) && base + WINDOW <= |s| && IsPerm(s)
    ensures IsPerm(Moved(s, base, c, n))
  {
    hide From, To;
    var r := Moved(s, base, c, n);
    forall i | 0 <= i < |r| ensures From(base, c, n, i) < |s| && r[i] == s[From(base, c, n, i)] {
      FromBelow(base, c, n, i, |s|);
    }
    forall i, j | 0 <= i < j < |r| ensures r[i] != r[j] {
      FromTo(base, c, n, i); FromTo(base, c, n, j);
    }
  }

  // ----- kernels

  lemma {:induction false} DotUnitPair(u: seq<bool>, a: nat, b: nat, n: nat)
    requires a < n <= |u| && b < n && a != b
    ensures Dot(u[..n], Pair(|u|, a, b)) == (u[a] != u[b])
    ensures Dot(Pair(|u|, a, b)[..n], u) == (u[a] != u[b])
  {
    var (x, p) := (u[..n], Pair(|u|, a, b));
    DotTwo(x, p, if a < b then a else b, if a < b then b else a);
    DotTwo(p[..n], u, if a < b then a else b, if a < b then b else a);
  }

  function Pair(size: nat, a: nat, b: nat): (p: seq<bool>)
    ensures |p| == size
  {
    seq(size, i => i == a || i == b)
  }

  lemma ExchangeXor(u: seq<bool>, a: nat, b: nat)
    requires a < |u| && b < |u|
    ensures Exchanged(u, a, b) == if u[a] != u[b] then Xor(u, Pair(|u|, a, b)) else u
  {
    var w := if u[a] != u[b] then Xor(u, Pair(|u|, a, b)) else u;
    assert |w| == |u|;
    forall i | 0 <= i < |u| ensures Exchanged(u, a, b)[i] == w[i] {
    }
  }

  /** Exchanging two positions in both arguments leaves an inner product as it is. */
  lemma DotExchange(u: seq<bool>, x: seq<bool>, a: nat, b: nat)
    requires |u| == |x| && a < |u| && b < |u|
    ensures Dot(Exchanged(u, a, b), x) == Dot(u, Exchanged(x, a, b))
  {
    hide Dot;
    if a != b {
      var p := Pair(|u|, a, b);
      ExchangeXor(u, a, b); ExchangeXor(x, a, b);
      DotXor(u, p, x); DotXorRight(u, x, p);
      assert u[..|u|] == u && p[..|u|] == p;
      DotUnitPair(u, a, b, |u|); DotUnitPair(x, a, b, |u|);
    } else {
      assert Exchanged(u, a, b) == u && Exchanged(x, a, b) == x;
    }
  }

  /** x before the exchanges that made it from Back. */
  function Back(x: seq<bool>, base: nat, c: seq<nat>, n: nat): (r: seq<bool>)
    requires n <= |c| && IsChoice(c) && base + WINDOW <= |x|
    ensures |r| == |x|
  {
    seq(|x|, i requires 0 <= i < |x| => FromBelow(base, c, n, i, |x|); x[To(base, c, n, i)])
  }

  lemma {:induction false} DotMoved(u: seq<bool>, x: seq<bool>, base: nat, c: seq<nat>, n: nat)
    requires |u| == |x| && n <= |c| && IsChoice(c) && base + WINDOW <= |x|
    ensures Dot(Moved(u, base, c, n), x) == Dot(u, Back(x, base, c, n))
    decreases n
  {
    hide Dot, Moved;
    if n == 0 {
      MovedNone(u, base, c);
      assert Back(x, base, c, n) == x;
    } else {
      var (a, b) := (base + n - 1, base + c[n - 1]);
      MovedNext(u, base, c, n - 1);
      DotExchange(Moved(u, base, c, n - 1), x, a, b);
      DotMoved(u, Exchanged(x, a, b), base, c, n - 1);
      BackNext(x, base, c, n);
    }
  }

  lemma BackNext(x: seq<bool>, base: nat, c: seq<nat>, n: nat)
    requires 0 < n <= |c| && IsChoice(c) && base + WINDOW <= |x|
    ensures Back(x, base, c, n) == Back(Exchanged(x, base + n - 1, base + c[n - 1]), base, c, n - 1)
  {
    forall i | 0 <= i < |x|
      ensures Back(x, base, c, n)[i] == Back(Exchanged(x, base + n - 1, base + c[n - 1]), base, c, n - 1)[i]
    {
      FromBelow(base, c, n - 1, i, |x|);
    }
  }

  /** The matrix with its columns moved. */
  function MovedColumns(m: Matrix, base: nat, c: seq<nat>, n: nat, cols: nat): (w: Matrix)
    requires Shape(m, |m|, cols) && n <= |c| && IsChoice(c) && base + WINDOW <= cols
    ensures Shape(w, |m|, cols) && forall i :: 0 <= i < |m| ==> w[i] == Moved(m[i], base, c, n)
  {
    seq(|m|, i requires 0 <= i < |m| => Moved(m[i], base, c, n))
  }

  lemma KernelMoved(m: Matrix, x: seq<bool>, base: nat, c: seq<nat>, n: nat)
    requires Shape(m, |m|, |x|) && n <= |c| && IsChoice(c) && base + WINDOW <= |x|
    ensures Kernel(MovedColumns(m, base, c, n, |x|), x) <==> Kernel(m, Back(x, base, c, n))
  {
    hide Dot, Moved, Back;
    var w := MovedColumns(m, base, c, n, |x|);
    forall i | 0 <= i < |m| ensures Dot(w[i], x) == Dot(m[i], Back(x, base, c, n)) {
      DotMoved(m[i], x, base, c, n);
    }
  }

  /** Moving the columns of both matrices, they still check a common code. */
  lemma SameKernelMoved(m: Matrix, o: Matrix, base: nat, c: seq<nat>, n: nat, cols: nat)
    requires Shape(m, |m|, cols) && Shape(o, |o|, cols) && n <= |c| && IsChoice(c) && base + WINDOW <= cols
    requires SameKernel(m, o, cols)
    ensures SameKernel(MovedColumns(m, base, c, n, cols), MovedColumns(o, base, c, n, cols), cols)
  {
    hide Kernel, Back, MovedColumns;
    var (v, w) := (MovedColumns(m, base, c, n, cols), MovedColumns(o, base, c, n, cols));
    forall x: seq<bool> | |x| == cols ensures Kernel(v, x) <==> Kernel(w, x) {
      KernelMoved(m, x, base, c, n);
      KernelMoved(o, x, base, c, n);
    }
  }
}
