/** What the pivots that mov_columns (src/pk_gen.rs) finds in its window are worth. */
module Echelons {
  import opened BinaryMatrices
  import opened RowRank
  import opened Elimination
  import opened ColumnMoves

  // ----- echelon forms

  /** The first i rows are in echelon form with pivots c, and the others are zero up to the last pivot. */
  predicate Echelon(b: Matrix, c: seq<nat>, cols: nat)
    requires Shape(b, |b|, cols) && |c| <= |b|
  {
    && (forall j :: 0 <= j < |c| ==> c[j] < cols)
    && (forall j, k :: 0 <= j < k < |c| ==> c[j] < c[k])
    && (forall j :: 0 <= j < |c| ==> b[j][c[j]])
    && (forall j, r :: 0 <= j < |c| && j < r < |b| ==> !b[r][c[j]])
    && forall j, r, k :: 0 <= j < |c| && j <= r < |b| && 0 <= k < c[j] ==> !b[r][k]
  }

  /** c lists the pivot columns of w. */
  ghost predicate Pivots(w: Matrix, c: seq<nat>, cols: nat)
    requires Shape(w, |w|, cols) && |c| == |w|
  {
    exists b: Matrix :: Shape(b, |w|, cols) && SameKernel(b, w, cols) && Echelon(b, c, cols)
  }

  lemma {:induction false} PivotsAhead(c: seq<nat>, j: nat)
    requires j < |c| && forall i, k :: 0 <= i < k < |c| ==> c[i] < c[k]
    ensures j <= c[j]
  {
    if j > 0 {
      PivotsAhead(c, j - 1);
    }
  }

  lemma EchelonChoice(b: Matrix, c: seq<nat>)
    requires Shape(b, |b|, WINDOW) && |c| <= |b| && Echelon(b, c, WINDOW)
    ensures IsChoice(c)
  {
    forall j | 0 <= j < |c| ensures j <= c[j] { PivotsAhead(c, j); }
  }

  lemma FirstSet(y: seq<bool>) returns (k: nat)
    requires Nonzero(y)
    ensures k < |y| && y[k] && forall i :: 0 <= i < k ==> !y[i]
  {
    k := 0;
    while !y[k]
      invariant k < |y| && forall i :: 0 <= i < k ==> !y[i]
      invariant exists i :: k <= i < |y| && y[i]
      decreases |y| - k
    {
      k := k + 1;
    }
  }

  lemma LastSet(y: seq<bool>) returns (k: nat)
    requires Nonzero(y)
    ensures k < |y| && y[k] && forall i :: k < i < |y| ==> !y[i]
  {
    k := |y| - 1;
    while !y[k]
      invariant 0 <= k < |y| && forall i :: k < i < |y| ==> !y[i]
      invariant exists i :: 0 <= i <= k && y[i]
      decreases k
    {
      k := k - 1;
    }
  }

  /** With a pivot in every row the rows are independent. */
  lemma EchelonFull(b: Matrix, c: seq<nat>, cols: nat)
    requires Shape(b, |b|, cols) && |c| == |b| && Echelon(b, c, cols)
    ensures RowsFull(b, cols, cols)
  {
    hide Dot, Nonzero;
    forall y: seq<bool> | |y| == |b| && Nonzero(y) ensures !RowsCancel(b, y, cols, cols) {
      var k := FirstSet(y);
      var v := Column(b, c[k], cols);
      assert forall i :: k < i < |b| ==> !b[i][c[k]];
      DotOne(v, y, k);
      assert Dot(v, y);
    }
  }

  /** The pivot columns are independent. */
  lemma PivotsIndependent(w: Matrix, c: seq<nat>, z: seq<bool>)
    requires Shape(w, |w|, |z|) && |c| == |w| && Pivots(w, c, |z|) && Kernel(w, z)
    requires forall k :: 0 <= k < |z| && z[k] ==> exists j :: 0 <= j < |c| && c[j] == k
    ensures !Nonzero(z)
  {
    hide Dot, Nonzero, SameKernel;
    var cols := |z|;
    var b: Matrix :| Shape(b, |w|, cols) && SameKernel(b, w, cols) && Echelon(b, c, cols);
    if Nonzero(z) {
      KernelToo(b, w, z);
      var k := LastSet(z);
      var j :| 0 <= j < |c| && c[j] == k;
      forall i | 0 <= i < cols && i != k ensures !b[j][i] || !z[i] {
        if i < k && z[i] {
          assert !b[j][i];
        }
      }
      DotOne(b[j], z, k);
    }
  }

  lemma KernelToo(b: Matrix, w: Matrix, z: seq<bool>)
    requires Shape(b, |b|, |z|) && Shape(w, |w|, |z|) && SameKernel(b, w, |z|) && Kernel(w, z)
    ensures Kernel(b, z)
  {
  }

  // ----- which columns the pivots are

  /** Column k is not a combination of the columns before it. */
  ghost predicate NewColumn(m: Matrix, k: nat, cols: nat)
    requires Shape(m, |m|, cols) && k < cols
  {
    forall x: seq<bool> :: |x| == cols && SupportedBelow(x, k + 1) && x[k] ==> !Kernel(m, x)
  }

  lemma NewSame(b: Matrix, w: Matrix, k: nat, cols: nat)
    requires Shape(b, |b|, cols) && Shape(w, |w|, cols) && SameKernel(b, w, cols) && k < cols
    ensures NewColumn(b, k, cols) <==> NewColumn(w, k, cols)
  {
    hide Kernel;
  }

  /** The row of a pivot has nothing to offer to the columns before it. */
  lemma PivotIsNew(b: Matrix, c: seq<nat>, j: nat, cols: nat)
    requires Shape(b, |b|, cols) && |c| == |b| && Echelon(b, c, cols) && j < |c|
    ensures NewColumn(b, c[j], cols)
  {
    hide Dot;
    forall x: seq<bool> | |x| == cols && SupportedBelow(x, c[j] + 1) && x[c[j]] ensures !Kernel(b, x) {
      forall i | 0 <= i < cols && i != c[j] ensures !b[j][i] || !x[i] {
        if i < c[j] { assert !b[j][i]; }
      }
      DotOne(b[j], x, c[j]);
    }
  }

  /** Any other column is made up from the pivots before it, from the last one back. */
  lemma {:induction false} Combined(b: Matrix, c: seq<nat>, k: nat, r: nat, cols: nat) returns (x: seq<bool>)
    requires Shape(b, |b|, cols) && |c| == |b| && Echelon(b, c, cols) && k < cols && k !in c && r <= |b|
    ensures |x| == cols && SupportedBelow(x, k + 1) && x[k]
    ensures forall i :: r <= i < |b| ==> !Dot(b[i], x)
    decreases |b| - r
  {
    hide Dot;
    if r == |b| {
      x := seq(cols, i => i == k);
    } else {
      x := Combined(b, c, k, r + 1, cols);
      if c[r] > k {
        forall i | 0 <= i < cols ensures !b[r][i] || !x[i] {
          if i < c[r] { assert !b[r][i]; }
        }
        DotZero(b[r], x);
      } else {
        assert c[r] != k;
        var d := Dot(b[r], x);
        var z := x[c[r] := x[c[r]] != d];
        forall i | r <= i < |b| ensures !Dot(b[i], z) {
          DotSelected(b[i], x, z, c[r], d);
          assert i > r ==> !b[i][c[r]];
        }
        x := z;
      }
    }
  }

  /** The pivots are exactly the columns that are not combinations of those before them. */
  lemma PivotsAreNew(w: Matrix, c: seq<nat>, k: nat, cols: nat)
    requires Shape(w, |w|, cols) && |c| == |w| && Pivots(w, c, cols) && k < cols
    ensures k in c <==> NewColumn(w, k, cols)
  {
    hide Dot, SameKernel, NewColumn;
    var b: Matrix :| Shape(b, |w|, cols) && SameKernel(b, w, cols) && Echelon(b, c, cols);
    NewSame(b, w, k, cols);
    if k in c {
      var j :| 0 <= j < |c| && c[j] == k;
      PivotIsNew(b, c, j, cols);
    } else {
      var x := Combined(b, c, k, 0, cols);
      NotNew(b, k, x);
    }
  }

  lemma NotNew(m: Matrix, k: nat, x: seq<bool>)
    requires Shape(m, |m|, |x|) && k < |x| && SupportedBelow(x, k + 1) && x[k] && Kernel(m, x)
    ensures !NewColumn(m, k, |x|)
  {
    hide Dot;
  }

  // ----- the window of an elimination that has come as far as row base

  /** The last PIVOTS rows, in the WINDOW columns from base on. */
  function WindowOf(m: Matrix, base: nat, cols: nat): (w: Matrix)
    requires Shape(m, base + PIVOTS, cols) && base + WINDOW <= cols
    ensures Shape(w, PIVOTS, WINDOW)
    ensures forall i, k :: 0 <= i < PIVOTS && 0 <= k < WINDOW ==> w[i][k] == m[base + i][base + k]
  {
    seq(PIVOTS, i requires 0 <= i < PIVOTS => m[base + i][base..base + WINDOW])
  }

  /** Positions in which one side is zero do not matter. */
  lemma {:induction false} DotFrom(u: seq<bool>, x: seq<bool>, base: nat)
    requires base <= |u| <= |x| && forall i :: 0 <= i < base ==> !u[i] || !x[i]
    ensures Dot(u, x) == Dot(u[base..], x[base..])
  {
    if base == |u| {
      DotZero(u, x);
    } else {
      var n := |u| - 1;
      DotFrom(u[..n], x, base);
      assert u[..n][base..] == u[base..][..n - base];
    }
  }

  lemma {:induction false} DotUpTo(u: seq<bool>, x: seq<bool>, n: nat)
    requires n <= |u| <= |x| && forall i :: n <= i < |u| ==> !u[i] || !x[i]
    ensures Dot(u, x) == Dot(u[..n], x[..n])
    decreases |u|
  {
    if n == |u| {
      assert u[..n] == u;
      DotPrefix(u, x, n);
    } else {
      var l := |u| - 1;
      DotUpTo(u[..l], x, n);
      assert u[..l][..n] == u[..n];
    }
  }

  lemma {:induction false} DotPrefix(u: seq<bool>, x: seq<bool>, n: nat)
    requires |u| <= n <= |x|
    ensures Dot(u, x) == Dot(u, x[..n])
  {
    if u != [] {
      DotPrefix(u[..|u| - 1], x, n);
    }
  }

  lemma ReducedShape(m: Matrix, o: Matrix, n: nat, cols: nat)
    requires Reduced(m, o, n, cols)
    ensures Shape(m, |m|, cols) && !Dependent(m, n, cols) && !Dependent(o, n, cols)
  {
    hide Dot, Kernel;
    UnitRegular(m, m, n, cols);
    UnitRegular(m, o, n, cols);
  }

  /** A relation between the rows can only involve the last ones, and shows in the window. */
  lemma WindowRelation(m: Matrix, o: Matrix, base: nat, cols: nat, y: seq<bool>)
    requires |m| == base + PIVOTS == |y| && base + WINDOW <= cols && Reduced(m, o, base, cols)
    ensures RowsCancel(m, y, base + WINDOW, cols)
       <==> (forall i :: 0 <= i < base ==> !y[i]) && RowsCancel(WindowOf(m, base, cols), y[base..], WINDOW, WINDOW)
  {
    hide Dot, SameKernel;
    var w := WindowOf(m, base, cols);
    forall j | 0 <= j < base ensures Dot(Column(m, j, cols), y) == y[j] {
      DotOne(Column(m, j, cols), y, j);
    }
    if forall i :: 0 <= i < base ==> !y[i] {
      forall k | 0 <= k < WINDOW ensures Dot(Column(m, base + k, cols), y) == Dot(Column(w, k, WINDOW), y[base..]) {
        DotFrom(Column(m, base + k, cols), y, base);
        assert Column(m, base + k, cols)[base..] == Column(w, k, WINDOW);
      }
      if RowsCancel(m, y, base + WINDOW, cols) {
        forall k | 0 <= k < WINDOW ensures !Dot(Column(w, k, WINDOW), y[base..]) {
          assert !Dot(Column(m, base + k, cols), y);
        }
      }
      if RowsCancel(w, y[base..], WINDOW, WINDOW) {
        forall j | 0 <= j < base + WINDOW ensures !Dot(Column(m, j, cols), y) {
          if j >= base { assert !Dot(Column(w, j - base, WINDOW), y[base..]); }
        }
      }
    } else {
      var i :| 0 <= i < base && y[i];
      assert Dot(Column(m, i, cols), y);
    }
  }

  /** The window has full rank exactly when the columns up to its end have. */
  lemma WindowFull(m: Matrix, o: Matrix, base: nat, cols: nat)
    requires |m| == base + PIVOTS && base + WINDOW <= cols && Reduced(m, o, base, cols)
    ensures RowsFull(m, base + WINDOW, cols) <==> RowsFull(WindowOf(m, base, cols), WINDOW, WINDOW)
  {
    hide Dot, Reduced, RowsCancel, WindowOf;
    ReducedShape(m, o, base, cols);
    var w := WindowOf(m, base, cols);
    if RowsFull(m, base + WINDOW, cols) {
      forall v: seq<bool> | |v| == |w| && Nonzero(v) ensures !RowsCancel(w, v, WINDOW, WINDOW) {
        var y := seq(base, i => false) + v;
        var i :| 0 <= i < |v| && v[i];
        assert y[base + i] && y[base..] == v;
        WindowRelation(m, o, base, cols, y);
      }
    }
    if RowsFull(w, WINDOW, WINDOW) {
      forall y: seq<bool> | |y| == |m| && Nonzero(y) ensures !RowsCancel(m, y, base + WINDOW, cols) {
        WindowRelation(m, o, base, cols, y);
        if forall i :: 0 <= i < base ==> !y[i] {
          var i :| 0 <= i < |y| && y[i];
          assert y[base..][i - base];
        }
      }
    }
  }

  /** The part of a kernel vector that lies in the window. */
  lemma WindowKernel(m: Matrix, o: Matrix, base: nat, z: seq<bool>)
    requires |m| == base + PIVOTS && base + WINDOW <= |z| && Reduced(m, o, base, |z|) && Kernel(m, z)
    requires forall k :: base + WINDOW <= k < |z| ==> !z[k]
    ensures Kernel(WindowOf(m, base, |z|), z[base..base + WINDOW])
  {
    hide Dot, SameKernel;
    var (w, v, n) := (WindowOf(m, base, |z|), z[base..base + WINDOW], base + WINDOW);
    forall i | 0 <= i < PIVOTS ensures !Dot(w[i], v) {
      var u := m[base + i];
      assert !Dot(u, z);
      DotUpTo(u, z, n);
      DotFrom(u[..n], z[..n], base);
      assert u[..n][base..] == w[i] && z[..n][base..] == v;
    }
  }

  /** A kernel vector of the window, continued by what the unit columns before it have to contribute. */
  function Continued(m: Matrix, base: nat, v: seq<bool>, cols: nat): (z: seq<bool>)
    requires Shape(m, base + PIVOTS, cols) && base + WINDOW <= cols && |v| == WINDOW
    ensures |z| == cols && z[base..base + WINDOW] == v && SupportedBelow(z, base + WINDOW)
  {
    var t := seq(base, i => false) + v + seq(cols - base - WINDOW, i => false);
    seq(base, i requires 0 <= i < base => Dot(m[i], t)) + v + seq(cols - base - WINDOW, i => false)
  }

  lemma ContinuedKernel(m: Matrix, o: Matrix, base: nat, v: seq<bool>, cols: nat)
    requires |m| == base + PIVOTS && base + WINDOW <= cols && Reduced(m, o, base, cols)
    requires |v| == WINDOW && Kernel(WindowOf(m, base, cols), v)
    ensures Kernel(m, Continued(m, base, v, cols))
  {
    hide Dot, SameKernel;
    var (z, t, w) := (Continued(m, base, v, cols), seq(base, i => false) + v + seq(cols - base - WINDOW, i => false),
      WindowOf(m, base, cols));
    forall i | 0 <= i < |m| ensures !Dot(m[i], z) {
      if i < base {
        UnitFront(m[i], z, t, base, i);
      } else {
        assert !Dot(w[i - base], v);
        DotUpTo(m[i], z, base + WINDOW);
        DotFrom(m[i][..base + WINDOW], z[..base + WINDOW], base);
        assert m[i][..base + WINDOW][base..] == w[i - base] && z[..base + WINDOW][base..] == v;
      }
    }
  }

  lemma UnitFront(u: seq<bool>, z: seq<bool>, t: seq<bool>, base: nat, i: nat)
    requires |u| == |z| == |t| && i < base <= |u| && (forall k :: 0 <= k < base ==> u[k] == (k == i))
    requires forall k :: base <= k < |u| ==> z[k] == t[k]
    requires (forall k :: 0 <= k < base ==> !t[k]) && z[i] == Dot(u, t)
    ensures !Dot(u, z)
  {
    hide Dot;
    DotXorRight(u, t, Xor(z, t));
    assert Xor(t, Xor(z, t)) == z;
    DotOne(u, Xor(z, t), i);
  }

  /** Within the window, a column is new exactly when it is among all columns. */
  lemma WindowNew(m: Matrix, o: Matrix, base: nat, k: nat, cols: nat)
    requires |m| == base + PIVOTS && base + WINDOW <= cols && Reduced(m, o, base, cols) && k < WINDOW
    ensures Shape(o, |o|, cols) && (NewColumn(o, base + k, cols) <==> NewColumn(WindowOf(m, base, cols), k, WINDOW))
  {
    hide Dot, Kernel, UnitColumns, SameKernel, WindowOf, Continued;
    NewSame(m, o, base + k, cols);
    var w := WindowOf(m, base, cols);
    if NewColumn(m, base + k, cols) {
      forall v: seq<bool> | |v| == WINDOW && SupportedBelow(v, k + 1) && v[k] ensures !Kernel(w, v) {
        if Kernel(w, v) {
          ContinuedKernel(m, o, base, v, cols);
          ContinuedAt(m, base, v, cols, k);
        }
      }
    }
    if NewColumn(w, k, WINDOW) {
      forall x: seq<bool> | |x| == cols && SupportedBelow(x, base + k + 1) && x[base + k] ensures !Kernel(m, x) {
        var v := x[base..base + WINDOW];
        assert SupportedBelow(v, k + 1) && v[k];
        if Kernel(m, x) {
          WindowKernel(m, o, base, x);
        }
      }
    }
  }

  lemma ContinuedAt(m: Matrix, base: nat, v: seq<bool>, cols: nat, k: nat)
    requires Shape(m, base + PIVOTS, cols) && base + WINDOW <= cols && |v| == WINDOW && k < WINDOW
    requires SupportedBelow(v, k + 1) && v[k]
    ensures var z := Continued(m, base, v, cols); SupportedBelow(z, base + k + 1) && z[base + k]
  {
    hide Dot;
    var z := Continued(m, base, v, cols);
    forall i | base <= i < base + WINDOW ensures z[i] == v[i - base] {
      assert z[i] == z[base..base + WINDOW][i - base];
    }
  }

  /** A vector that the moved matrix annihilates comes from one among the columns before the window. */
  lemma MovedKernel(m: Matrix, o: Matrix, base: nat, c: seq<nat>, x: seq<bool>)
    requires |m| == base + PIVOTS && base + WINDOW <= |x| && Reduced(m, o, base, |x|) && SupportedBelow(x, |m|)
    requires |c| == PIVOTS && IsChoice(c) && Pivots(WindowOf(m, base, |x|), c, WINDOW)
    requires Kernel(MovedColumns(m, base, c, PIVOTS, |x|), x)
    ensures Kernel(m, Back(x, base, c, PIVOTS)) && SupportedBelow(Back(x, base, c, PIVOTS), base)
  {
    hide Dot, Kernel, Reduced, WindowOf, Pivots, From, To;
    ReducedShape(m, o, base, |x|);
    KernelMoved(m, x, base, c, PIVOTS);
    var z := Back(x, base, c, PIVOTS);
    forall k | base <= k < |x| && z[k] ensures k < base + WINDOW && exists j :: 0 <= j < |c| && c[j] == k - base {
      BackSupport(x, base, c, k);
    }
    WindowKernel(m, o, base, z);
    var v := z[base..base + WINDOW];
    PivotsIndependent(WindowOf(m, base, |x|), c, v);
    forall k | base <= k < |x| ensures !z[k] {
      if k < base + WINDOW { assert !v[k - base]; }
    }
  }

  /** With the pivot columns of the window moved to its front, the left square block is regular. */
  lemma MovedRegular(m: Matrix, o: Matrix, base: nat, c: seq<nat>, cols: nat)
    requires |m| == base + PIVOTS && base + WINDOW <= cols && Reduced(m, o, base, cols)
    requires |c| == PIVOTS && IsChoice(c) && Pivots(WindowOf(m, base, cols), c, WINDOW)
    ensures Shape(m, |m|, cols) && !LeftSingular(MovedColumns(m, base, c, PIVOTS, cols), cols)
  {
    hide Dot, Kernel, Reduced, WindowOf, Pivots, Back, SupportedBelow, Nonzero, MovedColumns;
    ReducedShape(m, o, base, cols);
    var w := MovedColumns(m, base, c, PIVOTS, cols);
    forall x: seq<bool> | |x| == cols && SupportedBelow(x, |m|) && Nonzero(x) ensures !Kernel(w, x) {
      if Kernel(w, x) {
        MovedKernel(m, o, base, c, x);
        BackNonzero(x, base, c);
      }
    }
  }

  lemma BackSupport(x: seq<bool>, base: nat, c: seq<nat>, k: nat)
    requires |c| == PIVOTS && IsChoice(c) && base + WINDOW <= |x| && SupportedBelow(x, base + PIVOTS)
    requires base <= k < |x| && Back(x, base, c, PIVOTS)[k]
    ensures k < base + WINDOW && exists j :: 0 <= j < |c| && c[j] == k - base
  {
    hide From, To;
    FromBelow(base, c, PIVOTS, k, |x|);
    FromRange(base, c, PIVOTS, k);
    FromTo(base, c, PIVOTS, k);
    var i := To(base, c, PIVOTS, k);
    assert x[i];
    FromChosen(base, c, PIVOTS, i - base);
    assert c[i - base] == k - base;
  }

  lemma BackNonzero(x: seq<bool>, base: nat, c: seq<nat>)
    requires |c| == PIVOTS && IsChoice(c) && base + WINDOW <= |x| && Nonzero(x)
    ensures Nonzero(Back(x, base, c, PIVOTS))
  {
    hide From, To;
    var i :| 0 <= i < |x| && x[i];
    FromBelow(base, c, PIVOTS, i, |x|);
    FromTo(base, c, PIVOTS, i);
    assert Back(x, base, c, PIVOTS)[From(base, c, PIVOTS, i)];
  }
}
