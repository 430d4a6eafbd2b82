/** Independent rows, and the row operations that keep them so. */
module RowRank {
  import opened BinaryMatrices

  function Column(m: Matrix, j: nat, cols: nat): (v: seq<bool>)
    requires Shape(m, |m|, cols) && j < cols
    ensures |v| == |m| && forall i :: 0 <= i < |m| ==> v[i] == m[i][j]
  {
    seq(|m|, i requires 0 <= i < |m| => m[i][j])
  }

  /** The sum of the rows that y selects vanishes in the first n columns. */
  predicate RowsCancel(m: Matrix, y: seq<bool>, n: nat, cols: nat)
    requires Shape(m, |m|, cols) && |y| == |m| && n <= cols
  {
    forall j :: 0 <= j < n ==> !Dot(Column(m, j, cols), y)
  }

  /** The first n columns have full row rank. */
  ghost predicate RowsFull(m: Matrix, n: nat, cols: nat)
    requires Shape(m, |m|, cols) && n <= cols
  {
    forall y: seq<bool> :: |y| == |m| && Nonzero(y) ==> !RowsCancel(m, y, n, cols)
  }

  // ----- row operations

  /** What the selection of rows becomes when row k was added to row r. */
  function Reselect(y: seq<bool>, r: nat, k: nat, b: bool): (z: seq<bool>)
    requires r < |y| && k < |y|
    ensures |z| == |y|
  {
    if b then y[k := y[k] != y[r]] else y
  }

  lemma {:induction false} DotChanged(u: seq<bool>, y: seq<bool>, v: seq<bool>, r: nat, t: bool)
    requires |u| == |v| <= |y| && r < |u| && v == u[r := u[r] != t]
    ensures Dot(v, y) == (Dot(u, y) != (t && y[r]))
  {
    var n := |u| - 1;
    if r < n {
      DotChanged(u[..n], y, v[..n], r, t);
    } else {
      assert u[..n] == v[..n];
    }
  }

  lemma {:induction false} DotSelected(u: seq<bool>, y: seq<bool>, z: seq<bool>, k: nat, t: bool)
    requires |u| <= |y| == |z| && k < |u| && z == y[k := y[k] != t]
    ensures Dot(u, z) == (Dot(u, y) != (t && u[k]))
  {
    var n := |u| - 1;
    if k < n {
      DotSelected(u[..n], y, z, k, t);
    } else {
      DotSame(u[..n], y, z);
    }
  }

  lemma {:induction false} DotSame(u: seq<bool>, y: seq<bool>, z: seq<bool>)
    requires |u| <= |y| == |z| && forall i :: 0 <= i < |u| ==> y[i] == z[i]
    ensures Dot(u, y) == Dot(u, z)
  {
    if u != [] {
      DotSame(u[..|u| - 1], y, z);
    }
  }

  lemma AddRowBits(m: Matrix, r: nat, k: nat, b: bool, cols: nat)
    requires Shape(m, |m|, cols) && r < |m| && k < |m|
    ensures Shape(AddRow(m, r, k, b), |m|, cols)
    ensures forall i, j :: 0 <= i < |m| && 0 <= j < cols ==>
              AddRow(m, r, k, b)[i][j] == if i == r && b then m[r][j] != m[k][j] else m[i][j]
  {
  }

  lemma ColumnAdded(m: Matrix, r: nat, k: nat, b: bool, y: seq<bool>, j: nat, cols: nat)
    requires Shape(m, |m|, cols) && |y| == |m| && r < |m| && k < |m| && r != k && j < cols
    ensures Shape(AddRow(m, r, k, b), |m|, cols)
    ensures Dot(Column(AddRow(m, r, k, b), j, cols), y) == Dot(Column(m, j, cols), Reselect(y, r, k, b))
  {
    hide Dot;
    AddRowBits(m, r, k, b, cols);
    var (u, v) := (Column(m, j, cols), Column(AddRow(m, r, k, b), j, cols));
    if b {
      assert v == u[r := u[r] != u[k]];
      DotChanged(u, y, v, r, u[k]);
      DotSelected(u, y, Reselect(y, r, k, b), k, y[r]);
    } else {
      assert v == u;
    }
  }

  lemma ReselectTwice(y: seq<bool>, r: nat, k: nat, b: bool)
    requires r < |y| && k < |y| && r != k
    ensures Reselect(Reselect(y, r, k, b), r, k, b) == y
    ensures Nonzero(Reselect(y, r, k, b)) <==> Nonzero(y)
  {
    var z := Reselect(y, r, k, b);
    if Nonzero(y) {
      var i :| 0 <= i < |y| && y[i];
      assert z[i] || z[r];
    }
    if Nonzero(z) {
      var i :| 0 <= i < |z| && z[i];
      assert y[i] || y[r];
    }
  }

  lemma AddRowFull(m: Matrix, r: nat, k: nat, b: bool, n: nat, cols: nat)
    requires Shape(m, |m|, cols) && r < |m| && k < |m| && r != k && n <= cols
    ensures Shape(AddRow(m, r, k, b), |m|, cols)
    ensures RowsFull(AddRow(m, r, k, b), n, cols) <==> RowsFull(m, n, cols)
  {
    hide Dot, Nonzero, Reselect, AddRow, Column;
    AddRowBits(m, r, k, b, cols);
    var w := AddRow(m, r, k, b);
    forall y: seq<bool> | |y| == |m|
      ensures RowsCancel(w, y, n, cols) <==> RowsCancel(m, Reselect(y, r, k, b), n, cols)
    {
      forall j | 0 <= j < n ensures Dot(Column(w, j, cols), y) == Dot(Column(m, j, cols), Reselect(y, r, k, b)) {
        ColumnAdded(m, r, k, b, y, j, cols);
      }
    }
    forall y: seq<bool> | |y| == |m| && Nonzero(y)
      ensures RowsFull(m, n, cols) ==> !RowsCancel(w, y, n, cols)
      ensures RowsFull(w, n, cols) ==> !RowsCancel(m, y, n, cols)
    {
      ReselectTwice(y, r, k, b);
      var z := Reselect(y, r, k, b);
      assert RowsCancel(w, z, n, cols) <==> RowsCancel(m, y, n, cols);
    }
  }

  /** Whichever number of columns one looks at, both matrices have full row rank there, or neither has. */
  ghost predicate SameRank(m: Matrix, o: Matrix, cols: nat)
    requires Shape(m, |m|, cols) && Shape(o, |o|, cols)
  {
    forall n: nat :: n <= cols ==> (RowsFull(m, n, cols) <==> RowsFull(o, n, cols))
  }

  lemma AddRowRank(m: Matrix, o: Matrix, r: nat, k: nat, b: bool, cols: nat)
    requires Shape(m, |m|, cols) && Shape(o, |o|, cols) && r < |m| && k < |m| && r != k && SameRank(m, o, cols)
    ensures Shape(AddRow(m, r, k, b), |m|, cols) && SameRank(AddRow(m, r, k, b), o, cols)
  {
    hide RowsFull, AddRow;
    AddRowBits(m, r, k, b, cols);
    forall n: nat | n <= cols ensures RowsFull(AddRow(m, r, k, b), n, cols) <==> RowsFull(o, n, cols) {
      AddRowFull(m, r, k, b, n, cols);
    }
  }

  /** A row of zeros is a relation between the rows. */
  lemma ZeroRow(b: Matrix, i: nat, cols: nat)
    requires Shape(b, |b|, cols) && i < |b| && forall k :: 0 <= k < cols ==> !b[i][k]
    ensures !RowsFull(b, cols, cols)
  {
    hide Dot;
    var y := seq(|b|, r => r == i);
    assert y[i];
    forall j | 0 <= j < cols ensures !Dot(Column(b, j, cols), y) {
      DotZero(Column(b, j, cols), y);
    }
    assert RowsCancel(b, y, cols, cols);
  }
}
