/** Matrices over GF(2) as sequences of bit rows, and the vectors they annihilate. */
module BinaryMatrices {

  type Matrix = seq<seq<bool>>

  /** The inner product of u and x, over as many positions as u has. */
  function Dot(u: seq<bool>, x: seq<bool>): bool
    requires |u| <= |x|
  {
    if u == [] then false else
      var n := |u| - 1;
      Dot(u[..n], x) != (u[n] && x[n])
  }

  function Xor(u: seq<bool>, v: seq<bool>): (w: seq<bool>)
    requires |u| == |v|
    ensures |w| == |u| && forall i :: 0 <= i < |w| ==> w[i] == (u[i] != v[i])
  {
    seq(|u|, i requires 0 <= i < |u| => u[i] != v[i])
  }

  predicate Shape(m: Matrix, rows: nat, cols: nat)
  {
    |m| == rows && forall i :: 0 <= i < rows ==> |m[i]| == cols
  }

  /** Every row is orthogonal to x. */
  predicate Kernel(m: Matrix, x: seq<bool>)
    requires Shape(m, |m|, |x|)
  {
    forall i :: 0 <= i < |m| ==> !Dot(m[i], x)
  }

  /** Both matrices annihilate the same vectors: they are parity checks of one code. */
  ghost predicate SameKernel(m: Matrix, o: Matrix, cols: nat)
    requires Shape(m, |m|, cols) && Shape(o, |o|, cols)
  {
    forall x: seq<bool> :: |x| == cols ==> (Kernel(m, x) <==> Kernel(o, x))
  }

  /** The first n columns form the identity, in the rows below n, and are zero in the others. */
  predicate UnitColumns(m: Matrix, n: nat, cols: nat)
    requires Shape(m, |m|, cols) && n <= cols
  {
    forall i, j :: 0 <= i < |m| && 0 <= j < n ==> m[i][j] == (i == j)
  }

  predicate SupportedBelow(x: seq<bool>, n: nat)
  {
    forall i :: n <= i < |x| ==> !x[i]
  }

  predicate Nonzero(x: seq<bool>)
  {
    exists i :: 0 <= i < |x| && x[i]
  }

  /** A combination of the first n columns vanishes. */
  ghost predicate Dependent(m: Matrix, n: nat, cols: nat)
    requires Shape(m, |m|, cols)
  {
    exists x: seq<bool> :: |x| == cols && SupportedBelow(x, n) && Nonzero(x) && Kernel(m, x)
  }

  /** The square block of the first |m| columns is singular. */
  ghost predicate LeftSingular(m: Matrix, cols: nat)
    requires Shape(m, |m|, cols)
  {
    Dependent(m, |m|, cols)
  }

  lemma DependentMore(m: Matrix, n: nat, k: nat, cols: nat)
    requires Shape(m, |m|, cols) && n <= k && Dependent(m, n, cols)
    ensures Dependent(m, k, cols)
  {
    hide Kernel;
    var x: seq<bool> :| |x| == cols && SupportedBelow(x, n) && Nonzero(x) && Kernel(m, x);
    assert SupportedBelow(x, k);
  }

  lemma {:induction false} DotXor(u: seq<bool>, v: seq<bool>, x: seq<bool>)
    requires |u| == |v| <= |x|
    ensures Dot(Xor(u, v), x) == (Dot(u, x) != Dot(v, x))
  {
    if u != [] {
      var n := |u| - 1;
      DotXor(u[..n], v[..n], x);
      assert Xor(u, v)[..n] == Xor(u[..n], v[..n]);
    }
  }

  lemma {:induction false} DotXorRight(u: seq<bool>, x: seq<bool>, y: seq<bool>)
    requires |u| <= |x| == |y|
    ensures Dot(u, Xor(x, y)) == (Dot(u, x) != Dot(u, y))
  {
    if u != [] {
      DotXorRight(u[..|u| - 1], x, y);
    }
  }

  lemma {:induction false} DotZero(u: seq<bool>, x: seq<bool>)
    requires |u| <= |x| && forall i :: 0 <= i < |u| ==> !u[i] || !x[i]
    ensures !Dot(u, x)
  {
    if u != [] {
      DotZero(u[..|u| - 1], x);
    }
  }

  /** A row with a single common position with x. */
  lemma {:induction false} DotOne(u: seq<bool>, x: seq<bool>, j: nat)
    requires j < |u| <= |x| && forall i :: 0 <= i < |u| && i != j ==> !u[i] || !x[i]
    ensures Dot(u, x) == (u[j] && x[j])
  {
    var n := |u| - 1;
    if j == n {
      DotZero(u[..n], x);
    } else {
      DotOne(u[..n], x, j);
    }
  }

  lemma {:induction false} DotTwo(u: seq<bool>, x: seq<bool>, j: nat, k: nat)
    requires j < k < |u| <= |x| && forall i :: 0 <= i < |u| && i != j && i != k ==> !u[i] || !x[i]
    ensures Dot(u, x) == ((u[j] && x[j]) != (u[k] && x[k]))
  {
    var n := |u| - 1;
    if k == n {
      DotOne(u[..n], x, j);
    } else {
      DotTwo(u[..n], x, j, k);
    }
  }

  // ----- row operations

  /** Row k added to row r when b is set. */
  function AddRow(m: Matrix, r: nat, k: nat, b: bool): (w: Matrix)
    requires r < |m| && k < |m| && |m[r]| == |m[k]|
    ensures |w| == |m|
  {
    if b then m[r := Xor(m[r], m[k])] else m
  }

  lemma AddRowKernel(m: Matrix, r: nat, k: nat, b: bool, x: seq<bool>)
    requires Shape(m, |m|, |x|) && r < |m| && k < |m| && r != k
    ensures Shape(AddRow(m, r, k, b), |m|, |x|)
    ensures Kernel(AddRow(m, r, k, b), x) <==> Kernel(m, x)
  {
    hide Dot, Xor;
    var w := AddRow(m, r, k, b);
    if b {
      XorLength(m[r], m[k]);
      DotXor(m[r], m[k], x);
      assert w[r] == Xor(m[r], m[k]);
      assert w[k] == m[k];
      if Kernel(w, x) {
        forall i | 0 <= i < |m| ensures !Dot(m[i], x) {
          assert !Dot(w[i], x) && !Dot(w[k], x);
        }
      }
      if Kernel(m, x) {
        forall i | 0 <= i < |m| ensures !Dot(w[i], x) {
          assert !Dot(m[i], x) && !Dot(m[k], x);
        }
      }
    }
  }

  lemma XorLength(u: seq<bool>, v: seq<bool>)
    requires |u| == |v|
    ensures |Xor(u, v)| == |u|
  {
  }

  lemma AddRowSame(m: Matrix, o: Matrix, r: nat, k: nat, b: bool, cols: nat)
    requires Shape(m, |m|, cols) && Shape(o, |o|, cols) && r < |m| && k < |m| && r != k
    requires SameKernel(m, o, cols)
    ensures Shape(AddRow(m, r, k, b), |m|, cols) && SameKernel(AddRow(m, r, k, b), o, cols)
  {
    hide Kernel, AddRow;
    AddRowKernel(m, r, k, b, seq(cols, i => false));
    forall x: seq<bool> | |x| == cols ensures Kernel(AddRow(m, r, k, b), x) <==> Kernel(o, x) {
      AddRowKernel(m, r, k, b, x);
    }
  }

  // ----- what the result of the elimination means

  /** A matrix that begins with unit columns has no relation among those columns. */
  lemma UnitRegular(m: Matrix, o: Matrix, n: nat, cols: nat)
    requires Shape(m, |m|, cols) && Shape(o, |o|, cols) && n <= |m| == |o| <= cols
    requires SameKernel(m, o, cols) && UnitColumns(m, n, cols)
    ensures !Dependent(o, n, cols)
  {
    hide Dot;
    forall x: seq<bool> | |x| == cols && SupportedBelow(x, n) && Nonzero(x) ensures !Kernel(o, x) {
      var j :| 0 <= j < |x| && x[j];
      DotOne(m[j], x, j);
      assert Dot(m[j], x);
    }
  }

  /** The combination of columns that a missing pivot in column n gives away. */
  function Relation(m: Matrix, n: nat, cols: nat): (x: seq<bool>)
    requires Shape(m, |m|, cols) && n < |m| <= cols
    ensures |x| == cols
  {
    seq(cols, j requires 0 <= j < cols => if j < n then m[j][n] else j == n)
  }

  lemma RelationHolds(m: Matrix, n: nat, cols: nat)
    requires Shape(m, |m|, cols) && n < |m| <= cols && UnitColumns(m, n, cols)
    requires forall i :: n <= i < |m| ==> !m[i][n]
    ensures Kernel(m, Relation(m, n, cols))
  {
    hide Dot;
    var x := Relation(m, n, cols);
    forall i | 0 <= i < |m| ensures !Dot(m[i], x) {
      if i < n {
        DotTwo(m[i], x, i, n);
      } else {
        DotZero(m[i], x);
      }
    }
  }

  lemma MissingPivot(m: Matrix, o: Matrix, n: nat, cols: nat)
    requires Shape(m, |m|, cols) && Shape(o, |o|, cols) && |m| == |o| && n < |m| <= cols
    requires SameKernel(m, o, cols) && UnitColumns(m, n, cols)
    requires forall i :: n <= i < |m| ==> !m[i][n]
    ensures Dependent(o, n + 1, cols)
  {
    hide Dot, Kernel, UnitColumns;
    var x := Relation(m, n, cols);
    RelationHolds(m, n, cols);
    assert x[n];
    assert |x| == cols && SupportedBelow(x, n + 1) && Nonzero(x) && Kernel(o, x);
  }

  /** The column j of T that a kernel vector spells out. */
  lemma KernelColumn(m: Matrix, x: seq<bool>, i: nat, j: nat)
    requires Shape(m, |m|, |x|) && i < |m| <= j < |x| && UnitColumns(m, |m|, |x|) && Kernel(m, x)
    requires forall k :: |m| <= k < |x| ==> x[k] == (k == j)
    ensures x[i] == m[i][j]
  {
    hide Dot;
    DotTwo(m[i], x, i, j);
    assert !Dot(m[i], x);
  }

  /** There is only one matrix [I | T] with a given kernel. */
  lemma SystematicUnique(m: Matrix, o: Matrix, cols: nat)
    requires Shape(m, |m|, cols) && Shape(o, |o|, cols) && |m| == |o| <= cols && SameKernel(m, o, cols)
    requires UnitColumns(m, |m|, cols) && UnitColumns(o, |o|, cols)
    ensures m == o
  {
    hide Dot, Kernel;
    forall i, j | 0 <= i < |m| && 0 <= j < cols ensures m[i][j] == o[i][j] {
      if j >= |m| {
        var x := seq(cols, k requires 0 <= k < cols => if k < |m| then m[k][j] else k == j);
        ColumnKernel(m, x, j);
        KernelColumn(o, x, i, j);
      }
    }
    forall i | 0 <= i < |m| ensures m[i] == o[i] {
    }
  }

  lemma ColumnKernel(m: Matrix, x: seq<bool>, j: nat)
    requires Shape(m, |m|, |x|) && |m| <= j < |x| && UnitColumns(m, |m|, |x|)
    requires forall k :: 0 <= k < |x| ==> x[k] == if k < |m| then m[k][j] else k == j
    ensures Kernel(m, x)
  {
    hide Dot;
    forall i | 0 <= i < |m| ensures !Dot(m[i], x) {
      DotTwo(m[i], x, i, j);
    }
  }
}
