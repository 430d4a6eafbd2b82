/** The elimination of src/pk_gen.rs, lines 277-344, with mov_columns before its last 32 rows. */
module SemiSystematic {
  import opened Words
  import opened BinaryMatrices
  import opened RowRank
  import opened Elimination
  import opened ColumnMoves
  import opened Echelons
  import opened MoveColumns

  lemma MovedReduced(m: Matrix, o: Matrix, base: nat, c: seq<nat>, cols: nat)
    requires Reduced(m, o, base, cols) && |c| == PIVOTS && IsChoice(c) && base + WINDOW <= cols
    ensures Reduced(MovedColumns(m, base, c, PIVOTS, cols), MovedColumns(o, base, c, PIVOTS, cols), base, cols)
  {
    hide Dot, Kernel, SameKernel, From;
    SameKernelMoved(m, o, base, c, PIVOTS, cols);
    forall i, j | 0 <= i < |m| && 0 <= j < base ensures Moved(m[i], base, c, PIVOTS)[j] == m[i][j] {
      FromRange(base, c, PIVOTS, j);
    }
  }

  lemma RegularToo(m: Matrix, o: Matrix, n: nat, cols: nat)
    requires Reduced(m, o, n, cols)
    ensures Shape(m, |m|, cols) && Shape(o, |o|, cols) && (LeftSingular(m, cols) <==> LeftSingular(o, cols))
  {
    hide Kernel, SupportedBelow, Nonzero;
    forall x: seq<bool> | |x| == cols ensures Kernel(m, x) <==> Kernel(o, x) {
    }
  }

  /** c lists the columns of the window that are not combinations of the columns of m before them. */
  ghost predicate IsPivotChoice(m: Matrix, c: seq<nat>, base: nat, cols: nat)
    requires Shape(m, |m|, cols) && base + WINDOW <= cols
  {
    |c| == PIVOTS && IsChoice(c) && forall k :: 0 <= k < WINDOW ==> (k in c <==> NewColumn(m, base + k, cols))
  }

  /** The matrix determines the choice. */
  lemma PivotChoiceUnique(m: Matrix, c: seq<nat>, d: seq<nat>, base: nat, cols: nat)
    requires Shape(m, |m|, cols) && base + WINDOW <= cols
    requires IsPivotChoice(m, c, base, cols) && IsPivotChoice(m, d, base, cols)
    ensures c == d
  {
    hide NewColumn;
    ChoiceUnique(c, d);
  }

  /** The pivots that are found in the window, in terms of the matrix before the elimination. */
  lemma ChosenColumns(b: Matrix, m: Matrix, base: nat, c: seq<nat>, cols: nat)
    requires |b| == base + PIVOTS && base + WINDOW <= cols && Reduced(b, m, base, cols)
    requires |c| == PIVOTS && IsChoice(c) && Pivots(WindowOf(b, base, cols), c, WINDOW)
    ensures Shape(m, |m|, cols) && IsPivotChoice(m, c, base, cols)
  {
    hide NewColumn, Pivots, Reduced, WindowOf;
    ShapeOf(b, m, base, cols);
    ReducedShape(b, m, base, cols);
    forall k | 0 <= k < WINDOW ensures k in c <==> NewColumn(m, base + k, cols) {
      PivotsAreNew(WindowOf(b, base, cols), c, k, WINDOW);
      WindowNew(b, m, base, k, cols);
    }
  }

  /** A choice of columns to move for the matrix m: its last rows have their pivots there. */
  ghost predicate Semi(m: Matrix, c: seq<nat>, base: nat, cols: nat)
  {
    && Shape(m, base + PIVOTS, cols) && base + WINDOW <= cols && IsPivotChoice(m, c, base, cols)
    && !Dependent(m, base, cols) && RowsFull(m, base + WINDOW, cols)
    && !LeftSingular(MovedColumns(m, base, c, PIVOTS, cols), cols)
  }

  predicate Marks(pivots: seq<bool>, c: seq<nat>)
  {
    |pivots| == WINDOW && forall k :: 0 <= k < WINDOW ==> (pivots[k] <==> k in c)
  }

  /** mov_columns when the elimination of m has come as far as row base. */
  method MoveStep(mat: array2<bv8>, pi: array<int>, ghost m: Matrix, ghost base: nat)
    returns (ok: bool, pivots: seq<bool>, ghost c: seq<nat>)
    requires mat.Length0 == base + PIVOTS && base + WINDOW <= 8 * mat.Length1 && base + WINDOW <= pi.Length
    requires (pi as object) != (mat as object)
    requires Reduced(Unpacked(mat), m, base, 8 * mat.Length1) && SameRank(Unpacked(mat), m, 8 * mat.Length1)
    modifies mat, pi
    ensures Shape(m, |m|, 8 * mat.Length1) && !Dependent(m, base, 8 * mat.Length1)
    ensures ok <==> RowsFull(m, base + WINDOW, 8 * mat.Length1)
    ensures ok ==> Semi(m, c, base, 8 * mat.Length1) && Marks(pivots, c)
    ensures ok ==> Reduced(Unpacked(mat), MovedColumns(m, base, c, PIVOTS, 8 * mat.Length1), base, 8 * mat.Length1)
    ensures ok ==> pi[..] == Moved(old(pi[..]), base, c, PIVOTS)
  {
    hide Unpacked, Bit, Moved, Pivots, RowsFull, Dependent, Reduced, MovedColumns, WindowOf, NewColumn;
    ghost var (b, cols) := (Unpacked(mat), 8 * mat.Length1);
    ReducedShape(b, m, base, cols);
    WindowFull(b, m, base, cols);
    var ret;
    ret, pivots, c := MovColumns(mat, pi);
    ok := ret == 0;
    ShapeOf(b, m, base, cols);
    if ok {
      MovedRegular(b, m, base, c, cols);
      ChosenColumns(b, m, base, c, cols);
      MovedReduced(b, m, base, c, cols);
      RegularToo(MovedColumns(b, base, c, PIVOTS, cols), MovedColumns(m, base, c, PIVOTS, cols), base, cols);
    }
  }

  lemma ShapeOf(m: Matrix, o: Matrix, n: nat, cols: nat)
    requires Reduced(m, o, n, cols)
    ensures Shape(o, |m|, cols)
  {
  }

  /** Where the elimination of m stands before row n. */
  ghost predicate Stands(b: Matrix, m: Matrix, n: nat, c: seq<nat>, base: nat, cols: nat)
  {
    && Shape(b, |m|, cols) && Shape(m, |m|, cols)
    && (n <= base ==> Reduced(b, m, n, cols) && SameRank(b, m, cols))
    && (n > base ==> Semi(m, c, base, cols) && Reduced(b, MovedColumns(m, base, c, PIVOTS, cols), n, cols))
  }

  /** One row, after the columns were moved if it is row base. */
  method RowStep(mat: array2<bv8>, pi: array<int>, i: nat, j: nat, p0: seq<bool>, ghost m: Matrix, ghost c0: seq<nat>)
    returns (ok: bool, pivots: seq<bool>, ghost c: seq<nat>)
    requires PIVOTS <= mat.Length0 == |m| && mat.Length0 - PIVOTS + WINDOW <= 8 * mat.Length1
    requires mat.Length0 - PIVOTS + WINDOW <= pi.Length && (pi as object) != (mat as object)
    requires j < 8 && 8 * i + j < mat.Length0
    requires Stands(Unpacked(mat), m, 8 * i + j, c0, mat.Length0 - PIVOTS, 8 * mat.Length1)
    requires 8 * i + j > mat.Length0 - PIVOTS ==> Marks(p0, c0)
    modifies mat, pi
    ensures var (base, cols) := (mat.Length0 - PIVOTS, 8 * mat.Length1);
            && Shape(m, |m|, cols)
            && (ok ==> Stands(Unpacked(mat), m, 8 * i + j + 1, c, base, cols))
            && (ok && 8 * i + j >= base ==> Marks(pivots, c))
            && (!ok ==> Dependent(m, base, cols) || !RowsFull(m, base + WINDOW, cols))
            && (ok && 8 * i + j == base ==> pi[..] == Moved(old(pi[..]), base, c, PIVOTS))
            && (8 * i + j != base ==> pi[..] == old(pi[..]) && c == c0)
  {
    hide Unpacked, Bit, Moved, RowsFull, Dependent, MovedColumns, SameKernel, UnitColumns, Marks, NewColumn;
    var row := 8 * i + j;
    ghost var (base, cols) := (mat.Length0 - PIVOTS, 8 * mat.Length1);
    ghost var o := m;
    ok, pivots, c := true, p0, c0;
    if row > base {
      o := MovedColumns(m, base, c, PIVOTS, cols);
    }
    if row == mat.Length0 - PIVOTS {
      ok, pivots, c := MoveStep(mat, pi, m, base);
      if !ok {
        return;
      }
      o := MovedColumns(m, base, c, PIVOTS, cols);
    }
    ghost var b := Unpacked(mat);
    ok := PivotStep(mat, i, j, o);
    if ok && row < base {
      RankTrans(Unpacked(mat), b, m, cols);
    } else if !ok {
      DependentMore(o, row + 1, if row < base then base else |m|, cols);
    }
  }

  lemma RankTrans(a: Matrix, b: Matrix, c: Matrix, cols: nat)
    requires Shape(a, |a|, cols) && Shape(b, |b|, cols) && Shape(c, |c|, cols)
    requires SameRank(a, b, cols) && SameRank(b, c, cols)
    ensures SameRank(a, c, cols)
  {
    hide RowsFull;
  }

  /**
   The elimination with column moves: it succeeds exactly when the columns before the window are
   independent and those up to its end have full row rank. None of the last rows can fail. The columns
   that are moved, and that pivots marks, are those of the window that do not depend on earlier ones.
   */
  method EliminateMoving(mat: array2<bv8>, pi: array<int>) returns (ret: int, pivots: seq<bool>, ghost c: seq<nat>)
    requires PIVOTS < mat.Length0 && mat.Length0 - PIVOTS + WINDOW <= 8 * mat.Length1
    requires mat.Length0 - PIVOTS + WINDOW <= pi.Length && (pi as object) != (mat as object)
    modifies mat, pi
    ensures ret == 0 || ret == -1
    ensures var (m, base, cols) := (old(Unpacked(mat)), mat.Length0 - PIVOTS, 8 * mat.Length1);
            && (ret == 0 <==> !Dependent(m, base, cols) && RowsFull(m, base + WINDOW, cols))
            && (ret == 0 ==>
                 && IsPivotChoice(m, c, base, cols) && Marks(pivots, c)
                 && SameKernel(Unpacked(mat), MovedColumns(m, base, c, PIVOTS, cols), cols)
                 && UnitColumns(Unpacked(mat), mat.Length0, cols)
                 && pi[..] == Moved(old(pi[..]), base, c, PIVOTS))
  {
    hide Dot, Kernel, SameKernel, UnitColumns, Dependent, RowsFull, Bit, Unpacked, Moved, MovedColumns, SameRank, Marks,
      NewColumn;
    ghost var (m, base, cols) := (Unpacked(mat), mat.Length0 - PIVOTS, 8 * mat.Length1);
    Initially(m, cols);
    RankSelf(m, cols);
    ghost var n := 0;
    pivots, c := [], [];
    var rows := (mat.Length0 + 7) / 8;
    for i := 0 to rows
      invariant n == (if 8 * i < mat.Length0 then 8 * i else mat.Length0) && Stands(Unpacked(mat), m, n, c, base, cols)
      invariant if n > base then Marks(pivots, c) && pi[..] == Moved(old(pi[..]), base, c, PIVOTS)
                else pi[..] == old(pi[..])
    {
      for j := 0 to 8
        invariant n == (if 8 * i + j < mat.Length0 then 8 * i + j else mat.Length0)
        invariant Stands(Unpacked(mat), m, n, c, base, cols)
        invariant if n > base then Marks(pivots, c) && pi[..] == Moved(old(pi[..]), base, c, PIVOTS)
                  else pi[..] == old(pi[..])
      {
        var row := i * 8 + j;
        if row >= mat.Length0 {
          break;
        }
        var ok;
        ok, pivots, c := RowStep(mat, pi, i, j, pivots, m, c);
        if !ok {
          return -1, pivots, c;
        }
        n := n + 1;
      }
    }
    ret := 0;
  }

  lemma RankSelf(m: Matrix, cols: nat)
    requires Shape(m, |m|, cols)
    ensures SameRank(m, m, cols)
  {
  }
}
