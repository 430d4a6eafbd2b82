/**
 genpoly_gen (src/sk_gen.rs): the relation between the powers of an element modulo F, found by
 elimination on a matrix that is stored column by column.
 */
module SkGen {
  import opened Params
  import opened Field
  import opened Frobenius
  import opened FieldMethods
  import opened ExtensionField
  import opened FieldMatrices

  function RowOf(mat: array2<Gf>, r: nat): (row: seq<Gf>)
    requires r < mat.Length1
    reads mat
    ensures |row| == mat.Length0 && forall c :: 0 <= c < |row| ==> row[c] == mat[c, r]
  {
    seq(mat.Length0, c requires 0 <= c < mat.Length0 reads mat => mat[c, r])
  }

  /** The rows of mat, whose first index is the column. */
  function Unpacked(mat: array2<Gf>): (m: Rows)
    reads mat
    ensures Shape(m, mat.Length1, mat.Length0) && forall r :: 0 <= r < |m| ==> m[r] == RowOf(mat, r)
  {
    seq(mat.Length1, r requires 0 <= r < mat.Length1 reads mat => RowOf(mat, r))
  }

  /** The matrix with the given columns. */
  function FromColumns(cols: seq<seq<Gf>>): (m: Rows)
    requires forall c :: 0 <= c < |cols| ==> |cols[c]| == SYS_T
    ensures Shape(m, SYS_T, |cols|) && forall r, c :: 0 <= r < SYS_T && 0 <= c < |cols| ==> m[r][c] == cols[c][r]
  {
    seq(SYS_T, r requires 0 <= r < SYS_T => seq(|cols|, c requires 0 <= c < |cols| => cols[c][r]))
  }

  /** cols lists 1, f, f^2, .., f^SYS_T modulo F. */
  ghost predicate ArePowers(cols: seq<seq<Gf>>, f: seq<Gf>)
  {
    && |cols| == SYS_T + 1 && (forall c :: 0 <= c < |cols| ==> |cols[c]| == SYS_T)
    && cols[0] == Unit() && cols[1] == f
    && forall c :: 2 <= c < |cols| ==> IsModularProduct(cols[c], cols[c - 1], f)
  }

  /** The constant one. */
  function Unit(): (u: seq<Gf>)
    ensures |u| == SYS_T && forall r :: 0 <= r < SYS_T ==> u[r] == if r == 0 then ONE else ZERO
  {
    seq(SYS_T, r => if r == 0 then ONE else ZERO)
  }

  /** mat[0] = 1, mat[1] = f, and every further column the one before times f. */
  method FillPowers(mat: array2<Gf>, f: seq<Gf>) returns (ghost cols: seq<seq<Gf>>)
    requires mat.Length0 == SYS_T + 1 && mat.Length1 == SYS_T == |f|
    modifies mat
    ensures ArePowers(cols, f) && Unpacked(mat) == FromColumns(cols)
  {
    hide IsModularProduct;
    for r := 0 to SYS_T
      invariant forall k :: 0 <= k < r ==> mat[0, k] == Unit()[k] && mat[1, k] == f[k]
    {
      mat[0, r] := if r == 0 then ONE else ZERO;
      mat[1, r] := f[r];
    }
    cols := [Unit(), f];
    var column := f;
    for j := 2 to SYS_T + 1
      invariant |cols| == j && cols[0] == Unit() && cols[1] == f && column == cols[j - 1]
      invariant forall c :: 0 <= c < j ==> |cols[c]| == SYS_T
      invariant forall c, r :: 0 <= c < j && 0 <= r < SYS_T ==> mat[c, r] == cols[c][r]
      invariant forall c :: 2 <= c < j ==> IsModularProduct(cols[c], cols[c - 1], f)
    {
      var right := new Gf[SYS_T](_ => ZERO);
      GfMulInplace(right, column, f);
      column := right[..];
      StoreColumn(mat, j, column);
      cols := cols + [column];
    }
    forall r | 0 <= r < SYS_T ensures Unpacked(mat)[r] == FromColumns(cols)[r] {
    }
  }

  method StoreColumn(mat: array2<Gf>, j: nat, v: seq<Gf>)
    requires j < mat.Length0 && |v| == mat.Length1
    modifies mat
    ensures forall c, r :: 0 <= c < mat.Length0 && 0 <= r < mat.Length1 ==>
              mat[c, r] == if c == j then v[r] else old(mat[c, r])
  {
    for k := 0 to |v|
      invariant forall c, r :: 0 <= c < mat.Length0 && 0 <= r < mat.Length1 ==>
                  mat[c, r] == if c == j && r < k then v[r] else old(mat[c, r])
    {
      mat[j, k] := v[k];
    }
  }

  // ----- row operations

  /** mat[c][r] ^= mat[c][k] * t, for every column c from first on; row k is zero before it. */
  method CombineRows(mat: array2<Gf>, r: nat, k: nat, t: Gf, first: nat)
    requires r < mat.Length1 && k < mat.Length1 && r != k && first <= mat.Length0
    requires forall c :: 0 <= c < first ==> mat[c, k] == ZERO
    modifies mat
    ensures Unpacked(mat) == old(Unpacked(mat))[r := Combined(old(Unpacked(mat))[r], t, old(Unpacked(mat))[k])]
  {
    hide Mul, Add;
    for c := first to mat.Length0
      invariant forall d, i :: 0 <= d < mat.Length0 && 0 <= i < mat.Length1 ==>
                  mat[d, i] == if i == r && first <= d < c
                               then Add(old(mat[d, i]), Mul(t, old(mat[d, k]))) else old(mat[d, i])
    {
      var p := GfMul(mat[c, k], t);
      MulComm(mat[c, k], t);
      mat[c, r] := Add(mat[c, r], p);
    }
    forall c | 0 <= c < first ensures old(mat[c, r]) == Add(old(mat[c, r]), Mul(t, old(mat[c, k]))) {
      ZeroRight(t); AddZero(old(mat[c, r]));
    }
    ghost var (m, o) := (Unpacked(mat), old(Unpacked(mat)));
    assert m[r] == Combined(o[r], t, o[k]);
    forall i | 0 <= i < mat.Length1 && i != r ensures m[i] == o[i] {
    }
  }

  /** mat[c][r] ^= mat[c][k] & gf_iszero(a), which adds row k to row r if a is zero. */
  method MaskRows(mat: array2<Gf>, r: nat, k: nat, a: Gf, first: nat)
    requires r < mat.Length1 && k < mat.Length1 && r != k && first <= mat.Length0
    requires forall c :: 0 <= c < first ==> mat[c, k] == ZERO
    modifies mat
    ensures Unpacked(mat) == old(Unpacked(mat))[
              r := Combined(old(Unpacked(mat))[r], if a == ZERO then ONE else ZERO, old(Unpacked(mat))[k])]
  {
    hide Mul, Add, IsZero, Cut;
    ghost var t := if a == ZERO then ONE else ZERO;
    var mask := IsZero(a);
    for c := first to mat.Length0
      invariant forall d, i :: 0 <= d < mat.Length0 && 0 <= i < mat.Length1 ==>
                  mat[d, i] == if i == r && first <= d < c
                               then Add(old(mat[d, i]), Mul(t, old(mat[d, k]))) else old(mat[d, i])
    {
      CutIs(a, mat[c, k]); OneLeft(mat[c, k]); ZeroLeft(mat[c, k]);
      mat[c, r] := Add(mat[c, r], Cut(mat[c, k], mask));
    }
    forall c | 0 <= c < first ensures old(mat[c, r]) == Add(old(mat[c, r]), Mul(t, old(mat[c, k]))) {
      ZeroRight(t); AddZero(old(mat[c, r]));
    }
    ghost var (m, o) := (Unpacked(mat), old(Unpacked(mat)));
    assert m[r] == Combined(o[r], t, o[k]);
    forall i | 0 <= i < mat.Length1 && i != r ensures m[i] == o[i] {
    }
  }

  /** Every entry of row r times t. */
  method ScaleRow(mat: array2<Gf>, r: nat, t: Gf)
    requires r < mat.Length1
    modifies mat
    ensures Unpacked(mat) == old(Unpacked(mat))[r := ScaledRow(old(Unpacked(mat))[r], t)]
  {
    hide Mul;
    for c := 0 to mat.Length0
      invariant forall d, i :: 0 <= d < mat.Length0 && 0 <= i < mat.Length1 ==>
                  mat[d, i] == if i == r && d < c then Mul(old(mat[d, i]), t) else old(mat[d, i])
    {
      var p := GfMul(mat[c, r], t);
      mat[c, r] := p;
    }
    ghost var (m, o) := (Unpacked(mat), old(Unpacked(mat)));
    assert m[r] == ScaledRow(o[r], t);
    forall i | 0 <= i < mat.Length1 && i != r ensures m[i] == o[i] {
    }
  }

  // ----- elimination

  ghost predicate Reduced(m: Rows, o: Rows, n: nat, cols: nat)
  {
    && Shape(m, |m|, cols) && Shape(o, |o|, cols) && |m| == |o| <= cols && n <= |m|
    && SameRelations(m, o, cols) && UnitColumns(m, n, cols)
  }

  lemma CombineReduced(m: Rows, w: Rows, o: Rows, n: nat, r: nat, k: nat, t: Gf, cols: nat)
    requires Reduced(m, o, n, cols) && r < |m| && n <= k < |m| && r != k
    requires w == m[r := Combined(m[r], t, m[k])]
    ensures Reduced(w, o, n, cols)
  {
    hide Dot, SameRelations, Mul, Add, Relation;
    CombineSame(m, w, o, r, k, t, cols);
    forall i, c | 0 <= i < |w| && 0 <= c < n ensures w[i][c] == if i == c then ONE else ZERO {
      ZeroRight(t);
      AddZero(m[i][c]);
    }
  }

  lemma ScaleReduced(m: Rows, w: Rows, o: Rows, n: nat, r: nat, t: Gf, cols: nat)
    requires Reduced(m, o, n, cols) && n <= r < |m| && t != ZERO
    requires w == m[r := ScaledRow(m[r], t)]
    ensures Reduced(w, o, n, cols)
  {
    hide Dot, SameRelations, Mul, Relation;
    ScaleSame(m, w, o, r, t, cols);
    forall i, c | 0 <= i < |w| && 0 <= c < n ensures w[i][c] == if i == c then ONE else ZERO {
      ZeroLeft(t);
    }
  }

  lemma EntryIs(mat: array2<Gf>, c: nat, r: nat)
    requires c < mat.Length0 && r < mat.Length1
    ensures Unpacked(mat)[r][c] == mat[c, r]
  {
  }

  lemma CombinedEntries(m: Rows, w: Rows, r: nat, k: nat, t: Gf, cols: nat)
    requires Shape(m, |m|, cols) && r < |m| && k < |m| && w == m[r := Combined(m[r], t, m[k])]
    ensures forall i, c :: 0 <= i < |m| && 0 <= c < cols ==>
              w[i][c] == if i == r then Add(m[i][c], Mul(t, m[k][c])) else m[i][c]
  {
    hide Mul, Add;
  }

  lemma ReducedEntries(m: Rows, o: Rows, n: nat, cols: nat)
    requires Reduced(m, o, n, cols)
    ensures Shape(m, |m|, cols) && forall i, c :: 0 <= i < |m| && 0 <= c < n ==> m[i][c] == if i == c then ONE else ZERO
  {
    hide SameRelations;
  }

  /** Rows further down are added to row j as long as its pivot is zero. */
  method FindPivot(mat: array2<Gf>, j: nat, ghost o: Rows)
    requires mat.Length0 == SYS_T + 1 && mat.Length1 == SYS_T && j < SYS_T
    requires Reduced(Unpacked(mat), o, j, SYS_T + 1)
    modifies mat
    ensures Reduced(Unpacked(mat), o, j, SYS_T + 1)
    ensures Unpacked(mat)[j][j] == ZERO ==> forall r :: j <= r < SYS_T ==> Unpacked(mat)[r][j] == ZERO
  {
    hide Mul, Add, Unpacked, Reduced;
    for k := j + 1 to SYS_T
      invariant Shape(Unpacked(mat), SYS_T, SYS_T + 1)
      invariant Reduced(Unpacked(mat), o, j, SYS_T + 1)
      invariant Unpacked(mat)[j][j] == ZERO ==> forall r :: j <= r < k ==> Unpacked(mat)[r][j] == ZERO
    {
      ghost var m := Unpacked(mat);
      EntryIs(mat, j, j);
      ghost var t := if mat[j, j] == ZERO then ONE else ZERO;
      ReducedEntries(m, o, j, SYS_T + 1);
      forall c | 0 <= c < j ensures mat[c, k] == ZERO { EntryIs(mat, c, k); }
      MaskRows(mat, j, k, mat[j, j], j);
      CombineReduced(m, Unpacked(mat), o, j, j, k, t, SYS_T + 1);
      CombinedEntries(m, Unpacked(mat), j, k, t, SYS_T + 1);
      OneLeft(m[k][j]); ZeroLeft(m[k][j]);
      AddZero(m[k][j]); AddZero(m[j][j]);
    }
  }

  /** Row j is divided by its pivot and then taken off every other row. */
  method ClearColumn(mat: array2<Gf>, j: nat, ghost o: Rows)
    requires mat.Length0 == SYS_T + 1 && mat.Length1 == SYS_T && j < SYS_T
    requires Reduced(Unpacked(mat), o, j, SYS_T + 1) && Unpacked(mat)[j][j] != ZERO
    modifies mat
    ensures Reduced(Unpacked(mat), o, j + 1, SYS_T + 1)
  {
    hide Mul, Add, Unpacked, Reduced, Inv;
    ghost var b := Unpacked(mat);
    EntryIs(mat, j, j);
    var inv := GfInv(mat[j, j]);
    InvMul(mat[j, j]);
    ZeroRight(mat[j, j]); SplitZero();
    ScaleRow(mat, j, inv);
    ScaleReduced(b, Unpacked(mat), o, j, j, inv, SYS_T + 1);
    ScaledPivot(b, Unpacked(mat), j, inv, SYS_T + 1);
    for k := 0 to SYS_T
      invariant Shape(Unpacked(mat), SYS_T, SYS_T + 1)
      invariant Reduced(Unpacked(mat), o, j, SYS_T + 1)
      invariant Unpacked(mat)[j][j] == ONE
      invariant forall r :: 0 <= r < k && r != j ==> Unpacked(mat)[r][j] == ZERO
    {
      if k != j {
        ghost var m := Unpacked(mat);
        EntryIs(mat, j, k);
        var t := mat[j, k];
        CombineRows(mat, k, j, t, 0);
        CombineReduced(m, Unpacked(mat), o, j, k, j, t, SYS_T + 1);
        CombinedEntries(m, Unpacked(mat), k, j, t, SYS_T + 1);
        OneRight(t); AddCancel(t, t);
      }
    }
    NextColumn(Unpacked(mat), o, j, SYS_T + 1);
  }

  lemma ScaledPivot(m: Rows, w: Rows, j: nat, t: Gf, cols: nat)
    requires Shape(m, |m|, cols) && j < |m| && j < cols && w == m[j := ScaledRow(m[j], t)]
    ensures Shape(w, |w|, cols) && w[j][j] == Mul(m[j][j], t)
  {
    hide Mul;
  }

  lemma NextColumn(m: Rows, o: Rows, n: nat, cols: nat)
    requires Reduced(m, o, n, cols) && n < |m|
    requires forall r :: 0 <= r < |m| ==> m[r][n] == if r == n then ONE else ZERO
    ensures Reduced(m, o, n + 1, cols)
  {
    hide SameRelations;
  }

  lemma Initially(o: Rows, cols: nat)
    requires Shape(o, |o|, cols) && |o| <= cols
    ensures Reduced(o, o, 0, cols)
  {
    hide Dot, Relation;
  }

  /**
   genpoly_gen: with the powers of f modulo F as columns, it succeeds exactly when the first SYS_T
   of them are independent, and then f^SYS_T is the combination of them with the coefficients out.
   */
  method GenpolyGen(out: array<Gf>, f: seq<Gf>) returns (ret: int, ghost cols: seq<seq<Gf>>)
    requires out.Length == SYS_T == |f|
    modifies out
    ensures ArePowers(cols, f) && (ret == 0 || ret == -1)
    ensures ret == 0 <==> !Dependent(FromColumns(cols), SYS_T, SYS_T + 1)
    ensures ret == 0 ==> Relation(FromColumns(cols), out[..] + [ONE])
  {
    hide ArePowers, Dot, Relation, Dependent, Reduced, Unpacked, FromColumns;
    var mat := new Gf[SYS_T + 1, SYS_T]((c, r) => ZERO);
    cols := FillPowers(mat, f);
    PowersShape(cols, f);
    ghost var o := FromColumns(cols);
    UnpackedShape(mat);
    Initially(o, SYS_T + 1);
    for j := 0 to SYS_T
      invariant Shape(Unpacked(mat), SYS_T, SYS_T + 1)
      invariant Reduced(Unpacked(mat), o, j, SYS_T + 1)
    {
      FindPivot(mat, j, o);
      EntryIs(mat, j, j);
      if mat[j, j] == ZERO {
        NoPivot(Unpacked(mat), o, j);
        return -1, cols;
      }
      ClearColumn(mat, j, o);
      UnpackedShape(mat);
    }
    for r := 0 to SYS_T
      invariant Reduced(Unpacked(mat), o, SYS_T, SYS_T + 1) && |Unpacked(mat)| == SYS_T
      invariant forall k :: 0 <= k < r ==> out[k] == mat[SYS_T, k]
    {
      out[r] := mat[SYS_T, r];
    }
    forall r | 0 <= r < SYS_T ensures Unpacked(mat)[r][SYS_T] == out[r] { EntryIs(mat, SYS_T, r); }
    Solved(Unpacked(mat), o, out[..] + [ONE]);
    ret := 0;
  }

  lemma PowersShape(cols: seq<seq<Gf>>, f: seq<Gf>)
    requires ArePowers(cols, f)
    ensures |cols| == SYS_T + 1 && forall c :: 0 <= c < |cols| ==> |cols[c]| == SYS_T
  {
    hide IsModularProduct;
  }

  lemma UnpackedShape(mat: array2<Gf>)
    ensures Shape(Unpacked(mat), mat.Length1, mat.Length0)
  {
  }

  lemma NoPivot(m: Rows, o: Rows, j: nat)
    requires Reduced(m, o, j, SYS_T + 1) && |m| == SYS_T && j < SYS_T
    requires forall r :: j <= r < SYS_T ==> m[r][j] == ZERO
    ensures Shape(o, SYS_T, SYS_T + 1) && Dependent(o, SYS_T, SYS_T + 1)
  {
    hide Dot, Relation, SameRelations;
    MissingPivot(m, o, j, SYS_T + 1);
  }

  lemma Solved(m: Rows, o: Rows, x: seq<Gf>)
    requires Reduced(m, o, SYS_T, SYS_T + 1) && |m| == SYS_T
    requires |x| == SYS_T + 1 && x[SYS_T] == ONE && forall r :: 0 <= r < SYS_T ==> x[r] == m[r][SYS_T]
    ensures Shape(o, SYS_T, SYS_T + 1) && !Dependent(o, SYS_T, SYS_T + 1) && Relation(o, x)
  {
    hide Dot, Relation, SameRelations;
    UnitIndependent(m, o, SYS_T + 1);
    LastColumn(m, o, x);
  }
}
