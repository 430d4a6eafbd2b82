/** The bit-packed Gaussian elimination of src/pk_gen.rs, lines 277-344. */
module Elimination {
  import opened Words
  import opened BinaryMatrices
  import opened RowRank

  function RowBytes(mat: array2<bv8>, i: nat): (r: seq<bv8>)
    requires i < mat.Length0
    reads mat
    ensures |r| == mat.Length1
    ensures forall c :: 0 <= c < |r| ==> r[c] == mat[i, c]
  {
    seq(mat.Length1, c requires 0 <= c < mat.Length1 reads mat => mat[i, c])
  }

  /** The matrix whose rows are packed, eight bits to a byte, in mat. */
  function Unpacked(mat: array2<bv8>): (m: Matrix)
    reads mat
    ensures Shape(m, mat.Length0, 8 * mat.Length1)
    ensures forall i :: 0 <= i < |m| ==> m[i] == BitsOf(RowBytes(mat, i))
  {
    seq(mat.Length0, i requires 0 <= i < mat.Length0 reads mat => BitsOf(RowBytes(mat, i)))
  }

  /** 0u8.wrapping_sub(b) for a single bit b. */
  function Spread8(b: bool): bv8 { if b then 0xFF else 0 }

  lemma MaskedByte(x: bv8, y: bv8, b: bool, k: nat)
    requires k < 8
    ensures Bit(x ^ (y & Spread8(b)), k) == if b then Bit(x, k) != Bit(y, k) else Bit(x, k)
  {
    hide Mask;
    SingleBit(k);
    assert (x ^ y) & Mask(k) == (x & Mask(k)) ^ (y & Mask(k));
    assert x & Mask(k) == 0 || x & Mask(k) == Mask(k);
    assert y & Mask(k) == 0 || y & Mask(k) == Mask(k);
    assert y & 0xFF == y && y & 0 == 0 && x ^ 0 == x;
  }

  /** mat[r][c] ^= mat[k][c] & mask, for every c. */
  method AddMasked(mat: array2<bv8>, r: nat, k: nat, b: bool)
    requires r < mat.Length0 && k < mat.Length0 && r != k
    modifies mat
    ensures Unpacked(mat) == AddRow(old(Unpacked(mat)), r, k, b)
  {
    hide Bit;
    var mask := Spread8(b);
    for c := 0 to mat.Length1
      invariant forall i, d :: 0 <= i < mat.Length0 && 0 <= d < mat.Length1 ==>
                  mat[i, d] == if i == r && d < c then old(mat[i, d]) ^ (old(mat[k, d]) & mask) else old(mat[i, d])
    {
      mat[r, c] := mat[r, c] ^ (mat[k, c] & mask);
    }
    MaskedRow(old(RowBytes(mat, r)), old(RowBytes(mat, k)), RowBytes(mat, r), b);
    forall i | 0 <= i < mat.Length0 && i != r ensures Unpacked(mat)[i] == old(Unpacked(mat))[i] {
      assert RowBytes(mat, i) == old(RowBytes(mat, i));
    }
    assert Unpacked(mat)[r] == BitsOf(RowBytes(mat, r));
  }

  lemma MaskedRow(x: seq<bv8>, y: seq<bv8>, z: seq<bv8>, b: bool)
    requires |x| == |y| == |z|
    requires forall c :: 0 <= c < |x| ==> z[c] == x[c] ^ (y[c] & Spread8(b))
    ensures BitsOf(z) == if b then Xor(BitsOf(x), BitsOf(y)) else BitsOf(x)
  {
    hide Bit, Spread8;
    var w := if b then Xor(BitsOf(x), BitsOf(y)) else BitsOf(x);
    forall j | 0 <= j < 8 * |x| ensures BitsOf(z)[j] == w[j] {
      MaskedByte(x[j / 8], y[j / 8], b, j % 8);
    }
  }

  /** The bit of column 8 i + j in row r. */
  method ReadBit(mat: array2<bv8>, r: nat, i: nat, j: nat) returns (b: bool)
    requires r < mat.Length0 && i < mat.Length1 && j < 8
    ensures b == Unpacked(mat)[r][8 * i + j]
  {
    hide Bit;
    b := Bit(mat[r, i], j);
    assert RowBytes(mat, r)[i] == mat[r, i];
    assert (8 * i + j) / 8 == i && (8 * i + j) % 8 == j;
  }

  /** The state of the elimination before column n. */
  ghost predicate Reduced(m: Matrix, o: Matrix, n: nat, cols: nat)
  {
    && Shape(m, |m|, cols) && Shape(o, |o|, cols) && |m| == |o| <= cols && n <= |m|
    && SameKernel(m, o, cols) && UnitColumns(m, n, cols)
  }

  lemma AddRowReduced(m: Matrix, o: Matrix, n: nat, r: nat, k: nat, b: bool, cols: nat)
    requires Reduced(m, o, n, cols) && r < |m| && n <= k < |m| && r != k
    ensures Reduced(AddRow(m, r, k, b), o, n, cols)
  {
    hide Dot, Kernel, SameKernel;
    AddRowSame(m, o, r, k, b, cols);
  }

  /** Rows below the pivot row are added to it until it has the pivot, if any of them does. */
  method FindPivot(mat: array2<bv8>, i: nat, j: nat, ghost o: Matrix)
    requires j < 8 && 8 * i + j < mat.Length0 <= 8 * mat.Length1
    requires Reduced(Unpacked(mat), o, 8 * i + j, 8 * mat.Length1)
    modifies mat
    ensures var (row, m) := (8 * i + j, Unpacked(mat));
            && Reduced(m, o, row, 8 * mat.Length1)
            && (m[row][row] || forall k :: row <= k < |m| ==> !m[k][row])
    ensures SameRank(Unpacked(mat), old(Unpacked(mat)), 8 * mat.Length1)
  {
    hide Dot, Kernel, SameKernel, Bit, Unpacked, AddRow, Reduced, RowsFull;
    var row := 8 * i + j;
    for k := row + 1 to mat.Length0
      invariant Shape(Unpacked(mat), mat.Length0, 8 * mat.Length1)
      invariant Reduced(Unpacked(mat), o, row, 8 * mat.Length1)
      invariant SameRank(Unpacked(mat), old(Unpacked(mat)), 8 * mat.Length1)
      invariant Unpacked(mat)[row][row] || forall r :: row <= r < k ==> !Unpacked(mat)[r][row]
    {
      ghost var m := Unpacked(mat);
      var b := ReadBit(mat, row, i, j);
      var c := ReadBit(mat, k, i, j);
      AddRowReduced(m, o, row, row, k, b != c, 8 * mat.Length1);
      AddRowRank(m, old(Unpacked(mat)), row, k, b != c, 8 * mat.Length1);
      AddRowBits(m, row, k, b != c, 8 * mat.Length1);
      AddMasked(mat, row, k, b != c);
    }
  }

  /** The pivot row is added to every other row that has a one in the pivot column. */
  method ClearColumn(mat: array2<bv8>, i: nat, j: nat, ghost o: Matrix)
    requires j < 8 && 8 * i + j < mat.Length0 <= 8 * mat.Length1
    requires Reduced(Unpacked(mat), o, 8 * i + j, 8 * mat.Length1)
    requires Unpacked(mat)[8 * i + j][8 * i + j]
    modifies mat
    ensures Reduced(Unpacked(mat), o, 8 * i + j + 1, 8 * mat.Length1)
    ensures SameRank(Unpacked(mat), old(Unpacked(mat)), 8 * mat.Length1)
  {
    hide Dot, Kernel, SameKernel, Bit, Unpacked, AddRow, Reduced, RowsFull;
    var row := 8 * i + j;
    for k := 0 to mat.Length0
      invariant Shape(Unpacked(mat), mat.Length0, 8 * mat.Length1)
      invariant Reduced(Unpacked(mat), o, row, 8 * mat.Length1)
      invariant SameRank(Unpacked(mat), old(Unpacked(mat)), 8 * mat.Length1)
      invariant Unpacked(mat)[row][row]
      invariant forall r :: 0 <= r < k && r != row ==> !Unpacked(mat)[r][row]
    {
      if k != row {
        ghost var m := Unpacked(mat);
        var b := ReadBit(mat, k, i, j);
        AddRowReduced(m, o, row, k, row, b, 8 * mat.Length1);
        AddRowRank(m, old(Unpacked(mat)), k, row, b, 8 * mat.Length1);
        AddRowBits(m, k, row, b, 8 * mat.Length1);
        AddMasked(mat, k, row, b);
      }
    }
    NextColumn(Unpacked(mat), o, row, 8 * mat.Length1);
  }

  lemma NextColumn(m: Matrix, o: Matrix, n: nat, cols: nat)
    requires Reduced(m, o, n, cols) && n < |m|
    requires forall r :: 0 <= r < |m| ==> m[r][n] == (r == n)
    ensures Reduced(m, o, n + 1, cols)
  {
    hide SameKernel;
  }

  /** One row of the elimination; without a pivot its column depends on those before it. */
  method PivotStep(mat: array2<bv8>, i: nat, j: nat, ghost o: Matrix) returns (ok: bool)
    requires j < 8 && 8 * i + j < mat.Length0 <= 8 * mat.Length1
    requires Reduced(Unpacked(mat), o, 8 * i + j, 8 * mat.Length1)
    modifies mat
    ensures ok ==> Reduced(Unpacked(mat), o, 8 * i + j + 1, 8 * mat.Length1)
    ensures ok ==> SameRank(Unpacked(mat), old(Unpacked(mat)), 8 * mat.Length1)
    ensures !ok ==> Dependent(o, 8 * i + j + 1, 8 * mat.Length1)
  {
    hide Dot, Kernel, SameKernel, UnitColumns, Dependent, Bit, Unpacked, RowsFull;
    var row := 8 * i + j;
    FindPivot(mat, i, j, o);
    ok := ReadBit(mat, row, i, j);
    if ok {
      ClearColumn(mat, i, j, o);
    } else {
      MissingPivot(Unpacked(mat), o, row, 8 * mat.Length1);
    }
  }

  /**
   The elimination: it succeeds exactly when the left square block of the matrix is regular, and
   then leaves, for the same code, a matrix that begins with the identity.
   */
  method Eliminate(mat: array2<bv8>) returns (ret: int)
    requires mat.Length0 <= 8 * mat.Length1
    modifies mat
    ensures ret == 0 || ret == -1
    ensures ret == 0 <==> !LeftSingular(old(Unpacked(mat)), 8 * mat.Length1)
    ensures ret == 0 ==> SameKernel(Unpacked(mat), old(Unpacked(mat)), 8 * mat.Length1)
    ensures ret == 0 ==> UnitColumns(Unpacked(mat), mat.Length0, 8 * mat.Length1)
  {
    hide Dot, Kernel, SameKernel, UnitColumns, Dependent, Bit, Unpacked;
    ghost var (o, cols) := (Unpacked(mat), 8 * mat.Length1);
    Initially(o, cols);
    var rows := (mat.Length0 + 7) / 8;
    for i := 0 to rows
      invariant Reduced(Unpacked(mat), o, if 8 * i < mat.Length0 then 8 * i else mat.Length0, cols)
    {
      for j := 0 to 8
        invariant Reduced(Unpacked(mat), o, if 8 * i + j < mat.Length0 then 8 * i + j else mat.Length0, cols)
      {
        var row := i * 8 + j;
        if row >= mat.Length0 {
          break;
        }
        var ok := PivotStep(mat, i, j, o);
        if !ok {
          DependentMore(o, row + 1, mat.Length0, cols);
          return -1;
        }
      }
    }
    UnitRegular(Unpacked(mat), o, mat.Length0, cols);
    ret := 0;
  }

  lemma Initially(o: Matrix, cols: nat)
    requires Shape(o, |o|, cols) && |o| <= cols
    ensures Reduced(o, o, 0, cols)
  {
    hide Dot, Kernel;
  }
}
