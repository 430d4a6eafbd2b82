/** The packing of the public key (src/pk_gen.rs) and its rows (src/encrypt.rs). */
module PublicKey {
  import opened Params
  import opened Words
  import opened BinaryMatrices
  import opened Elimination

  const TAIL: nat := PK_NROWS % 8

  /** x << t, losing the upper bits. */
  function Shl8(x: bv8, t: nat): bv8
  {
    if t == 0 then x else Shl8(x, t - 1) << 1
  }

  /** x >> t. */
  function Shr8(x: bv8, t: nat): bv8
  {
    if t == 0 then x else Shr8(x, t - 1) >> 1
  }

  lemma ShlOne(x: bv8, k: nat)
    requires k < 8
    ensures Bit(x << 1, k) == (k >= 1 && Bit(x, k - 1))
    ensures Bit(x >> 1, k) == (k + 1 < 8 && Bit(x, k + 1))
  {
  }

  lemma {:induction false} ShlBit(x: bv8, t: nat, k: nat)
    requires k < 8
    ensures Bit(Shl8(x, t), k) == (k >= t && Bit(x, k - t))
  {
    hide Bit;
    if t > 0 {
      ShlOne(Shl8(x, t - 1), k);
      if k > 0 { ShlBit(x, t - 1, k - 1); }
    }
  }

  lemma {:induction false} ShrBit(x: bv8, t: nat, k: nat)
    requires k < 8
    ensures Bit(Shr8(x, t), k) == (k + t < 8 && Bit(x, k + t))
  {
    hide Bit;
    if t > 0 {
      ShlOne(Shr8(x, t - 1), k);
      if k + 1 < 8 { ShrBit(x, t - 1, k + 1); }
    }
  }

  lemma EitherBit(x: bv8, y: bv8, k: nat)
    requires k < 8
    ensures Bit(x | y, k) == (Bit(x, k) || Bit(y, k))
    ensures !Bit(0, k)
  {
    hide Mask;
    SingleBit(k);
    assert (x | y) & Mask(k) == (x & Mask(k)) | (y & Mask(k));
  }

  // ----- specification

  /** The columns of a row after the first PK_NROWS, filled up with zeros to whole bytes. */
  function Rest(row: seq<bool>): (r: seq<bool>)
    requires |row| == SYS_N
    ensures |r| == 8 * PK_ROW_BYTES
  {
    seq(8 * PK_ROW_BYTES, p requires 0 <= p < 8 * PK_ROW_BYTES => PK_NROWS + p < SYS_N && row[PK_NROWS + p])
  }

  function Offset(i: nat): nat { Place(0, PK_ROW_BYTES, i) }

  /** The bytes of row i of a public key. */
  function Segment(pk: seq<bv8>, i: nat): (b: seq<bv8>)
    requires i < PK_NROWS && |pk| == Offset(PK_NROWS)
    ensures |b| == PK_ROW_BYTES
  {
    PlaceMono(0, PK_ROW_BYTES, i, PK_NROWS);
    pk[Offset(i)..Offset(i) + PK_ROW_BYTES]
  }

  /** Row i of the matrix that a public key stands for: an identity block, then what is stored. */
  function KeyRow(pk: seq<bv8>, i: nat): (row: seq<bool>)
    requires i < PK_NROWS && |pk| == Offset(PK_NROWS)
    ensures |row| == SYS_N
  {
    seq(SYS_N, j requires 0 <= j < SYS_N => if j < PK_NROWS then j == i else BitsOf(Segment(pk, i))[j - PK_NROWS])
  }

  /** pk holds the part of m to the right of its first PK_NROWS columns. */
  predicate Holds(pk: seq<bv8>, m: Matrix)
    requires Shape(m, PK_NROWS, SYS_N)
  {
    |pk| == Offset(PK_NROWS) && forall i :: 0 <= i < PK_NROWS ==> BitsOf(Segment(pk, i)) == Rest(m[i])
  }

  /** Unpacking undoes packing: the key of a matrix [I | T] stands for that matrix. */
  lemma UnpackingUndoes(pk: seq<bv8>, m: Matrix, i: nat)
    requires Shape(m, PK_NROWS, SYS_N) && Holds(pk, m) && UnitColumns(m, PK_NROWS, SYS_N)
    requires i < PK_NROWS
    ensures KeyRow(pk, i) == m[i]
  {
    hide BitsOf, Segment, Offset;
    forall j | 0 <= j < SYS_N ensures KeyRow(pk, i)[j] == m[i][j] {
      if j >= PK_NROWS {
        assert BitsOf(Segment(pk, i))[j - PK_NROWS] == Rest(m[i])[j - PK_NROWS];
      }
    }
  }

  // ----- where the rows lie in the key

  lemma RowPlace(i: nat)
    requires i < PK_NROWS
    ensures Offset(i) == PK_ROW_BYTES * i && PK_ROW_BYTES * i + PK_ROW_BYTES == PK_ROW_BYTES * (i + 1)
    ensures PK_ROW_BYTES * (i + 1) <= Offset(PK_NROWS)
  {
    PlaceIs(0, PK_ROW_BYTES, i);
    PlaceIs(0, PK_ROW_BYTES, i + 1);
    PlaceMono(0, PK_ROW_BYTES, i + 1, PK_NROWS);
  }

  /** Where bit p of row i stands among the bits of a key. */
  function KeyPlace(i: nat, p: nat): (q: nat)
    requires i < PK_NROWS && p < 8 * PK_ROW_BYTES
    ensures q == 8 * (PK_ROW_BYTES * i) + p && q < 8 * Offset(PK_NROWS)
  {
    RowPlace(i);
    8 * (PK_ROW_BYTES * i) + p
  }

  lemma SliceBit(b: seq<bv8>, o: nat, n: nat, p: nat)
    requires o + n <= |b| && p < 8 * n
    ensures BitsOf(b[o..o + n])[p] == BitsOf(b)[8 * o + p]
  {
    hide Bit;
    BitsAt(b[o..o + n], p / 8, p % 8);
    BitsAt(b, o + p / 8, p % 8);
    assert b[o..o + n][p / 8] == b[o + p / 8];
  }

  /** The rows follow one another, the first one first. */
  lemma SegmentIs(pk: seq<bv8>, i: nat)
    requires i < PK_NROWS && |pk| == Offset(PK_NROWS)
    ensures PK_ROW_BYTES * (i + 1) <= |pk| && Segment(pk, i) == pk[PK_ROW_BYTES * i..PK_ROW_BYTES * (i + 1)]
  {
    hide Offset;
    RowPlace(i);
  }

  /** Column PK_NROWS + p of row i is a bit of the key. */
  lemma KeyRowBit(pk: seq<bv8>, i: nat, p: nat)
    requires i < PK_NROWS && |pk| == Offset(PK_NROWS) && p < 8 * PK_ROW_BYTES
    ensures BitsOf(Segment(pk, i))[p] == BitsOf(pk)[KeyPlace(i, p)]
    ensures PK_NROWS + p < SYS_N ==> KeyRow(pk, i)[PK_NROWS + p] == BitsOf(pk)[KeyPlace(i, p)]
  {
    hide BitsOf, Offset, Segment;
    RowPlace(i);
    SegmentIs(pk, i);
    SliceBit(pk, PK_ROW_BYTES * i, PK_ROW_BYTES, p);
  }

  /** A key for the matrix m holds its columns from PK_NROWS on, row by row, and zeros to fill up a byte. */
  lemma HeldBit(pk: seq<bv8>, m: Matrix, i: nat, p: nat)
    requires Shape(m, PK_NROWS, SYS_N) && Holds(pk, m) && i < PK_NROWS && p < 8 * PK_ROW_BYTES
    ensures BitsOf(pk)[KeyPlace(i, p)] == (PK_NROWS + p < SYS_N && m[i][PK_NROWS + p])
  {
    hide BitsOf, Offset, Segment, KeyPlace;
    KeyRowBit(pk, i, p);
    assert BitsOf(Segment(pk, i))[p] == Rest(m[i])[p];
  }

  // ----- one key for a matrix

  lemma SameByte(x: bv8, y: bv8)
    requires Bit(x, 0) == Bit(y, 0) && Bit(x, 1) == Bit(y, 1) && Bit(x, 2) == Bit(y, 2) && Bit(x, 3) == Bit(y, 3)
    requires Bit(x, 4) == Bit(y, 4) && Bit(x, 5) == Bit(y, 5) && Bit(x, 6) == Bit(y, 6) && Bit(x, 7) == Bit(y, 7)
    ensures x == y
  {
  }

  lemma SameBytes(a: seq<bv8>, b: seq<bv8>)
    requires |a| == |b| && BitsOf(a) == BitsOf(b)
    ensures a == b
  {
    hide Bit, BitsOf;
    forall j | 0 <= j < |a| ensures a[j] == b[j] {
      forall k: nat | k < 8 ensures Bit(a[j], k) == Bit(b[j], k) { BitsAt(a, j, k); BitsAt(b, j, k); }
      SameByte(a[j], b[j]);
    }
  }

  /** The matrix determines the key. */
  lemma HoldsUnique(a: seq<bv8>, b: seq<bv8>, m: Matrix)
    requires Shape(m, PK_NROWS, SYS_N) && Holds(a, m) && Holds(b, m)
    ensures a == b
  {
    hide BitsOf, Rest, Offset, Segment;
    forall p | 0 <= p < |a| ensures a[p] == b[p] {
      var i, c := RowAndByte(p);
      SameBytes(Segment(a, i), Segment(b, i));
      SegmentByte(a, i, c); SegmentByte(b, i, c);
    }
  }

  lemma RowAndByte(p: nat) returns (i: nat, c: nat)
    requires p < Offset(PK_NROWS)
    ensures i < PK_NROWS && c < PK_ROW_BYTES && p == Offset(i) + c
  {
    PlaceIs(0, PK_ROW_BYTES, PK_NROWS);
    i, c := p / PK_ROW_BYTES, p % PK_ROW_BYTES;
    Quotient(p, PK_ROW_BYTES, PK_NROWS);
    PlaceIs(0, PK_ROW_BYTES, i);
  }

  lemma Quotient(p: nat, r: nat, n: nat)
    requires p < r * n
    ensures r > 0 && p / r < n && p == r * (p / r) + p % r
  {
    LessFactor(r, p / r, n);
  }

  lemma {:induction false} LessFactor(r: nat, q: nat, n: nat)
    requires r * q < r * n
    ensures q < n
    decreases n
  {
    if q > 0 && n > 0 { LessFactor(r, q - 1, n - 1); }
  }

  lemma SegmentByte(pk: seq<bv8>, i: nat, c: nat)
    requires i < PK_NROWS && |pk| == Offset(PK_NROWS) && c < PK_ROW_BYTES
    ensures Offset(i) + c < |pk| && Segment(pk, i)[c] == pk[Offset(i) + c]
  {
    PlaceMono(0, PK_ROW_BYTES, i, PK_NROWS);
  }

  // ----- packing

  /** One byte of a packed row: aligned, or put together from two bytes of the matrix row. */
  function PackedByte(row: seq<bv8>, c: nat): bv8
    requires 8 * |row| == SYS_N && c < PK_ROW_BYTES
  {
    var j := PK_NROWS / 8 + c;
    if TAIL == 0 then row[j]
    else if c + 1 < PK_ROW_BYTES then Shr8(row[j], TAIL) | Shl8(row[j + 1], 8 - TAIL)
    else Shr8(row[j], TAIL)
  }

  lemma PackedBit(row: seq<bv8>, c: nat, k: nat)
    requires 8 * |row| == SYS_N && c < PK_ROW_BYTES && k < 8
    ensures Bit(PackedByte(row, c), k) == Rest(BitsOf(row))[8 * c + k]
  {
    hide Bit, Shl8, Shr8, BitsOf;
    var (j, t) := (PK_NROWS / 8 + c, TAIL + k);
    RestAt(BitsOf(row), c, k);
    if t < 8 {
      BitsAt(row, j, t);
    } else if c + 1 < PK_ROW_BYTES {
      BitsAt(row, j + 1, t - 8);
    }
    if TAIL != 0 {
      ShrBit(row[j], TAIL, k);
      if c + 1 < PK_ROW_BYTES {
        ShlBit(row[j + 1], 8 - TAIL, k);
        EitherBit(Shr8(row[j], TAIL), Shl8(row[j + 1], 8 - TAIL), k);
      }
    }
  }

  lemma RestAt(row: seq<bool>, c: nat, k: nat)
    requires |row| == SYS_N && c < PK_ROW_BYTES && k < 8
    ensures var q := 8 * (PK_NROWS / 8 + c) + TAIL + k;
            Rest(row)[8 * c + k] == (q < SYS_N && row[q])
    ensures c + 1 == PK_ROW_BYTES && TAIL + k >= 8 ==> 8 * (PK_NROWS / 8 + c) + TAIL + k >= SYS_N
  {
    LastByte(SYS_N, PK_NROWS, c, k);
  }

  lemma LastByte(n: nat, rows: nat, c: nat, k: nat)
    requires n % 8 == 0 && rows <= n && c < (n - rows + 7) / 8 && k < 8
    ensures 8 * (rows / 8 + c) + rows % 8 + k == rows + 8 * c + k
    ensures c + 1 == (n - rows + 7) / 8 && rows % 8 + k >= 8 ==> rows + 8 * c + k >= n
  {
    assert rows == 8 * (rows / 8) + rows % 8 && n == 8 * (n / 8);
  }

  lemma BitsAt(b: seq<bv8>, j: nat, k: nat)
    requires j < |b| && k < 8
    ensures BitsOf(b)[8 * j + k] == Bit(b[j], k)
  {
    hide Bit;
    assert (8 * j + k) / 8 == j && (8 * j + k) % 8 == k;
  }

  lemma PackedRow(row: seq<bv8>, b: seq<bv8>)
    requires 8 * |row| == SYS_N && |b| == PK_ROW_BYTES
    requires forall c :: 0 <= c < |b| ==> b[c] == PackedByte(row, c)
    ensures BitsOf(b) == Rest(BitsOf(row))
  {
    hide Bit, PackedByte, Rest;
    forall p | 0 <= p < 8 * |b| ensures BitsOf(b)[p] == Rest(BitsOf(row))[p] {
      PackedBit(row, p / 8, p % 8);
    }
  }

  /** The packing loop: row after row, from the start of pk on, the columns after the identity block. */
  method PackRows(pk: array<bv8>, mat: array2<bv8>)
    requires mat.Length0 == PK_NROWS && 8 * mat.Length1 == SYS_N && pk.Length == Offset(PK_NROWS)
    requires (pk as object) != (mat as object)
    modifies pk
    ensures Holds(pk[..], Unpacked(mat))
    ensures forall i, p :: 0 <= i < PK_NROWS && 0 <= p < 8 * PK_ROW_BYTES ==>
              BitsOf(pk[..])[KeyPlace(i, p)] == (PK_NROWS + p < SYS_N && Unpacked(mat)[i][PK_NROWS + p])
  {
    hide Bit, BitsOf, PackedByte, Rest, Place, KeyPlace;
    PlaceMono(0, PK_ROW_BYTES, 0, PK_NROWS);
    var off := 0;
    PlaceStart();
    for i := 0 to PK_NROWS
      invariant off == Offset(i)
      invariant forall r :: 0 <= r < i ==> Offset(r) + PK_ROW_BYTES <= off
      invariant forall r, c :: 0 <= r < i && 0 <= c < PK_ROW_BYTES ==>
                  Offset(r) + c < off <= pk.Length && pk[Offset(r) + c] == PackedByte(RowBytes(mat, r), c)
    {
      PlaceMono(0, PK_ROW_BYTES, i + 1, PK_NROWS);
      PlaceMono(0, PK_ROW_BYTES, i, i + 1);
      PackRow(pk, RowBytes(mat, i), off);
      PlaceNext(i);
      off := off + PK_ROW_BYTES;
    }
    forall i | 0 <= i < PK_NROWS ensures BitsOf(Segment(pk[..], i)) == Rest(Unpacked(mat)[i]) {
      PackedRow(RowBytes(mat, i), Segment(pk[..], i));
    }
    forall i, p | 0 <= i < PK_NROWS && 0 <= p < 8 * PK_ROW_BYTES
      ensures BitsOf(pk[..])[KeyPlace(i, p)] == (PK_NROWS + p < SYS_N && Unpacked(mat)[i][PK_NROWS + p])
    {
      HeldBit(pk[..], Unpacked(mat), i, p);
    }
  }

  lemma PlaceStart()
    ensures Offset(0) == 0
  {
  }

  lemma PlaceNext(i: nat)
    ensures Offset(i + 1) == Offset(i) + PK_ROW_BYTES
  {
  }

  method PackRow(pk: array<bv8>, row: seq<bv8>, off: nat)
    requires 8 * |row| == SYS_N && off + PK_ROW_BYTES <= pk.Length
    modifies pk
    ensures forall c :: 0 <= c < PK_ROW_BYTES ==> pk[off + c] == PackedByte(row, c)
    ensures forall k :: 0 <= k < off ==> pk[k] == old(pk[k])
  {
    hide PackedByte;
    for c := 0 to PK_ROW_BYTES
      invariant forall d :: 0 <= d < c ==> pk[off + d] == PackedByte(row, d)
      invariant forall k :: 0 <= k < off ==> pk[k] == old(pk[k])
    {
      pk[off + c] := PackedByte(row, c);
    }
  }
}
