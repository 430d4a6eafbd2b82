/** Encryption (src/encrypt.rs): a random error vector, and its product with the matrix of the key. */
module Encrypt {
  import opened Params
  import opened Words
  import opened BinaryMatrices
  import opened PublicKey
  import opened Polynomials
  import opened ErrorVectors

  // ----- parity of bytes

  /** Whether an odd number of bits of b are set. */
  function Parity(b: bv8): bool
  {
    (((Bit(b, 0) != Bit(b, 1)) != (Bit(b, 2) != Bit(b, 3))) != ((Bit(b, 4) != Bit(b, 5)) != (Bit(b, 6) != Bit(b, 7))))
  }

  lemma ParityXor(x: bv8, y: bv8)
    ensures Parity(x ^ y) == (Parity(x) != Parity(y))
    ensures !Parity(0)
  {
  }

  /** The three halving steps leave the parity in the lowest bit. */
  lemma FoldedParity(b: bv8)
    ensures var c := b ^ (b >> 4); var d := c ^ (c >> 2); var f := d ^ (d >> 1); f & 1 == if Parity(b) then 1 else 0
  {
  }

  lemma AndBit(x: bv8, y: bv8, k: nat)
    requires k < 8
    ensures Bit(x & y, k) == (Bit(x, k) && Bit(y, k))
  {
    hide Mask;
    SingleBit(k);
    assert (x & y) & Mask(k) == (x & Mask(k)) & (y & Mask(k));
    assert x & Mask(k) == 0 || x & Mask(k) == Mask(k);
    assert y & Mask(k) == 0 || y & Mask(k) == Mask(k);
  }

  lemma {:induction false} DotStep(u: seq<bool>, x: seq<bool>, n: nat)
    requires n < |u| <= |x|
    ensures Dot(u[..n + 1], x) == (Dot(u[..n], x) != (u[n] && x[n]))
  {
    assert u[..n + 1][..n] == u[..n];
  }

  /** One more byte of both factors. */
  lemma DotByte(r: seq<bv8>, e: seq<bv8>, j: nat)
    requires j < |r| == |e|
    ensures Dot(BitsOf(r)[..8 * (j + 1)], BitsOf(e)) == (Dot(BitsOf(r)[..8 * j], BitsOf(e)) != Parity(r[j] & e[j]))
  {
    hide Bit, BitsOf, Dot;
    var (u, x, n) := (BitsOf(r), BitsOf(e), 8 * j);
    DotStep(u, x, n); DotStep(u, x, n + 1); DotStep(u, x, n + 2); DotStep(u, x, n + 3);
    DotStep(u, x, n + 4); DotStep(u, x, n + 5); DotStep(u, x, n + 6); DotStep(u, x, n + 7);
    BitPair(r, e, j, 0); BitPair(r, e, j, 1); BitPair(r, e, j, 2); BitPair(r, e, j, 3);
    BitPair(r, e, j, 4); BitPair(r, e, j, 5); BitPair(r, e, j, 6); BitPair(r, e, j, 7);
  }

  lemma BitPair(r: seq<bv8>, e: seq<bv8>, j: nat, k: nat)
    requires j < |r| == |e| && k < 8
    ensures (BitsOf(r)[8 * j + k] && BitsOf(e)[8 * j + k]) == Bit(r[j] & e[j], k)
  {
    hide Bit;
    BitsAt(r, j, k); BitsAt(e, j, k);
    AndBit(r[j], e[j], k);
  }

  /** b ^= row[j] & e[j] over all bytes, then the parity of b. */
  method RowTimes(row: seq<bv8>, e: seq<bv8>) returns (b: bv8)
    requires |row| == |e|
    ensures b == if Dot(BitsOf(row), BitsOf(e)) then 1 else 0
  {
    hide Bit, BitsOf, Parity, Dot;
    b := 0;
    ParityXor(0, 0);
    NoDot(BitsOf(row), BitsOf(e));
    for j := 0 to |row|
      invariant Parity(b) == Dot(BitsOf(row)[..8 * j], BitsOf(e))
    {
      DotByte(row, e, j);
      ParityXor(b, row[j] & e[j]);
      b := b ^ (row[j] & e[j]);
    }
    assert BitsOf(row)[..8 * |row|] == BitsOf(row);
    FoldedParity(b);
    b := b ^ (b >> 4);
    b := b ^ (b >> 2);
    b := b ^ (b >> 1);
    b := b & 1;
  }

  lemma NoDot(u: seq<bool>, x: seq<bool>)
    requires |u| <= |x|
    ensures !Dot(u[..0], x)
  {
  }

  lemma {:induction false} DotSplit(u: seq<bool>, x: seq<bool>, n: nat)
    requires n <= |u| <= |x|
    ensures Dot(u, x) == (Dot(u[..n], x) != Dot(u[n..], x[n..]))
    decreases |u|
  {
    if n == |u| {
      assert u[..n] == u && u[n..] == [];
    } else {
      var l := |u| - 1;
      DotSplit(u[..l], x, n);
      assert u[..l][..n] == u[..n] && u[..l][n..] == u[n..][..l - n];
    }
  }

  // ----- rows of the key

  /** The product with row i, in terms of the bytes of the key: the bit of the identity, and the stored bits. */
  lemma KeyRowProduct(pk: seq<bv8>, i: nat, x: seq<bool>)
    requires i < PK_NROWS && |pk| == Offset(PK_NROWS) && |x| == SYS_N
    ensures PK_ROW_BYTES * (i + 1) <= |pk| && PK_ROW_BYTES * i + PK_ROW_BYTES == PK_ROW_BYTES * (i + 1)
    ensures Dot(KeyRow(pk, i), x)
         == (x[i] != Dot(BitsOf(pk[PK_ROW_BYTES * i..PK_ROW_BYTES * (i + 1)])[..SYS_N - PK_NROWS], x[PK_NROWS..]))
  {
    hide Dot, BitsOf, Segment, Offset;
    RowPlace(i);
    SegmentIs(pk, i);
    var u := KeyRow(pk, i);
    DotSplit(u, x, PK_NROWS);
    DotOne(u[..PK_NROWS], x, i);
    assert u[PK_NROWS..] == BitsOf(Segment(pk, i))[..SYS_N - PK_NROWS];
  }

  /** The key bytes of a row, moved into place: whole bytes first, then TAIL bits up. */
  method LoadRow(row: array<bv8>, seg: seq<bv8>)
    requires 8 * row.Length == SYS_N && |seg| == PK_ROW_BYTES
    modifies row
    ensures forall q :: 0 <= q < SYS_N ==>
              BitsOf(row[..])[q] == (q >= PK_NROWS && BitsOf(seg)[q - PK_NROWS])
  {
    hide Bit, BitsOf, MovedByte;
    var base := row.Length - PK_ROW_BYTES;
    assert base == PK_NROWS / 8;
    for j := 0 to row.Length
      invariant forall k :: 0 <= k < j ==> row[k] == 0
    {
      row[j] := 0;
    }
    for j := 0 to PK_ROW_BYTES
      invariant forall k :: 0 <= k < base ==> row[k] == 0
      invariant forall k :: base <= k < base + j ==> row[k] == seg[k - base]
    {
      row[base + j] := seg[j];
    }
    ShiftRow(row, seg, base);
    forall q | 0 <= q < SYS_N ensures BitsOf(row[..])[q] == (q >= PK_NROWS && BitsOf(seg)[q - PK_NROWS]) {
      BitsAt(row[..], q / 8, q % 8);
      MovedBit(seg, q);
      NoBit(q % 8);
    }
  }

  /** The key bytes move TAIL bits up, from the last one down, each taking in the upper bits of the byte before it. */
  method ShiftRow(row: array<bv8>, seg: seq<bv8>, base: nat)
    requires base + |seg| == row.Length && (TAIL != 0 ==> base > 0)
    requires forall k :: 0 <= k < base ==> row[k] == 0
    requires forall k :: base <= k < row.Length ==> row[k] == seg[k - base]
    modifies row
    ensures forall k :: 0 <= k < base ==> row[k] == 0
    ensures forall k :: base <= k < row.Length ==> row[k] == MovedByte(seg, k - base)
  {
    hide Joined;
    if TAIL != 0 {
      var j := row.Length;
      while j > base
        invariant base <= j <= row.Length
        invariant forall k :: 0 <= k < base ==> row[k] == 0
        invariant forall k :: base <= k < j ==> row[k] == seg[k - base]
        invariant forall k :: j <= k < row.Length ==> row[k] == MovedByte(seg, k - base)
      {
        j := j - 1;
        row[j] := Joined(row[j], row[j - 1]);
      }
    }
  }

  lemma NoBit(k: nat)
    requires k < 8
    ensures !Bit(0, k)
  {
  }

  /** (x << TAIL) | (y >> (8 - TAIL)). */
  function Joined(x: bv8, y: bv8): bv8
  {
    Shl8(x, TAIL) | Shr8(y, 8 - TAIL)
  }

  /** Byte c of the key bytes after they have moved TAIL bits up. */
  function MovedByte(seg: seq<bv8>, c: nat): bv8
    requires c < |seg|
  {
    if TAIL == 0 then seg[c] else Joined(seg[c], if c > 0 then seg[c - 1] else 0)
  }

  lemma MovedByteBit(seg: seq<bv8>, c: nat, k: nat)
    requires c < |seg| && k < 8
    ensures Bit(MovedByte(seg, c), k) == (8 * c + k >= TAIL && BitsOf(seg)[8 * c + k - TAIL])
  {
    hide Bit, BitsOf, Shl8, Shr8;
    if k >= TAIL {
      BitsAt(seg, c, k - TAIL);
    } else if c > 0 {
      BitsAt(seg, c - 1, 8 + k - TAIL);
    }
    if TAIL != 0 {
      var d := if c > 0 then seg[c - 1] else 0;
      ShlBit(seg[c], TAIL, k);
      ShrBit(d, 8 - TAIL, k);
      EitherBit(Shl8(seg[c], TAIL), Shr8(d, 8 - TAIL), k);
      if k < TAIL { NoBit(k + 8 - TAIL); }
    }
  }

  lemma MovedBit(seg: seq<bv8>, q: nat)
    requires |seg| == PK_ROW_BYTES && q < SYS_N
    ensures q / 8 < PK_NROWS / 8 ==> q < PK_NROWS
    ensures q / 8 >= PK_NROWS / 8 ==>
              && q / 8 - PK_NROWS / 8 < PK_ROW_BYTES && q < PK_NROWS + 8 * PK_ROW_BYTES
              && Bit(MovedByte(seg, q / 8 - PK_NROWS / 8), q % 8) == (q >= PK_NROWS && BitsOf(seg)[q - PK_NROWS])
  {
    hide Bit, BitsOf, MovedByte;
    var (c, k) := (q / 8 - PK_NROWS / 8, q % 8);
    ColumnPlace(q, c, k);
    if c >= 0 {
      MovedByteBit(seg, c, k);
    }
  }

  lemma ColumnPlace(q: nat, c: int, k: nat)
    requires q < SYS_N && c == q / 8 - PK_NROWS / 8 && k == q % 8
    ensures c < PK_ROW_BYTES && 8 * c + k - TAIL == q - PK_NROWS && (c < 0 ==> q < PK_NROWS)
    ensures q < PK_NROWS + 8 * PK_ROW_BYTES
  {
    BytePlace(SYS_N, PK_NROWS, q);
  }

  lemma BytePlace(n: nat, rows: nat, q: nat)
    requires q < n && n % 8 == 0 && rows <= n
    ensures q / 8 - rows / 8 < (n - rows + 7) / 8
    ensures 8 * (q / 8 - rows / 8) + q % 8 - rows % 8 == q - rows
    ensures q / 8 < rows / 8 ==> q < rows
    ensures q < rows + 8 * ((n - rows + 7) / 8)
  {
    var (a, b, d) := (q / 8, rows / 8, n / 8);
    assert q == 8 * a + q % 8 && rows == 8 * b + rows % 8 && n == 8 * d;
    assert a < d;
  }

  /**
   syndrome: bit i of s is the product of e with row i of the matrix that the key stands for, in
   the aligned and in the shifted layout; the bits that fill up the last byte are zero.
   */
  method Syndrome(s: array<bv8>, pk: seq<bv8>, e: seq<bv8>)
    requires s.Length == SYND_BYTES && |pk| == Offset(PK_NROWS) && 8 * |e| == SYS_N
    modifies s
    ensures forall i :: 0 <= i < 8 * SYND_BYTES ==>
              BitsOf(s[..])[i] == (i < PK_NROWS && Dot(KeyRow(pk, i), BitsOf(e)))
    ensures PK_NROWS <= 8 * SYND_BYTES && forall i :: 0 <= i < PK_NROWS ==>
              (RowPlace(i);
               BitsOf(s[..])[i] == (BitsOf(e)[i] !=
                 Dot(BitsOf(pk[PK_ROW_BYTES * i..PK_ROW_BYTES * (i + 1)])[..SYS_N - PK_NROWS], BitsOf(e)[PK_NROWS..])))
  {
    hide Bit, BitsOf, Dot, KeyRow, Place;
    for i := 0 to s.Length
      invariant forall k :: 0 <= k < i ==> s[k] == 0
    {
      s[i] := 0;
    }
    ClearBits(s[..]);
    var row := new bv8[SYS_N / 8];
    PlaceStart();
    PlaceMono(0, PK_ROW_BYTES, 0, PK_NROWS);
    var segment := pk;
    for i := 0 to PK_NROWS
      invariant Offset(i) <= |pk| && segment == pk[Offset(i)..]
      invariant forall k :: 0 <= k < 8 * SYND_BYTES ==>
                  BitsOf(s[..])[k] == (k < i && Dot(KeyRow(pk, k), BitsOf(e)))
    {
      PlaceNext(i);
      PlaceMono(0, PK_ROW_BYTES, i + 1, PK_NROWS);
      assert segment[..PK_ROW_BYTES] == Segment(pk, i);
      LoadRow(row, segment[..PK_ROW_BYTES]);
      SetBit(row, i, true);
      KeyRowIs(pk, i, BitsOf(row[..]));
      var b := RowTimes(row[..], e);
      SetBit(s, i, b == 1);
      segment := segment[PK_ROW_BYTES..];
    }
    forall i | 0 <= i < PK_NROWS
      ensures (RowPlace(i);
               BitsOf(s[..])[i] == (BitsOf(e)[i] !=
                 Dot(BitsOf(pk[PK_ROW_BYTES * i..PK_ROW_BYTES * (i + 1)])[..SYS_N - PK_NROWS], BitsOf(e)[PK_NROWS..])))
    {
      KeyRowProduct(pk, i, BitsOf(e));
    }
  }

  /** encrypt, with the random numbers of one pass of gen_e: a random error vector and its syndrome. */
  method Encrypt(s: array<bv8>, pk: seq<bv8>, e: array<bv8>, nums: seq<nat>) returns (ok: bool)
    requires s.Length == SYND_BYTES && |pk| == Offset(PK_NROWS) && 8 * e.Length == SYS_N && s != e
    modifies s, e
    ensures ok <==> Accepted(nums)
    ensures ok ==> BitsOf(e[..]) == ErrorOf(nums) && Weight(BitsOf(e[..])) == SYS_T
    ensures ok ==> forall i :: 0 <= i < 8 * SYND_BYTES ==>
              BitsOf(s[..])[i] == (i < PK_NROWS && Dot(KeyRow(pk, i), ErrorOf(nums)))
  {
    hide BitsOf, Dot, KeyRow, Accepted, ErrorOf, Weight;
    ok := GenE(e, nums);
    if ok {
      ErrorWeight(nums);
      Syndrome(s, pk, e[..]);
    }
  }

  lemma KeyRowIs(pk: seq<bv8>, i: nat, row: seq<bool>)
    requires i < PK_NROWS && |pk| == Offset(PK_NROWS) && |row| == SYS_N
    requires forall q :: 0 <= q < SYS_N ==>
               row[q] == (q == i || (q >= PK_NROWS && BitsOf(Segment(pk, i))[q - PK_NROWS]))
    ensures row == KeyRow(pk, i)
  {
    hide BitsOf, Segment;
  }
}
