/**
 mov_columns (src/pk_gen.rs, lines 57-180): the column exchanges of the semi-systematic form, on a
 window that need not start at a byte.
 */
module MoveColumns {
  import opened Words
  import opened BinaryMatrices
  import opened RowRank
  import opened Elimination
  import opened ColumnMoves
  import opened Echelons
  import opened PivotSearch
  import opened PublicKey

  // ----- 64 columns as a word

  /** The bytes of a word, lowest first. */
  function BytesOf(t: seq<bool>): (b: seq<bv8>)
    requires |t| == WINDOW
    ensures |b| == 8
  {
    seq(8, k requires 0 <= k < 8 => MakeByte(t[8 * k..8 * k + 8]))
  }

  lemma BytesBack(t: seq<bool>)
    requires |t| == WINDOW
    ensures BitsOf(BytesOf(t)) == t
  {
    hide Bit, MakeByte;
    forall p | 0 <= p < WINDOW ensures BitsOf(BytesOf(t))[p] == t[p] {
      MakeByteBit(t[8 * (p / 8)..8 * (p / 8) + 8], p % 8);
    }
  }

  /** The two neighbours x and y, moved down by tail bits. */
  function Aligned(x: bv8, y: bv8, tail: nat): bv8
    requires 0 < tail < 8
  {
    Shr8(x, tail) | Shl8(y, 8 - tail)
  }

  lemma AlignedBit(x: bv8, y: bv8, tail: nat, k: nat)
    requires 0 < tail < 8 && k < 8
    ensures Bit(Aligned(x, y, tail), k) == if k + tail < 8 then Bit(x, k + tail) else Bit(y, k + tail - 8)
  {
    hide Bit, Shl8, Shr8;
    EitherBit(Shr8(x, tail), Shl8(y, 8 - tail), k);
    ShrBit(x, tail, k);
    ShlBit(y, 8 - tail, k);
  }

  /** The 64 bits of a row from base on. */
  method LoadWindow(mat: array2<bv8>, r: nat, base: nat) returns (t: seq<bool>)
    requires r < mat.Length0 && base + WINDOW <= 8 * mat.Length1
    ensures |t| == WINDOW && t == Unpacked(mat)[r][base..base + WINDOW]
  {
    hide Bit, Aligned, BitsOf;
    var (block, tail) := (base / 8, base % 8);
    ghost var row := RowBytes(mat, r);
    var tmp := new bv8[9];
    if tail == 0 {
      for j := 0 to 8
        invariant forall k :: 0 <= k < j ==> tmp[k] == row[block + k]
      {
        tmp[j] := mat[r, block + j];
      }
      LoadedAligned(row, tmp[..8], base);
    } else {
      for j := 0 to 9
        invariant forall k :: 0 <= k < j ==> tmp[k] == row[block + k]
      {
        tmp[j] := mat[r, block + j];
      }
      for j := 0 to 8
        invariant forall k :: 0 <= k < j ==> tmp[k] == Aligned(row[block + k], row[block + k + 1], tail)
        invariant forall k :: j <= k < 9 ==> tmp[k] == row[block + k]
      {
        tmp[j] := Aligned(tmp[j], tmp[j + 1], tail);
      }
      LoadedShifted(row, tmp[..8], base);
    }
    t := BitsOf(tmp[..8]);
  }

  lemma LoadedAligned(row: seq<bv8>, b: seq<bv8>, base: nat)
    requires base % 8 == 0 && base + WINDOW <= 8 * |row| && |b| == 8
    requires forall k :: 0 <= k < 8 ==> b[k] == row[base / 8 + k]
    ensures BitsOf(b) == BitsOf(row)[base..base + WINDOW]
  {
    hide Bit, BitsOf;
    forall p | 0 <= p < WINDOW ensures BitsOf(b)[p] == BitsOf(row)[base + p] {
      BitsAt(b, p / 8, p % 8);
      BitsAt(row, base / 8 + p / 8, p % 8);
    }
  }

  lemma LoadedShifted(row: seq<bv8>, b: seq<bv8>, base: nat)
    requires base % 8 > 0 && base + WINDOW <= 8 * |row| && |b| == 8
    requires forall k :: 0 <= k < 8 ==> b[k] == Aligned(row[base / 8 + k], row[base / 8 + k + 1], base % 8)
    ensures BitsOf(b) == BitsOf(row)[base..base + WINDOW]
  {
    hide Bit, BitsOf, Aligned;
    var tail := base % 8;
    forall p | 0 <= p < WINDOW ensures BitsOf(b)[p] == BitsOf(row)[base + p] {
      var k := p / 8;
      BitsAt(b, k, p % 8);
      AlignedBit(row[base / 8 + k], row[base / 8 + k + 1], tail, p % 8);
      WindowPlace(row, base, p);
    }
  }

  lemma WindowPlace(row: seq<bv8>, base: nat, p: nat)
    requires base % 8 > 0 && p < WINDOW && base + WINDOW <= 8 * |row|
    ensures BitsOf(row)[base + p]
         == if p % 8 + base % 8 < 8 then Bit(row[base / 8 + p / 8], p % 8 + base % 8)
            else Bit(row[base / 8 + p / 8 + 1], p % 8 + base % 8 - 8)
  {
    hide Bit;
    if p % 8 + base % 8 < 8 {
      BitsAt(row, base / 8 + p / 8, p % 8 + base % 8);
    } else {
      BitsAt(row, base / 8 + p / 8 + 1, p % 8 + base % 8 - 8);
    }
  }

  /** Byte k of a row into which the bytes b are written tail bits higher. */
  function Written(x: bv8, b: seq<bv8>, k: nat, tail: nat): bv8
    requires |b| == 8 && k <= 8 && 0 < tail < 8
  {
    if k == 8 then Shl8(Shr8(x, tail), tail) | Shr8(b[7], 8 - tail)
    else if k == 0 then Shl8(b[0], tail) | Shr8(Shl8(x, 8 - tail), 8 - tail)
    else Shl8(b[k], tail) | Shr8(b[k - 1], 8 - tail)
  }

  lemma JoinedBit(u: bv8, y: bv8, tail: nat, i: nat)
    requires 0 < tail < 8 && i < 8
    ensures Bit(u | Shr8(y, 8 - tail), i) == (Bit(u, i) || (i < tail && Bit(y, i + 8 - tail)))
  {
    hide Bit, Shr8;
    EitherBit(u, Shr8(y, 8 - tail), i);
    ShrBit(y, 8 - tail, i);
  }

  lemma FirstBit(x: bv8, y: bv8, tail: nat, i: nat)
    requires 0 < tail < 8 && i < 8
    ensures Bit(Shl8(y, tail) | Shr8(Shl8(x, 8 - tail), 8 - tail), i)
         == if i >= tail then Bit(y, i - tail) else Bit(x, i)
  {
    hide Bit, Shl8, Shr8;
    EitherBit(Shl8(y, tail), Shr8(Shl8(x, 8 - tail), 8 - tail), i);
    ShlBit(y, tail, i);
    ShrBit(Shl8(x, 8 - tail), 8 - tail, i);
    if i < tail { ShlBit(x, 8 - tail, i + 8 - tail); }
  }

  lemma WrittenBit(x: bv8, b: seq<bv8>, k: nat, tail: nat, i: nat)
    requires |b| == 8 && k <= 8 && 0 < tail < 8 && i < 8
    ensures Bit(Written(x, b, k, tail), i)
         == if i >= tail then (if k == 8 then Bit(x, i) else Bit(b[k], i - tail))
            else if k == 0 then Bit(x, i) else Bit(b[k - 1], i + 8 - tail)
  {
    hide Bit, Shl8, Shr8;
    if k == 8 {
      JoinedBit(Shl8(Shr8(x, tail), tail), b[7], tail, i);
      ShlBit(Shr8(x, tail), tail, i);
      if i >= tail { ShrBit(x, tail, i - tail); }
    } else if k == 0 {
      FirstBit(x, b[0], tail, i);
    } else {
      JoinedBit(Shl8(b[k], tail), b[k - 1], tail, i);
      ShlBit(b[k], tail, i);
    }
  }

  /** A row with t in the place of its 64 bits from base on. */
  function Replaced(row: seq<bool>, base: nat, t: seq<bool>): (w: seq<bool>)
    requires base + |t| <= |row|
    ensures |w| == |row|
  {
    row[..base] + t + row[base + |t|..]
  }

  lemma ReplacedAligned(o: seq<bv8>, n: seq<bv8>, base: nat, t: seq<bool>)
    requires |o| == |n| && |t| == WINDOW && base % 8 == 0 && base + WINDOW <= 8 * |o|
    requires forall c :: 0 <= c < |o| ==>
               n[c] == if base / 8 <= c < base / 8 + 8 then BytesOf(t)[c - base / 8] else o[c]
    ensures BitsOf(n) == Replaced(BitsOf(o), base, t)
  {
    hide Bit, BytesOf;
    BytesBack(t);
    var w := Replaced(BitsOf(o), base, t);
    forall p | 0 <= p < 8 * |o| ensures BitsOf(n)[p] == w[p] {
      var (c, i) := (p / 8, p % 8);
      if base / 8 <= c < base / 8 + 8 {
        BitsAt(BytesOf(t), c - base / 8, i);
      }
    }
  }

  lemma ReplacedShifted(o: seq<bv8>, n: seq<bv8>, base: nat, t: seq<bool>)
    requires |o| == |n| && |t| == WINDOW && base % 8 > 0 && base + WINDOW <= 8 * |o|
    requires forall c :: 0 <= c < |o| ==>
               n[c] == if base / 8 <= c <= base / 8 + 8 then Written(o[c], BytesOf(t), c - base / 8, base % 8) else o[c]
    ensures BitsOf(n) == Replaced(BitsOf(o), base, t)
  {
    hide Bit, Written, BytesOf, BitsOf, Replaced;
    BytesBack(t);
    var w := Replaced(BitsOf(o), base, t);
    forall p | 0 <= p < 8 * |o| ensures BitsOf(n)[p] == w[p] {
      var c := p / 8;
      BitsAt(n, c, p % 8); BitsAt(o, c, p % 8);
      ReplacedAt(BitsOf(o), base, t, p);
      if base / 8 <= c <= base / 8 + 8 {
        WrittenBit(o[c], BytesOf(t), c - base / 8, base % 8, p % 8);
        WrittenPlace(BytesOf(t), base, p);
      }
    }
  }

  lemma ReplacedAt(row: seq<bool>, base: nat, t: seq<bool>, p: nat)
    requires base + |t| <= |row| && p < |row|
    ensures Replaced(row, base, t)[p] == if base <= p < base + |t| then t[p - base] else row[p]
  {
  }

  lemma WrittenPlace(b: seq<bv8>, base: nat, p: nat)
    requires |b| == 8 && base % 8 > 0 && base / 8 <= p / 8 <= base / 8 + 8
    ensures var (k, i, tail) := (p / 8 - base / 8, p % 8, base % 8);
            && (i >= tail && k < 8 ==> base <= p < base + WINDOW && BitsOf(b)[p - base] == Bit(b[k], i - tail))
            && (i < tail && k > 0 ==> base <= p < base + WINDOW && BitsOf(b)[p - base] == Bit(b[k - 1], i + 8 - tail))
            && (i >= tail && k == 8 ==> p >= base + WINDOW)
            && (i < tail && k == 0 ==> p < base)
  {
    hide Bit;
    var (k, i, tail) := (p / 8 - base / 8, p % 8, base % 8);
    if i >= tail && k < 8 {
      BitsAt(b, k, i - tail);
    }
    if i < tail && k > 0 {
      BitsAt(b, k - 1, i + 8 - tail);
    }
  }

  method StoreWindow(mat: array2<bv8>, r: nat, base: nat, t: seq<bool>)
    requires r < mat.Length0 && base + WINDOW <= 8 * mat.Length1 && |t| == WINDOW
    modifies mat
    ensures Unpacked(mat) == old(Unpacked(mat))[r := Replaced(old(Unpacked(mat))[r], base, t)]
  {
    hide Bit, Written, BytesOf, Replaced;
    var (block, tail) := (base / 8, base % 8);
    var tmp := BytesOf(t);
    if tail == 0 {
      for k := 0 to 8
        invariant forall i, c :: 0 <= i < mat.Length0 && 0 <= c < mat.Length1 ==>
                    mat[i, c] == if i == r && block <= c < block + k then tmp[c - block] else old(mat[i, c])
      {
        mat[r, block + k] := tmp[k];
      }
      ReplacedAligned(old(RowBytes(mat, r)), RowBytes(mat, r), base, t);
    } else {
      WriteShifted(mat, r, block, tail, tmp);
      ReplacedShifted(old(RowBytes(mat, r)), RowBytes(mat, r), base, t);
    }
    forall i | 0 <= i < mat.Length0 && i != r ensures Unpacked(mat)[i] == old(Unpacked(mat))[i] {
      assert RowBytes(mat, i) == old(RowBytes(mat, i));
    }
    assert Unpacked(mat)[r] == BitsOf(RowBytes(mat, r));
  }

  method WriteShifted(mat: array2<bv8>, r: nat, block: nat, tail: nat, tmp: seq<bv8>)
    requires r < mat.Length0 && block + 9 <= mat.Length1 && 0 < tail < 8 && |tmp| == 8
    modifies mat
    ensures forall i, c :: 0 <= i < mat.Length0 && 0 <= c < mat.Length1 ==>
              mat[i, c] == if i == r && block <= c <= block + 8 then Written(old(mat[i, c]), tmp, c - block, tail)
                           else old(mat[i, c])
  {
    mat[r, block + 8] := Shl8(Shr8(mat[r, block + 8], tail), tail) | Shr8(tmp[7], 8 - tail);
    mat[r, block] := Shl8(tmp[0], tail) | Shr8(Shl8(mat[r, block], 8 - tail), 8 - tail);
    for k := 8 downto 1
      invariant forall i, c :: 0 <= i < mat.Length0 && 0 <= c < mat.Length1 ==>
                  mat[i, c] == if i == r && (c == block || block + k <= c <= block + 8)
                               then Written(old(mat[i, c]), tmp, c - block, tail) else old(mat[i, c])
    {
      mat[r, block + k] := Shl8(tmp[k], tail) | Shr8(tmp[k - 1], 8 - tail);
    }
  }

  // ----- moving

  /** The words of the last PIVOTS rows. */
  method LoadRows(mat: array2<bv8>, base: nat) returns (buf: array<seq<bool>>)
    requires mat.Length0 == base + PIVOTS && base + WINDOW <= 8 * mat.Length1
    ensures fresh(buf) && buf.Length == WINDOW
    ensures Rows(buf) == WindowOf(Unpacked(mat), base, 8 * mat.Length1)
  {
    hide Bit, Unpacked;
    buf := new seq<bool>[WINDOW](_ => []);
    for i := 0 to PIVOTS
      invariant forall k :: 0 <= k < i ==> buf[k] == Unpacked(mat)[base + k][base..base + WINDOW]
    {
      var t := LoadWindow(mat, base + i, base);
      buf[i] := t;
    }
  }

  /** The exchanges in pi. */
  method MovePerm(pi: array<int>, base: nat, ctzList: array<nat>)
    requires base + WINDOW <= pi.Length && ctzList.Length == PIVOTS && IsChoice(ctzList[..])
    requires (pi as object) != (ctzList as object)
    modifies pi
    ensures pi[..] == Moved(old(pi[..]), base, ctzList[..], PIVOTS)
  {
    hide Moved;
    ghost var (s, c) := (pi[..], ctzList[..]);
    MovedNone(s, base, c);
    for j := 0 to PIVOTS
      invariant ctzList[..] == c && pi[..] == Moved(s, base, c, j)
    {
      ghost var t := pi[..];
      for k := j + 1 to WINDOW
        invariant ctzList[..] == c
        invariant pi[..] == if j < c[j] < k then Exchanged(t, base + j, base + c[j]) else t
      {
        if k == ctzList[j] {
          pi[base + j], pi[base + k] := pi[base + k], pi[base + j];
        }
      }
      MovedNext(s, base, c, j);
      assert c[j] == j ==> Exchanged(t, base + j, base + c[j]) == t;
    }
  }

  /** The exchanges in one word: the bits j and ctzList[j] are flipped if they differ. */
  method MoveBits(word: seq<bool>, ctzList: array<nat>) returns (t: seq<bool>)
    requires |word| == WINDOW && ctzList.Length == PIVOTS && IsChoice(ctzList[..])
    ensures |t| == WINDOW && t == Moved(word, 0, ctzList[..], PIVOTS)
  {
    hide Moved;
    ghost var c := ctzList[..];
    MovedNone(word, 0, c);
    t := word;
    for j := 0 to PIVOTS
      invariant t == Moved(word, 0, c, j)
    {
      ghost var u := t;
      var s := ctzList[j];
      var d := t[j] != t[s];
      t := t[s := t[s] != d];
      t := t[j := t[j] != d];
      assert s == c[j];
      MovedNext(word, 0, c, j);
      assert t == Exchanged(u, j, s);
    }
  }

  /** Moving within the window is moving in the row. */
  lemma {:induction false} FromShift(base: nat, c: seq<nat>, n: nat, i: nat)
    requires n <= |c| && IsChoice(c)
    ensures From(base, c, n, base + i) == base + From(0, c, n, i)
  {
    if n > 0 {
      FromShift(base, c, n - 1, Swap(n - 1, c[n - 1], i));
    }
  }

  lemma MovedWindow(row: seq<bool>, base: nat, c: seq<nat>)
    requires |c| == PIVOTS && IsChoice(c) && base + WINDOW <= |row|
    ensures Replaced(row, base, Moved(row[base..base + WINDOW], 0, c, PIVOTS)) == Moved(row, base, c, PIVOTS)
  {
    hide From;
    var (t, w) := (Moved(row[base..base + WINDOW], 0, c, PIVOTS), Moved(row, base, c, PIVOTS));
    forall i | 0 <= i < |row| ensures Replaced(row, base, t)[i] == w[i] {
      FromRange(base, c, PIVOTS, i);
      if base <= i < base + WINDOW {
        FromShift(base, c, PIVOTS, i - base);
      }
    }
  }

  method MoveRow(mat: array2<bv8>, r: nat, base: nat, ctzList: array<nat>)
    requires r < mat.Length0 && base + WINDOW <= 8 * mat.Length1
    requires ctzList.Length == PIVOTS && IsChoice(ctzList[..])
    modifies mat
    ensures Unpacked(mat) == old(Unpacked(mat))[r := Moved(old(Unpacked(mat))[r], base, ctzList[..], PIVOTS)]
  {
    hide Bit, Unpacked, Moved, Replaced;
    var t := LoadWindow(mat, r, base);
    t := MoveBits(t, ctzList);
    StoreWindow(mat, r, base, t);
    MovedWindow(old(Unpacked(mat))[r], base, ctzList[..]);
  }

  /**
   mov_columns: it succeeds exactly when the rows of the window are independent. Then the same
   exchanges have been made in pi and in every row of the matrix, and they bring the pivot columns,
   which pivots marks, to the front of the window.
   */
  method MovColumns(mat: array2<bv8>, pi: array<int>) returns (ret: int, pivots: seq<bool>, ghost c: seq<nat>)
    requires PIVOTS <= mat.Length0 && mat.Length0 - PIVOTS + WINDOW <= 8 * mat.Length1
    requires mat.Length0 - PIVOTS + WINDOW <= pi.Length
    requires (pi as object) != (mat as object)
    modifies mat, pi
    ensures ret == 0 || ret == -1
    ensures var (base, cols) := (mat.Length0 - PIVOTS, 8 * mat.Length1);
            var w := WindowOf(old(Unpacked(mat)), base, cols);
            && (ret == 0 <==> RowsFull(w, WINDOW, WINDOW))
            && (ret == 0 ==>
                 && |c| == PIVOTS && IsChoice(c) && Pivots(w, c, WINDOW)
                 && Unpacked(mat) == MovedColumns(old(Unpacked(mat)), base, c, PIVOTS, cols)
                 && pi[..] == Moved(old(pi[..]), base, c, PIVOTS)
                 && |pivots| == WINDOW && forall k :: 0 <= k < WINDOW ==> (pivots[k] <==> k in c))
    ensures ret != 0 ==> Unpacked(mat) == old(Unpacked(mat)) && pi[..] == old(pi[..])
  {
    hide Bit, Unpacked, Moved, Pivots, RowsFull, WindowOf;
    var row := mat.Length0 - PIVOTS;
    ghost var (m, cols) := (Unpacked(mat), 8 * mat.Length1);
    var buf := LoadRows(mat, row);
    var ok, ctzList;
    ok, ctzList, pivots := FindPivots(buf);
    c := ctzList[..];
    if !ok {
      return -1, pivots, c;
    }
    MovePerm(pi, row, ctzList);
    for i := 0 to mat.Length0
      invariant ctzList[..] == c && pi[..] == Moved(old(pi[..]), row, c, PIVOTS)
      invariant Shape(Unpacked(mat), mat.Length0, cols)
      invariant forall r :: 0 <= r < mat.Length0 ==>
                  Unpacked(mat)[r] == if r < i then Moved(m[r], row, c, PIVOTS) else m[r]
    {
      MoveRow(mat, i, row, ctzList);
    }
    ret := 0;
  }
}
