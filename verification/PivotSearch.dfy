/** The search for pivots in mov_columns (src/pk_gen.rs, lines 90-120), on the words of its window. */
module PivotSearch {
  import opened BinaryMatrices
  import opened RowRank
  import opened ColumnMoves
  import opened Echelons

  function MaskedXor(u: seq<bool>, v: seq<bool>, b: bool): (w: seq<bool>)
    requires |u| == |v|
    ensures |w| == |u|
  {
    if b then Xor(u, v) else u
  }

  /** u | v */
  function Either(u: seq<bool>, v: seq<bool>): (w: seq<bool>)
    requires |u| == |v|
    ensures |w| == |u| && forall k :: 0 <= k < |w| ==> w[k] == (u[k] || v[k])
  {
    seq(|u|, k requires 0 <= k < |u| => u[k] || v[k])
  }

  /** ctz: the lowest bit that is set. */
  method Ctz(input: seq<bool>) returns (r: nat)
    requires |input| == WINDOW && Nonzero(input)
    ensures r < WINDOW && input[r] && forall k :: 0 <= k < r ==> !input[k]
  {
    var m := false;
    r := 0;
    for i := 0 to WINDOW
      invariant r <= i && (!m ==> r == i)
      invariant m ==> r < i && input[r]
      invariant forall k :: 0 <= k < r ==> !input[k]
    {
      var b := input[i];
      m := m || b;
      r := r + if !m && !b then 1 else 0;
    }
  }

  /** The words that are searched. */
  function Rows(buf: array<seq<bool>>): (m: Matrix)
    requires buf.Length == WINDOW
    reads buf
    ensures |m| == PIVOTS && forall i :: 0 <= i < PIVOTS ==> m[i] == buf[i]
  {
    buf[..PIVOTS]
  }

  /** b came from w by row operations, and its first |c| rows are in echelon form. */
  ghost predicate Searched(b: Matrix, w: Matrix, c: seq<nat>)
  {
    && Shape(b, PIVOTS, WINDOW) && Shape(w, PIVOTS, WINDOW) && |c| <= PIVOTS
    && SameKernel(b, w, WINDOW) && SameRank(b, w, WINDOW) && Echelon(b, c, WINDOW)
  }

  /** From row |c| on, nothing is set before column s. */
  predicate Leads(b: Matrix, c: seq<nat>, s: nat)
    requires Shape(b, PIVOTS, WINDOW) && |c| < PIVOTS
  {
    s < WINDOW && (|c| > 0 ==> c[|c| - 1] < s) && forall r, k :: |c| <= r < PIVOTS && 0 <= k < s ==> !b[r][k]
  }

  lemma SearchedAdd(b: Matrix, w: Matrix, c: seq<nat>, s: nat, r: nat, k: nat, t: bool)
    requires Searched(b, w, c) && |c| < PIVOTS && Leads(b, c, s) && |c| <= r < PIVOTS && |c| <= k < PIVOTS && r != k
    ensures Searched(AddRow(b, r, k, t), w, c) && Leads(AddRow(b, r, k, t), c, s)
  {
    hide Dot, Kernel, SameKernel, SameRank, RowsFull;
    AddRowBits(b, r, k, t, WINDOW);
    AddRowSame(b, w, r, k, t, WINDOW);
    AddRowRank(b, w, r, k, t, WINDOW);
    EchelonAdd(b, AddRow(b, r, k, t), c, r);
  }

  /** Rows below the pivots may change as long as they stay zero up to the last of them. */
  lemma EchelonAdd(b: Matrix, w: Matrix, c: seq<nat>, r: nat)
    requires Shape(b, |b|, WINDOW) && Shape(w, |b|, WINDOW) && |c| <= r < |b| && Echelon(b, c, WINDOW)
    requires forall i, k :: 0 <= i < |b| && 0 <= k < WINDOW && i != r ==> w[i][k] == b[i][k]
    requires forall j, k :: 0 <= j < |c| && 0 <= k <= c[j] < WINDOW ==> !w[r][k]
    ensures Echelon(w, c, WINDOW)
  {
  }

  /** The search for the next pivot: the word of row |c| gets it, and no later word keeps it. */
  method NextPivot(buf: array<seq<bool>>, i: nat, s: nat, ghost w: Matrix, ghost c: seq<nat>)
    requires buf.Length == WINDOW && |c| == i < PIVOTS && s < WINDOW && Searched(Rows(buf), w, c)
    requires Leads(Rows(buf), c, s)
    requires exists r :: i <= r < PIVOTS && Rows(buf)[r][s]
    modifies buf
    ensures Searched(Rows(buf), w, c + [s])
  {
    hide Searched, Leads, AddRow;
    SearchedShape(Rows(buf), w, c);
    for j := i + 1 to PIVOTS
      invariant Shape(Rows(buf), PIVOTS, WINDOW) && Searched(Rows(buf), w, c) && Leads(Rows(buf), c, s)
      invariant Rows(buf)[i][s] || exists r :: j <= r < PIVOTS && Rows(buf)[r][s]
    {
      ghost var b := Rows(buf);
      var mask := !buf[i][s];
      SearchedAdd(b, w, c, s, i, j, mask);
      AddRowBits(b, i, j, mask, WINDOW);
      buf[i] := MaskedXor(buf[i], buf[j], mask);
      AddedRow(b, Rows(buf), i, j, mask);
    }
    for j := i + 1 to PIVOTS
      invariant Shape(Rows(buf), PIVOTS, WINDOW) && Searched(Rows(buf), w, c) && Leads(Rows(buf), c, s)
      invariant Rows(buf)[i][s] && forall r :: i < r < j ==> !Rows(buf)[r][s]
    {
      ghost var b := Rows(buf);
      var mask := buf[j][s];
      SearchedAdd(b, w, c, s, j, i, mask);
      AddRowBits(b, j, i, mask, WINDOW);
      buf[j] := MaskedXor(buf[j], buf[i], mask);
      AddedRow(b, Rows(buf), j, i, mask);
    }
    PivotFound(Rows(buf), w, c, s);
  }

  lemma SearchedShape(b: Matrix, w: Matrix, c: seq<nat>)
    requires Searched(b, w, c)
    ensures Shape(b, PIVOTS, WINDOW)
  {
  }

  lemma AddedRow(b: Matrix, w: Matrix, r: nat, k: nat, t: bool)
    requires Shape(b, PIVOTS, WINDOW) && |w| == PIVOTS && r < PIVOTS && k < PIVOTS
    requires w[r] == MaskedXor(b[r], b[k], t) && forall i :: 0 <= i < PIVOTS && i != r ==> w[i] == b[i]
    ensures w == AddRow(b, r, k, t)
  {
  }

  lemma PivotFound(b: Matrix, w: Matrix, c: seq<nat>, s: nat)
    requires Searched(b, w, c) && |c| < PIVOTS && Leads(b, c, s)
    requires b[|c|][s] && forall r :: |c| < r < PIVOTS ==> !b[r][s]
    ensures Searched(b, w, c + [s])
  {
    hide SameKernel, SameRank;
    var d := c + [s];
    forall j, k | 0 <= j < k < |d| ensures d[j] < d[k] {
      if k == |c| && j < |c| - 1 { assert c[j] < c[|c| - 1]; }
    }
  }

  /**
   The search: it succeeds exactly when the words are independent, and then c lists the columns of
   the pivots and pivots marks them.
   */
  method FindPivots(buf: array<seq<bool>>) returns (ok: bool, ctzList: array<nat>, pivots: seq<bool>)
    requires buf.Length == WINDOW && Shape(Rows(buf), PIVOTS, WINDOW)
    modifies buf
    ensures fresh(ctzList) && ctzList.Length == PIVOTS
    ensures ok <==> RowsFull(old(Rows(buf)), WINDOW, WINDOW)
    ensures ok ==> Pivots(old(Rows(buf)), ctzList[..], WINDOW) && IsChoice(ctzList[..])
    ensures ok ==> |pivots| == WINDOW && forall k :: 0 <= k < WINDOW ==> (pivots[k] <==> k in ctzList[..])
  {
    hide Dot, Kernel, SameKernel, RowsFull, Searched, Leads;
    ghost var w := Rows(buf);
    SearchedNone(w);
    ctzList := new nat[PIVOTS](_ => 0);
    pivots := seq(WINDOW, _ => false);
    for i := 0 to PIVOTS
      invariant Searched(Rows(buf), w, ctzList[..i])
      invariant |pivots| == WINDOW && forall k :: 0 <= k < WINDOW ==> (pivots[k] <==> k in ctzList[..i])
    {
      SearchedShape(Rows(buf), w, ctzList[..i]);
      var t := Union(buf, i);
      if forall k :: 0 <= k < WINDOW ==> !t[k] {
        NoPivot(Rows(buf), w, ctzList[..i], t);
        return false, ctzList, pivots;
      }
      var s := Ctz(t);
      LeadsFrom(Rows(buf), w, ctzList[..i], t, s);
      NextPivot(buf, i, s, w, ctzList[..i]);
      ctzList[i] := s;
      pivots := pivots[s := true];
      assert ctzList[..i + 1] == ctzList[..i] + [s];
    }
    assert ctzList[..PIVOTS] == ctzList[..];
    AllPivots(Rows(buf), w, ctzList[..]);
    ok := true;
  }

  /** buf[i] | buf[i + 1] | .. */
  method Union(buf: array<seq<bool>>, i: nat) returns (t: seq<bool>)
    requires buf.Length == WINDOW && i < PIVOTS && Shape(Rows(buf), PIVOTS, WINDOW)
    ensures |t| == WINDOW && forall k :: 0 <= k < WINDOW && t[k] ==> exists r :: i <= r < PIVOTS && Rows(buf)[r][k]
    ensures forall r, k :: i <= r < PIVOTS && 0 <= k < WINDOW && !t[k] ==> !Rows(buf)[r][k]
  {
    ghost var b := Rows(buf);
    t := buf[i];
    for j := i + 1 to PIVOTS
      invariant |t| == WINDOW
      invariant forall k :: 0 <= k < WINDOW && t[k] ==> exists r :: i <= r < j && b[r][k]
      invariant forall r, k :: i <= r < j && 0 <= k < WINDOW && !t[k] ==> !b[r][k]
    {
      t := Either(t, buf[j]);
    }
  }

  lemma SearchedNone(w: Matrix)
    requires Shape(w, PIVOTS, WINDOW)
    ensures Searched(w, w, [])
  {
    hide Dot, Kernel;
  }

  lemma NoPivot(b: Matrix, w: Matrix, c: seq<nat>, t: seq<bool>)
    requires Searched(b, w, c) && |c| < PIVOTS && |t| == WINDOW
    requires forall r, k :: |c| <= r < PIVOTS && 0 <= k < WINDOW && !t[k] ==> !b[r][k]
    requires forall k :: 0 <= k < WINDOW ==> !t[k]
    ensures !RowsFull(w, WINDOW, WINDOW)
  {
    hide RowsFull, SameKernel;
    forall k | 0 <= k < WINDOW ensures !b[|c|][k] { assert !t[k]; }
    ZeroRow(b, |c|, WINDOW);
  }

  lemma LeadsFrom(b: Matrix, w: Matrix, c: seq<nat>, t: seq<bool>, s: nat)
    requires Searched(b, w, c) && |c| < PIVOTS && s < WINDOW == |t|
    requires forall r, k :: |c| <= r < PIVOTS && 0 <= k < WINDOW && !t[k] ==> !b[r][k]
    requires forall k :: 0 <= k < s ==> !t[k]
    requires exists r :: |c| <= r < PIVOTS && b[r][s]
    ensures Leads(b, c, s)
  {
    hide SameKernel, SameRank;
    forall r, k | |c| <= r < PIVOTS && 0 <= k < s ensures !b[r][k] { assert !t[k]; }
    var r :| |c| <= r < PIVOTS && b[r][s];
    if |c| > 0 {
      assert forall k :: 0 <= k <= c[|c| - 1] ==> !b[r][k];
    }
  }

  lemma AllPivots(b: Matrix, w: Matrix, c: seq<nat>)
    requires Searched(b, w, c) && |c| == PIVOTS
    ensures Pivots(w, c, WINDOW) && IsChoice(c) && RowsFull(w, WINDOW, WINDOW)
  {
    hide Dot, SameKernel, RowsFull;
    EchelonFull(b, c, WINDOW);
    EchelonChoice(b, c);
  }
}
