/** Public key generation (src/pk_gen.rs). */
module PkGen {
  import opened Params
  import opened Field
  import opened Frobenius
  import opened FieldMethods
  import opened Polynomials
  import opened Permutations
  import opened MergeExchange
  import opened SortMethods
  import opened BinaryMatrices
  import opened RowRank
  import opened Elimination
  import opened ColumnMoves
  import opened Echelons
  import opened SemiSystematic
  import opened CheckMatrix
  import opened SupportPoints
  import PublicKey
  import Decrypt

  predicate NoRepeats(perm: seq<int>)
  {
    forall i, j :: 0 <= i < j < |perm| ==> perm[i] != perm[j]
  }

  /** pi lists the indices of perm in the order of their values. */
  predicate SortsBy(pi: seq<int>, perm: seq<int>)
  {
    && |pi| == |perm| && IsPerm(pi)
    && forall i, j :: 0 <= i < j < |pi| ==> perm[pi[i]] < perm[pi[j]]
  }

  /** There is only one such order. */
  lemma OrderUnique(p: seq<int>, q: seq<int>, perm: seq<int>)
    requires SortsBy(p, perm) && SortsBy(q, perm)
    ensures p == q
  {
    hide IsPerm;
    forall i | 0 <= i < |p| ensures p[i] == q[i] {
      OrderAt(p, q, perm, i);
    }
  }

  lemma {:induction false} OrderAt(p: seq<int>, q: seq<int>, perm: seq<int>, i: nat)
    requires SortsBy(p, perm) && SortsBy(q, perm) && i < |p|
    ensures p[i] == q[i]
    decreases i
  {
    forall j | 0 <= j < i ensures p[j] == q[j] { OrderAt(p, q, perm, j); }
    Surjective(q, p[i]); Surjective(p, q[i]);
    var j :| 0 <= j < |q| && q[j] == p[i];
    var k :| 0 <= k < |p| && p[k] == q[i];
  }

  function Word(value: int, index: int): int { value * 0x8000_0000 + index }

  lemma WordParts(value: int, index: int)
    requires 0 <= index < FIELD_SIZE
    ensures Word(value, index) / 0x8000_0000 == value && Word(value, index) % FIELD_SIZE == index
  {
    var w := Word(value, index);
    ModUnique(w, 0x8000_0000, value, index);
    if GFBITS == 12 {
      ModUnique(w, 4096, value * 0x80000, index);
    } else {
      ModUnique(w, 8192, value * 0x40000, index);
    }
  }

  function Tagged(perm: seq<int>): (s: seq<int>)
    ensures |s| == |perm| && forall i :: 0 <= i < |s| ==> s[i] == Word(perm[i], i)
  {
    seq(|perm|, i requires 0 <= i < |perm| => Word(perm[i], i))
  }

  /** What the sorted words say about the values they carry. */
  lemma SortedWords(t: seq<int>, perm: seq<int>, q: seq<int>)
    requires |q| == |perm| == FIELD_SIZE && IsPerm(q) && t == Permute(Tagged(perm), q) && Ascending(t)
    ensures forall i :: 0 <= i < |t| ==> t[i] / 0x8000_0000 == perm[q[i]] && t[i] % FIELD_SIZE == q[i]
    ensures forall i, j :: 0 <= i < j < |q| ==> perm[q[i]] <= perm[q[j]]
  {
    hide Word;
    forall i | 0 <= i < |t| ensures t[i] / 0x8000_0000 == perm[q[i]] && t[i] % FIELD_SIZE == q[i] {
      WordParts(perm[q[i]], q[i]);
    }
  }

  /** Without equal neighbours a sorted list has no repetition at all. */
  lemma {:induction false} Strictly(perm: seq<int>, q: seq<int>, i: nat, j: nat)
    requires |q| == |perm| && IsPerm(q) && i < j < |q|
    requires forall a, b :: 0 <= a < b < |q| ==> perm[q[a]] <= perm[q[b]]
    requires perm[q[j - 1]] != perm[q[j]]
    ensures perm[q[i]] < perm[q[j]]
  {
  }

  lemma Unrepeated(perm: seq<int>, q: seq<int>)
    requires |q| == |perm| && IsPerm(q)
    requires forall i, j :: 0 <= i < j < |q| ==> perm[q[i]] < perm[q[j]]
    ensures NoRepeats(perm)
  {
    forall i, j | 0 <= i < j < |perm| ensures perm[i] != perm[j] {
      Surjective(q, i); Surjective(q, j);
      var a :| 0 <= a < |q| && q[a] == i;
      var b :| 0 <= b < |q| && q[b] == j;
      if a < b { assert perm[q[a]] < perm[q[b]]; } else { assert perm[q[b]] < perm[q[a]]; }
    }
  }

  /** The random values are u32. */
  predicate AreWords(perm: seq<int>)
  {
    forall i :: 0 <= i < |perm| ==> 0 <= perm[i] < 0x1_0000_0000
  }

  lemma TaggedWords(perm: seq<int>)
    requires |perm| == FIELD_SIZE && AreWords(perm)
    ensures AllIn(U64, Tagged(perm))
  {
  }

  /** The words perm[i] << 31 | i, sorted; q tells where each of them came from. */
  method SortWords(perm: seq<int>) returns (buf: array<int>, ghost q: seq<int>)
    requires |perm| == FIELD_SIZE && AreWords(perm)
    ensures fresh(buf) && buf.Length == FIELD_SIZE && |q| == FIELD_SIZE && IsPerm(q)
    ensures forall i :: 0 <= i < FIELD_SIZE ==> buf[i] / 0x8000_0000 == perm[q[i]] && buf[i] % FIELD_SIZE == q[i]
    ensures forall i, j :: 0 <= i < j < FIELD_SIZE ==> perm[q[i]] <= perm[q[j]]
  {
    hide Ascending, Word, IsPerm, Permute;
    buf := new int[FIELD_SIZE];
    for i := 0 to FIELD_SIZE
      invariant forall k :: 0 <= k < i ==> buf[k] == Word(perm[k], k)
    {
      buf[i] := Word(perm[i], i);
    }
    assert buf[..] == Tagged(perm);
    TaggedWords(perm);
    Uint64Sort(buf);
    q :| |q| == |perm| && IsPerm(q) && buf[..] == Permute(Tagged(perm), q);
    PermBounds(q);
    SortedWords(buf[..], perm, q);
    forall i | 0 <= i < FIELD_SIZE ensures buf[i] / 0x8000_0000 == perm[q[i]] && buf[i] % FIELD_SIZE == q[i] {
      assert buf[..][i] == buf[i];
    }
  }

  /** Equal values are refused; otherwise the indices, in the order of their values, become pi. */
  method SortIndices(pi: array<int>, perm: seq<int>) returns (ok: bool)
    requires pi.Length == |perm| == FIELD_SIZE && AreWords(perm)
    modifies pi
    ensures ok <==> NoRepeats(perm)
    ensures ok ==> SortsBy(pi[..], perm)
  {
    hide IsPerm, NoRepeats;
    var buf;
    ghost var q;
    buf, q := SortWords(perm);
    PermBounds(q);
    for i := 1 to FIELD_SIZE
      invariant forall k :: 1 <= k < i ==> perm[q[k - 1]] != perm[q[k]]
    {
      if buf[i - 1] / 0x8000_0000 == buf[i] / 0x8000_0000 {
        Repeated(perm, q, i - 1, i);
        return false;
      }
    }
    forall i, j | 0 <= i < j < |q| ensures perm[q[i]] < perm[q[j]] {
      Strictly(perm, q, i, j);
    }
    Unrepeated(perm, q);
    for i := 0 to FIELD_SIZE
      invariant forall k :: 0 <= k < i ==> pi[k] == q[k]
      invariant forall k :: 0 <= k < FIELD_SIZE ==> buf[k] % FIELD_SIZE == q[k]
    {
      pi[i] := buf[i] % FIELD_SIZE;
    }
    assert pi[..] == q;
    ok := true;
  }

  lemma Repeated(perm: seq<int>, q: seq<int>, i: nat, j: nat)
    requires |q| == |perm| && IsPerm(q) && i < j < |q| && perm[q[i]] == perm[q[j]]
    ensures !NoRepeats(perm)
  {
    assert q[i] != q[j];
  }

  /** The inverses of the values of g at the support points, zero where g vanishes. */
  function Inverses(g: seq<Gf>, l: seq<Gf>): (h: seq<Gf>)
    ensures |h| == |l| && forall j :: 0 <= j < |l| ==> h[j] == Inv(Value(g, l[j]))
  {
    seq(|l|, j requires 0 <= j < |l| => Inv(Value(g, l[j])))
  }

  /** l[i] = bitrev(pi[i]). */
  method LoadSupport(pi: seq<int>) returns (l: seq<Gf>)
    requires |pi| == FIELD_SIZE && IsPerm(pi)
    ensures SYS_N <= FIELD_SIZE && l == Support(pi)
  {
    hide Point, IsPerm;
    PermBounds(pi);
    var a := new Gf[SYS_N](_ => ZERO);
    for i := 0 to SYS_N
      invariant forall k :: 0 <= k < i ==> a[k] == Point(pi[k])
    {
      a[i] := Point(pi[i]);
    }
    l := a[..];
  }

  method InvertAll(inv: array<Gf>)
    modifies inv
    ensures forall j :: 0 <= j < inv.Length ==> inv[j] == Inv(old(inv[j]))
  {
    hide Inv;
    for j := 0 to inv.Length
      invariant forall k :: 0 <= k < j ==> inv[k] == Inv(old(inv[k]))
      invariant forall k :: j <= k < inv.Length ==> inv[k] == old(inv[k])
    {
      var v := GfInv(inv[j]);
      inv[j] := v;
    }
  }

  /** The parity checks of the code with Goppa polynomial g and the support for pi. */
  function CodeChecks(g: seq<Gf>, pi: seq<int>): (m: Matrix)
    requires |pi| == FIELD_SIZE && IsPerm(pi)
    ensures Shape(m, PK_NROWS, SYS_N)
  {
    var l := Support(pi);
    Checks(Inverses(g, l), l)
  }

  /** pk holds T for a matrix [I | T] that checks the code of g and pi. */
  ghost predicate IsKey(pk: seq<bv8>, g: seq<Gf>, pi: seq<int>)
    requires |pi| == FIELD_SIZE && IsPerm(pi)
  {
    exists m: Matrix :: KeyMatrix(m, pk, g, pi)
  }

  ghost predicate KeyMatrix(m: Matrix, pk: seq<bv8>, g: seq<Gf>, pi: seq<int>)
    requires |pi| == FIELD_SIZE && IsPerm(pi)
  {
    && Shape(m, PK_NROWS, SYS_N) && UnitColumns(m, PK_NROWS, SYS_N)
    && SameKernel(m, CodeChecks(g, pi), SYS_N) && PublicKey.Holds(pk, m)
  }

  /** There is only one such key. */
  lemma KeyUnique(a: seq<bv8>, b: seq<bv8>, g: seq<Gf>, pi: seq<int>)
    requires |pi| == FIELD_SIZE && IsPerm(pi) && IsKey(a, g, pi) && IsKey(b, g, pi)
    ensures a == b
  {
    hide Kernel, UnitColumns, CodeChecks, IsPerm, PublicKey.Holds;
    var m: Matrix :| KeyMatrix(m, a, g, pi);
    var o: Matrix :| KeyMatrix(o, b, g, pi);
    SystematicUnique(m, o, SYS_N);
    PublicKey.HoldsUnique(a, b, m);
  }

  // ----- moving the support along with the columns

  /** The first column of the window. */
  function Base(): (b: nat)
    requires MOVES
    ensures b + PIVOTS == PK_NROWS && b + WINDOW <= SYS_N
  {
    PK_NROWS - PIVOTS
  }

  /** Every column belongs to one point, so moving the points is moving the columns. */
  lemma ChecksFollow(g: seq<Gf>, pi: seq<int>, c: seq<nat>)
    requires MOVES && |pi| == FIELD_SIZE && IsPerm(pi) && |c| == PIVOTS && IsChoice(c)
    ensures IsPerm(Moved(pi, Base(), c, PIVOTS))
    ensures CodeChecks(g, Moved(pi, Base(), c, PIVOTS)) == MovedColumns(CodeChecks(g, pi), Base(), c, PIVOTS, SYS_N)
  {
    hide IsPerm, From;
    MovedPerm(pi, Base(), c, PIVOTS);
    var q := Moved(pi, Base(), c, PIVOTS);
    PermBounds(pi); PermBounds(q);
    var (l, k) := (Support(pi), Support(q));
    forall j | 0 <= j < SYS_N ensures From(Base(), c, PIVOTS, j) < SYS_N && k[j] == l[From(Base(), c, PIVOTS, j)] {
      FromBelow(Base(), c, PIVOTS, j, SYS_N);
    }
    ColumnsFollow(Inverses(g, l), l, Inverses(g, k), k, c);
  }

  lemma ColumnsFollow(h: seq<Gf>, l: seq<Gf>, v: seq<Gf>, k: seq<Gf>, c: seq<nat>)
    requires MOVES && |h| == |l| == |v| == |k| == SYS_N && |c| == PIVOTS && IsChoice(c)
    requires forall j :: 0 <= j < SYS_N ==> From(Base(), c, PIVOTS, j) < SYS_N
    requires forall j :: 0 <= j < SYS_N ==>
               k[j] == l[From(Base(), c, PIVOTS, j)] && v[j] == h[From(Base(), c, PIVOTS, j)]
    ensures Checks(v, k) == MovedColumns(Checks(h, l), Base(), c, PIVOTS, SYS_N)
  {
    hide From, Digit, Mul, PowerIn, DigitIn, CheckRow;
    var w := MovedColumns(Checks(h, l), Base(), c, PIVOTS, SYS_N);
    forall r | 0 <= r < PK_NROWS ensures Checks(v, k)[r] == w[r] {
      RowFollows(h, l, v, k, c, PowerIn(r), DigitIn(r));
    }
  }

  lemma RowFollows(h: seq<Gf>, l: seq<Gf>, v: seq<Gf>, k: seq<Gf>, c: seq<nat>, i: nat, d: nat)
    requires MOVES && |h| == |l| == |v| == |k| == SYS_N && |c| == PIVOTS && IsChoice(c)
    requires forall j :: 0 <= j < SYS_N ==> From(Base(), c, PIVOTS, j) < SYS_N
    requires forall j :: 0 <= j < SYS_N ==>
               k[j] == l[From(Base(), c, PIVOTS, j)] && v[j] == h[From(Base(), c, PIVOTS, j)]
    ensures CheckRow(v, k, i, d) == Moved(CheckRow(h, l, i, d), Base(), c, PIVOTS)
  {
    hide From, Digit, Mul;
  }

  /** The condition on the parity-check matrix m under which a public key can be made. */
  ghost predicate Eligible(m: Matrix)
    requires Shape(m, PK_NROWS, SYS_N)
  {
    if MOVES then !Dependent(m, Base(), SYS_N) && RowsFull(m, Base() + WINDOW, SYS_N) else !LeftSingular(m, SYS_N)
  }

  /**
   What pi is after the elimination of m, and which pivots were marked: with column moves, the columns
   of the window that do not depend on earlier ones, which have moved to its front.
   */
  ghost predicate Arranged(pi: seq<int>, sorted: seq<int>, pivots: seq<bool>, m: Matrix)
    requires |sorted| == FIELD_SIZE && Shape(m, PK_NROWS, SYS_N)
  {
    if MOVES
    then exists c: seq<nat> ::
           IsPivotChoice(m, c, Base(), SYS_N) && Marks(pivots, c) && pi == Moved(sorted, Base(), c, PIVOTS)
    else pi == sorted && |pivots| == WINDOW && forall k :: 0 <= k < WINDOW ==> pivots[k] == (k < PIVOTS)
  }

  /** Both are determined by the order and the matrix. */
  lemma ArrangedUnique(p: seq<int>, q: seq<int>, u: seq<bool>, v: seq<bool>, sorted: seq<int>, m: Matrix)
    requires |sorted| == FIELD_SIZE && Shape(m, PK_NROWS, SYS_N)
    requires Arranged(p, sorted, u, m) && Arranged(q, sorted, v, m)
    ensures p == q && u == v
  {
    hide NewColumn, From;
    if MOVES {
      var c: seq<nat> :| IsPivotChoice(m, c, Base(), SYS_N) && Marks(u, c) && p == Moved(sorted, Base(), c, PIVOTS);
      var d: seq<nat> :| IsPivotChoice(m, d, Base(), SYS_N) && Marks(v, d) && q == Moved(sorted, Base(), d, PIVOTS);
      PivotChoiceUnique(m, c, d, Base(), SYS_N);
    }
  }

  /** The marked columns of the window, without the choice. */
  lemma MarkedColumns(pi: seq<int>, sorted: seq<int>, pivots: seq<bool>, m: Matrix)
    requires MOVES && |sorted| == FIELD_SIZE && Shape(m, PK_NROWS, SYS_N) && Arranged(pi, sorted, pivots, m)
    ensures |pivots| == WINDOW
    ensures forall k :: 0 <= k < WINDOW ==> (pivots[k] <==> NewColumn(m, Base() + k, SYS_N))
  {
    hide NewColumn, Moved;
  }

  /** The elimination, with or without column moves. */
  method Systematic(mat: array2<bv8>, pi: array<int>, ghost g: seq<Gf>) returns (ret: int, pivots: seq<bool>)
    requires mat.Length0 == PK_NROWS && 8 * mat.Length1 == SYS_N
    requires pi.Length == FIELD_SIZE && IsPerm(pi[..]) && Unpacked(mat) == CodeChecks(g, pi[..])
    requires (pi as object) != (mat as object)
    modifies mat, pi
    ensures ret == 0 || ret == -1
    ensures ret == 0 <==> Eligible(CodeChecks(g, old(pi[..])))
    ensures ret == 0 ==> IsPerm(pi[..]) && UnitColumns(Unpacked(mat), PK_NROWS, SYS_N)
    ensures ret == 0 ==> SameKernel(Unpacked(mat), CodeChecks(g, pi[..]), SYS_N)
    ensures ret == 0 ==> Arranged(pi[..], old(pi[..]), pivots, CodeChecks(g, old(pi[..])))
  {
    hide Dependent, RowsFull, SameKernel, UnitColumns, IsPerm, Unpacked, CodeChecks, MovedColumns, Moved, Kernel,
      NewColumn;
    ghost var o := pi[..];
    CodeShape(g, o);
    pivots := [];
    if MOVES {
      ghost var c;
      ret, pivots, c := EliminateMoving(mat, pi);
      if ret == 0 {
        ChecksFollow(g, o, c);
      }
    } else {
      ret := Eliminate(mat);
      pivots := seq(WINDOW, k => k < PIVOTS);
    }
  }

  lemma CodeShape(g: seq<Gf>, pi: seq<int>)
    requires |pi| == FIELD_SIZE && IsPerm(pi)
    ensures Shape(CodeChecks(g, pi), PK_NROWS, SYS_N)
  {
    hide IsPerm;
  }

  /**
   pk_gen: it succeeds exactly when the random values are all different and the parity-check matrix
   of the support sorted by them is eligible. Without column moves this means that its first PK_NROWS
   columns are independent; with them, that the first PK_NROWS - 32 columns are, and the first
   PK_NROWS + 32 have full rank. Then pk is T for a matrix [I | T] with the code of g and pi, where
   pi is the sorted order, after the column moves if there are any.
   */
  method PkGen(pk: array<bv8>, sk: seq<bv8>, perm: seq<int>, pi: array<int>)
    returns (ret: int, pivots: seq<bool>, ghost sorted: seq<int>)
    requires pk.Length == PublicKey.Offset(PK_NROWS) && |sk| >= IRR_BYTES
    requires pi.Length == |perm| == FIELD_SIZE && AreWords(perm)
    requires (pk as object) != (pi as object)
    modifies pk, pi
    ensures ret == 0 || ret == -1
    ensures NoRepeats(perm) ==> SortsBy(sorted, perm)
    ensures ret == 0 <==> NoRepeats(perm) && Eligible(CodeChecks(Decrypt.GoppaOf(sk), sorted))
    ensures ret == 0 ==> Arranged(pi[..], sorted, pivots, CodeChecks(Decrypt.GoppaOf(sk), sorted))
    ensures ret == 0 && MOVES ==> |pivots| == WINDOW
    ensures ret == 0 && MOVES ==>
              forall k :: 0 <= k < WINDOW ==>
                (pivots[k] <==> NewColumn(CodeChecks(Decrypt.GoppaOf(sk), sorted), Base() + k, SYS_N))
    ensures ret == 0 ==> IsPerm(pi[..]) && IsKey(pk[..], Decrypt.GoppaOf(sk), pi[..])
  {
    hide Value, Inv, Eligible, Arranged, SameKernel, UnitColumns, IsPerm, NoRepeats, Unpacked, Checks, Support,
      NewColumn, PublicKey.Holds, Decrypt.GoppaOf;
    var g := Decrypt.LoadGoppa(sk);
    pivots := [];
    var ok := SortIndices(pi, perm);
    sorted := pi[..];
    if !ok {
      return -1, pivots, sorted;
    }
    var l := LoadSupport(pi[..]);
    var inv := new Gf[SYS_N](_ => ZERO);
    Decrypt.Root(inv, g, l);
    InvertAll(inv);
    assert inv[..] == Inverses(g, l);
    var mat := new bv8[PK_NROWS, SYS_N / 8];
    BuildChecks(mat, inv, l);
    ret, pivots := Systematic(mat, pi, g);
    if ret == 0 {
      if MOVES { MarkedColumns(pi[..], sorted, pivots, CodeChecks(g, sorted)); }
      PublicKey.PackRows(pk, mat);
      assert KeyMatrix(Unpacked(mat), pk[..], g, pi[..]);
    }
  }
}
