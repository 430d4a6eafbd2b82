/**
 Matrices over the field as sequences of rows, the relations among their columns, and the row
 operations that keep these relations.
 */
module FieldMatrices {
  import opened Field
  import opened Frobenius

  type Rows = seq<seq<Gf>>

  /** The sum of u[c] x[c]. */
  function Dot(u: seq<Gf>, x: seq<Gf>): Gf
    requires |u| <= |x|
  {
    if u == [] then ZERO else
      var n := |u| - 1;
      Add(Dot(u[..n], x), Mul(u[n], x[n]))
  }

  predicate Shape(m: Rows, rows: nat, cols: nat)
  {
    |m| == rows && forall r :: 0 <= r < rows ==> |m[r]| == cols
  }

  /** The columns, weighted by x, sum to zero. */
  predicate Relation(m: Rows, x: seq<Gf>)
    requires Shape(m, |m|, |x|)
  {
    forall r :: 0 <= r < |m| ==> Dot(m[r], x) == ZERO
  }

  ghost predicate SameRelations(m: Rows, o: Rows, cols: nat)
    requires Shape(m, |m|, cols) && Shape(o, |o|, cols)
  {
    forall x: seq<Gf> :: |x| == cols ==> (Relation(m, x) <==> Relation(o, x))
  }

  /** The first n columns are unit vectors. */
  predicate UnitColumns(m: Rows, n: nat, cols: nat)
    requires Shape(m, |m|, cols) && n <= cols
  {
    forall r, c :: 0 <= r < |m| && 0 <= c < n ==> m[r][c] == if r == c then ONE else ZERO
  }

  /** A relation that is not trivial and only involves the first n columns. */
  predicate Involves(x: seq<Gf>, n: nat)
  {
    (exists c :: 0 <= c < |x| && x[c] != ZERO) && forall c :: n <= c < |x| ==> x[c] == ZERO
  }

  /** Some relation holds among the first n columns. */
  ghost predicate Dependent(m: Rows, n: nat, cols: nat)
    requires Shape(m, |m|, cols)
  {
    exists x: seq<Gf> :: |x| == cols && Involves(x, n) && Relation(m, x)
  }

  // ----- inner products

  lemma {:induction false} DotCombine(u: seq<Gf>, t: Gf, v: seq<Gf>, w: seq<Gf>, x: seq<Gf>)
    requires |u| == |v| == |w| <= |x|
    requires forall c :: 0 <= c < |u| ==> w[c] == Add(u[c], Mul(t, v[c]))
    ensures Dot(w, x) == Add(Dot(u, x), Mul(t, Dot(v, x)))
    decreases |u|
  {
    hide Mul, Add;
    if u == [] {
      ZeroRight(t); AddZero(ZERO);
    } else {
      var n := |u| - 1;
      DotCombine(u[..n], t, v[..n], w[..n], x);
      MulAddLeft(u[n], Mul(t, v[n]), x[n]);
      MulAssoc(t, v[n], x[n]);
      MulAddRight(t, Dot(v[..n], x), Mul(v[n], x[n]));
      AddCross(Dot(u[..n], x), Mul(t, Dot(v[..n], x)), Mul(u[n], x[n]), Mul(t, Mul(v[n], x[n])));
    }
  }

  lemma {:induction false} DotScale(u: seq<Gf>, t: Gf, w: seq<Gf>, x: seq<Gf>)
    requires |u| == |w| <= |x| && forall c :: 0 <= c < |u| ==> w[c] == Mul(u[c], t)
    ensures Dot(w, x) == Mul(t, Dot(u, x))
    decreases |u|
  {
    hide Mul, Add;
    if u == [] {
      ZeroRight(t);
    } else {
      var n := |u| - 1;
      DotScale(u[..n], t, w[..n], x);
      MulComm(u[n], t);
      MulAssoc(t, u[n], x[n]);
      MulAddRight(t, Dot(u[..n], x), Mul(u[n], x[n]));
    }
  }

  lemma {:induction false} DotZero(u: seq<Gf>, x: seq<Gf>)
    requires |u| <= |x| && forall c :: 0 <= c < |u| ==> u[c] == ZERO || x[c] == ZERO
    ensures Dot(u, x) == ZERO
  {
    hide Mul, Add;
    if u != [] {
      var n := |u| - 1;
      DotZero(u[..n], x);
      ZeroLeft(x[n]); ZeroRight(u[n]); AddZero(ZERO);
    }
  }

  lemma {:induction false} DotOne(u: seq<Gf>, x: seq<Gf>, j: nat)
    requires j < |u| <= |x| && forall c :: 0 <= c < |u| && c != j ==> u[c] == ZERO || x[c] == ZERO
    ensures Dot(u, x) == Mul(u[j], x[j])
  {
    hide Mul, Add;
    var n := |u| - 1;
    AddZero(Mul(u[j], x[j]));
    if j == n {
      DotZero(u[..n], x);
    } else {
      DotOne(u[..n], x, j);
      ZeroLeft(x[n]); ZeroRight(u[n]);
    }
  }

  lemma {:induction false} DotTwo(u: seq<Gf>, x: seq<Gf>, j: nat, k: nat)
    requires j < k < |u| <= |x| && forall c :: 0 <= c < |u| && c != j && c != k ==> u[c] == ZERO || x[c] == ZERO
    ensures Dot(u, x) == Add(Mul(u[j], x[j]), Mul(u[k], x[k]))
  {
    hide Mul, Add;
    var n := |u| - 1;
    if k == n {
      DotOne(u[..n], x, j);
    } else {
      DotTwo(u[..n], x, j, k);
      ZeroLeft(x[n]); ZeroRight(u[n]);
      AddZero(Dot(u[..n], x));
    }
  }

  // ----- row operations

  function Combined(u: seq<Gf>, t: Gf, v: seq<Gf>): (w: seq<Gf>)
    requires |u| == |v|
    ensures |w| == |u| && forall c :: 0 <= c < |w| ==> w[c] == Add(u[c], Mul(t, v[c]))
  {
    seq(|u|, c requires 0 <= c < |u| => Add(u[c], Mul(t, v[c])))
  }

  function ScaledRow(u: seq<Gf>, t: Gf): (w: seq<Gf>)
    ensures |w| == |u| && forall c :: 0 <= c < |w| ==> w[c] == Mul(u[c], t)
  {
    seq(|u|, c requires 0 <= c < |u| => Mul(u[c], t))
  }

  /** Row k, times t, added to row r. */
  lemma CombineSame(m: Rows, w: Rows, o: Rows, r: nat, k: nat, t: Gf, cols: nat)
    requires Shape(m, |m|, cols) && Shape(o, |o|, cols) && r < |m| && k < |m| && r != k
    requires w == m[r := Combined(m[r], t, m[k])] && SameRelations(m, o, cols)
    ensures Shape(w, |w|, cols) && SameRelations(w, o, cols)
  {
    hide Dot, Combined, Mul, Add;
    CombinedLength(m[r], t, m[k]);
    forall x: seq<Gf> | |x| == cols ensures Relation(w, x) <==> Relation(m, x) {
      CombinedDot(m[r], t, m[k], x);
      ZeroRight(t);
      var d := Dot(m[r], x);
      AddZero(d);
      assert w[k] == m[k] && w[r] == Combined(m[r], t, m[k]);
      if Relation(w, x) {
        assert Dot(w[k], x) == ZERO && Dot(w[r], x) == ZERO;
        forall i | 0 <= i < |m| ensures Dot(m[i], x) == ZERO { assert Dot(w[i], x) == ZERO; }
      }
      if Relation(m, x) {
        assert Dot(m[k], x) == ZERO && Dot(m[r], x) == ZERO;
        forall i | 0 <= i < |w| ensures Dot(w[i], x) == ZERO { assert Dot(m[i], x) == ZERO; }
      }
    }
  }

  lemma CombinedLength(u: seq<Gf>, t: Gf, v: seq<Gf>)
    requires |u| == |v|
    ensures |Combined(u, t, v)| == |u|
  {
  }

  lemma CombinedDot(u: seq<Gf>, t: Gf, v: seq<Gf>, x: seq<Gf>)
    requires |u| == |v| == |x|
    ensures |Combined(u, t, v)| == |u|
    ensures Dot(Combined(u, t, v), x) == Add(Dot(u, x), Mul(t, Dot(v, x)))
  {
    hide Mul, Add, Dot;
    DotCombine(u, t, v, Combined(u, t, v), x);
  }

  lemma ScaleSame(m: Rows, w: Rows, o: Rows, r: nat, t: Gf, cols: nat)
    requires Shape(m, |m|, cols) && Shape(o, |o|, cols) && r < |m| && t != ZERO
    requires w == m[r := ScaledRow(m[r], t)] && SameRelations(m, o, cols)
    ensures Shape(w, |w|, cols) && SameRelations(w, o, cols)
  {
    hide Dot, Mul, Add;
    forall x: seq<Gf> | |x| == cols ensures Relation(w, x) <==> Relation(m, x) {
      DotScale(m[r], t, ScaledRow(m[r], t), x);
      NoZeroDivisors(t, Dot(m[r], x));
      assert w[r] == ScaledRow(m[r], t);
      if Relation(w, x) {
        assert Dot(w[r], x) == ZERO;
        forall i | 0 <= i < |m| ensures Dot(m[i], x) == ZERO { assert Dot(w[i], x) == ZERO; }
      }
      if Relation(m, x) {
        assert Dot(m[r], x) == ZERO;
        forall i | 0 <= i < |w| ensures Dot(w[i], x) == ZERO { assert Dot(m[i], x) == ZERO; }
      }
    }
  }

  // ----- the end of the elimination

  lemma UnitIndependent(m: Rows, o: Rows, cols: nat)
    requires Shape(m, |m|, cols) && Shape(o, |o|, cols) && |m| == |o| <= cols
    requires SameRelations(m, o, cols) && UnitColumns(m, |m|, cols)
    ensures !Dependent(o, |o|, cols)
  {
    hide Dot, Mul;
    forall x: seq<Gf> | |x| == cols && Involves(x, |o|) ensures !Relation(o, x) {
      var j :| 0 <= j < |x| && x[j] != ZERO;
      DotOne(m[j], x, j);
      OneLeft(x[j]);
      assert Dot(m[j], x) != ZERO;
    }
  }

  /** The relation that a missing pivot in column n gives away. */
  function Missing(m: Rows, n: nat, cols: nat): (x: seq<Gf>)
    requires Shape(m, |m|, cols) && n < |m| <= cols
    ensures |x| == cols
    ensures forall c :: 0 <= c < cols ==> x[c] == if c < n then m[c][n] else if c == n then ONE else ZERO
  {
    seq(cols, c requires 0 <= c < cols => if c < n then m[c][n] else if c == n then ONE else ZERO)
  }

  lemma MissingPivot(m: Rows, o: Rows, n: nat, cols: nat)
    requires Shape(m, |m|, cols) && Shape(o, |o|, cols) && |m| == |o| && n < |m| <= cols
    requires SameRelations(m, o, cols) && UnitColumns(m, n, cols)
    requires forall r :: n <= r < |m| ==> m[r][n] == ZERO
    ensures Dependent(o, |o|, cols)
  {
    hide Dot, Mul, Add;
    var x := Missing(m, n, cols);
    forall r | 0 <= r < |m| ensures Dot(m[r], x) == ZERO {
      if r < n {
        DotTwo(m[r], x, r, n);
        OneLeft(x[r]); OneRight(m[r][n]); AddCancel(m[r][n], m[r][n]);
      } else {
        DotZero(m[r], x);
      }
    }
    SplitZero();
    assert x[n] != ZERO;
    assert Involves(x, |o|) && Relation(m, x);
  }

  /** The last column in terms of the others. */
  lemma LastColumn(m: Rows, o: Rows, x: seq<Gf>)
    requires Shape(m, |m|, |m| + 1) && Shape(o, |o|, |m| + 1)
    requires SameRelations(m, o, |m| + 1) && UnitColumns(m, |m|, |m| + 1)
    requires |x| == |m| + 1 && x[|m|] == ONE && forall r :: 0 <= r < |m| ==> x[r] == m[r][|m|]
    ensures Relation(o, x)
  {
    hide Dot, Mul, Add;
    forall r | 0 <= r < |m| ensures Dot(m[r], x) == ZERO {
      DotTwo(m[r], x, r, |m|);
      OneLeft(x[r]); OneRight(x[r]); AddCancel(x[r], x[r]);
    }
    assert Relation(m, x);
  }

  // ----- more columns than rows

  lemma {:induction false} DotMix(u: seq<Gf>, a: Gf, x: seq<Gf>, b: Gf, y: seq<Gf>, z: seq<Gf>)
    requires |u| <= |x| == |y| == |z| && forall c :: 0 <= c < |z| ==> z[c] == Add(Mul(a, x[c]), Mul(b, y[c]))
    ensures Dot(u, z) == Add(Mul(a, Dot(u, x)), Mul(b, Dot(u, y)))
  {
    hide Mul, Add;
    if u == [] {
      ZeroRight(a); ZeroRight(b); AddZero(ZERO);
    } else {
      var n := |u| - 1;
      var (v, s, t) := (u[n], x[n], y[n]);
      DotMix(u[..n], a, x, b, y, z);
      MulAddRight(v, Mul(a, s), Mul(b, t));
      MulAssoc(v, a, s); MulComm(v, a); MulAssoc(a, v, s);
      MulAssoc(v, b, t); MulComm(v, b); MulAssoc(b, v, t);
      MulAddRight(a, Dot(u[..n], x), Mul(v, s)); MulAddRight(b, Dot(u[..n], y), Mul(v, t));
      AddCross(Mul(a, Dot(u[..n], x)), Mul(b, Dot(u[..n], y)), Mul(a, Mul(v, s)), Mul(b, Mul(v, t)));
    }
  }

  /** A relation that does not involve the columns in skip, found whenever more columns than rows are left. */
  lemma {:induction false} RelationExists(m: Rows, cols: nat, skip: set<nat>) returns (x: seq<Gf>)
    requires Shape(m, |m|, cols) && |m| + |skip| < cols
    ensures |x| == cols && Relation(m, x) && (exists c :: 0 <= c < cols && x[c] != ZERO)
    ensures forall c :: 0 <= c < cols && c in skip ==> x[c] == ZERO
    decreases |m|
  {
    hide Dot, Mul, Add;
    if m == [] {
      var j := Unskipped(cols, skip);
      SplitZero();
      x := seq(cols, c => if c == j then ONE else ZERO);
      assert x[j] != ZERO;
    } else {
      var u := RelationExists(m[1..], cols, skip);
      var j :| 0 <= j < cols && u[j] != ZERO;
      var v := RelationExists(m[1..], cols, skip + {j});
      x := MixedRelation(m, cols, u, v, j);
    }
  }

  /** Two relations among the other rows, one of which involves column j, give one that holds in row 0 too. */
  lemma MixedRelation(m: Rows, cols: nat, u: seq<Gf>, v: seq<Gf>, j: nat) returns (x: seq<Gf>)
    requires m != [] && Shape(m, |m|, cols) && |u| == |v| == cols && j < cols && u[j] != ZERO && v[j] == ZERO
    requires Shape(m[1..], |m| - 1, cols) && Relation(m[1..], u) && Relation(m[1..], v)
    requires exists c :: 0 <= c < cols && v[c] != ZERO
    ensures |x| == cols && Relation(m, x) && (exists c :: 0 <= c < cols && x[c] != ZERO)
    ensures forall c :: 0 <= c < cols && u[c] == ZERO && v[c] == ZERO ==> x[c] == ZERO
  {
    hide Dot, Mul, Add;
    var (a, b) := (Dot(m[0], v), Dot(m[0], u));
    forall r | 0 < r < |m| ensures Dot(m[r], u) == ZERO && Dot(m[r], v) == ZERO {
      assert m[r] == m[1..][r - 1];
    }
    if a == ZERO {
      x := v;
    } else {
      x := seq(cols, c requires 0 <= c < cols => Add(Mul(a, u[c]), Mul(b, v[c])));
      ZeroRight(a); ZeroRight(b); AddZero(ZERO);
      forall r | 0 <= r < |m| ensures Dot(m[r], x) == ZERO {
        DotMix(m[r], a, u, b, v, x);
        MulComm(a, b); AddCancel(Mul(a, b), Mul(a, b));
      }
      AddZero(Mul(a, u[j]));
      NoZeroDivisors(a, u[j]);
      assert x[j] != ZERO;
    }
  }

  lemma {:induction false} Unskipped(cols: nat, skip: set<nat>) returns (j: nat)
    requires |skip| < cols
    ensures j < cols && j !in skip
  {
    j := cols - 1;
    if j in skip {
      j := Unskipped(cols - 1, skip - {j});
    }
  }
}
