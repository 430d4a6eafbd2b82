/** The cycles of pibar(y) = pi(pi^-1(y ^ 1) ^ 1), and their least elements. */
module Cycles {
  import opened Permutations

  // The control bits of the outer layers of a Benes network are read off these cycles (Bernstein,
  // "Verified fast formulas for control bits for permutation networks").

  /** x ^ 1. */
  function Flip(x: int): int { if x % 2 == 0 then x + 1 else x - 1 }

  function At(p: seq<int>, x: int): (y: int)
    requires IsPerm(p) && 0 <= x < |p|
    ensures 0 <= y < |p|
  {
    p[x]
  }

  lemma AtInjective(p: seq<int>, x: int, y: int)
    requires IsPerm(p) && 0 <= x < |p| && 0 <= y < |p| && At(p, x) == At(p, y)
    ensures x == y
  {
  }

  ghost function PiBarAt(pi: seq<int>, y: int): (z: int)
    requires IsPerm(pi) && |pi| % 2 == 0 && 0 <= y < |pi|
    ensures 0 <= z < |pi|
  {
    At(pi, Flip(At(Inverse(pi), Flip(y))))
  }

  lemma InverseAt(p: seq<int>, x: int)
    requires IsPerm(p) && 0 <= x < |p|
    ensures At(p, At(Inverse(p), x)) == x && At(Inverse(p), At(p, x)) == x
  {
  }

  ghost function PiBar(pi: seq<int>): (p: seq<int>)
    requires IsPerm(pi) && |pi| % 2 == 0
    ensures |p| == |pi| && IsPerm(p)
    ensures forall x :: 0 <= x < |p| ==> p[x] == PiBarAt(pi, x)
  {
    var p := seq(|pi|, y requires 0 <= y < |pi| => PiBarAt(pi, y));
    forall i, j | 0 <= i < j < |p| ensures p[i] != p[j] { PiBarDistinct(pi, i, j); }
    p
  }

  lemma PiBarDistinct(pi: seq<int>, i: int, j: int)
    requires IsPerm(pi) && |pi| % 2 == 0 && 0 <= i < j < |pi|
    ensures PiBarAt(pi, i) != PiBarAt(pi, j)
  {
    hide IsPerm;
    if PiBarAt(pi, i) == PiBarAt(pi, j) {
      AtInjective(pi, Flip(At(Inverse(pi), Flip(i))), Flip(At(Inverse(pi), Flip(j))));
      InverseAt(pi, Flip(i)); InverseAt(pi, Flip(j));
    }
  }

  /** p applied k times to x. */
  function Iter(p: seq<int>, k: nat, x: int): (y: int)
    requires IsPerm(p) && 0 <= x < |p|
    ensures 0 <= y < |p|
  {
    if k == 0 then x else At(p, Iter(p, k - 1, x))
  }

  lemma {:induction false} IterAdd(p: seq<int>, j: nat, k: nat, x: int)
    requires IsPerm(p) && 0 <= x < |p|
    ensures Iter(p, j, Iter(p, k, x)) == Iter(p, j + k, x)
  {
    if j > 0 { IterAdd(p, j - 1, k, x); }
  }

  lemma {:induction false} IterInjective(p: seq<int>, k: nat, x: int, y: int)
    requires IsPerm(p) && 0 <= x < |p| && 0 <= y < |p| && Iter(p, k, x) == Iter(p, k, y)
    ensures x == y
  {
    hide IsPerm;
    if k > 0 {
      AtInjective(p, Iter(p, k - 1, x), Iter(p, k - 1, y));
      IterInjective(p, k - 1, x, y);
    }
  }

  /** Going one step, flipping, and going one step again ends at the flip of the start. */
  ghost predicate ReversesAt(p: seq<int>, x: int)
    requires IsPerm(p) && |p| % 2 == 0 && 0 <= x < |p|
  {
    At(p, Flip(At(p, x))) == Flip(x) && At(p, x) != Flip(x)
  }

  ghost predicate Reversing(p: seq<int>)
  {
    IsPerm(p) && |p| % 2 == 0 && forall x :: 0 <= x < |p| ==> ReversesAt(p, x)
  }

  lemma PiBarReverses(pi: seq<int>)
    requires IsPerm(pi) && |pi| % 2 == 0
    ensures Reversing(PiBar(pi))
  {
    var p := PiBar(pi);
    forall x | 0 <= x < |p| ensures ReversesAt(p, x) { PiBarReversesAt(pi, x); }
  }

  lemma PiBarValue(pi: seq<int>, x: int)
    requires IsPerm(pi) && |pi| % 2 == 0 && 0 <= x < |pi|
    ensures At(PiBar(pi), x) == At(pi, Flip(At(Inverse(pi), Flip(x))))
  {
    hide IsPerm;
    assert PiBar(pi)[x] == PiBarAt(pi, x);
  }

  lemma PiBarReversesAt(pi: seq<int>, x: int)
    requires IsPerm(pi) && |pi| % 2 == 0 && 0 <= x < |pi|
    ensures ReversesAt(PiBar(pi), x)
  {
    hide IsPerm, At;
    var a := At(Inverse(pi), Flip(x));
    InverseAt(pi, Flip(x));
    InverseAt(pi, Flip(a));
    PiBarValue(pi, x);
    if Flip(x) == At(pi, Flip(a)) { AtInjective(pi, a, Flip(a)); }
    PiBarValue(pi, Flip(At(pi, Flip(a))));
  }

  lemma {:induction false} IterReverses(p: seq<int>, k: nat, x: int)
    requires Reversing(p) && 0 <= x < |p|
    ensures Iter(p, k, Flip(Iter(p, k, x))) == Flip(x)
  {
    hide IsPerm;
    if k > 0 {
      var y := Iter(p, k - 1, x);
      var z := Flip(At(p, y));
      assert ReversesAt(p, y);
      assert Iter(p, 1, z) == At(p, Iter(p, 0, z));
      IterAdd(p, k - 1, 1, z);
      IterReverses(p, k - 1, x);
    }
  }

  /** x and x ^ 1 are never on the same cycle. */
  lemma NeverFlipped(p: seq<int>, k: nat, x: int)
    requires Reversing(p) && 0 <= x < |p|
    ensures Iter(p, k, x) != Flip(x)
  {
    hide IsPerm;
    var i := k / 2;
    var z := Iter(p, i, x);
    IterReverses(p, i, x);
    if Iter(p, k, x) == Flip(x) {
      if k == i + i {
        IterAdd(p, i, i, x);
        IterInjective(p, i, z, Flip(z));
      } else {
        IterAdd(p, i, i + 1, x);
        assert Iter(p, i + 1, x) == At(p, z);
        assert ReversesAt(p, z);
        IterInjective(p, i, At(p, z), Flip(z));
      }
    }
  }

  /** The first h points from x on, and then their flips. */
  function Mirrored(p: seq<int>, h: nat, x: int): (u: seq<int>)
    requires IsPerm(p) && 0 <= x < |p|
  {
    seq(2 * h, i requires 0 <= i < 2 * h => if i < h then Iter(p, i, x) else Flip(Iter(p, i - h, x)))
  }

  lemma MirroredDistinct(p: seq<int>, h: nat, x: int)
    requires Reversing(p) && 0 <= x < |p|
    requires forall i, j :: 0 <= i < j < h ==> Iter(p, i, x) != Iter(p, j, x)
    ensures forall i, j :: 0 <= i < j < 2 * h ==> Mirrored(p, h, x)[i] != Mirrored(p, h, x)[j]
  {
    hide IsPerm;
    var u := Mirrored(p, h, x);
    forall i, j | 0 <= i < j < 2 * h ensures u[i] != u[j] {
      if j < h {
        assert u[i] == Iter(p, i, x) && u[j] == Iter(p, j, x);
      } else if i < h {
        assert u[i] == Iter(p, i, x) && u[j] == Flip(Iter(p, j - h, x));
        FlipApart(p, x, i, j - h);
      } else {
        assert u[i] == Flip(Iter(p, i - h, x)) && u[j] == Flip(Iter(p, j - h, x));
        assert Iter(p, i - h, x) != Iter(p, j - h, x);
      }
    }
  }

  /** No cycle is longer than half the number of points: it would meet its mirror image. */
  lemma HalfPeriod(p: seq<int>, x: int) returns (m: nat)
    requires Reversing(p) && 0 <= x < |p|
    ensures 1 <= m <= |p| / 2 && Iter(p, m, x) == x
  {
    hide IsPerm;
    var h := |p| / 2;
    if i: nat, j: nat :| i < j <= h && Iter(p, i, x) == Iter(p, j, x) {
      m := j - i;
      IterAdd(p, i, m, x);
      IterInjective(p, i, x, Iter(p, m, x));
    } else {
      var u := Mirrored(p, h + 1, x);
      MirroredDistinct(p, h + 1, x);
      ValuesCount(u, |u|);
      SubsetCount(set i | 0 <= i < |u| :: u[i], Range(|p|));
      assert false;
    }
  }

  lemma FlipApart(p: seq<int>, x: int, i: nat, j: nat)
    requires Reversing(p) && 0 <= x < |p|
    ensures Iter(p, i, x) != Flip(Iter(p, j, x))
  {
    hide IsPerm;
    if i >= j {
      IterAdd(p, i - j, j, x);
      NeverFlipped(p, i - j, Iter(p, j, x));
    } else {
      IterAdd(p, j - i, i, x);
      NeverFlipped(p, j - i, Iter(p, i, x));
    }
  }

  /** The least of x, p(x), .., p^(k-1)(x). */
  function LeastOf(p: seq<int>, k: nat, x: int): (m: int)
    requires IsPerm(p) && 0 <= x < |p| && k > 0
    ensures 0 <= m < |p|
  {
    if k == 1 then x
    else
      var m := LeastOf(p, k - 1, x);
      var y := Iter(p, k - 1, x);
      if y < m then y else m
  }

  lemma {:induction false} LeastOfIsLeast(p: seq<int>, k: nat, x: int) returns (i: nat)
    requires IsPerm(p) && 0 <= x < |p| && k > 0
    ensures i < k && LeastOf(p, k, x) == Iter(p, i, x)
    ensures forall j :: 0 <= j < k ==> LeastOf(p, k, x) <= Iter(p, j, x)
  {
    hide IsPerm;
    if k == 1 {
      i := 0;
    } else {
      i := LeastOfIsLeast(p, k - 1, x);
      if Iter(p, k - 1, x) < LeastOf(p, k - 1, x) { i := k - 1; }
    }
  }

  /** One round of the doubling loop. */
  lemma {:induction false} LeastOfDouble(p: seq<int>, j: nat, k: nat, x: int)
    requires IsPerm(p) && 0 <= x < |p| && k > 0 && j > 0
    ensures var a, b := LeastOf(p, k, x), LeastOf(p, j, Iter(p, k, x));
            LeastOf(p, k + j, x) == if b < a then b else a
  {
    hide IsPerm;
    IterAdd(p, j - 1, k, x);
    if j > 1 { LeastOfDouble(p, j - 1, k, x); }
  }

  /** The least element of the cycle of x. */
  function CycleMin(p: seq<int>, x: int): (m: int)
    requires IsPerm(p) && 0 <= x < |p| && |p| >= 2
    ensures 0 <= m < |p|
  {
    LeastOf(p, |p| / 2, x)
  }

  lemma {:induction false} CycleMinAll(p: seq<int>, x: int, k: nat)
    requires Reversing(p) && 0 <= x < |p|
    ensures CycleMin(p, x) <= Iter(p, k, x)
  {
    hide IsPerm;
    var m := HalfPeriod(p, x);
    if k < |p| / 2 {
      var i := LeastOfIsLeast(p, |p| / 2, x);
    } else {
      IterAdd(p, k - m, m, x);
      CycleMinAll(p, x, k - m);
    }
  }

  /** From any point of a cycle one gets back to where one came from. */
  lemma WayBack(p: seq<int>, x: int, k: nat) returns (j: nat)
    requires Reversing(p) && 0 <= x < |p|
    ensures Iter(p, j, Iter(p, k, x)) == x
    decreases k
  {
    hide IsPerm;
    var m := HalfPeriod(p, x);
    if k <= m {
      j := m - k;
      IterAdd(p, j, k, x);
    } else {
      IterAdd(p, k - m, m, x);
      j := WayBack(p, x, k - m);
    }
  }

  /** Points of one cycle have the same least element. */
  lemma CycleMinSame(p: seq<int>, x: int, k: nat)
    requires Reversing(p) && 0 <= x < |p|
    ensures CycleMin(p, Iter(p, k, x)) == CycleMin(p, x)
  {
    hide IsPerm;
    var y := Iter(p, k, x);
    var i := LeastOfIsLeast(p, |p| / 2, x);
    var i' := LeastOfIsLeast(p, |p| / 2, y);
    var j := WayBack(p, x, k);
    IterAdd(p, i, j, y);
    CycleMinAll(p, y, i + j);
    IterAdd(p, i', k, x);
    CycleMinAll(p, x, i' + k);
  }

  /** The cycles of x and x ^ 1 do not meet. */
  lemma MinimaDiffer(p: seq<int>, x: int)
    requires Reversing(p) && 0 <= x < |p|
    ensures CycleMin(p, x) != CycleMin(p, Flip(x))
  {
    hide IsPerm, LeastOf;
    var b := CycleMin(p, Flip(x));
    var i := LeastOfIsLeast(p, |p| / 2, x);
    var j := LeastOfIsLeast(p, |p| / 2, Flip(x));
    IterReverses(p, j, Flip(x));
    assert Iter(p, j, Flip(b)) == x;
    var k := WayBack(p, Flip(b), j);
    FlipApart(p, x, i, k);
  }

  /** The cycles of x and x ^ 1 mirror each other, and so do their least elements. */
  lemma CycleMinFlip(p: seq<int>, x: int)
    requires Reversing(p) && 0 <= x < |p|
    ensures CycleMin(p, Flip(x)) == Flip(CycleMin(p, x))
  {
    hide IsPerm, CycleMin;
    CycleMinFlipLower(p, x);
    CycleMinFlipLower(p, Flip(x));
    MinimaDiffer(p, x);
  }

  lemma CycleMinFlipLower(p: seq<int>, x: int)
    requires Reversing(p) && 0 <= x < |p|
    ensures CycleMin(p, Flip(x)) <= Flip(CycleMin(p, x))
  {
    hide IsPerm;
    var i := LeastOfIsLeast(p, |p| / 2, x);
    var a := CycleMin(p, x);
    IterReverses(p, i, x);
    var j := WayBack(p, Flip(a), i);
    CycleMinAll(p, Flip(x), j);
  }
}
