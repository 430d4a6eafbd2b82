/**
 The support points that belong to indices: bitrev, then the bits of the index read as a field
 element. Different indices have different points.
 */
module SupportPoints {
  import opened Params
  import opened FieldWords
  import opened Field
  import opened Words64
  import opened CarryLess
  import opened Benes
  import opened Polynomials
  import opened Permutations
  import opened Strides

  /** 1 << GFBITS. */
  const FIELD_SIZE: nat := if GFBITS == 12 then 4096 else 8192

  lemma FieldSize()
    ensures FIELD_SIZE == Pow2(GFBITS)
  {
    assert Pow2(4) == 16;
    assert Pow2(8) == 256;
    assert Pow2(12) == 4096;
  }

  lemma PermBounds(q: seq<int>)
    requires IsPerm(q)
    ensures forall i :: 0 <= i < |q| ==> 0 <= q[i] < |q|
  {
  }

  /** The field element with the given bits, lowest first. */
  function FromBits(bits: seq<bool>): Gf
  {
    if bits == [] then ZERO else Add(if bits[0] then ONE else ZERO, TimesZ(FromBits(bits[1..])))
  }

  /** The lowest w bits of n, lowest first. */
  function Digits(n: nat, w: nat): (bits: seq<bool>)
    ensures |bits| == w
  {
    seq(w, j requires 0 <= j < w => BitAt(n, j))
  }

  /** The same bits, highest first. */
  function Reverse(n: nat, w: nat): (bits: seq<bool>)
    ensures |bits| == w
  {
    seq(w, j requires 0 <= j < w => BitAt(n, w - 1 - j))
  }

  /** bitrev, read as a field element. */
  function Point(n: nat): Gf { FromBits(Reverse(n, GFBITS)) }

  /** The support for a permutation of the indices. */
  function Support(pi: seq<int>): (l: seq<Gf>)
    requires |pi| >= SYS_N && forall i :: 0 <= i < |pi| ==> 0 <= pi[i]
    ensures |l| == SYS_N && forall i :: 0 <= i < SYS_N ==> l[i] == Point(pi[i])
  {
    seq(SYS_N, i requires 0 <= i < SYS_N => Point(pi[i]))
  }

  lemma ShiftFree(twelve: bool, a: bv16)
    requires a & (if twelve then 0xF800 else 0xF000) == 0
    ensures Rest(Shift(twelve, a)) == a && LowBit(Shift(twelve, a)) == 0
  {
    if twelve { Free12(a); } else { Free13(a); }
  }

  lemma Free12(a: bv16)
    requires a & 0xF800 == 0
    ensures Shift12(a) >> 1 == a && Shift12(a) & 1 == 0
  {
  }

  lemma Free13(a: bv16)
    requires a & 0xF000 == 0
    ensures Shift13(a) >> 1 == a && Shift13(a) & 1 == 0
  {
  }

  lemma HighClear(twelve: bool, a: bv16)
    requires Wide(a) >> (if twelve then 11 else 12) == 0
    ensures a & (if twelve then 0xF800 else 0xF000) == 0
  {
  }

  /** z times a word without its highest bit needs no reduction. */
  lemma TimesZFree(a: Gf)
    requires HalfBy(a, GFBITS - 1) == ZERO
    ensures Half(TimesZ(a)) == a && Low(TimesZ(a)) == ZERO
  {
    hide Shift, Rest, LowBit, Fits, Wide, Shr, DownOne;
    DigitIs(a, GFBITS - 1);
    Shifts(Wide(a.bits));
    WideInjective(0);
    HighClear(GFBITS == 12, a.bits);
    ShiftFree(GFBITS == 12, a.bits);
  }

  lemma {:induction false} HalfByMore(a: Gf, j: nat, k: nat)
    requires j <= k && HalfBy(a, j) == ZERO
    ensures HalfBy(a, k) == ZERO
  {
    hide Half;
    SplitZero();
    if j < k {
      HalfByMore(a, j, k - 1);
    }
  }

  /** The bits can be read off the field element again. */
  lemma {:induction false} BitsBack(bits: seq<bool>)
    requires |bits| <= GFBITS
    ensures HalfBy(FromBits(bits), |bits|) == ZERO
    ensures bits != [] ==> Low(FromBits(bits)) == if bits[0] then ONE else ZERO
    ensures bits != [] ==> Half(FromBits(bits)) == FromBits(bits[1..])
  {
    hide Half, Low, Add, TimesZ, HalfBy;
    if bits == [] {
      HalfByNone(ZERO);
    } else {
      var (c, a) := (if bits[0] then ONE else ZERO, FromBits(bits[1..]));
      BitsBack(bits[1..]);
      HalfByMore(a, |bits| - 1, GFBITS - 1);
      TimesZFree(a);
      SplitAdd(c, TimesZ(a));
      SplitZero();
      AddZero(c); AddZero(a);
      HalfByPlus(FromBits(bits), 1, |bits| - 1); HalfByNext(FromBits(bits), 0); HalfByNone(FromBits(bits));
    }
  }

  lemma {:induction false} FromBitsInjective(b: seq<bool>, c: seq<bool>)
    requires |b| == |c| <= GFBITS && FromBits(b) == FromBits(c)
    ensures b == c
  {
    hide Half, Low, FromBits, HalfBy;
    if b != [] {
      BitsBack(b); BitsBack(c);
      SplitZero();
      FromBitsInjective(b[1..], c[1..]);
      assert b == [b[0]] + b[1..] && c == [c[0]] + c[1..];
    }
  }

  lemma {:induction false} DigitsInjective(a: nat, b: nat, w: nat)
    requires a < Pow2(w) && b < Pow2(w) && forall k :: 0 <= k < w ==> BitAt(a, k) == BitAt(b, k)
    ensures a == b
    decreases w
  {
    if w > 0 {
      assert BitAt(a, 0) == BitAt(b, 0);
      forall k | 0 <= k < w - 1 ensures BitAt(a / 2, k) == BitAt(b / 2, k) {
        assert BitAt(a, k + 1) == BitAt(b, k + 1);
      }
      DigitsInjective(a / 2, b / 2, w - 1);
    }
  }

  /** Different indices give different support points. */
  lemma PointInjective(a: nat, b: nat)
    requires a < Pow2(GFBITS) && b < Pow2(GFBITS) && Point(a) == Point(b)
    ensures a == b
  {
    hide FromBits, BitAt;
    var (u, v) := (Reverse(a, GFBITS), Reverse(b, GFBITS));
    FromBitsInjective(u, v);
    forall k | 0 <= k < GFBITS ensures BitAt(a, k) == BitAt(b, k) {
      assert u[GFBITS - 1 - k] == v[GFBITS - 1 - k];
    }
    DigitsInjective(a, b, GFBITS);
  }

  lemma SupportDistinct(pi: seq<int>)
    requires |pi| == Pow2(GFBITS) && SYS_N <= |pi| && IsPerm(pi)
    ensures Distinct(Support(pi))
  {
    hide Point, Pow2;
    var l := Support(pi);
    forall i, j | 0 <= i < j < |l| ensures l[i] != l[j] {
      if l[i] == l[j] { PointInjective(pi[i], pi[j]); }
    }
  }
}
