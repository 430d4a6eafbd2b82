/**
 64-bit words as rows of bits, and the block-swap transposes of src/transpose.rs: at every level
 the blocks off the diagonal change places, in both forms of the source.
 */
module Transpose {
  import opened Benes
  import opened FromPermutation
  import opened Strides

  /** A u64, least significant bit first. */
  type U64 = w: seq<bool> | |w| == 64 witness seq(64, i => false)

  function AndU(a: U64, b: U64): (r: U64)
    ensures forall i :: 0 <= i < 64 ==> r[i] == (a[i] && b[i])
  {
    seq(64, i requires 0 <= i < 64 => a[i] && b[i])
  }

  function OrU(a: U64, b: U64): (r: U64)
    ensures forall i :: 0 <= i < 64 ==> r[i] == (a[i] || b[i])
  {
    seq(64, i requires 0 <= i < 64 => a[i] || b[i])
  }

  function XorU(a: U64, b: U64): (r: U64)
    ensures forall i :: 0 <= i < 64 ==> r[i] == (a[i] != b[i])
  {
    seq(64, i requires 0 <= i < 64 => a[i] != b[i])
  }

  /** a << s. */
  function ShlU(a: U64, s: nat): (r: U64)
    ensures forall i :: 0 <= i < 64 ==> r[i] == (i >= s && a[i - s])
  {
    seq(64, i requires 0 <= i < 64 => i >= s && a[i - s])
  }

  /** a >> s. */
  function ShrU(a: U64, s: nat): (r: U64)
    ensures forall i :: 0 <= i < 64 ==> r[i] == (i + s < 64 && a[i + s])
  {
    seq(64, i requires 0 <= i < 64 => i + s < 64 && a[i + s])
  }

  /** masks[d][0]: 0x5555.., 0x3333.., 0x0F0F.., and so on. */
  function LowMask(d: nat): (m: U64)
    ensures forall i :: 0 <= i < 64 ==> m[i] == !BitAt(i, d)
  {
    seq(64, i requires 0 <= i < 64 => !BitAt(i, d))
  }

  /** masks[d][1]. */
  function HighMask(d: nat): (m: U64)
    ensures forall i :: 0 <= i < 64 ==> m[i] == BitAt(i, d)
  {
    seq(64, i requires 0 <= i < 64 => BitAt(i, d))
  }

  /** The new contents of a word and of its partner s = 2^d further. */
  function LowerWord(a: U64, b: U64, d: nat, s: nat): U64
  {
    OrU(AndU(a, LowMask(d)), ShlU(AndU(b, LowMask(d)), s))
  }

  function UpperWord(a: U64, b: U64, d: nat, s: nat): U64
  {
    OrU(ShrU(AndU(a, HighMask(d)), s), AndU(b, HighMask(d)))
  }

  lemma SixtyFour()
    ensures Pow2(6) == 64
  {
    assert Pow2(3) == 8;
  }

  lemma WordBits(a: U64, b: U64, d: nat, i: nat)
    requires d < 6 && i < 64
    ensures 0 <= PartnerOf(i, d) < 64
    ensures LowerWord(a, b, d, Pow2(d))[i] == if BitAt(i, d) then b[PartnerOf(i, d)] else a[i]
    ensures UpperWord(a, b, d, Pow2(d))[i] == if BitAt(i, d) then b[i] else a[PartnerOf(i, d)]
  {
    hide BitAt, PartnerOf, Pow2;
    SixtyFour();
    PairInRange(6, i, d);
    PartnerBit(i, d);
    CarryBit(i, d);
  }

  /** i with bit d replaced by that of j. */
  function Exchanged(i: int, j: int, d: nat): int
  {
    if BitAt(i, d) == BitAt(j, d) then i else PartnerOf(i, d)
  }

  lemma ExchangedRange(i: int, j: int, d: nat)
    requires d < 6 && 0 <= i < 64
    ensures 0 <= Exchanged(i, j, d) < 64
  {
    hide BitAt, PartnerOf, Pow2;
    SixtyFour();
    PairInRange(6, i, d);
  }

  /** i with the bits below d replaced by those of j. */
  function Origin(i: int, j: int, d: nat): int
    decreases d
  {
    if d == 0 then i else 2 * Origin(i / 2, j / 2, d - 1) + j % 2
  }

  lemma {:induction false} OriginRange(i: int, j: int, d: nat, w: nat)
    requires d <= w && 0 <= i < Pow2(w) && 0 <= j < Pow2(w)
    ensures 0 <= Origin(i, j, d) < Pow2(w)
    ensures d == w ==> Origin(i, j, d) == j
    decreases d
  {
    if d > 0 {
      OriginRange(i / 2, j / 2, d - 1, w - 1);
    }
  }

  /** Exchanging bit d after the bits above it leaves the bits below for the levels to come. */
  lemma {:induction false} OriginStep(i: int, j: int, d: nat)
    ensures Origin(Exchanged(i, j, d), Exchanged(j, i, d), d + 1) == Origin(i, j, d)
    decreases d
  {
    if d == 0 {
      var (x, y) := (Exchanged(i, j, 0), Exchanged(j, i, 0));
      assert Origin(x, y, 1) == 2 * Origin(x / 2, y / 2, 0) + y % 2;
      assert Origin(x / 2, y / 2, 0) == x / 2;
    } else {
      OriginStep(i / 2, j / 2, d - 1);
    }
  }

  /** Row j of m is row j of o with bit d of the row and of the column exchanged. */
  predicate ExchangedAt(m: seq<U64>, o: seq<U64>, d: nat, j: nat)
    requires |m| == |o| == 64 && d < 6 && j < 64
  {
    forall i :: 0 <= i < 64 ==>
      && 0 <= Exchanged(j, i, d) < 64 && 0 <= Exchanged(i, j, d) < 64
      && m[j][i] == o[Exchanged(j, i, d)][Exchanged(i, j, d)]
  }

  lemma PairExchanged(m: seq<U64>, o: seq<U64>, d: nat, j: nat)
    requires |m| == |o| == 64 && d < 6 && j + Pow2(d) < 64 && !BitAt(j, d)
    requires m[j] == LowerWord(o[j], o[j + Pow2(d)], d, Pow2(d))
    requires m[j + Pow2(d)] == UpperWord(o[j], o[j + Pow2(d)], d, Pow2(d))
    ensures ExchangedAt(m, o, d, j) && ExchangedAt(m, o, d, j + Pow2(d))
  {
    hide LowerWord, UpperWord, BitAt, PartnerOf, Pow2;
    var k := j + Pow2(d);
    PartnerBit(j, d);
    forall i | 0 <= i < 64
      ensures 0 <= Exchanged(j, i, d) < 64 && 0 <= Exchanged(i, j, d) < 64
      ensures 0 <= Exchanged(k, i, d) < 64 && 0 <= Exchanged(i, k, d) < 64
      ensures m[j][i] == o[Exchanged(j, i, d)][Exchanged(i, j, d)]
      ensures m[k][i] == o[Exchanged(k, i, d)][Exchanged(i, k, d)]
    {
      WordBits(o[j], o[k], d, i);
      ExchangedRange(j, i, d); ExchangedRange(i, j, d);
      ExchangedRange(k, i, d); ExchangedRange(i, k, d);
    }
  }

  lemma SameRow(m: seq<U64>, n: seq<U64>, o: seq<U64>, d: nat, r: nat)
    requires |m| == |n| == |o| == 64 && d < 6 && r < 64 && m[r] == n[r] && ExchangedAt(m, o, d, r)
    ensures ExchangedAt(n, o, d, r)
  {
    hide Exchanged;
  }

  /** One level: all the pairs of words 2^d apart. */
  method ExchangeLevel(arg: array<U64>, d: nat)
    requires arg.Length == 64 && d < 6
    modifies arg
    ensures forall j :: 0 <= j < 64 ==> ExchangedAt(arg[..], old(arg[..]), d, j)
  {
    hide ExchangedAt, LowerWord, UpperWord, BitAt, Pow2, Scale;
    ghost var o := arg[..];
    ghost var m: nat := 0;
    SixtyFour();
    Blocks(6, d, 0);
    var s := PowerOf(d);
    var i := 0;
    while i < 64
      invariant i == 2 * Scale(m, d) && i <= 64
      invariant forall r :: 0 <= r < 64 ==> if r < i then ExchangedAt(arg[..], o, d, r) else arg[r] == o[r]
      decreases 64 - i
    {
      Blocks(6, d, m);
      for j := i to i + s
        invariant forall r :: 0 <= r < j || i + s <= r < j + s ==> ExchangedAt(arg[..], o, d, r)
        invariant forall r :: j <= r < i + s || j + s <= r < 64 ==> arg[r] == o[r]
      {
        BlockBit(d, m, j - i);
        ghost var b := arg[..];
        var x := LowerWord(arg[j], arg[j + s], d, s);
        var y := UpperWord(arg[j], arg[j + s], d, s);
        arg[j] := x;
        arg[j + s] := y;
        PairExchanged(arg[..], o, d, j);
        forall r | 0 <= r < 64 && r != j && r != j + s && ExchangedAt(b, o, d, r)
          ensures ExchangedAt(arg[..], o, d, r)
        {
          SameRow(b, arg[..], o, d, r);
        }
      }
      i := i + s * 2;
      m := m + 1;
    }
  }

  /** The bits from d on of rows and columns have been exchanged. */
  predicate Partly(m: seq<U64>, o: seq<U64>, d: nat)
    requires |m| == |o| == 64 && d <= 6
  {
    forall j, i :: 0 <= j < 64 && 0 <= i < 64 ==>
      && 0 <= Origin(j, i, d) < 64 && 0 <= Origin(i, j, d) < 64
      && m[j][i] == o[Origin(i, j, d)][Origin(j, i, d)]
  }

  lemma PartlyStep(m: seq<U64>, b: seq<U64>, o: seq<U64>, d: nat)
    requires |m| == |b| == |o| == 64 && d < 6
    requires Partly(b, o, d + 1) && forall j :: 0 <= j < 64 ==> ExchangedAt(m, b, d, j)
    ensures Partly(m, o, d)
  {
    hide Origin, Exchanged;
    SixtyFour();
    forall j, i | 0 <= j < 64 && 0 <= i < 64
      ensures 0 <= Origin(j, i, d) < 64 && 0 <= Origin(i, j, d) < 64
      ensures m[j][i] == o[Origin(i, j, d)][Origin(j, i, d)]
    {
      assert ExchangedAt(m, b, d, j);
      ExchangedRange(j, i, d); ExchangedRange(i, j, d);
      OriginStep(i, j, d); OriginStep(j, i, d);
      OriginRange(i, j, d, 6); OriginRange(j, i, d, 6);
    }
  }

  predicate Transposed(m: seq<U64>, o: seq<U64>)
    requires |m| == |o| == 64
  {
    forall j, i :: 0 <= j < 64 && 0 <= i < 64 ==> m[j][i] == o[i][j]
  }

  lemma PartlyStarts(o: seq<U64>)
    requires |o| == 64
    ensures Partly(o, o, 6)
  {
    hide Origin;
    SixtyFour();
    forall j, i | 0 <= j < 64 && 0 <= i < 64 ensures Origin(i, j, 6) == j && Origin(j, i, 6) == i {
      OriginRange(i, j, 6, 6); OriginRange(j, i, 6, 6);
    }
  }

  lemma PartlyEnds(m: seq<U64>, o: seq<U64>)
    requires |m| == |o| == 64 && Partly(m, o, 0)
    ensures Transposed(m, o)
  {
  }

  /** transpose_64x64_inplace: the levels from 32 words apart down to one. */
  method TransposeInPlace(arg: array<U64>)
    requires arg.Length == 64
    modifies arg
    ensures Transposed(arg[..], old(arg[..]))
  {
    hide Partly, ExchangedAt, Transposed;
    ghost var o := arg[..];
    PartlyStarts(o);
    for d := 6 downto 0
      invariant Partly(arg[..], o, d)
    {
      ghost var b := arg[..];
      ExchangeLevel(arg, d);
      PartlyStep(arg[..], b, o, d);
    }
    PartlyEnds(arg[..], o);
  }

  /** transpose: the same, on a copy. */
  method TransposeTo(output: array<U64>, input: seq<U64>)
    requires output.Length == |input| == 64
    modifies output
    ensures Transposed(output[..], input)
  {
    hide Transposed;
    for i := 0 to 64
      invariant forall k :: 0 <= k < i ==> output[k] == input[k]
    {
      output[i] := input[i];
    }
    assert output[..] == input;
    TransposeInPlace(output);
  }
}
