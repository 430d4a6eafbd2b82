/**
 The bit-sliced Benes network of src/benes.rs, layer by layer: words that are swapped under masks,
 and the positions of the bits in them.
 */
module BitSlices {
  import opened Cycles
  import opened Benes
  import opened FromPermutation
  import opened Strides
  import opened Transpose

  // ----- pairs of positions, split into the two parts of an index

  /** A distance of 2^(k+s) acts on the upper part of an index with k lower bits ... */
  lemma {:induction false} PairHigh(i: nat, j: nat, k: nat, s: nat)
    requires j < Pow2(k)
    ensures PairOf(Pow2(k) * i + j, k + s) == Pow2(k) * PairOf(i, s) + j
    ensures PartnerOf(Pow2(k) * i + j, k + s) == Pow2(k) * PartnerOf(i, s) + j
    decreases k
  {
    if k > 0 {
      var c := Pow2(k - 1);
      PairHigh(i, j / 2, k - 1, s);
      Halved(c, i, j); Halved(c, PairOf(i, s), j); Halved(c, PartnerOf(i, s), j);
      assert k + s - 1 == k - 1 + s;
    }
  }

  lemma Halved(c: nat, i: int, j: nat)
    requires j < 2 * c
    ensures (2 * c * i + j) / 2 == c * i + j / 2 && (2 * c * i + j) % 2 == j % 2
  {
    assert 2 * c * i == 2 * (c * i);
  }

  /** ... and a distance of 2^s with s below k on the lower part. */
  lemma {:induction false} PairLow(i: nat, j: nat, k: nat, s: nat)
    requires s < k && j < Pow2(k)
    ensures PairOf(Pow2(k) * i + j, s) == Pow2(k - 1) * i + PairOf(j, s)
    ensures PartnerOf(Pow2(k) * i + j, s) == Pow2(k) * i + PartnerOf(j, s)
    decreases s
  {
    var c := Pow2(k - 1);
    Halved(c, i, j);
    if s == 0 {
      assert Flip(2 * c * i + j) == 2 * c * i + Flip(j);
    } else {
      PairLow(i, j / 2, k - 1, s - 1);
      Twofold(Pow2(k - 2), i);
      Twofold(c, i);
    }
  }

  lemma Twofold(c: nat, i: int)
    ensures 2 * (c * i) == 2 * c * i
  {
  }

  // ----- layers on words

  /** a ^ ((a ^ b) & c): the bits of b where c is set. */
  function Moved(a: U64, b: U64, c: U64): (r: U64)
    ensures forall i :: 0 <= i < 64 ==> r[i] == if c[i] then b[i] else a[i]
  {
    XorU(a, AndU(XorU(a, b), c))
  }

  lemma MovedBack(a: U64, b: U64, c: U64, i: nat)
    requires i < 64
    ensures XorU(b, AndU(XorU(a, b), c))[i] == if c[i] then a[i] else b[i]
  {
  }

  /** Word y of m is word y of o, or its partner where c is set. */
  predicate Layered(m: seq<U64>, o: seq<U64>, c: U64, d: nat, y: nat)
    requires |m| == |o| == 64 && d < 6 && y < 64
  {
    && 0 <= PartnerOf(y, d) < 64
    && forall b :: 0 <= b < 64 ==> m[y][b] == if c[b] then o[PartnerOf(y, d)][b] else o[y][b]
  }

  lemma PairLayered(m: seq<U64>, o: seq<U64>, c: U64, d: nat, y: nat)
    requires |m| == |o| == 64 && d < 6 && y + Pow2(d) < 64 && !BitAt(y, d)
    requires m[y] == Moved(o[y], o[y + Pow2(d)], c)
    requires m[y + Pow2(d)] == XorU(o[y + Pow2(d)], AndU(XorU(o[y], o[y + Pow2(d)]), c))
    ensures Layered(m, o, c, d, y) && Layered(m, o, c, d, y + Pow2(d))
  {
    hide BitAt, PartnerOf, Pow2, Moved;
    var z := y + Pow2(d);
    PartnerBit(y, d);
    forall b | 0 <= b < 64 ensures m[z][b] == if c[b] then o[y][b] else o[z][b] {
      MovedBack(o[y], o[z], c, b);
    }
  }

  lemma SameWord(m: seq<U64>, n: seq<U64>, o: seq<U64>, c: U64, d: nat, r: nat)
    requires |m| == |n| == |o| == 64 && d < 6 && r < 64 && m[r] == n[r] && Layered(m, o, c, d, r)
    ensures Layered(n, o, c, d, r)
  {
    hide PartnerOf;
  }

  /** The number of the pair of words that word y belongs to. */
  lemma PairNumber(d: nat, m: nat, j: nat)
    requires d < 6 && m < Pow2(5 - d) && j < Pow2(d)
    ensures var y := 2 * Scale(m, d) + j;
            PairOf(y, d) == Scale(m, d) + j && PairOf(y + Pow2(d), d) == Scale(m, d) + j
            && Scale(m, d) + j < 32 && y + Pow2(d) < 64
  {
    PairPositions(d, m, j);
    SixtyFour();
    Blocks(6, d, m);
  }

  lemma PairBelow(y: nat, d: nat)
    requires y < 64 && d < 6
    ensures 0 <= PairOf(y, d) < 32
  {
    SixtyFour();
    PairInRange(6, y, d);
  }

  /** layer: pairs of words lgs apart, in order, each with its own word of bits. */
  method LayerWords(data: array<U64>, bits: seq<U64>, lgs: nat)
    requires data.Length == 64 && lgs < 6 && |bits| >= 32
    modifies data
    ensures forall y :: 0 <= y < 64 ==>
              && 0 <= PairOf(y, lgs) < 32
              && Layered(data[..], old(data[..]), bits[PairOf(y, lgs)], lgs, y)
  {
    hide Layered, Moved, BitAt, Pow2, Scale, PairOf, PartnerOf;
    ghost var o := data[..];
    ghost var m: nat := 0;
    SixtyFour();
    Blocks(6, lgs, 0);
    forall y | 0 <= y < 64 ensures 0 <= PairOf(y, lgs) < 32 { PairBelow(y, lgs); }
    var s := PowerOf(lgs);
    var index, i := 0, 0;
    while i < 64
      invariant index == Scale(m, lgs) && i == 2 * index && i <= 64
      invariant forall r :: 0 <= r < 64 ==>
                  if r < i then Layered(data[..], o, bits[PairOf(r, lgs)], lgs, r) else data[r] == o[r]
      decreases 64 - i
    {
      Blocks(6, lgs, m);
      for j := i to i + s
        invariant index == Scale(m, lgs) + j - i
        invariant forall r :: 0 <= r < j || i + s <= r < j + s ==>
                    Layered(data[..], o, bits[PairOf(r, lgs)], lgs, r)
        invariant forall r :: j <= r < i + s || j + s <= r < 64 ==> data[r] == o[r]
      {
        BlockBit(lgs, m, j - i);
        PairNumber(lgs, m, j - i);
        ghost var b := data[..];
        var c := bits[index];
        var d := AndU(XorU(data[j], data[j + s]), c);
        index := index + 1;
        data[j] := XorU(data[j], d);
        data[j + s] := XorU(data[j + s], d);
        MovedIs(o[j], o[j + s], c);
        PairLayered(data[..], o, c, lgs, j);
        forall r | 0 <= r < 64 && r != j && r != j + s && Layered(b, o, bits[PairOf(r, lgs)], lgs, r)
          ensures Layered(data[..], o, bits[PairOf(r, lgs)], lgs, r)
        {
          SameWord(b, data[..], o, bits[PairOf(r, lgs)], lgs, r);
        }
      }
      i := i + s * 2;
      m := m + 1;
    }
  }

  lemma MovedIs(a: U64, b: U64, c: U64)
    ensures Moved(a, b, c) == XorU(a, AndU(XorU(a, b), c))
  {
  }
}
