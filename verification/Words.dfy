/**
 Machine words: 32-bit shifts written as arithmetic, byte strings read as bit strings, and the bits
 of a string that are flipped at regular distances.
 */
module Words {

  /** The i32 that a shifted value leaves after its upper bits are lost. */
  function I32(v: int): (r: int)
    ensures -0x8000_0000 <= r < 0x8000_0000
  {
    (v + 0x8000_0000) % 0x1_0000_0000 - 0x8000_0000
  }

  /** hi | lo for a word hi whose bits below base are clear. */
  function Or(hi: int, lo: int, base: int): int
    requires base > 0 && hi % base == 0 && 0 <= lo < base
  {
    hi + lo
  }

  /** Two mutable borrows never overlap. */
  ghost predicate Separate(a: array<bv8>, b: array<int>)
    ensures Separate(a, b) ==> (a as object) != (b as object)
  {
    (a as object) != (b as object)
  }

  // ----- bits of bytes

  function Mask(k: nat): bv8
    requires k < 8
  {
    if k == 0 then 1 else if k == 1 then 2 else if k == 2 then 4 else if k == 3 then 8
    else if k == 4 then 16 else if k == 5 then 32 else if k == 6 then 64 else 128
  }

  predicate Bit(b: bv8, k: nat)
    requires k < 8
  {
    b & Mask(k) != 0
  }

  lemma MasksApart(k: nat, j: nat)
    requires k < 8 && j < 8
    ensures Mask(k) & Mask(j) == if j == k then Mask(k) else 0
    ensures Mask(k) != 0
  {
  }

  lemma MaskXor(b: bv8, m: bv8, n: bv8)
    ensures (b ^ m) & n == (b & n) ^ (m & n)
    ensures m & n == n ==> (((b ^ m) & n != 0) <==> !(b & n != 0)) || n & (n - 1) != 0 || n == 0
    ensures m & n == 0 ==> (b ^ m) & n == b & n
  {
  }

  lemma FlipBit(b: bv8, k: nat, j: nat)
    requires k < 8 && j < 8
    ensures Bit(b ^ Mask(k), j) == (Bit(b, j) != (j == k))
  {
    hide Mask;
    MasksApart(k, j);
    SingleBit(k);
    MaskXor(b, Mask(k), Mask(j));
  }

  lemma SingleBit(k: nat)
    requires k < 8
    ensures Mask(k) & (Mask(k) - 1) == 0
  {
  }

  /** The bits of a byte string, least significant bit of each byte first. */
  function BitsOf(bytes: seq<bv8>): (r: seq<bool>)
    ensures |r| == 8 * |bytes|
  {
    seq(8 * |bytes|, i requires 0 <= i < 8 * |bytes| => Bit(bytes[i / 8], i % 8))
  }

  lemma ClearBits(b: seq<bv8>)
    requires forall k :: 0 <= k < |b| ==> b[k] == 0
    ensures forall k :: 0 <= k < 8 * |b| ==> !BitsOf(b)[k]
  {
  }

  /** out[pos >> 3] ^= (v << (pos & 7)) for a single bit v. */
  method XorBit(out: array<bv8>, pos: nat, v: int)
    requires pos < 8 * out.Length && 0 <= v < 2
    modifies out
    ensures BitsOf(out[..]) == FlipAt(old(BitsOf(out[..])), pos, v == 1)
  {
    ghost var o := out[..];
    if v == 1 { out[pos / 8] := out[pos / 8] ^ Mask(pos % 8); }
    forall i | 0 <= i < 8 * |o| ensures BitsOf(out[..])[i] == FlipAt(BitsOf(o), pos, v == 1)[i] {
      FlipBit(o[i / 8], pos % 8, i % 8);
    }
  }

  lemma OrBit(b: bv8, k: nat, j: nat)
    requires k < 8 && j < 8
    ensures Bit(b | Mask(k), j) == (Bit(b, j) || j == k)
  {
    hide Mask;
    MasksApart(k, j);
    assert (b | Mask(k)) & Mask(j) == (b & Mask(j)) | (Mask(k) & Mask(j));
  }

  /** e[i / 8] |= (t << (i % 8)) for a single bit t. */
  method SetBit(e: array<bv8>, i: nat, t: bool)
    requires i < 8 * e.Length
    modifies e
    ensures forall k :: 0 <= k < 8 * e.Length ==>
              BitsOf(e[..])[k] == (old(BitsOf(e[..]))[k] || (k == i && t))
  {
    hide Bit, Mask;
    ghost var o := e[..];
    if t { e[i / 8] := e[i / 8] | Mask(i % 8); }
    forall k | 0 <= k < 8 * e.Length ensures BitsOf(e[..])[k] == (BitsOf(o)[k] || (k == i && t)) {
      OrBit(o[k / 8], i % 8, k % 8);
    }
  }

  /** The byte with the given bits, lowest first. */
  function MakeByte(b: seq<bool>): bv8
    requires |b| == 8
  {
    (if b[0] then 1 else 0) | (if b[1] then 2 else 0) | (if b[2] then 4 else 0) | (if b[3] then 8 else 0)
    | (if b[4] then 16 else 0) | (if b[5] then 32 else 0) | (if b[6] then 64 else 0) | (if b[7] then 128 else 0)
  }

  lemma MakeByteBit(b: seq<bool>, k: nat)
    requires |b| == 8 && k < 8
    ensures Bit(MakeByte(b), k) == b[k]
  {
  }

  /** o with bit i flipped if b is set. */
  function FlipAt(o: seq<bool>, i: nat, b: bool): (r: seq<bool>)
    ensures |r| == |o|
  {
    if i < |o| then o[i := o[i] != b] else o
  }

  /** Position number k of those that start at pos and lie step apart. */
  function Place(pos: nat, step: nat, k: nat): (p: nat)
    ensures p >= pos
    decreases k
  {
    if k == 0 then pos else Place(pos, step, k - 1) + step
  }

  lemma {:induction false} PlaceIs(pos: nat, step: nat, k: nat)
    ensures Place(pos, step, k) == pos + step * k
    decreases k
  {
    if k > 0 { PlaceIs(pos, step, k - 1); }
  }

  lemma {:induction false} PlaceMono(pos: nat, step: nat, j: nat, k: nat)
    requires j <= k
    ensures Place(pos, step, j) <= Place(pos, step, k)
    ensures j < k ==> Place(pos, step, j) + step <= Place(pos, step, k)
    decreases k
  {
    if j < k { PlaceMono(pos, step, j, k - 1); }
  }

  lemma {:induction false} PlaceShift(pos: nat, step: nat, k: nat)
    ensures Place(pos + step, step, k) == Place(pos, step, k + 1)
    decreases k
  {
    if k > 0 { PlaceShift(pos, step, k - 1); }
  }

  /** Flips positions pos, pos + step, .. where bits says so. */
  function FlipAll(o: seq<bool>, pos: nat, step: nat, bits: seq<bool>): (r: seq<bool>)
    ensures |r| == |o|
    decreases |bits|
  {
    if bits == [] then o else FlipAll(FlipAt(o, pos, bits[0]), pos + step, step, bits[1..])
  }

  /** The same for bits that come in layers. */
  function FlipLayers(o: seq<bool>, pos: nat, step: nat, cb: seq<seq<bool>>): (r: seq<bool>)
    ensures |r| == |o|
    decreases |cb|
  {
    if cb == [] then o else FlipLayers(FlipAll(o, pos, step, cb[0]), Place(pos, step, |cb[0]|), step, cb[1..])
  }

  lemma FlipsCommute(o: seq<bool>, i: nat, b: bool, j: nat, c: bool)
    ensures FlipAt(FlipAt(o, i, b), j, c) == FlipAt(FlipAt(o, j, c), i, b)
  {
  }

  lemma {:induction false} FlipAllCommutes(o: seq<bool>, i: nat, b: bool, pos: nat, step: nat, bits: seq<bool>)
    ensures FlipAll(FlipAt(o, i, b), pos, step, bits) == FlipAt(FlipAll(o, pos, step, bits), i, b)
    decreases |bits|
  {
    if bits != [] {
      FlipsCommute(o, i, b, pos, bits[0]);
      FlipAllCommutes(FlipAt(o, pos, bits[0]), i, b, pos + step, step, bits[1..]);
    }
  }

  lemma {:induction false} FlipAllsCommute(o: seq<bool>, p: nat, s: nat, a: seq<bool>, q: nat, t: nat, b: seq<bool>)
    ensures FlipAll(FlipAll(o, p, s, a), q, t, b) == FlipAll(FlipAll(o, q, t, b), p, s, a)
    decreases |a|
  {
    if a != [] {
      FlipAllsCommute(FlipAt(o, p, a[0]), p + s, s, a[1..], q, t, b);
      FlipAllCommutes(o, p, a[0], q, t, b);
    }
  }

  lemma {:induction false} FlipLayersCommute(o: seq<bool>, p: nat, s: nat, a: seq<bool>, q: nat, t: nat,
                                             cb: seq<seq<bool>>)
    ensures FlipLayers(FlipAll(o, p, s, a), q, t, cb) == FlipAll(FlipLayers(o, q, t, cb), p, s, a)
    decreases |cb|
  {
    if cb != [] {
      FlipAllsCommute(o, p, s, a, q, t, cb[0]);
      FlipLayersCommute(FlipAll(o, q, t, cb[0]), p, s, a, Place(q, t, |cb[0]|), t, cb[1..]);
    }
  }

  lemma {:induction false} FlipAllAppend(o: seq<bool>, pos: nat, step: nat, bits: seq<bool>, b: bool)
    ensures FlipAll(o, pos, step, bits + [b]) == FlipAt(FlipAll(o, pos, step, bits), Place(pos, step, |bits|), b)
    decreases |bits|
  {
    if bits == [] {
      assert [b][1..] == [];
      assert bits + [b] == [b];
    } else {
      FlipAllAppend(FlipAt(o, pos, bits[0]), pos + step, step, bits[1..], b);
      assert (bits + [b])[1..] == bits[1..] + [b];
      PlaceShift(pos, step, |bits| - 1);
    }
  }

  /** Bits set one after the other land where they belong, and nothing else moves. */
  lemma {:induction false} FlipAllAt(o: seq<bool>, pos: nat, bits: seq<bool>, i: nat)
    requires i < |o|
    ensures FlipAll(o, pos, 1, bits)[i] == if pos <= i < pos + |bits| then o[i] != bits[i - pos] else o[i]
    decreases |bits|
  {
    if bits != [] {
      FlipAllAt(FlipAt(o, pos, bits[0]), pos + 1, bits[1..], i);
    }
  }
}
