/**
 apply_benes (src/benes.rs): the bit-sliced network in its form for 12 and in its form for 13 bits,
 proved to move bits as the strided layers do.
 */
module ApplyBenes {
  import opened Benes
  import opened FromPermutation
  import opened Strides
  import opened Transpose
  import opened Words
  import opened BitSlices

  /** Eight bytes from off on, as a little-endian word. */
  function WordAt(r: seq<bv8>, off: nat): (u: U64)
    requires off + 8 <= |r|
    ensures forall j :: 0 <= j < 64 ==> u[j] == BitsOf(r)[8 * off + j]
  {
    seq(64, j requires 0 <= j < 64 => BitsOf(r)[8 * off + j])
  }

  /** Four bytes from off on, as a little-endian word, zero-extended. */
  function HalfWordAt(r: seq<bv8>, off: nat): (u: U64)
    requires off + 4 <= |r|
    ensures forall j :: 0 <= j < 64 ==> u[j] == (j < 32 && BitsOf(r)[8 * off + j])
  {
    seq(64, j requires 0 <= j < 64 => j < 32 && BitsOf(r)[8 * off + j])
  }

  /** The bytes of a word. */
  function ByteOf(u: U64, k: nat): bv8
    requires k < 8
  {
    MakeByte(u[8 * k..8 * k + 8])
  }

  /** r[off..off + 8] = u.to_le_bytes(). */
  method StoreWord(r: array<bv8>, off: nat, u: U64)
    requires off + 8 <= r.Length
    modifies r
    ensures forall x :: 0 <= x < 8 * r.Length ==>
              BitsOf(r[..])[x] == if 8 * off <= x < 8 * off + 64 then u[x - 8 * off] else old(BitsOf(r[..]))[x]
  {
    hide Bit, MakeByte;
    ghost var o := r[..];
    for k := 0 to 8
      invariant forall c :: 0 <= c < r.Length ==> r[c] == if off <= c < off + k then ByteOf(u, c - off) else o[c]
    {
      r[off + k] := ByteOf(u, k);
    }
    forall x | 0 <= x < 8 * r.Length
      ensures BitsOf(r[..])[x] == if 8 * off <= x < 8 * off + 64 then u[x - 8 * off] else BitsOf(o)[x]
    {
      if 8 * off <= x < 8 * off + 64 {
        MakeByteBit(u[8 * (x / 8 - off)..8 * (x / 8 - off) + 8], x % 8);
      }
    }
  }

  // ----- 4096 bits in 64 words

  /** The bits word by word ... */
  function Rows(m: seq<U64>): (p: seq<bool>)
    requires |m| == 64
    ensures |p| == 4096 && forall x :: 0 <= x < 4096 ==> p[x] == m[x / 64][x % 64]
  {
    seq(4096, x requires 0 <= x < 4096 => m[x / 64][x % 64])
  }

  /** ... and across the words. */
  function Cols(m: seq<U64>): (p: seq<bool>)
    requires |m| == 64
    ensures |p| == 4096 && forall x :: 0 <= x < 4096 ==> p[x] == m[x % 64][x / 64]
  {
    seq(4096, x requires 0 <= x < 4096 => m[x % 64][x / 64])
  }

  lemma TransposedViews(m: seq<U64>, o: seq<U64>)
    requires |m| == |o| == 64 && Transposed(m, o)
    ensures Rows(m) == Cols(o) && Cols(m) == Rows(o)
  {
  }

  lemma Sizes()
    ensures Pow2(6) == 64 && Pow2(7) == 128 && Pow2(11) == 2048 && Pow2(12) == 4096 && Pow2(13) == 8192
  {
    assert Pow2(3) == 8;
    assert Pow2(9) == 512;
  }

  /** Swapping words swaps bits 64 times as far apart. */
  lemma RowsLayer(m: seq<U64>, o: seq<U64>, cond: seq<U64>, cb: seq<bool>, low: nat)
    requires |m| == |o| == 64 && |cond| >= 32 && low < 6 && |cb| == 2048
    requires forall y :: 0 <= y < 64 ==> 0 <= PairOf(y, low) < 32 && Layered(m, o, cond[PairOf(y, low)], low, y)
    requires forall q, b :: 0 <= q < 32 && 0 <= b < 64 ==> cond[q][b] == cb[64 * q + b]
    ensures Pow2(12) == 4096 && Pow2(11) == 2048 && Rows(m) == Layer(12, Rows(o), cb, 6 + low)
  {
    hide PairOf, PartnerOf, Pow2;
    Sizes();
    var p := Layer(12, Rows(o), cb, 6 + low);
    forall x | 0 <= x < 4096 ensures Rows(m)[x] == p[x] {
      var (y, b) := (x / 64, x % 64);
      PairHigh(y, b, 6, low);
      PairInRange(12, x, 6 + low);
      assert Layered(m, o, cond[PairOf(y, low)], low, y);
      assert p[x] == LayerAt(12, Rows(o), cb, 6 + low, x);
    }
  }

  /** Swapping the words of the transpose swaps bits less than 64 apart. */
  lemma ColsLayer(m: seq<U64>, o: seq<U64>, cond: seq<U64>, cb: seq<bool>, low: nat)
    requires |m| == |o| == 64 && |cond| >= 32 && low < 6 && |cb| == 2048
    requires forall y :: 0 <= y < 64 ==> 0 <= PairOf(y, low) < 32 && Layered(m, o, cond[PairOf(y, low)], low, y)
    requires forall q, b :: 0 <= q < 32 && 0 <= b < 64 ==> cond[q][b] == cb[32 * b + q]
    ensures Pow2(12) == 4096 && Pow2(11) == 2048 && Cols(m) == Layer(12, Cols(o), cb, low)
  {
    hide PairOf, PartnerOf, Pow2;
    Sizes(); ThirtyTwo();
    var p := Layer(12, Cols(o), cb, low);
    forall x | 0 <= x < 4096 ensures Cols(m)[x] == p[x] {
      var (b, y) := (x / 64, x % 64);
      PairLow(b, y, 6, low);
      PairInRange(12, x, low);
      assert Layered(m, o, cond[PairOf(y, low)], low, y);
      assert p[x] == LayerAt(12, Cols(o), cb, low, x);
    }
  }

  lemma ThirtyTwo()
    ensures Pow2(5) == 32
  {
    assert Pow2(3) == 8;
  }

  // ----- layers of control bits

  /** The control bits of layer k: size bytes each. */
  function CutLayer(bits: seq<bv8>, size: nat, k: nat): (cb: seq<bool>)
    requires size * k + size <= |bits|
    ensures |cb| == 8 * size
  {
    BitsOf(bits)[8 * (size * k)..8 * (size * k) + 8 * size]
  }

  function Layers12(bits: seq<bv8>): (cb: seq<seq<bool>>)
    requires |bits| == 5888
    ensures |cb| == 23 && forall k :: 0 <= k < 23 ==> cb[k] == CutLayer(bits, 256, k)
  {
    seq(23, k requires 0 <= k < 23 => CutLayer(bits, 256, k))
  }

  /** q is p after the whole network. */
  ghost predicate Applied(w: nat, q: seq<bool>, p: seq<bool>, cb: seq<seq<bool>>)
  {
    w > 0 && |p| == Pow2(w) && IsNetwork(w, cb, Order(w)) && q == Run(w, p, cb, Order(w))
  }

  /** q is p after the first k layers of the network. */
  ghost predicate After(w: nat, q: seq<bool>, p: seq<bool>, cb: seq<seq<bool>>, k: nat)
  {
    && w > 0 && |p| == Pow2(w) == |q| && k <= |cb| && IsNetwork(w, cb, Order(w))
    && IsNetwork(w, cb[..k], Order(w)[..k]) && q == Run(w, p, cb[..k], Order(w)[..k])
  }

  lemma AfterNone(w: nat, p: seq<bool>, cb: seq<seq<bool>>)
    requires w > 0 && |p| == Pow2(w) && |cb| == 2 * w - 1
    requires forall k :: 0 <= k < |cb| ==> |cb[k]| == Pow2(w - 1)
    ensures After(w, p, p, cb, 0)
  {
    assert IsNetwork(w, cb, Order(w));
    RunNone(w, p, cb[..0], Order(w)[..0]);
  }

  lemma AfterNext(w: nat, r: seq<bool>, q: seq<bool>, p: seq<bool>, cb: seq<seq<bool>>, k: nat, s: nat)
    requires After(w, q, p, cb, k) && k < |cb| && s == (if k < w then k else 2 * w - 2 - k) && s < w
    requires |q| == Pow2(w) && |cb[k]| == Pow2(w - 1) && r == Layer(w, q, cb[k], s)
    ensures After(w, r, p, cb, k + 1)
  {
    hide Layer, Run;
    OrderUpDown(w, k);
    RunNext(w, p, cb, Order(w), k);
  }

  lemma AfterAll(w: nat, q: seq<bool>, p: seq<bool>, cb: seq<seq<bool>>)
    requires After(w, q, p, cb, |cb|)
    ensures Applied(w, q, p, cb)
  {
    hide Run;
    assert cb[..|cb|] == cb && Order(w)[..|cb|] == Order(w);
  }

  // ----- the build with 12 bits

  /** Control words of a layer at a distance below 64. */
  method LoadHalfWords(bits: seq<bv8>, off: nat) returns (cond: array<U64>)
    requires off + 256 <= |bits|
    ensures fresh(cond) && cond.Length == 64
    ensures forall i, b :: 0 <= i < 64 && 0 <= b < 32 ==> cond[i][b] == BitsOf(bits)[8 * off + 32 * i + b]
  {
    hide BitsOf;
    cond := new U64[64];
    for i := 0 to 64
      invariant forall r, b :: 0 <= r < i && 0 <= b < 32 ==> cond[r][b] == BitsOf(bits)[8 * off + 32 * r + b]
    {
      cond[i] := HalfWordAt(bits, off + i * 4);
    }
  }

  /** The first n control words of a layer. */
  method LoadControl(bits: seq<bv8>, off: nat, n: nat) returns (cond: array<U64>)
    requires off + 8 * n <= |bits| && n <= 64
    ensures fresh(cond) && cond.Length == 64
    ensures forall i, b :: 0 <= i < n && 0 <= b < 64 ==> cond[i][b] == BitsOf(bits)[8 * off + 64 * i + b]
  {
    hide BitsOf;
    cond := new U64[64];
    for i := 0 to n
      invariant forall r, b :: 0 <= r < i && 0 <= b < 64 ==> cond[r][b] == BitsOf(bits)[8 * off + 64 * r + b]
    {
      cond[i] := WordAt(bits, off + i * 8);
    }
  }

  /** A layer at a distance below 64, on the transposed words, with transposed control bits. */
  method LowLayer12(bs: array<U64>, bits: seq<bv8>, k: nat, low: nat)
    requires bs.Length == 64 && |bits| == 5888 && k < 23 && low < 6
    modifies bs
    ensures Pow2(12) == 4096 && Pow2(11) == 2048
    ensures Cols(bs[..]) == Layer(12, Cols(old(bs[..])), CutLayer(bits, 256, k), low)
  {
    hide PairOf, PartnerOf, Pow2, Layered, BitsOf, Layer, Cols;
    var cond := LoadHalfWords(bits, k * 256);
    ghost var loaded := cond[..];
    TransposeInPlace(cond);
    ghost var o := bs[..];
    LayerWords(bs, cond[..], low);
    forall q, b | 0 <= q < 32 && 0 <= b < 64 ensures cond[..][q][b] == CutLayer(bits, 256, k)[32 * b + q] {
      assert cond[..][q][b] == loaded[b][q];
    }
    ColsLayer(bs[..], o, cond[..], CutLayer(bits, 256, k), low);
  }

  /** A layer at a distance of 64 or more. */
  method HighLayer12(bs: array<U64>, bits: seq<bv8>, k: nat, low: nat)
    requires bs.Length == 64 && |bits| == 5888 && k < 23 && low < 6
    modifies bs
    ensures Pow2(12) == 4096 && Pow2(11) == 2048
    ensures Rows(bs[..]) == Layer(12, Rows(old(bs[..])), CutLayer(bits, 256, k), 6 + low)
  {
    hide PairOf, PartnerOf, Pow2, Layered, BitsOf, Layer, Rows;
    var cond := LoadControl(bits, k * 256, 32);
    ghost var o := bs[..];
    LayerWords(bs, cond[..], low);
    forall q, b | 0 <= q < 32 && 0 <= b < 64 ensures cond[..][q][b] == CutLayer(bits, 256, k)[64 * q + b] {
    }
    RowsLayer(bs[..], o, cond[..], CutLayer(bits, 256, k), low);
  }

  /** The transpose switches between the two views. */
  method SwitchViews(bs: array<U64>)
    requires bs.Length == 64
    modifies bs
    ensures Rows(bs[..]) == Cols(old(bs[..])) && Cols(bs[..]) == Rows(old(bs[..]))
  {
    ghost var o := bs[..];
    TransposeInPlace(bs);
    TransposedViews(bs[..], o);
  }

  /** The layers below distance 64, from k on, upwards or downwards. */
  method LowLayers12(bs: array<U64>, bits: seq<bv8>, up: bool, ghost p: seq<bool>)
    requires bs.Length == 64 && |bits| == 5888
    requires After(12, Cols(bs[..]), p, Layers12(bits), if up then 0 else 17)
    modifies bs
    ensures After(12, Cols(bs[..]), p, Layers12(bits), if up then 6 else 23)
  {
    hide Pow2, Layer, Cols, After, CutLayer;
    ghost var cb := Layers12(bits);
    if up {
      for low := 0 to 6
        invariant After(12, Cols(bs[..]), p, cb, low)
      {
        ghost var q := Cols(bs[..]);
        LowLayer12(bs, bits, low, low);
        AfterNext(12, Cols(bs[..]), q, p, cb, low, low);
      }
    } else {
      for low := 6 downto 0
        invariant After(12, Cols(bs[..]), p, cb, 6 - low + 6 + 6 + 5)
      {
        ghost var q := Cols(bs[..]);
        LowLayer12(bs, bits, 5 - low + 6 + 6 + 5, low);
        AfterNext(12, Cols(bs[..]), q, p, cb, 5 - low + 6 + 6 + 5, low);
      }
    }
  }

  /** The layers at distance 64 and more, upwards and then downwards. */
  method HighLayers12(bs: array<U64>, bits: seq<bv8>, ghost p: seq<bool>)
    requires bs.Length == 64 && |bits| == 5888
    requires After(12, Rows(bs[..]), p, Layers12(bits), 6)
    modifies bs
    ensures After(12, Rows(bs[..]), p, Layers12(bits), 17)
  {
    hide Pow2, Layer, Rows, After, CutLayer;
    ghost var cb := Layers12(bits);
    for low := 0 to 6
      invariant After(12, Rows(bs[..]), p, cb, low + 6)
    {
      ghost var q := Rows(bs[..]);
      HighLayer12(bs, bits, low + 6, low);
      AfterNext(12, Rows(bs[..]), q, p, cb, low + 6, 6 + low);
    }
    for low := 5 downto 0
      invariant After(12, Rows(bs[..]), p, cb, 5 - low + 6 + 6)
    {
      ghost var q := Rows(bs[..]);
      HighLayer12(bs, bits, 4 - low + 6 + 6, low);
      AfterNext(12, Rows(bs[..]), q, p, cb, 4 - low + 6 + 6, 6 + low);
    }
  }

  /** apply_benes with rev zero: the packed bits move as the layers of the network say. */
  method ApplyBenes12(r: array<bv8>, bits: seq<bv8>)
    requires r.Length == 512 && |bits| == 5888
    modifies r
    ensures Applied(12, BitsOf(r[..]), old(BitsOf(r[..])), Layers12(bits))
  {
    hide BitsOf, Rows, Cols, After, Applied, Pow2, CutLayer;
    Sizes();
    ghost var (p, cb) := (BitsOf(r[..]), Layers12(bits));
    var bs := new U64[64];
    for i := 0 to 64
      invariant r[..] == old(r[..])
      invariant forall k :: 0 <= k < i ==> bs[k] == WordAt(r[..], k * 8)
    {
      bs[i] := WordAt(r[..], i * 8);
    }
    RowsLoaded(bs[..], r[..]);
    AfterNone(12, p, cb);
    SwitchViews(bs);
    LowLayers12(bs, bits, true, p);
    SwitchViews(bs);
    HighLayers12(bs, bits, p);
    SwitchViews(bs);
    LowLayers12(bs, bits, false, p);
    SwitchViews(bs);
    AfterAll(12, Rows(bs[..]), p, cb);
    StoreRows(r, bs[..]);
  }

  lemma RowsLoaded(m: seq<U64>, r: seq<bv8>)
    requires |m| == 64 && |r| == 512 && forall k :: 0 <= k < 64 ==> m[k] == WordAt(r, k * 8)
    ensures Rows(m) == BitsOf(r)
  {
    hide Bit;
  }

  method StoreRows(r: array<bv8>, m: seq<U64>)
    requires r.Length == 512 && |m| == 64
    modifies r
    ensures BitsOf(r[..]) == Rows(m)
  {
    hide BitsOf;
    for i := 0 to 64
      invariant forall x :: 0 <= x < 64 * i ==> BitsOf(r[..])[x] == m[x / 64][x % 64]
    {
      StoreWord(r, i * 8, m[i]);
    }
  }

  // ----- the builds with 13 bits: 8192 bits in two blocks of 64 words

  function Rows2(a: seq<U64>, b: seq<U64>): (p: seq<bool>)
    requires |a| == |b| == 64
    ensures |p| == 8192
    ensures forall x :: 0 <= x < 8192 ==> p[x] == (if (x / 64) % 2 == 0 then a else b)[x / 128][x % 64]
  {
    seq(8192, x requires 0 <= x < 8192 => (if (x / 64) % 2 == 0 then a else b)[x / 128][x % 64])
  }

  function Cols2(a: seq<U64>, b: seq<U64>): (p: seq<bool>)
    requires |a| == |b| == 64
    ensures |p| == 8192
    ensures forall x :: 0 <= x < 8192 ==> p[x] == (if (x / 64) % 2 == 0 then a else b)[x % 64][x / 128]
  {
    seq(8192, x requires 0 <= x < 8192 => (if (x / 64) % 2 == 0 then a else b)[x % 64][x / 128])
  }

  lemma TransposedViews2(a: seq<U64>, b: seq<U64>, c: seq<U64>, d: seq<U64>)
    requires |a| == |b| == |c| == |d| == 64 && Transposed(a, c) && Transposed(b, d)
    ensures Rows2(a, b) == Cols2(c, d) && Cols2(a, b) == Rows2(c, d)
  {
  }

  /** Word y of a block is word 2 y or 2 y + 1 of all. */
  predicate LayeredAll(m: seq<U64>, o: seq<U64>, cond: seq<U64>, d: nat)
    requires |m| == |o| == 64 && d < 6 && |cond| >= 32
  {
    forall y :: 0 <= y < 64 ==> 0 <= PairOf(y, d) < 32 && Layered(m, o, cond[PairOf(y, d)], d, y)
  }

  lemma Rows2Layer(a: seq<U64>, b: seq<U64>, c: seq<U64>, d: seq<U64>, cond: seq<U64>, cb: seq<bool>, low: nat)
    requires |a| == |b| == |c| == |d| == |cond| == 64 && low < 6 && |cb| == 4096
    requires LayeredAll(a, c, Evens(cond), low) && LayeredAll(b, d, Odds(cond), low)
    requires forall q, i :: 0 <= q < 64 && 0 <= i < 64 ==> cond[q][i] == cb[64 * q + i]
    ensures Pow2(13) == 8192 && Pow2(12) == 4096 && Rows2(a, b) == Layer(13, Rows2(c, d), cb, 7 + low)
  {
    hide PairOf, PartnerOf, Pow2, Layered;
    Sizes();
    var p := Layer(13, Rows2(c, d), cb, 7 + low);
    forall x | 0 <= x < 8192 ensures Rows2(a, b)[x] == p[x] {
      Row2At(a, b, c, d, cond, cb, low, x);
    }
  }

  lemma Row2At(a: seq<U64>, b: seq<U64>, c: seq<U64>, d: seq<U64>, cond: seq<U64>, cb: seq<bool>, low: nat, x: nat)
    requires |a| == |b| == |c| == |d| == |cond| == 64 && low < 6 && |cb| == 4096 && x < 8192
    requires LayeredAll(a, c, Evens(cond), low) && LayeredAll(b, d, Odds(cond), low)
    requires forall q, i :: 0 <= q < 64 && 0 <= i < 64 ==> cond[q][i] == cb[64 * q + i]
    ensures Pow2(13) == 8192 && Pow2(12) == 4096
    ensures Rows2(a, b)[x] == Layer(13, Rows2(c, d), cb, 7 + low)[x]
  {
    hide PairOf, PartnerOf, Pow2, Rows2, Layer, LayerAt, Evens, Odds;
    Sizes();
    var (y, t) := (x / 128, x % 128);
    var (q, z) := (PairOf(y, low), PartnerOf(y, low));
    PairHigh(y, t, 7, low);
    PairInRange(13, x, 7 + low);
    LayerIs(13, Rows2(c, d), cb, 7 + low, x);
    RowAt(a, b, y, t);
    assert 0 <= q < 32 && Layered(a, c, Evens(cond)[q], low, y) && Layered(b, d, Odds(cond)[q], low, y);
    RowAt(c, d, y, t); RowAt(c, d, z, t);
    EvenOdd(cond, q);
  }

  lemma LayerIs(w: nat, p: seq<bool>, cb: seq<bool>, s: nat, x: nat)
    requires s < w && |p| == Pow2(w) && |cb| == Pow2(w - 1) && x < |p|
    requires 0 <= PairOf(x, s) < |cb| && 0 <= PartnerOf(x, s) < |p|
    ensures Layer(w, p, cb, s)[x] == if cb[PairOf(x, s)] then p[PartnerOf(x, s)] else p[x]
  {
    hide PairOf, PartnerOf, Pow2;
    assert Layer(w, p, cb, s)[x] == LayerAt(w, p, cb, s, x);
  }

  lemma RowAt(a: seq<U64>, b: seq<U64>, y: int, t: nat)
    requires |a| == |b| == 64 && 0 <= y < 64 && t < 128
    ensures Rows2(a, b)[128 * y + t] == if t < 64 then a[y][t] else b[y][t - 64]
  {
    var x := 128 * y + t;
    assert x / 128 == y && x / 64 == 2 * y + t / 64 && x % 64 == t % 64;
  }

  lemma ColAt(a: seq<U64>, b: seq<U64>, i: int, h: int, y: int)
    requires |a| == |b| == 64 && 0 <= i < 64 && 0 <= h < 2 && 0 <= y < 64
    ensures Cols2(a, b)[128 * i + 64 * h + y] == if h == 0 then a[y][i] else b[y][i]
  {
    var x := 128 * i + 64 * h + y;
    assert x / 128 == i && x / 64 == 2 * i + h && x % 64 == y;
  }

  lemma EvenOdd(cond: seq<U64>, q: nat)
    requires |cond| == 64 && q < 32
    ensures Evens(cond)[q] == cond[2 * q] && Odds(cond)[q] == cond[2 * q + 1]
  {
  }

  lemma Cols2Layer(a: seq<U64>, b: seq<U64>, c: seq<U64>, d: seq<U64>, cond: seq<U64>, cb: seq<bool>, low: nat)
    requires |a| == |b| == |c| == |d| == |cond| == 64 && low < 6 && |cb| == 4096
    requires LayeredAll(a, c, cond[..32], low) && LayeredAll(b, d, cond[32..], low)
    requires forall q, i :: 0 <= q < 64 && 0 <= i < 64 ==> cond[q][i] == cb[64 * i + q]
    ensures Pow2(13) == 8192 && Pow2(12) == 4096 && Cols2(a, b) == Layer(13, Cols2(c, d), cb, low)
  {
    hide PairOf, PartnerOf, Pow2, Layered;
    Sizes();
    var p := Layer(13, Cols2(c, d), cb, low);
    forall x | 0 <= x < 8192 ensures Cols2(a, b)[x] == p[x] {
      Col2At(a, b, c, d, cond, cb, low, x);
    }
  }

  /** A layer at a distance below 64 stays within 64 positions. */
  lemma Col2Place(i: nat, h: nat, y: nat, low: nat)
    requires i < 64 && h < 2 && y < 64 && low < 6
    ensures var x := 128 * i + 64 * h + y;
            && PairOf(x, low) == 64 * i + 32 * h + PairOf(y, low) && 0 <= PairOf(y, low) < 32
            && PartnerOf(x, low) == 128 * i + 64 * h + PartnerOf(y, low) && 0 <= PartnerOf(y, low) < 64
  {
    hide PairOf, PartnerOf, Pow2;
    Sizes(); ThirtyTwo(); SixtyFour();
    PairLow(i, 64 * h + y, 7, low);
    PairLow(h, y, 6, low);
    PairInRange(6, y, low);
  }

  lemma Col2At(a: seq<U64>, b: seq<U64>, c: seq<U64>, d: seq<U64>, cond: seq<U64>, cb: seq<bool>, low: nat, x: nat)
    requires |a| == |b| == |c| == |d| == |cond| == 64 && low < 6 && |cb| == 4096 && x < 8192
    requires LayeredAll(a, c, cond[..32], low) && LayeredAll(b, d, cond[32..], low)
    requires forall q, i :: 0 <= q < 64 && 0 <= i < 64 ==> cond[q][i] == cb[64 * i + q]
    ensures Pow2(13) == 8192 && Pow2(12) == 4096
    ensures Cols2(a, b)[x] == Layer(13, Cols2(c, d), cb, low)[x]
  {
    hide PairOf, PartnerOf, Pow2, Layer, Cols2;
    Sizes();
    var (i, h, y) := (x / 128, (x / 64) % 2, x % 64);
    Decomposed(x);
    Col2Place(i, h, y, low);
    LayerIs(13, Cols2(c, d), cb, low, x);
    ColAt(a, b, i, h, y); ColAt(c, d, i, h, PartnerOf(y, low));
    if h == 0 {
      assert Layered(a, c, cond[..32][PairOf(y, low)], low, y);
    } else {
      assert Layered(b, d, cond[32..][PairOf(y, low)], low, y);
    }
  }

  /** The layer that exchanges the two blocks. */
  predicate Crossed(a: seq<U64>, b: seq<U64>, c: seq<U64>, d: seq<U64>, cond: seq<U64>)
    requires |a| == |b| == |c| == |d| == |cond| == 64
  {
    forall y, i :: 0 <= y < 64 && 0 <= i < 64 ==>
      && a[y][i] == (if cond[y][i] then d[y][i] else c[y][i])
      && b[y][i] == if cond[y][i] then c[y][i] else d[y][i]
  }

  lemma Decomposed(x: nat)
    ensures x == 128 * (x / 128) + 64 * ((x / 64) % 2) + x % 64
  {
  }

  lemma CrossedLayer(a: seq<U64>, b: seq<U64>, c: seq<U64>, d: seq<U64>, cond: seq<U64>, cb: seq<bool>)
    requires |a| == |b| == |c| == |d| == |cond| == 64 && |cb| == 4096 && Crossed(a, b, c, d, cond)
    requires forall q, i :: 0 <= q < 64 && 0 <= i < 64 ==> cond[q][i] == cb[64 * i + q]
    ensures Pow2(13) == 8192 && Pow2(12) == 4096 && Cols2(a, b) == Layer(13, Cols2(c, d), cb, 6)
  {
    hide PairOf, PartnerOf, Pow2, Cols2, Layer, LayerAt, Crossed;
    Sizes();
    forall x | 0 <= x < 8192 ensures Cols2(a, b)[x] == Layer(13, Cols2(c, d), cb, 6)[x] {
      Decomposed(x);
      CrossedAt(a, b, c, d, cond, cb, x / 128, (x / 64) % 2, x % 64);
    }
  }

  /** The layer at distance 64 pairs the two halves of 128 positions. */
  lemma CrossedPlace(i: nat, h: nat, y: nat)
    requires i < 64 && h < 2 && y < 64
    ensures var x := 128 * i + 64 * h + y;
            PairOf(x, 6) == 64 * i + y && PartnerOf(x, 6) == 128 * i + 64 * (1 - h) + y
  {
    hide PairOf, PartnerOf, Pow2;
    Sizes();
    PairLow(i, 64 * h + y, 7, 6);
    PairHigh(h, y, 6, 0);
    Ends(h);
  }

  lemma CrossedAt(a: seq<U64>, b: seq<U64>, c: seq<U64>, d: seq<U64>, cond: seq<U64>, cb: seq<bool>, i: nat, h: nat,
                  y: nat)
    requires |a| == |b| == |c| == |d| == |cond| == 64 && |cb| == 4096 && Crossed(a, b, c, d, cond)
    requires forall q, i :: 0 <= q < 64 && 0 <= i < 64 ==> cond[q][i] == cb[64 * i + q]
    requires i < 64 && h < 2 && y < 64
    ensures Pow2(13) == 8192 && Pow2(12) == 4096
    ensures Cols2(a, b)[128 * i + 64 * h + y] == Layer(13, Cols2(c, d), cb, 6)[128 * i + 64 * h + y]
  {
    hide PairOf, PartnerOf, Pow2, Cols2, Layer, LayerAt;
    Sizes();
    var x := 128 * i + 64 * h + y;
    CrossedPlace(i, h, y);
    LayerIs(13, Cols2(c, d), cb, 6, x);
    ColAt(a, b, i, h, y); ColAt(c, d, i, h, y); ColAt(c, d, i, 1 - h, y);
  }

  lemma Ends(h: nat)
    requires h < 2
    ensures PairOf(h, 0) == 0 && PartnerOf(h, 0) == 1 - h
  {
  }

  /** layer_in: the two blocks take their control words in turn. */
  method LayerIn(a: array<U64>, b: array<U64>, bits: seq<U64>, lgs: nat)
    requires a.Length == b.Length == |bits| == 64 && a != b && lgs < 6
    modifies a, b
    ensures LayeredAll(a[..], old(a[..]), Evens(bits), lgs) && LayeredAll(b[..], old(b[..]), Odds(bits), lgs)
  {
    hide Layered, PairOf;
    LayerWords(a, Evens(bits), lgs);
    LayerWords(b, Odds(bits), lgs);
  }

  /** layer_ex: each block has its own half of the control words; at the greatest distance the blocks swap. */
  method LayerEx(a: array<U64>, b: array<U64>, bits: seq<U64>, lgs: nat)
    requires a.Length == b.Length == |bits| == 64 && a != b && lgs <= 6
    modifies a, b
    ensures lgs < 6 ==> LayeredAll(a[..], old(a[..]), bits[..32], lgs) && LayeredAll(b[..], old(b[..]), bits[32..], lgs)
    ensures lgs == 6 ==> Crossed(a[..], b[..], old(a[..]), old(b[..]), bits)
  {
    hide Layered, PairOf;
    if lgs == 6 {
      for j := 0 to 64
        invariant forall y :: 0 <= y < j ==> a[y] == Moved(old(a[y]), old(b[y]), bits[y])
        invariant forall y, i :: 0 <= y < j && 0 <= i < 64 ==>
                    b[y][i] == if bits[y][i] then old(a[y])[i] else old(b[y])[i]
        invariant forall y :: j <= y < 64 ==> a[y] == old(a[y]) && b[y] == old(b[y])
      {
        var d := AndU(XorU(a[j], b[j]), bits[j]);
        MovedIs(a[j], b[j], bits[j]);
        a[j] := XorU(a[j], d);
        b[j] := XorU(b[j], d);
      }
    } else {
      LayerWords(a, bits[..32], lgs);
      LayerWords(b, bits[32..], lgs);
    }
  }

  /** The layers in the order in which they are applied, from the last one back when rev is set. */
  function Layers13(bits: seq<bv8>, rev: bool): (cb: seq<seq<bool>>)
    requires |bits| == 12800
    ensures |cb| == 25 && forall k :: 0 <= k < 25 ==> cb[k] == CutLayer(bits, 512, if rev then 24 - k else k)
  {
    seq(25, k requires 0 <= k < 25 => CutLayer(bits, 512, if rev then 24 - k else k))
  }

  /** Layer k at a distance below 128, on the transposed blocks. */
  method LowLayer13(a: array<U64>, b: array<U64>, bits: seq<bv8>, rev: bool, k: nat, index: nat, lgs: nat)
    requires a.Length == b.Length == 64 && a != b && |bits| == 12800 && k < 25 && lgs <= 6
    requires index == 512 * if rev then 24 - k else k
    modifies a, b
    ensures Pow2(13) == 8192 && Pow2(12) == 4096
    ensures Cols2(a[..], b[..]) == Layer(13, Cols2(old(a[..]), old(b[..])), Layers13(bits, rev)[k], lgs)
  {
    hide Pow2, Layered, BitsOf, Layer, Cols2, LayeredAll, Crossed;
    var cond := LoadControl(bits, index, 64);
    ghost var loaded := cond[..];
    TransposeInPlace(cond);
    ghost var (c, d) := (a[..], b[..]);
    LayerEx(a, b, cond[..], lgs);
    forall q, i | 0 <= q < 64 && 0 <= i < 64 ensures cond[..][q][i] == Layers13(bits, rev)[k][64 * i + q] {
      assert cond[..][q][i] == loaded[i][q];
    }
    if lgs == 6 {
      CrossedLayer(a[..], b[..], c, d, cond[..], Layers13(bits, rev)[k]);
    } else {
      Cols2Layer(a[..], b[..], c, d, cond[..], Layers13(bits, rev)[k], lgs);
    }
  }

  /** Layer k at a distance of 128 or more. */
  method HighLayer13(a: array<U64>, b: array<U64>, bits: seq<bv8>, rev: bool, k: nat, index: nat, lgs: nat)
    requires a.Length == b.Length == 64 && a != b && |bits| == 12800 && k < 25 && lgs < 6
    requires index == 512 * if rev then 24 - k else k
    modifies a, b
    ensures Pow2(13) == 8192 && Pow2(12) == 4096
    ensures Rows2(a[..], b[..]) == Layer(13, Rows2(old(a[..]), old(b[..])), Layers13(bits, rev)[k], 7 + lgs)
  {
    hide Pow2, Layered, BitsOf, Layer, Rows2, LayeredAll;
    var cond := LoadControl(bits, index, 64);
    ghost var (c, d) := (a[..], b[..]);
    LayerIn(a, b, cond[..], lgs);
    forall q, i | 0 <= q < 64 && 0 <= i < 64 ensures cond[..][q][i] == Layers13(bits, rev)[k][64 * q + i] {
    }
    Rows2Layer(a[..], b[..], c, d, cond[..], Layers13(bits, rev)[k], lgs);
  }

  /** Where the control bytes of layer k start: calc_index. */
  function LayerIndex(rev: bool, k: nat): nat
    requires k <= 24
  {
    if rev then 12288 - 512 * k else 512 * k
  }

  /** Seven layers upwards on the transposed blocks. */
  method LowUp13(a: array<U64>, b: array<U64>, bits: seq<bv8>, rev: bool, start: nat, ghost p: seq<bool>)
    returns (index: nat)
    requires a.Length == b.Length == 64 && a != b && |bits| == 12800
    requires start == LayerIndex(rev, 0) && After(13, Cols2(a[..], b[..]), p, Layers13(bits, rev), 0)
    modifies a, b
    ensures index == LayerIndex(rev, 7) && After(13, Cols2(a[..], b[..]), p, Layers13(bits, rev), 7)
  {
    hide Pow2, Layer, Cols2, After, CutLayer;
    index := start;
    for iter := 0 to 7
      invariant index == LayerIndex(rev, iter)
      invariant After(13, Cols2(a[..], b[..]), p, Layers13(bits, rev), iter)
    {
      ghost var q := Cols2(a[..], b[..]);
      LowLayer13(a, b, bits, rev, iter, index, iter);
      AfterNext(13, Cols2(a[..], b[..]), q, p, Layers13(bits, rev), iter, iter);
      index := if !rev then index + 512 else index - 512;
    }
  }

  /** Six layers upwards and five downwards at the greater distances. */
  method High13(a: array<U64>, b: array<U64>, bits: seq<bv8>, rev: bool, start: nat, ghost p: seq<bool>)
    returns (index: nat)
    requires a.Length == b.Length == 64 && a != b && |bits| == 12800
    requires start == LayerIndex(rev, 7) && After(13, Rows2(a[..], b[..]), p, Layers13(bits, rev), 7)
    modifies a, b
    ensures index == LayerIndex(rev, 18) && After(13, Rows2(a[..], b[..]), p, Layers13(bits, rev), 18)
  {
    hide Pow2, Layer, Rows2, After, CutLayer;
    index := start;
    for iter := 0 to 6
      invariant index == LayerIndex(rev, 7 + iter)
      invariant After(13, Rows2(a[..], b[..]), p, Layers13(bits, rev), 7 + iter)
    {
      ghost var q := Rows2(a[..], b[..]);
      HighLayer13(a, b, bits, rev, 7 + iter, index, iter);
      AfterNext(13, Rows2(a[..], b[..]), q, p, Layers13(bits, rev), 7 + iter, 7 + iter);
      index := if !rev then index + 512 else index - 512;
    }
    for iter := 5 downto 0
      invariant index == LayerIndex(rev, 18 - iter)
      invariant After(13, Rows2(a[..], b[..]), p, Layers13(bits, rev), 18 - iter)
    {
      ghost var q := Rows2(a[..], b[..]);
      HighLayer13(a, b, bits, rev, 17 - iter, index, iter);
      AfterNext(13, Rows2(a[..], b[..]), q, p, Layers13(bits, rev), 17 - iter, 7 + iter);
      index := if !rev then index + 512 else index - 512;
    }
  }

  /** Seven layers downwards on the transposed blocks; the index never falls below zero. */
  method LowDown13(a: array<U64>, b: array<U64>, bits: seq<bv8>, rev: bool, start: nat, ghost p: seq<bool>)
    requires a.Length == b.Length == 64 && a != b && |bits| == 12800
    requires start == LayerIndex(rev, 18) && After(13, Cols2(a[..], b[..]), p, Layers13(bits, rev), 18)
    modifies a, b
    ensures After(13, Cols2(a[..], b[..]), p, Layers13(bits, rev), 25)
  {
    hide Pow2, Layer, Cols2, After, CutLayer;
    var index := start;
    for iter := 7 downto 0
      invariant iter > 0 ==> index == LayerIndex(rev, 25 - iter)
      invariant After(13, Cols2(a[..], b[..]), p, Layers13(bits, rev), 25 - iter)
    {
      ghost var q := Cols2(a[..], b[..]);
      LowLayer13(a, b, bits, rev, 24 - iter, index, iter);
      AfterNext(13, Cols2(a[..], b[..]), q, p, Layers13(bits, rev), 24 - iter, iter);
      index := if !rev || iter == 0 then index + 512 else index - 512;
    }
  }

  /** The transposes switch between the two views. */
  method SwitchBoth(c: array<U64>, d: array<U64>, a: seq<U64>, b: seq<U64>)
    requires c.Length == d.Length == |a| == |b| == 64 && c != d
    modifies c, d
    ensures Rows2(c[..], d[..]) == Cols2(a, b) && Cols2(c[..], d[..]) == Rows2(a, b)
  {
    hide Transposed;
    TransposeTo(c, a);
    TransposeTo(d, b);
    TransposedViews2(c[..], d[..], a, b);
  }

  /** apply_benes: the layers forwards, or, with rev set, from the last one back. */
  method ApplyBenes13(r: array<bv8>, bits: seq<bv8>, rev: bool)
    requires r.Length == 1024 && |bits| == 12800
    modifies r
    ensures Applied(13, BitsOf(r[..]), old(BitsOf(r[..])), Layers13(bits, rev))
  {
    hide BitsOf, Rows2, Cols2, After, Applied, Pow2, CutLayer;
    Sizes();
    ghost var (p, cb) := (BitsOf(r[..]), Layers13(bits, rev));
    var v0, v1 := LoadBlocks(r[..]);
    var h0, h1 := new U64[64], new U64[64];
    AfterNone(13, p, cb);
    var index := LayerIndex(rev, 0);
    SwitchBoth(h0, h1, v0[..], v1[..]);
    index := LowUp13(h0, h1, bits, rev, index, p);
    SwitchBoth(v0, v1, h0[..], h1[..]);
    index := High13(v0, v1, bits, rev, index, p);
    SwitchBoth(h0, h1, v0[..], v1[..]);
    LowDown13(h0, h1, bits, rev, index, p);
    SwitchBoth(v0, v1, h0[..], h1[..]);
    AfterAll(13, Rows2(v0[..], v1[..]), p, cb);
    StoreBlocks(r, v0[..], v1[..]);
  }

  method LoadBlocks(r: seq<bv8>) returns (a: array<U64>, b: array<U64>)
    requires |r| == 1024
    ensures fresh(a) && fresh(b) && a != b && a.Length == b.Length == 64 && Rows2(a[..], b[..]) == BitsOf(r)
  {
    hide BitsOf;
    a, b := new U64[64], new U64[64];
    for i := 0 to 64
      invariant forall k :: 0 <= k < i ==> a[k] == WordAt(r, 16 * k) && b[k] == WordAt(r, 16 * k + 8)
    {
      a[i] := WordAt(r, 16 * i);
      b[i] := WordAt(r, 16 * i + 8);
    }
    forall x | 0 <= x < 8192 ensures Rows2(a[..], b[..])[x] == BitsOf(r)[x] {
      RowAt(a[..], b[..], x / 128, x % 128);
      assert x == 128 * (x / 128) + x % 128;
    }
  }

  method StoreBlocks(r: array<bv8>, a: seq<U64>, b: seq<U64>)
    requires r.Length == 1024 && |a| == |b| == 64
    modifies r
    ensures BitsOf(r[..]) == Rows2(a, b)
  {
    hide BitsOf, Rows2;
    for i := 0 to 64
      invariant forall x :: 0 <= x < 128 * i ==> BitsOf(r[..])[x] == Rows2(a, b)[x]
    {
      StoreWord(r, 16 * i, a[i]);
      StoreWord(r, 16 * i + 8, b[i]);
      forall x | 128 * i <= x < 128 * i + 128 ensures BitsOf(r[..])[x] == Rows2(a, b)[x] {
        RowAt(a, b, i, x - 128 * i);
      }
    }
  }

  // ----- the network undone

  function Backwards<T>(s: seq<T>): (r: seq<T>)
    ensures |r| == |s| && forall k :: 0 <= k < |s| ==> r[k] == s[|s| - 1 - k]
  {
    seq(|s|, k requires 0 <= k < |s| => s[|s| - 1 - k])
  }

  lemma LayerTwice(w: nat, p: seq<bool>, cb: seq<bool>, s: nat)
    requires s < w && |p| == Pow2(w) && |cb| == Pow2(w - 1)
    ensures Layer(w, Layer(w, p, cb, s), cb, s) == p
  {
    hide PairOf, PartnerOf, Pow2;
    var q := Layer(w, p, cb, s);
    forall x | 0 <= x < |p| ensures Layer(w, q, cb, s)[x] == p[x] {
      PairInRange(w, x, s);
      PartnerBit(x, s);
      var y := PartnerOf(x, s);
      LayerIs(w, q, cb, s, x);
      LayerIs(w, p, cb, s, x);
      LayerIs(w, p, cb, s, y);
    }
  }

  /** Running the layers backwards undoes them. */
  lemma {:induction false} RunBackwards(w: nat, p: seq<bool>, cb: seq<seq<bool>>, order: seq<nat>)
    requires w > 0 && |p| == Pow2(w) && IsNetwork(w, cb, order)
    ensures IsNetwork(w, Backwards(cb), Backwards(order))
    ensures Run(w, Run(w, p, cb, order), Backwards(cb), Backwards(order)) == p
    decreases |order|
  {
    hide Layer;
    assert IsNetwork(w, Backwards(cb), Backwards(order));
    if order == [] {
      RunNone(w, p, cb, order);
      RunNone(w, p, Backwards(cb), Backwards(order));
    } else {
      var q := Layer(w, p, cb[0], order[0]);
      var (c, o) := (cb[1..], order[1..]);
      RunBackwards(w, q, c, o);
      assert Backwards(cb) == Backwards(c) + [cb[0]] && Backwards(order) == Backwards(o) + [order[0]];
      RunAppend(w, Run(w, p, cb, order), Backwards(c), [cb[0]], Backwards(o), [order[0]]);
      assert [cb[0]][1..] == [] && [order[0]][1..] == [];
      LayerTwice(w, p, cb[0], order[0]);
      RunNone(w, Layer(w, q, cb[0], order[0]), [], []);
    }
  }

  /** The distances are the same from both ends. */
  lemma OrderBackwards(w: nat)
    requires w > 0
    ensures Backwards(Order(w)) == Order(w)
  {
    hide Order;
    forall k | 0 <= k < 2 * w - 1 ensures Backwards(Order(w))[k] == Order(w)[k] {
      OrderUpDown(w, k);
      OrderUpDown(w, 2 * w - 2 - k);
    }
  }

  /** With w = 13 bits, apply_benes with rev set undoes apply_benes without it, and the other way round. */
  lemma RevUndoes(w: nat, bits: seq<bv8>, rev: bool, p: seq<bool>, q: seq<bool>, r: seq<bool>)
    requires w == 13 && |bits| == 12800
    requires Applied(w, q, p, Layers13(bits, rev)) && Applied(w, r, q, Layers13(bits, !rev))
    ensures r == p
  {
    hide CutLayer, Run, IsNetwork, Order;
    var cb := Layers13(bits, rev);
    RunBackwards(w, p, cb, Order(w));
    OrderBackwards(w);
    assert Backwards(cb) == Layers13(bits, !rev);
  }
}
