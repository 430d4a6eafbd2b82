/** The secret key bit by bit: load_gf, store_gf (src/util.rs), and where the control bits stand. */
module KeyBytes {
  import opened Params
  import opened FieldWords
  import opened Field
  import CarryLess
  import opened Words
  import opened CheckMatrix
  import opened Permutations
  import ControlBits
  import opened SupportPoints
  import opened SupportGen
  import PublicKey
  import Benes
  import Decrypt

  // ----- the bits of a word and of its two bytes

  /** The bytes of store_gf. */
  function LowByte(a: Gf): bv8 { Lower(a.bits) }

  function HighByte(a: Gf): bv8 { Upper(a.bits) }

  function Lower(a: bv16): bv8 { (a & 0x00FF) as bv8 }

  function Upper(a: bv16): bv8 { (a >> 8) as bv8 }

  /** Bit k of the two bytes of a word, the lower one first. */
  predicate ByteBit(a: bv16, k: nat)
    requires k < 16
  {
    if k < 8 then Bit(Lower(a), k) else Bit(Upper(a), k - 8)
  }

  /** A byte moved down by one bit, with the lowest bit of the next byte on top. */
  function Down(l: bv8, h: bv8): bv8 { (l >> 1) | ((h & 1) << 7) }

  lemma HalvedBytes(a: bv16)
    ensures Lower(Rest(a)) == Down(Lower(a), Upper(a)) && Upper(Rest(a)) == Down(Upper(a), 0)
  {
  }

  lemma DownBit(l: bv8, h: bv8, k: nat)
    requires k < 8
    ensures Bit(Down(l, h), k) == if k == 7 then Bit(h, 0) else Bit(l, k + 1)
  {
  }

  /** Halving a word moves its bits down. */
  lemma ByteBitRest(a: bv16, k: nat)
    requires k < 15
    ensures ByteBit(Rest(a), k) == ByteBit(a, k + 1)
  {
    hide Bit, Down, Lower, Upper, Rest;
    HalvedBytes(a);
    if k < 8 {
      DownBit(Lower(a), Upper(a), k);
    } else {
      DownBit(Upper(a), 0, k - 8);
    }
  }

  lemma ByteBitLow(a: bv16)
    ensures ByteBit(a, 0) == (LowBit(a) == 1)
  {
  }

  lemma DigitFirst(a: Gf)
    ensures Digit(a, 0) == (LowBit(a.bits) == 1)
  {
    hide Half, Fits;
  }

  lemma DigitNext(a: Gf, k: nat)
    ensures Digit(a, k + 1) == Digit(Half(a), k) && Half(a).bits == Rest(a.bits)
  {
    hide Low, Half, CarryLess.HalfBy, Rest;
    CarryLess.HalfByPlus(a, 1, k);
    CarryLess.HalfByNext(a, 0); CarryLess.HalfByNone(a);
    HalfWord(a);
  }

  lemma HalfWord(a: Gf)
    ensures Half(a).bits == Rest(a.bits)
  {
  }

  /** The bits of an element are those of its bytes. */
  lemma {:induction false} WordDigit(a: Gf, k: nat)
    requires k < 16
    ensures Digit(a, k) == ByteBit(a.bits, k)
    decreases k
  {
    hide Digit, ByteBit, LowBit, Rest;
    if k == 0 {
      DigitFirst(a);
      ByteBitLow(a.bits);
    } else {
      DigitNext(a, k - 1);
      WordDigit(Half(a), k - 1);
      ByteBitRest(a.bits, k - 1);
    }
  }

  lemma NoHighDigit(a: Gf, k: nat)
    requires k >= GFBITS
    ensures !Digit(a, k)
  {
    hide CarryLess.HalfBy, Low;
    CarryLess.NothingLeft(a);
    CarryLess.HalfByPlus(a, GFBITS, k - GFBITS);
    DigitZero(k - GFBITS);
  }

  // ----- load_gf and store_gf

  /** load_gf undoes store_gf. */
  lemma LoadStored(a: Gf)
    ensures Decrypt.LoadGf(LowByte(a), HighByte(a)) == a
  {
    LoadWord(GFBITS == 12, a.bits);
  }

  lemma LoadWord(twelve: bool, a: bv16)
    requires a & (if twelve then 0xF000 else 0xE000) == 0
    ensures (((((a >> 8) as bv8) as bv16) << 8) | (((a & 0x00FF) as bv8) as bv16))
            & (if twelve then 0x0FFF else 0x1FFF) == a
  {
  }

  /** The bits of the element that load_gf makes of two bytes. */
  lemma LoadedDigit(lo: bv8, hi: bv8, j: nat)
    requires j < GFBITS
    ensures Digit(Decrypt.LoadGf(lo, hi), j) == if j < 8 then Bit(lo, j) else Bit(hi, j - 8)
  {
    hide Bit, Lower, Upper, Digit, Decrypt.LoadGf;
    WordDigit(Decrypt.LoadGf(lo, hi), j);
    LoadedBytes(lo, hi);
    if j >= 8 { KeptBit(GFBITS == 12, hi, j - 8); }
  }

  function Kept(twelve: bool, h: bv8): bv8 { if twelve then h & 0x0F else h & 0x1F }

  lemma LoadedBytes(lo: bv8, hi: bv8)
    ensures Lower(Decrypt.LoadGf(lo, hi).bits) == lo && Upper(Decrypt.LoadGf(lo, hi).bits) == Kept(GFBITS == 12, hi)
  {
    LoadedWord(GFBITS == 12, lo, hi);
  }

  lemma LoadedWord(twelve: bool, lo: bv8, hi: bv8)
    ensures var w := (((hi as bv16) << 8) | lo as bv16) & (if twelve then 0x0FFF else 0x1FFF);
            Lower(w) == lo && Upper(w) == Kept(twelve, hi)
  {
  }

  lemma KeptBit(twelve: bool, h: bv8, k: nat)
    requires k < if twelve then 4 else 5
    ensures Bit(Kept(twelve, h), k) == Bit(h, k)
  {
  }

  lemma PairBit(b: seq<bv8>, i: nat, j: nat)
    requires j < 16 && 2 * i + 1 < |b|
    ensures BitsOf(b)[16 * i + j] == if j < 8 then Bit(b[2 * i], j) else Bit(b[2 * i + 1], j - 8)
  {
    hide Bit, BitsOf;
    if j < 8 { PublicKey.BitsAt(b, 2 * i, j); } else { PublicKey.BitsAt(b, 2 * i + 1, j - 8); }
  }

  /** Coefficient i of the Goppa polynomial is in bits 16 i, 16 i + 1, .. of the key, the lowest first. */
  lemma GoppaBit(sk: seq<bv8>, i: nat, j: nat)
    requires |sk| >= IRR_BYTES && i < SYS_T && j < GFBITS
    ensures Digit(Decrypt.GoppaOf(sk)[i], j) == BitsOf(sk)[16 * i + j]
    ensures Decrypt.GoppaOf(sk)[SYS_T] == ONE
  {
    hide Bit, BitsOf, Digit, Decrypt.LoadGf;
    LoadedDigit(sk[2 * i], sk[2 * i + 1], j);
    PairBit(sk, i, j);
  }

  /** Where bit j of coefficient i stands. */
  function CoefficientPlace(i: nat, j: nat): (p: nat)
    ensures p == 16 * i + j
  {
    16 * i + j
  }

  /** sk begins with the coefficients of g below the leading one, in 16 bits each, the lowest first. */
  predicate HoldsPolynomial(sk: seq<bv8>, g: seq<Gf>)
  {
    && |sk| >= IRR_BYTES && |g| >= SYS_T
    && forall i, j :: 0 <= i < SYS_T && 0 <= j < 16 ==>
         BitsOf(sk)[CoefficientPlace(i, j)] == (j < GFBITS && Digit(g[i], j))
  }

  lemma StoredDigit(b: seq<bv8>, a: Gf, i: nat, j: nat)
    requires j < 16 && 2 * i + 1 < |b| && b[2 * i] == LowByte(a) && b[2 * i + 1] == HighByte(a)
    ensures BitsOf(b)[16 * i + j] == (j < GFBITS && Digit(a, j))
  {
    hide Bit, BitsOf, Digit, Lower, Upper;
    PairBit(b, i, j);
    WordDigit(a, j);
    if j >= GFBITS { NoHighDigit(a, j); }
  }

  lemma HeldDigit(sk: seq<bv8>, g: seq<Gf>, i: nat, j: nat)
    requires HoldsPolynomial(sk, g) && i < SYS_T && j < 16
    ensures BitsOf(sk)[16 * i + j] == (j < GFBITS && Digit(g[i], j))
  {
    hide BitsOf, Digit, CoefficientPlace;
    assert BitsOf(sk)[CoefficientPlace(i, j)] == (j < GFBITS && Digit(g[i], j));
  }

  lemma StoredDigits(b: seq<bv8>, g: seq<Gf>)
    requires |b| == IRR_BYTES && |g| == SYS_T
    requires forall i :: 0 <= i < SYS_T ==> b[2 * i] == LowByte(g[i]) && b[2 * i + 1] == HighByte(g[i])
    ensures HoldsPolynomial(b, g)
  {
    hide BitsOf, Digit, LowByte, HighByte, CoefficientPlace;
    forall i, j | 0 <= i < SYS_T && 0 <= j < 16
      ensures BitsOf(b)[CoefficientPlace(i, j)] == (j < GFBITS && Digit(g[i], j))
    {
      StoredDigit(b, g[i], i, j);
    }
  }

  /** store_gf for every coefficient. */
  method StorePolynomial(g: seq<Gf>) returns (irr: seq<bv8>)
    requires |g| == SYS_T
    ensures |irr| == IRR_BYTES && Decrypt.GoppaOf(irr) == g + [ONE]
    ensures HoldsPolynomial(irr, g)
  {
    hide LowByte, HighByte, Decrypt.LoadGf, HoldsPolynomial;
    var a := new bv8[IRR_BYTES];
    for i := 0 to SYS_T
      invariant forall k :: 0 <= k < i ==> a[2 * k] == LowByte(g[k]) && a[2 * k + 1] == HighByte(g[k])
    {
      a[2 * i], a[2 * i + 1] := LowByte(g[i]), HighByte(g[i]);
    }
    irr := a[..];
    forall i | 0 <= i < SYS_T ensures Decrypt.GoppaOf(irr)[i] == g[i] {
      LoadStored(g[i]);
    }
    StoredDigits(irr, g);
  }

  // ----- the control bits

  /** The layers that decryption reads, in terms of the whole key. */
  lemma KeyLayerBit(sk: seq<bv8>, k: nat, j: nat)
    requires |sk| == IRR_BYTES + COND_BYTES && k < 2 * GFBITS - 1 && j < FIELD_SIZE / 2
    ensures var cb := LayersOf(Decrypt.ControlOf(sk));
            |cb| == 2 * GFBITS - 1 && |cb[k]| == FIELD_SIZE / 2
            && cb[k][j] == BitsOf(sk)[8 * IRR_BYTES + ControlPlace(k, j)]
  {
    hide BitsOf, LayersOf, ControlPlace;
    var c := Decrypt.ControlOf(sk);
    LayerBit(c, k, j);
    assert c == sk[IRR_BYTES..IRR_BYTES + COND_BYTES];
    PublicKey.SliceBit(sk, IRR_BYTES, COND_BYTES, ControlPlace(k, j));
  }

  /** Behind the polynomial, sk holds the control bits of pi, layer by layer. */
  ghost predicate HoldsControl(sk: seq<bv8>, pi: seq<int>)
  {
    hide BitsOf, IsPerm, ControlBits.Bits, Benes.Pow2, ControlPlace;
    && |sk| == IRR_BYTES + COND_BYTES && |pi| == FIELD_SIZE == Benes.Pow2(GFBITS) && IsPerm(pi)
    && (forall k :: 0 <= k < 2 * GFBITS - 1 ==> |ControlBits.Bits(GFBITS, pi)[k]| == FIELD_SIZE / 2)
    && forall k, j :: 0 <= k < 2 * GFBITS - 1 && 0 <= j < FIELD_SIZE / 2 ==>
         BitsOf(sk)[8 * IRR_BYTES + ControlPlace(k, j)] == ControlBits.Bits(GFBITS, pi)[k][j]
  }

  lemma HeldControl(sk: seq<bv8>, pi: seq<int>, k: nat, j: nat)
    requires HoldsControl(sk, pi) && k < 2 * GFBITS - 1 && j < FIELD_SIZE / 2
    ensures |pi| == Benes.Pow2(GFBITS) && IsPerm(pi) && |ControlBits.Bits(GFBITS, pi)[k]| == FIELD_SIZE / 2
    ensures |sk| == IRR_BYTES + COND_BYTES
    ensures BitsOf(sk)[8 * IRR_BYTES + ControlPlace(k, j)] == ControlBits.Bits(GFBITS, pi)[k][j]
  {
    hide BitsOf, IsPerm, ControlBits.Bits, Benes.Pow2, ControlPlace;
  }

  lemma ControlHeld(sk: seq<bv8>, pi: seq<int>)
    requires |sk| == IRR_BYTES + COND_BYTES && |pi| == FIELD_SIZE == Benes.Pow2(GFBITS) && IsPerm(pi)
    requires LayersOf(Decrypt.ControlOf(sk)) == ControlBits.Bits(GFBITS, pi)
    ensures HoldsControl(sk, pi)
  {
    hide BitsOf, IsPerm, LayersOf, ControlPlace, ControlBits.Bits, Benes.Pow2;
    forall k, j | 0 <= k < 2 * GFBITS - 1 && 0 <= j < FIELD_SIZE / 2
      ensures |ControlBits.Bits(GFBITS, pi)[k]| == FIELD_SIZE / 2
      ensures BitsOf(sk)[8 * IRR_BYTES + ControlPlace(k, j)] == ControlBits.Bits(GFBITS, pi)[k][j]
    {
      KeyLayerBit(sk, k, j);
    }
    forall k | 0 <= k < 2 * GFBITS - 1 ensures |ControlBits.Bits(GFBITS, pi)[k]| == FIELD_SIZE / 2 {
      KeyLayerBit(sk, k, 0);
    }
  }

  /** The polynomial and the permutation determine the key. */
  lemma KeyBytesUnique(a: seq<bv8>, b: seq<bv8>, g: seq<Gf>, pi: seq<int>)
    requires HoldsPolynomial(a, g) && HoldsPolynomial(b, g) && HoldsControl(a, pi) && HoldsControl(b, pi)
    ensures a == b
  {
    hide BitsOf, Digit, IsPerm, Benes.Pow2, ControlBits.Bits, ControlPlace, HoldsPolynomial;
    HeldLength(a, g);
    forall p | 0 <= p < 8 * |a| ensures BitsOf(a)[p] == BitsOf(b)[p] {
      if p < 8 * IRR_BYTES {
        var (i, j) := (p / 16, p % 16);
        assert p == 16 * i + j;
        HeldDigit(a, g, i, j); HeldDigit(b, g, i, j);
      } else {
        var k, j := LayerAndPair(p - 8 * IRR_BYTES);
        assert BitsOf(a)[8 * IRR_BYTES + ControlPlace(k, j)] == ControlBits.Bits(GFBITS, pi)[k][j];
      }
    }
    PublicKey.SameBytes(a, b);
  }

  lemma HeldLength(sk: seq<bv8>, g: seq<Gf>)
    requires HoldsPolynomial(sk, g)
    ensures |sk| >= IRR_BYTES
  {
    hide BitsOf, Digit;
  }

  lemma LayerAndPair(p: nat) returns (k: nat, j: nat)
    requires p < 8 * COND_BYTES
    ensures k < 2 * GFBITS - 1 && j < FIELD_SIZE / 2 && ControlPlace(k, j) == p
  {
    if GFBITS == 12 { k, j := p / 2048, p % 2048; } else { k, j := p / 4096, p % 4096; }
  }
}
