/** bitrev (src/util.rs) as its steps on words: what it makes of an index are the bits of its support point. */
module BitReversal {
  import opened Params
  import opened FieldWords
  import opened Field
  import opened CarryLess
  import opened SupportPoints

  /** Bytes, half bytes, pairs and bits of a change places. */
  function Turned(a: bv16): bv16
  {
    var a := ((a & 0x00FF) << 8) | ((a & 0xFF00) >> 8);
    var a := ((a & 0x0F0F) << 4) | ((a & 0xF0F0) >> 4);
    var a := ((a & 0x3333) << 2) | ((a & 0xCCCC) >> 2);
    ((a & 0x5555) << 1) | ((a & 0xAAAA) >> 1)
  }

  function Bitrev(a: bv16): bv16 { if GFBITS == 12 then Turned(a) >> 4 else Turned(a) >> 3 }

  /** The bits of a from the lowest on are those of b from i on, and then zeros. */
  predicate Spells(a: bv16, b: seq<bool>, i: nat)
    requires i <= |b|
    decreases |b| - i
  {
    if i == |b| then a == 0 else (LowBit(a) == 1) == b[i] && Spells(Rest(a), b, i + 1)
  }

  lemma {:induction false} SpelledOnce(a: bv16, c: bv16, b: seq<bool>, i: nat)
    requires i <= |b| && Spells(a, b, i) && Spells(c, b, i)
    ensures a == c
    decreases |b| - i
  {
    hide Rest, LowBit;
    if i < |b| {
      SpelledOnce(Rest(a), Rest(c), b, i + 1);
      SameWord(a, c);
    }
  }

  lemma SameWord(a: bv16, c: bv16)
    requires Rest(a) == Rest(c) && (LowBit(a) == 1) == (LowBit(c) == 1)
    ensures a == c
  {
  }

  /** Zeros may follow. */
  lemma {:induction false} SpellsLonger(a: bv16, b: seq<bool>, d: seq<bool>, i: nat)
    requires i <= |b| <= |d| && Spells(a, b, i)
    requires forall k :: 0 <= k < |d| ==> d[k] == (k < |b| && b[k])
    ensures Spells(a, d, i)
    decreases |d| - i
  {
    hide Rest, LowBit;
    if i < |b| {
      SpellsLonger(Rest(a), b, d, i + 1);
    } else if i < |d| {
      var c := d[..i + 1];
      NoBits();
      assert Spells(Rest(a), c, i + 1);
      SpellsLonger(Rest(a), c, d, i + 1);
    }
  }

  lemma NoBits()
    ensures Rest(0) == 0 && LowBit(0) == 0
  {
  }

  lemma {:induction false} SpellsFrom(a: bv16, b: seq<bool>, i: nat, d: seq<bool>, j: nat)
    requires i <= |b| && j <= |d| && b[i..] == d[j..] && Spells(a, b, i)
    ensures Spells(a, d, j)
    decreases |b| - i
  {
    hide Rest, LowBit;
    assert |b| - i == |d| - j;
    if i < |b| {
      assert b[i..][0] == d[j..][0] && b[i + 1..] == b[i..][1..] == d[j..][1..] == d[j + 1..];
      SpellsFrom(Rest(a), b, i + 1, d, j + 1);
    }
  }

  // ----- sixteen bits

  predicate AtBit(a: bv16, k: bv16)
    requires k < 16
  {
    (a >> k) & 1 == 1
  }

  lemma OneBit(a: bv16, b: seq<bool>, i: nat)
    requires i < |b|
    ensures Spells(a, b, i) <==> b[i] == AtBit(a, 0) && Spells(Rest(a), b, i + 1)
  {
    hide Rest;
    LowestBit(a);
  }

  lemma LowestBit(a: bv16)
    ensures (LowBit(a) == 1) == AtBit(a, 0) && (LowBit(a) == 1 || LowBit(a) == 0)
  {
  }

  /** Bits i, .., i + 3 of b are bits k, .., k + 3 of a. */
  predicate Agree(a: bv16, k: bv16, b: seq<bool>, i: nat)
    requires k <= 12 && i + 4 <= |b|
  {
    && b[i] == AtBit(a, k) && b[i + 1] == AtBit(a, k + 1) && b[i + 2] == AtBit(a, k + 2) && b[i + 3] == AtBit(a, k + 3)
  }

  function Nibbles(a: bv16): bv16 { a >> 4 }

  lemma FourBits(a: bv16, b: seq<bool>, i: nat)
    requires i + 4 <= |b|
    ensures Spells(a, b, i) <==> Agree(a, 0, b, i) && Spells(Nibbles(a), b, i + 4)
  {
    hide Spells, AtBit, Rest, Nibbles;
    var (a1, a2) := (Rest(a), Rest(Rest(a)));
    OneBit(a, b, i); OneBit(a1, b, i + 1); OneBit(a2, b, i + 2); OneBit(Rest(a2), b, i + 3);
    ShiftFour(a);
  }

  lemma ShiftFour(a: bv16)
    ensures Rest(Rest(Rest(Rest(a)))) == Nibbles(a) && AtBit(Rest(a), 0) == AtBit(a, 1)
    ensures AtBit(Rest(Rest(a)), 0) == AtBit(a, 2) && AtBit(Rest(Rest(Rest(a))), 0) == AtBit(a, 3)
  {
  }

  lemma NextNibble(a: bv16, b: seq<bool>, i: nat)
    requires i + 4 <= |b|
    ensures Agree(Nibbles(a), 0, b, i) <==> Agree(a, 4, b, i)
    ensures Agree(Nibbles(a), 4, b, i) <==> Agree(a, 8, b, i)
    ensures Agree(Nibbles(a), 8, b, i) <==> Agree(a, 12, b, i)
  {
    hide AtBit, Nibbles;
    NibbleBits(a);
  }

  lemma NibbleBits(a: bv16)
    ensures AtBit(Nibbles(a), 0) == AtBit(a, 4) && AtBit(Nibbles(a), 1) == AtBit(a, 5)
    ensures AtBit(Nibbles(a), 2) == AtBit(a, 6) && AtBit(Nibbles(a), 3) == AtBit(a, 7)
    ensures AtBit(Nibbles(a), 4) == AtBit(a, 8) && AtBit(Nibbles(a), 5) == AtBit(a, 9)
    ensures AtBit(Nibbles(a), 6) == AtBit(a, 10) && AtBit(Nibbles(a), 7) == AtBit(a, 11)
    ensures AtBit(Nibbles(a), 8) == AtBit(a, 12) && AtBit(Nibbles(a), 9) == AtBit(a, 13)
    ensures AtBit(Nibbles(a), 10) == AtBit(a, 14) && AtBit(Nibbles(a), 11) == AtBit(a, 15)
  {
  }

  lemma NothingLeft(a: bv16)
    ensures Nibbles(Nibbles(Nibbles(Nibbles(a)))) == 0
  {
  }

  lemma SixteenBits(a: bv16, b: seq<bool>)
    requires |b| == 16
    ensures Spells(a, b, 0) <==> Agree(a, 0, b, 0) && Agree(a, 4, b, 4) && Agree(a, 8, b, 8) && Agree(a, 12, b, 12)
  {
    hide AtBit, Nibbles, Agree, Rest, LowBit;
    var a1 := Nibbles(a);
    var a2 := Nibbles(a1);
    FourBits(a, b, 0); FourBits(a1, b, 4); FourBits(a2, b, 8); FourBits(Nibbles(a2), b, 12);
    NextNibble(a, b, 4); NextNibble(a, b, 8); NextNibble(a, b, 12);
    NextNibble(a1, b, 8); NextNibble(a1, b, 12);
    NextNibble(a2, b, 12);
    NothingLeft(a);
    assert Spells(0, b, 16);
  }

  lemma TurnedBit(a: bv16, k: bv16)
    requires k < 16
    ensures AtBit(Turned(a), k) == AtBit(a, 15 - k)
  {
  }

  lemma TurnedFour(a: bv16, k: bv16, b: seq<bool>, d: seq<bool>, i: nat)
    requires |b| == |d| == 16 && forall j :: 0 <= j < 16 ==> d[j] == b[15 - j]
    requires k <= 12 && i <= 12 && Agree(a, 12 - k, b, 12 - i)
    ensures Agree(Turned(a), k, d, i)
  {
    hide AtBit, Turned;
    TurnedBit(a, k); TurnedBit(a, k + 1); TurnedBit(a, k + 2); TurnedBit(a, k + 3);
    Downward(k);
  }

  lemma Downward(k: bv16)
    requires k <= 12
    ensures 15 - k == (12 - k) + 3 && 15 - (k + 1) == (12 - k) + 2 && 15 - (k + 2) == (12 - k) + 1
    ensures 15 - (k + 3) == 12 - k
  {
  }

  /** The steps turn all sixteen bits around. */
  lemma TurnedSpells(a: bv16, b: seq<bool>, d: seq<bool>)
    requires |b| == |d| == 16 && Spells(a, b, 0) && forall j :: 0 <= j < 16 ==> d[j] == b[15 - j]
    ensures Spells(Turned(a), d, 0)
  {
    hide Turned, Agree, Spells;
    SixteenBits(a, b);
    SixteenBits(Turned(a), d);
    TurnedFour(a, 0, b, d, 0); TurnedFour(a, 4, b, d, 4); TurnedFour(a, 8, b, d, 8); TurnedFour(a, 12, b, d, 12);
  }

  // ----- the points

  /** The shift of bitrev drops the lowest bits. */
  lemma Dropped(a: bv16, d: seq<bool>)
    requires |d| == 16 && Spells(Turned(a), d, 0)
    ensures Spells(Bitrev(a), d, 16 - GFBITS)
  {
    hide Spells, Rest, AtBit, Turned, Bitrev;
    var r := Turned(a);
    OneBit(r, d, 0); OneBit(Rest(r), d, 1); OneBit(Rest(Rest(r)), d, 2); OneBit(Rest(Rest(Rest(r))), d, 3);
    BitrevIs(a);
  }

  lemma BitrevIs(a: bv16)
    ensures Bitrev(a) == if GFBITS == 12 then Rest(Rest(Rest(Rest(Turned(a))))) else Rest(Rest(Rest(Turned(a))))
  {
    hide Turned;
    ShiftSome(Turned(a));
  }

  lemma ShiftSome(a: bv16)
    ensures Rest(Rest(Rest(a))) == a >> 3 && Rest(Rest(Rest(Rest(a)))) == a >> 4
  {
  }

  /** bitrev leaves the bits of an index in reverse order. */
  lemma BitrevReverses(a: bv16, n: nat)
    requires Spells(a, Digits(n, GFBITS), 0)
    ensures Spells(Bitrev(a), Reverse(n, GFBITS), 0)
  {
    hide Spells, Turned, Bitrev;
    var b := seq(16, k requires 0 <= k < 16 => k < GFBITS && Digits(n, GFBITS)[k]);
    var d := seq(16, k requires 0 <= k < 16 => b[15 - k]);
    SpellsLonger(a, Digits(n, GFBITS), b, 0);
    TurnedSpells(a, b, d);
    Dropped(a, d);
    assert Reverse(n, GFBITS)[0..] == d[16 - GFBITS..];
    SpellsFrom(Bitrev(a), d, 16 - GFBITS, Reverse(n, GFBITS), 0);
  }

  /** The word of a field element spells its bits. */
  lemma {:induction false} PointSpells(bits: seq<bool>, i: nat)
    requires i <= |bits| <= GFBITS
    ensures Spells(FromBits(bits[i..]).bits, bits, i)
    decreases |bits| - i
  {
    hide FromBits, HalfBy, Half, Low, Fits, Rest, LowBit;
    BitsBack(bits[i..]);
    if i == |bits| {
      HalfByNone(FromBits(bits[i..]));
      ZeroWord();
    } else {
      PointSpells(bits, i + 1);
      assert bits[i..][1..] == bits[i + 1..];
      WordParts(FromBits(bits[i..]));
    }
  }

  lemma ZeroWord()
    ensures ZERO.bits == 0
  {
  }

  lemma WordParts(a: Gf)
    ensures Half(a).bits == Rest(a.bits) && (Low(a) == ONE <==> LowBit(a.bits) == 1) && ZERO != ONE
  {
    hide Fits, Rest, LowBit;
    LowestBit(a.bits);
    SplitZero();
  }

  /** bitrev of the word of an index is the word of its support point. */
  lemma BitrevPoint(a: bv16, n: nat)
    requires Spells(a, Digits(n, GFBITS), 0)
    ensures Bitrev(a) == Point(n).bits
  {
    hide Spells, Bitrev, FromBits;
    var bits := Reverse(n, GFBITS);
    BitrevReverses(a, n);
    PointSpells(bits, 0);
    assert bits[0..] == bits;
    SpelledOnce(Bitrev(a), Point(n).bits, bits, 0);
  }
}
