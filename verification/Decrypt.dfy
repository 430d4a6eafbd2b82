/** The Goppa decoder: src/synd.rs, src/root.rs and src/decrypt.rs. */
module Decrypt {
  import opened Params
  import opened Field
  import opened Frobenius
  import opened FieldMethods
  import opened Polynomials
  import opened Recurrences
  import opened BerlekampMassey
  import opened Decoding
  import opened Words
  import opened SupportGen

  // ----- specification

  /** The support points are distinct and none is a root of g. */
  predicate IsCode(g: seq<Gf>, l: seq<Gf>)
  {
    |g| == SYS_T + 1 && |l| == SYS_N && Distinct(l) && forall i :: 0 <= i < |l| ==> Value(g, l[i]) != ZERO
  }

  /** 1 / g(l[i])^2 for every support point. */
  function Weights(g: seq<Gf>, l: seq<Gf>): (y: seq<Gf>)
    ensures |y| == |l|
    ensures forall i :: 0 <= i < |l| ==> y[i] == Inv(Square(Value(g, l[i])))
  {
    seq(|l|, i requires 0 <= i < |l| => Inv(Square(Value(g, l[i]))))
  }

  /** The syndrome of n terms: the sum of l[i]^j / g(l[i])^2 over the positions set in e, for every j. */
  function Syndrome(g: seq<Gf>, l: seq<Gf>, e: seq<bool>, n: nat): (s: seq<Gf>)
    requires |e| == |l|
    ensures |s| == n
    ensures IsSyndrome(s, Chosen(e, Weights(g, l)), l)
  {
    seq(n, j requires 0 <= j < n => Moment(Chosen(e, Weights(g, l)), l, j))
  }

  /** e has weight SYS_T and the syndrome s. */
  predicate Decodes(e: seq<bool>, g: seq<Gf>, l: seq<Gf>, s: seq<Gf>)
  {
    |e| == |l| && Weight(e) == SYS_T && Syndrome(g, l, e, 2 * SYS_T) == s
  }

  lemma WeightsNonzero(g: seq<Gf>, l: seq<Gf>, i: nat)
    requires IsCode(g, l) && i < |l|
    ensures Weights(g, l)[i] != ZERO
  {
    hide Value, Mul, Inv, Distinct;
    var v := Value(g, l[i]);
    NoZeroDivisors(v, v);
    InvMul(Square(v));
    ZeroRight(Square(v));
    SplitZero();
  }

  /** The decoder's central fact: the roots of the locator of a decodable syndrome spell out the error vector. */
  lemma LocatorDecodes(e: seq<bool>, g: seq<Gf>, l: seq<Gf>, s: seq<Gf>, c: seq<Gf>, len: int)
    requires IsCode(g, l) && Decodes(e, g, l, s)
    requires |c| == SYS_T + 1 && len <= SYS_T && Generates(c, len, s, 2 * SYS_T)
    ensures forall i :: 0 <= i < SYS_N ==> (Value(Reversed(c), l[i]) == ZERO <==> e[i])
  {
    hide Value, Generates, Distinct, IsSyndrome;
    forall i | 0 <= i < SYS_N ensures Value(Reversed(c), l[i]) == ZERO <==> e[i] {
      CodeDistinct(g, l);
      forall k | 0 <= k < |e| ensures Weights(g, l)[k] != ZERO {
        WeightsNonzero(g, l, k);
      }
      LocatorRoots(e, Weights(g, l), l, s, c, len, i);
    }
  }

  lemma CodeDistinct(g: seq<Gf>, l: seq<Gf>)
    requires IsCode(g, l)
    ensures Distinct(l)
  {
    hide Value;
  }

  lemma DecodableIsShort(e: seq<bool>, g: seq<Gf>, l: seq<Gf>, s: seq<Gf>)
    requires IsCode(g, l) && Decodes(e, g, l, s)
    ensures Short(s)
  {
    hide Value, Distinct, IsSyndrome, Short;
    ErrorsGenerate(e, Weights(g, l), l, s);
  }

  // ----- root.rs

  /** eval: the value of f at a. */
  method Eval(f: seq<Gf>, a: Gf) returns (r: Gf)
    requires |f| == SYS_T + 1
    ensures r == Value(f, a)
  {
    hide Mul, Add;
    r := f[SYS_T];
    ValueConstant(f[SYS_T..], a);
    var i := SYS_T;
    while i > 0
      invariant 0 <= i <= SYS_T
      invariant r == Value(f[i..], a)
    {
      i := i - 1;
      MulComm(r, a);
      r := GfMul(r, a);
      AddComm(r, f[i]);
      r := Add(r, f[i]);
      assert f[i..][1..] == f[i + 1..];
    }
    assert f[0..] == f;
  }

  /** root: the values of f at all the support points. */
  method Root(out: array<Gf>, f: seq<Gf>, l: seq<Gf>)
    requires out.Length == |l| == SYS_N && |f| == SYS_T + 1
    modifies out
    ensures forall i :: 0 <= i < SYS_N ==> out[i] == Value(f, l[i])
  {
    hide Value;
    for i := 0 to SYS_N
      invariant forall k :: 0 <= k < i ==> out[k] == Value(f, l[k])
    {
      var v := Eval(f, l[i]);
      out[i] := v;
    }
  }

  // ----- synd.rs

  /** Bit i of a byte string, as a field element. */
  function BitAt(r: seq<bv8>, i: nat): Gf
    requires i < 8 * |r|
  {
    if Bit(r[i / 8], i % 8) then ONE else ZERO
  }

  /** The inner loop of synd: one support point's share of every term. */
  method AddPoint(out: array<Gf>, c: Gf, y: Gf, a: Gf)
    requires out.Length == 2 * SYS_T && (c == ZERO || c == ONE)
    modifies out
    ensures forall j :: 0 <= j < 2 * SYS_T ==>
              out[j] == Add(old(out[j]), Mul(if c == ONE then y else ZERO, Pow(a, j)))
  {
    hide Mul, Add, Pow;
    var eInv := y;
    PowZero(a);
    OneRight(y);
    for j := 0 to 2 * SYS_T
      invariant eInv == Mul(y, Pow(a, j))
      invariant forall k :: 0 <= k < j ==>
                  out[k] == Add(old(out[k]), Mul(if c == ONE then y else ZERO, Pow(a, k)))
      invariant forall k :: j <= k < 2 * SYS_T ==> out[k] == old(out[k])
    {
      var p := GfMul(eInv, c);
      OneRight(eInv); ZeroRight(eInv); ZeroLeft(Pow(a, j));
      out[j] := Add(out[j], p);
      PowNext(a, j);
      MulAssoc(y, Pow(a, j), a);
      eInv := GfMul(eInv, a);
    }
  }

  lemma PowZero(a: Gf)
    ensures Pow(a, 0) == ONE
  {
  }

  lemma PowNext(a: Gf, j: nat)
    ensures Pow(a, j + 1) == Mul(Pow(a, j), a)
  {
    hide Mul;
  }

  /** synd: the 2t terms of the syndrome of the received word. */
  method Synd(out: array<Gf>, f: seq<Gf>, l: seq<Gf>, r: seq<bv8>)
    requires out.Length == 2 * SYS_T && |f| == SYS_T + 1 && |l| == SYS_N && 8 * |r| == SYS_N
    modifies out
    ensures out[..] == Syndrome(f, l, BitsOf(r), 2 * SYS_T)
  {
    hide Value, Mul, Add, Inv, Pow, Moment, Bit, BitsOf;
    ghost var y := Weights(f, l);
    ghost var v := Chosen(BitsOf(r), y);
    for i := 0 to 2 * SYS_T
      invariant forall k :: 0 <= k < i ==> out[k] == ZERO
    {
      out[i] := ZERO;
    }
    NoPoints(l);
    assert v[..0] == [];
    for i := 0 to SYS_N
      invariant forall j :: 0 <= j < 2 * SYS_T ==> out[j] == Moment(v[..i], l, j)
    {
      var c := BitAt(r, i);
      BitAtIs(r, i);
      var e := Eval(f, l[i]);
      var e2 := GfMul(e, e);
      var eInv := GfInv(e2);
      AddPoint(out, c, eInv, l[i]);
      SplitZero();
      NextPoint(v, l, i);
    }
    assert v[..SYS_N] == v;
  }

  lemma NoPoints(l: seq<Gf>)
    ensures forall j: nat :: Moment([], l, j) == ZERO
  {
  }

  lemma NextPoint(v: seq<Gf>, l: seq<Gf>, i: nat)
    requires i < |v| <= |l|
    ensures forall j: nat :: Moment(v[..i + 1], l, j) == Add(Moment(v[..i], l, j), Mul(v[i], Pow(l[i], j)))
  {
    hide Mul, Add, Pow;
    assert v[..i + 1][..i] == v[..i];
  }

  lemma BitAtIs(r: seq<bv8>, i: nat)
    requires i < 8 * |r|
    ensures BitAt(r, i) == if BitsOf(r)[i] then ONE else ZERO
  {
    hide Bit;
  }

  // ----- decrypt.rs

  /** load_gf: two little-endian bytes, masked to GFBITS bits. */
  function LoadGf(lo: bv8, hi: bv8): Gf
  {
    Gf((((hi as bv16) << 8) | lo as bv16) & if GFBITS == 12 then 0x0FFF else 0x1FFF)
  }

  /** The Goppa polynomial of a secret key: the stored coefficients and a leading one. */
  function GoppaOf(sk: seq<bv8>): (g: seq<Gf>)
    requires |sk| >= IRR_BYTES
    ensures |g| == SYS_T + 1
  {
    seq(SYS_T, i requires 0 <= i < SYS_T => LoadGf(sk[2 * i], sk[2 * i + 1])) + [ONE]
  }

  /** The ciphertext followed by zeros, SYS_N bits in all. */
  function Padded(c: seq<bv8>): (r: seq<bv8>)
    requires |c| == SYND_BYTES
    ensures |r| == SYS_N / 8
  {
    c + seq(SYS_N / 8 - SYND_BYTES, i => 0)
  }

  method LoadGoppa(sk: seq<bv8>) returns (g: seq<Gf>)
    requires |sk| >= IRR_BYTES
    ensures g == GoppaOf(sk)
  {
    hide LoadGf;
    var a := new Gf[SYS_T + 1](_ => ZERO);
    for i := 0 to SYS_T
      invariant forall k :: 0 <= k < i ==> a[k] == LoadGf(sk[2 * k], sk[2 * k + 1])
    {
      a[i] := LoadGf(sk[2 * i], sk[2 * i + 1]);
    }
    a[SYS_T] := ONE;
    g := a[..];
  }

  /** The positions at which images is zero. */
  function ZerosOf(images: seq<Gf>): (e: seq<bool>)
    ensures |e| == |images| && forall i :: 0 <= i < |e| ==> e[i] == (images[i] == ZERO)
  {
    seq(|images|, i requires 0 <= i < |images| => images[i] == ZERO)
  }

  /** The roots of the locator become the error vector; w counts them. */
  method MarkZeros(e: array<bv8>, images: seq<Gf>) returns (w: nat)
    requires 8 * e.Length == SYS_N == |images|
    modifies e
    ensures BitsOf(e[..]) == ZerosOf(images) && w == Weight(ZerosOf(images))
  {
    hide Bit, BitsOf, IsZero;
    for i := 0 to e.Length
      invariant forall k :: 0 <= k < i ==> e[k] == 0
    {
      e[i] := 0;
    }
    ClearBits(e[..]);
    w := 0;
    ghost var z := ZerosOf(images);
    for i := 0 to SYS_N
      invariant forall k :: 0 <= k < SYS_N ==> BitsOf(e[..])[k] == (k < i && z[k])
      invariant w == Weight(z[..i])
    {
      var t := IsZero(images[i]) & 1;
      IsZeroIs(images[i]);
      SetBit(e, i, t == 1);
      assert z[..i + 1][..i] == z[..i];
      w := w + if t == 1 then 1 else 0;
    }
    assert z[..SYS_N] == z;
  }

  /** check |= a ^ b. */
  function Checked(check: bv16, a: bv16, b: bv16): bv16 { check | (a ^ b) }

  predicate TopClear(a: bv16) { a & 0x8000 == 0 }

  lemma RawCheck(check: bv16, a: bv16, b: bv16)
    ensures check & 0x8000 == 0 && a & 0x8000 == 0 && b & 0x8000 == 0 ==> (check | (a ^ b)) & 0x8000 == 0
    ensures check | (a ^ b) == 0 <==> check == 0 && a == b
  {
  }

  lemma CheckedIs(check: bv16, a: bv16, b: bv16)
    ensures TopClear(check) && TopClear(a) && TopClear(b) ==> TopClear(Checked(check, a, b))
    ensures Checked(check, a, b) == 0 <==> check == 0 && a == b
  {
    RawCheck(check, a, b);
  }

  lemma FieldTop(a: Gf)
    ensures TopClear(a.bits)
  {
  }

  lemma FlagTop()
    ensures TopClear(0) && TopClear(1)
  {
  }

  lemma CheckEnd(check: bv16)
    requires TopClear(check)
    ensures ((check - 1) >> 15) ^ 1 == if check == 0 then 0 else 1
  {
  }

  /** The final comparison: zero when the weight is SYS_T and both syndromes agree. */
  method Compare(w: nat, s: seq<Gf>, sCmp: seq<Gf>) returns (r: bv8)
    requires |s| == |sCmp| == 2 * SYS_T
    ensures r == if w == SYS_T && s == sCmp then 0 else 1
  {
    hide Checked, TopClear;
    FlagTop();
    var check: bv16 := if w == SYS_T then 0 else 1;
    for i := 0 to 2 * SYS_T
      invariant TopClear(check)
      invariant check == 0 <==> w == SYS_T && s[..i] == sCmp[..i]
    {
      CheckedIs(check, s[i].bits, sCmp[i].bits);
      FieldTop(s[i]); FieldTop(sCmp[i]);
      assert s[..i + 1] == s[..i] + [s[i]] && sCmp[..i + 1] == sCmp[..i] + [sCmp[i]];
      check := Checked(check, s[i].bits, sCmp[i].bits);
    }
    assert s[..2 * SYS_T] == s && sCmp[..2 * SYS_T] == sCmp;
    CheckEnd(check);
    check := (check - 1) >> 15;
    r := (check ^ 1) as bv8;
  }

  /** The control bits of a secret key. */
  function ControlOf(sk: seq<bv8>): (c: seq<bv8>)
    requires |sk| == IRR_BYTES + COND_BYTES
    ensures |c| == COND_BYTES
  {
    sk[IRR_BYTES..]
  }

  /** The support of a secret key. */
  ghost function KeySupport(sk: seq<bv8>): (l: seq<Gf>)
    requires |sk| == IRR_BYTES + COND_BYTES
    ensures |l| == SYS_N
  {
    SupportOf(ControlOf(sk))
  }

  /** The syndrome of a ciphertext: that of its bits, filled up with zeros. */
  ghost function CipherSyndrome(sk: seq<bv8>, c: seq<bv8>): (s: seq<Gf>)
    requires |sk| == IRR_BYTES + COND_BYTES && |c| == SYND_BYTES
  {
    Syndrome(GoppaOf(sk), KeySupport(sk), BitsOf(Padded(c)), 2 * SYS_T)
  }

  /** v is an error vector that explains the ciphertext. */
  ghost predicate Explains(v: seq<bool>, sk: seq<bv8>, c: seq<bv8>)
    requires |sk| == IRR_BYTES + COND_BYTES && |c| == SYND_BYTES
  {
    Decodes(v, GoppaOf(sk), KeySupport(sk), CipherSyndrome(sk, c))
  }

  /** g has no root in the support. */
  ghost predicate NoRoots(sk: seq<bv8>)
    requires |sk| == IRR_BYTES + COND_BYTES
  {
    forall i :: 0 <= i < SYS_N ==> Value(GoppaOf(sk), KeySupport(sk)[i]) != ZERO
  }

  /**
   decrypt: the result is 0 exactly when e, as left in place, has weight SYS_T and the syndrome of
   the padded ciphertext. When g has no root in the support, that is the case exactly when some
   vector of that weight has that syndrome, and e is then the only one.
   */
  method Decrypt(e: array<bv8>, sk: seq<bv8>, c: seq<bv8>) returns (ret: bv8)
    requires 8 * e.Length == SYS_N && |sk| == IRR_BYTES + COND_BYTES && |c| == SYND_BYTES
    modifies e
    ensures ret == 0 || ret == 1
    ensures ret == 0 <==> Explains(BitsOf(e[..]), sk, c)
    ensures NoRoots(sk) ==> (ret == 0 <==> exists v: seq<bool> :: Explains(v, sk, c))
    ensures NoRoots(sk) ==> forall v: seq<bool> :: Explains(v, sk, c) ==> BitsOf(e[..]) == v
  {
    hide Value, Inv, Syndrome, Generates, Minimal, Short, BitsOf, Weight, GoppaOf, SupportOf, Distinct, Explains,
      NoRoots;
    var r := Padded(c);
    var g := LoadGoppa(sk);
    var l := SupportGen.SupportGen(sk[IRR_BYTES..]);
    var s := new Gf[2 * SYS_T](_ => ZERO);
    Synd(s, g, l, r);
    var locator := new Gf[SYS_T + 1](_ => ZERO);
    ghost var len := Bm(locator, s);
    var images := new Gf[SYS_N](_ => ZERO);
    Root(images, locator[..], l);
    var w := MarkZeros(e, images[..]);
    var sCmp := new Gf[2 * SYS_T](_ => ZERO);
    Synd(sCmp, g, l, e[..]);
    ret := Compare(w, s[..], sCmp[..]);
    Verdict(sk, c, s[..], locator[..], len, images[..]);
  }

  /** The roots of the locator are the only candidate for an explanation of the ciphertext. */
  lemma Verdict(sk: seq<bv8>, c: seq<bv8>, s: seq<Gf>, locator: seq<Gf>, len: nat, images: seq<Gf>)
    requires |sk| == IRR_BYTES + COND_BYTES && |c| == SYND_BYTES && |locator| == SYS_T + 1 && |images| == SYS_N
    requires s == CipherSyndrome(sk, c)
    requires Short(s) ==> len <= SYS_T && Generates(Reversed(locator), len, s, 2 * SYS_T)
    requires forall i :: 0 <= i < SYS_N ==> images[i] == Value(locator, KeySupport(sk)[i])
    ensures Explains(ZerosOf(images), sk, c)
       <==> Weight(ZerosOf(images)) == SYS_T && s == Syndrome(GoppaOf(sk), KeySupport(sk), ZerosOf(images), 2 * SYS_T)
    ensures NoRoots(sk) ==> forall v: seq<bool> :: Explains(v, sk, c) ==> v == ZerosOf(images)
  {
    hide Value, Syndrome, Generates, Short, BitsOf, Weight, GoppaOf, SupportOf, Distinct;
    if NoRoots(sk) {
      SupportOfDistinct(ControlOf(sk));
      forall v: seq<bool> | Explains(v, sk, c) ensures v == ZerosOf(images) {
        OnlyDecoding(v, GoppaOf(sk), KeySupport(sk), s, locator, len, images);
      }
    }
  }

  /** Whatever Berlekamp-Massey finds marks the only vector that decodes. */
  lemma OnlyDecoding(v: seq<bool>, g: seq<Gf>, l: seq<Gf>, s: seq<Gf>, locator: seq<Gf>, len: nat, images: seq<Gf>)
    requires IsCode(g, l) && Decodes(v, g, l, s) && |locator| == SYS_T + 1
    requires Short(s) ==> len <= SYS_T && Generates(Reversed(locator), len, s, 2 * SYS_T)
    requires |images| == SYS_N && forall i :: 0 <= i < SYS_N ==> images[i] == Value(locator, l[i])
    ensures ZerosOf(images) == v
  {
    hide Value, Generates, Short, Reversed, Distinct, Syndrome, Weight;
    DecodableIsShort(v, g, l, s);
    LocatorDecodes(v, g, l, s, Reversed(locator), len);
    ReversedTwice(locator);
  }
}
