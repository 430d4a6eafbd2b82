/** Decrypting what the public key made of an error vector gives that vector back. */
module RoundTrip {
  import opened Params
  import opened Field
  import opened Frobenius
  import opened Polynomials
  import opened Permutations
  import opened Decoding
  import opened Products
  import opened GoppaCode
  import opened Squarefree
  import opened KeyBytes
  import opened ExtensionField
  import opened MinimalPolynomial
  import opened KeyPolynomials
  import SquarefreeModulus
  import RootFree
  import opened Words
  import opened BinaryMatrices
  import opened CheckMatrix
  import opened SupportPoints
  import opened SupportGen
  import opened FromPermutation
  import opened ControlBits
  import FlipNetworks
  import opened PkGen
  import opened ErrorVectors
  import Benes
  import Echelons
  import PublicKey
  import Encrypt
  import Decrypt

  lemma InvSquare(a: Gf)
    requires a != ZERO
    ensures Inv(Square(a)) == Square(Inv(a))
  {
    hide Mul, Inv;
    NoZeroDivisors(a, a);
    InvMul(a); InvMul(Square(a));
    MulCross(a, Inv(a), a, Inv(a));
    OneLeft(ONE);
    var (s, t) := (Square(a), Square(Inv(a)));
    // t = 1/s s t = 1/s.
    MulAssoc(Inv(s), s, t);
    OneLeft(t); OneRight(Inv(s));
    MulCross(a, a, Inv(a), Inv(a));
  }

  lemma {:induction false} MomentXor(x: seq<bool>, e: seq<bool>, y: seq<Gf>, l: seq<Gf>, j: nat, n: nat)
    requires |x| == |e| == |y| == |l| && n <= |l|
    ensures Moment(Chosen(Xor(x, e), y)[..n], l, j)
         == Add(Moment(Chosen(x, y)[..n], l, j), Moment(Chosen(e, y)[..n], l, j))
  {
    hide Mul, Add, Pow;
    var (d, u, v) := (Chosen(Xor(x, e), y), Chosen(x, y), Chosen(e, y));
    if n == 0 {
      AddZero(ZERO);
    } else {
      MomentXor(x, e, y, l, j, n - 1);
      assert d[..n][..n - 1] == d[..n - 1] && u[..n][..n - 1] == u[..n - 1] && v[..n][..n - 1] == v[..n - 1];
      var p := Pow(l[n - 1], j);
      var (a, b) := (Mul(u[n - 1], p), Mul(v[n - 1], p));
      AddCross(Moment(u[..n - 1], l, j), a, Moment(v[..n - 1], l, j), b);
      ZeroLeft(p); AddZero(a); AddZero(b); AddZero(ZERO); AddCancel(a, b);
    }
  }

  /** Two vectors whose difference satisfies every check have the same syndrome. */
  lemma SameSyndrome(g: seq<Gf>, l: seq<Gf>, x: seq<bool>, e: seq<bool>, n: nat)
    requires |x| == |e| == |l|
    requires MomentsVanish(Chosen(Xor(x, e), Decrypt.Weights(g, l)), l, n)
    ensures Decrypt.Syndrome(g, l, x, n) == Decrypt.Syndrome(g, l, e, n)
  {
    hide Moment, Value, Inv, Xor;
    var y := Decrypt.Weights(g, l);
    forall j | 0 <= j < n ensures Decrypt.Syndrome(g, l, x, n)[j] == Decrypt.Syndrome(g, l, e, n)[j] {
      MomentXor(x, e, y, l, j, |l|);
      WholeSeq(Chosen(Xor(x, e), y)); WholeSeq(Chosen(x, y)); WholeSeq(Chosen(e, y));
      AddCancel(Moment(Chosen(x, y), l, j), Moment(Chosen(e, y), l, j));
    }
  }

  lemma WholeSeq(v: seq<Gf>)
    ensures v[..|v|] == v
  {
  }

  /** The zero-padded ciphertext differs from e by a vector that the matrix annihilates. */
  lemma DifferenceChecks(m: Matrix, r: seq<bool>, e: seq<bool>)
    requires Shape(m, PK_NROWS, SYS_N) && UnitColumns(m, PK_NROWS, SYS_N) && |r| == |e| == SYS_N
    requires forall i :: 0 <= i < SYS_N ==> r[i] == (i < PK_NROWS && Dot(m[i], e))
    ensures Kernel(m, Xor(r, e))
  {
    hide Dot, Xor;
    XorLength(r, e);
    forall i | 0 <= i < |m| ensures !Dot(m[i], Xor(r, e)) {
      DotOne(m[i], r, i);
      DotXorRight(m[i], r, e);
    }
  }

  lemma CodeInverts(g: seq<Gf>, l: seq<Gf>, d: seq<bool>)
    requires Decrypt.IsCode(g, l) && |d| == |l|
    ensures Inverts(d, Inverses(g, l), l, g) && Distinct(l)
    ensures forall i :: 0 <= i < |d| ==> Decrypt.Weights(g, l)[i] == Square(Inverses(g, l)[i])
  {
    hide Value, Mul, Inv, Square, Distinct;
    Decrypt.CodeDistinct(g, l);
    forall i | 0 <= i < |d|
      ensures Mul(Inverses(g, l)[i], Value(g, l[i])) == ONE
      ensures Decrypt.Weights(g, l)[i] == Square(Inverses(g, l)[i])
    {
      InvMul(Value(g, l[i]));
      InvSquare(Value(g, l[i]));
    }
  }

  /** The ciphertext of e and e itself have the same syndrome of 2 SYS_T terms. */
  lemma SyndromesAgree(m: Matrix, g: seq<Gf>, l: seq<Gf>, r: seq<bool>, e: seq<bool>)
    requires Decrypt.IsCode(g, l) && Monic(g) && IsSquarefree(g)
    requires Shape(m, PK_NROWS, SYS_N) && UnitColumns(m, PK_NROWS, SYS_N)
    requires SameKernel(m, Checks(Inverses(g, l), l), SYS_N)
    requires |r| == |e| == SYS_N && forall i :: 0 <= i < SYS_N ==> r[i] == (i < PK_NROWS && Dot(m[i], e))
    ensures Decrypt.Syndrome(g, l, r, 2 * SYS_T) == Decrypt.Syndrome(g, l, e, 2 * SYS_T)
  {
    hide Value, Dot, Kernel, Checks, Moment, Inv, Xor, IsSquarefree, Square, UnitColumns, MomentsVanish, Distinct,
      Inverts, Decrypt.Syndrome;
    var d := Xor(r, e);
    var (h, y) := (Inverses(g, l), Decrypt.Weights(g, l));
    XorLength(r, e);
    DifferenceChecks(m, r, e);
    ChecksKernel(h, l, d);
    CodeInverts(g, l, d);
    SameBinaryCode(d, l, g, h, y);
    SameSyndrome(g, l, r, e, 2 * SYS_T);
  }

  /** The keys that one successful pass of the key generation loop leaves behind (src/operations.rs:237-332). */
  ghost predicate KeyPair(pk: seq<bv8>, sk: seq<bv8>)
  {
    |sk| == IRR_BYTES + COND_BYTES && exists pi: seq<int> :: KeysFor(pk, sk, pi)
  }

  ghost predicate KeysFor(pk: seq<bv8>, sk: seq<bv8>, pi: seq<int>)
    requires |sk| == IRR_BYTES + COND_BYTES
  {
    |pi| == FIELD_SIZE && IsPerm(pi) && Realizes(Decrypt.ControlOf(sk), pi) && IsKey(pk, Decrypt.GoppaOf(sk), pi)
  }

  /** The network that controlbitsfrompermutation stores carries out its permutation. */
  lemma StoredRealizes(c: seq<bv8>, pi: seq<int>)
    requires |c| == COND_BYTES && |pi| == FIELD_SIZE == Benes.Pow2(GFBITS) && IsPerm(pi)
    requires Benes.IsNetwork(GFBITS, LayersOf(c), Benes.Order(GFBITS))
    requires forall p: seq<bool> :: |p| == FIELD_SIZE ==>
               Benes.Run(GFBITS, p, LayersOf(c), Benes.Order(GFBITS)) == Permute(p, pi)
    ensures Realizes(c, pi)
  {
    hide IsPerm, LayersOf, Permute, Benes.Run, Benes.IsNetwork, Benes.Pow2;
  }

  /**
   f and perm lead to keys: f has a minimal polynomial g of degree SYS_T, the values of perm are all
   different, and the parity checks of g and the support that perm sorts to are eligible.
   */
  ghost predicate LeadToKeys(f: seq<Gf>, perm: seq<int>)
    requires |perm| == FIELD_SIZE
  {
    NoRepeats(perm) && exists g: seq<Gf>, sorted: seq<int> ::
      IsMinimal(g, f) && SortsBy(sorted, perm) && Eligible(CodeChecks(g, sorted))
  }

  /** Once the minimal polynomial and the order are known, only their matrix counts. */
  lemma LeadIs(f: seq<Gf>, perm: seq<int>, g: seq<Gf>, sorted: seq<int>)
    requires |perm| == FIELD_SIZE && NoRepeats(perm) && IsMinimal(g, f) && SortsBy(sorted, perm)
    ensures LeadToKeys(f, perm) <==> Eligible(CodeChecks(g, sorted))
  {
    hide IsMinimal, IsPerm, Eligible, CodeChecks, NoRepeats;
    if LeadToKeys(f, perm) {
      var h: seq<Gf>, s: seq<int> :| IsMinimal(h, f) && SortsBy(s, perm) && Eligible(CodeChecks(h, s));
      MinimalUnique(g, h, f);
      OrderUnique(sorted, s, perm);
    }
  }

  /**
   The keys and the pivots that f and perm lead to: g is the minimal polynomial of f, sorted the order of
   perm, and pi what is left of it after the column moves. The public key is that of g and pi, and the
   secret key holds g and, layer by layer, the control bits of pi.
   */
  ghost predicate KeysOf(f: seq<Gf>, perm: seq<int>, pk: seq<bv8>, sk: seq<bv8>, pivots: seq<bool>)
    requires |perm| == FIELD_SIZE
  {
    exists g: seq<Gf>, sorted: seq<int>, pi: seq<int> :: Make(g, sorted, pi, f, perm, pk, sk, pivots)
  }

  ghost predicate Make(g: seq<Gf>, sorted: seq<int>, pi: seq<int>,
                       f: seq<Gf>, perm: seq<int>, pk: seq<bv8>, sk: seq<bv8>, pivots: seq<bool>)
    requires |perm| == FIELD_SIZE
  {
    hide IsMinimal, IsPerm, Arranged, CodeChecks, IsKey, HoldsPolynomial, HoldsControl, Realizes, Decrypt.GoppaOf;
    && IsMinimal(g, f) && SortsBy(sorted, perm) && Arranged(pi, sorted, pivots, CodeChecks(g, sorted))
    && |pi| == FIELD_SIZE && IsPerm(pi) && IsKey(pk, g, pi)
    && HoldsPolynomial(sk, g) && HoldsControl(sk, pi)
    && |sk| == IRR_BYTES + COND_BYTES && Decrypt.GoppaOf(sk) == g && Realizes(Decrypt.ControlOf(sk), pi)
  }

  /** What is in them. */
  lemma KeysMean(f: seq<Gf>, perm: seq<int>, pk: seq<bv8>, sk: seq<bv8>, pivots: seq<bool>)
    returns (sorted: seq<int>, pi: seq<int>)
    requires |perm| == FIELD_SIZE && KeysOf(f, perm, pk, sk, pivots)
    ensures |sk| == IRR_BYTES + COND_BYTES && IsMinimal(Decrypt.GoppaOf(sk), f) && SortsBy(sorted, perm)
    ensures Arranged(pi, sorted, pivots, CodeChecks(Decrypt.GoppaOf(sk), sorted))
    ensures |pi| == FIELD_SIZE && IsPerm(pi) && IsKey(pk, Decrypt.GoppaOf(sk), pi)
    ensures Realizes(Decrypt.ControlOf(sk), pi) && HoldsControl(sk, pi)
  {
    hide IsMinimal, IsPerm, Arranged, CodeChecks, IsKey, HoldsPolynomial, HoldsControl, Realizes, Decrypt.GoppaOf;
    var g: seq<Gf>, s: seq<int>, p: seq<int> :| Make(g, s, p, f, perm, pk, sk, pivots);
    sorted, pi := s, p;
  }

  /** They are determined, to the last bit. */
  lemma KeysUnique(f: seq<Gf>, perm: seq<int>, pk: seq<bv8>, sk: seq<bv8>, pivots: seq<bool>,
                   pk': seq<bv8>, sk': seq<bv8>, pivots': seq<bool>)
    requires |perm| == FIELD_SIZE && KeysOf(f, perm, pk, sk, pivots) && KeysOf(f, perm, pk', sk', pivots')
    ensures pk == pk' && sk == sk' && pivots == pivots'
  {
    hide IsMinimal, IsPerm, Arranged, CodeChecks, IsKey, HoldsPolynomial, HoldsControl, Realizes, Decrypt.GoppaOf;
    var g: seq<Gf>, sorted: seq<int>, pi: seq<int> :| Make(g, sorted, pi, f, perm, pk, sk, pivots);
    var h: seq<Gf>, order: seq<int>, rho: seq<int> :| Make(h, order, rho, f, perm, pk', sk', pivots');
    MinimalUnique(g, h, f);
    OrderUnique(sorted, order, perm);
    ArrangedUnique(pi, rho, pivots, pivots', sorted, CodeChecks(g, sorted));
    KeyUnique(pk, pk', g, pi);
    KeyBytesUnique(sk, sk', g, pi);
  }

  /**
   One pass of the key generation loop, for a random element f and random values perm: genpoly_gen,
   pk_gen and controlbitsfrompermutation.
   */
  method GenerateKeys(f: seq<Gf>, perm: seq<int>)
    returns (ret: int, pk: array<bv8>, sk: seq<bv8>, pivots: seq<bool>)
    requires |f| == SYS_T && |perm| == FIELD_SIZE && AreWords(perm)
    ensures ret == 0 || ret == -1
    ensures ret == 0 <==> LeadToKeys(f, perm)
    ensures ret == 0 ==> KeysOf(f, perm, pk[..], sk, pivots)
    ensures ret == 0 ==> KeyPair(pk[..], sk) && IsMinimal(Decrypt.GoppaOf(sk), f)
  {
    hide PublicKey.Offset, IsKey, KeyPair, NoRepeats, SortsBy, Eligible, Arranged, CodeChecks, IsMinimal, IsPerm,
      HoldsPolynomial, HoldsControl, KeysOf, Echelons.NewColumn, LayersOf, Bits, Realizes, Decrypt.GoppaOf;
    pk := new bv8[PublicKey.Offset(PK_NROWS)];
    sk, pivots := [], [];
    var out := new Gf[SYS_T](_ => ZERO);
    ret := MinimalPolynomialOf(out, f);
    if ret != 0 { return; }
    var irr := StorePolynomial(out[..]);
    var pi := new int[FIELD_SIZE];
    ghost var sorted;
    ret, pivots, sorted := PkGen.PkGen(pk, irr, perm, pi);
    if NoRepeats(perm) {
      LeadIs(f, perm, Decrypt.GoppaOf(irr), sorted);
    }
    if ret == 0 {
      var control := StoreControl(pi[..]);
      sk := irr + control;
      KeysMade(f, perm, pk[..], irr, control, out[..], sorted, pi[..], pivots);
    }
  }

  lemma KeysMade(f: seq<Gf>, perm: seq<int>, pk: seq<bv8>, irr: seq<bv8>, control: seq<bv8>, h: seq<Gf>,
                 sorted: seq<int>, pi: seq<int>, pivots: seq<bool>)
    requires |perm| == FIELD_SIZE == Benes.Pow2(GFBITS) && |h| == SYS_T && |irr| == IRR_BYTES && |control| == COND_BYTES
    requires IsMinimal(h + [ONE], f) && Decrypt.GoppaOf(irr) == h + [ONE] && HoldsPolynomial(irr, h)
    requires SortsBy(sorted, perm) && Arranged(pi, sorted, pivots, CodeChecks(h + [ONE], sorted))
    requires |pi| == FIELD_SIZE && IsPerm(pi) && IsKey(pk, h + [ONE], pi)
    requires Realizes(control, pi) && LayersOf(control) == Bits(GFBITS, pi)
    ensures KeysOf(f, perm, pk, irr + control, pivots) && KeyPair(pk, irr + control)
    ensures IsMinimal(Decrypt.GoppaOf(irr + control), f)
  {
    hide IsMinimal, IsPerm, Arranged, CodeChecks, IsKey, HoldsPolynomial, HoldsControl, Realizes, Decrypt.GoppaOf,
      LayersOf, Bits, Benes.Pow2, KeyPair, KeysOf, SortsBy;
    var sk := irr + control;
    assert Decrypt.ControlOf(sk) == control && sk[..IRR_BYTES] == irr;
    GoppaPrefix(irr, sk);
    KeyPairIs(pk, sk, pi);
    PolynomialPrefix(irr, sk, h);
    ControlHeld(sk, pi);
    KeysAre(h + [ONE], sorted, pi, f, perm, pk, sk, pivots);
  }

  lemma KeysAre(g: seq<Gf>, sorted: seq<int>, pi: seq<int>,
                f: seq<Gf>, perm: seq<int>, pk: seq<bv8>, sk: seq<bv8>, pivots: seq<bool>)
    requires |perm| == FIELD_SIZE && IsMinimal(g, f) && SortsBy(sorted, perm)
    requires Arranged(pi, sorted, pivots, CodeChecks(g, sorted)) && |pi| == FIELD_SIZE && IsPerm(pi)
    requires IsKey(pk, g, pi) && HoldsPolynomial(sk, g) && HoldsControl(sk, pi)
    requires |sk| == IRR_BYTES + COND_BYTES && Decrypt.GoppaOf(sk) == g && Realizes(Decrypt.ControlOf(sk), pi)
    ensures KeysOf(f, perm, pk, sk, pivots)
  {
    hide IsMinimal, IsPerm, Arranged, CodeChecks, IsKey, HoldsPolynomial, HoldsControl, Realizes, Decrypt.GoppaOf;
    assert Make(g, sorted, pi, f, perm, pk, sk, pivots);
  }

  lemma PolynomialPrefix(irr: seq<bv8>, sk: seq<bv8>, g: seq<Gf>)
    requires |irr| == IRR_BYTES <= |sk| && sk[..IRR_BYTES] == irr && |g| == SYS_T && HoldsPolynomial(irr, g)
    ensures HoldsPolynomial(sk, g + [ONE])
  {
    hide BitsOf, Digit, CoefficientPlace;
    forall i, j | 0 <= i < SYS_T && 0 <= j < 16
      ensures BitsOf(sk)[CoefficientPlace(i, j)] == (j < GFBITS && Digit((g + [ONE])[i], j))
    {
      HeldDigit(irr, g, i, j);
      PublicKey.SliceBit(sk, 0, IRR_BYTES, 16 * i + j);
    }
  }

  lemma KeyPairIs(pk: seq<bv8>, sk: seq<bv8>, pi: seq<int>)
    requires |sk| == IRR_BYTES + COND_BYTES && |pi| == FIELD_SIZE && IsPerm(pi)
    requires Realizes(Decrypt.ControlOf(sk), pi) && IsKey(pk, Decrypt.GoppaOf(sk), pi)
    ensures KeyPair(pk, sk)
  {
    hide IsPerm, Realizes, IsKey, Decrypt.GoppaOf;
    assert KeysFor(pk, sk, pi);
  }

  lemma GoppaPrefix(irr: seq<bv8>, sk: seq<bv8>)
    requires |irr| == IRR_BYTES <= |sk| && sk[..IRR_BYTES] == irr
    ensures Decrypt.GoppaOf(irr) == Decrypt.GoppaOf(sk)
  {
    hide Decrypt.LoadGf;
    forall i | 0 <= i < IRR_BYTES ensures irr[i] == sk[i] {
      assert sk[..IRR_BYTES][i] == sk[i];
    }
  }

  /** controlbitsfrompermutation(out, pi, GFBITS, 1 << GFBITS). */
  method StoreControl(pi: seq<int>) returns (c: seq<bv8>)
    requires |pi| == FIELD_SIZE && IsPerm(pi)
    ensures |c| == COND_BYTES && Realizes(c, pi)
    ensures FIELD_SIZE == Benes.Pow2(GFBITS) && LayersOf(c) == Bits(GFBITS, pi)
  {
    hide IsPerm, Realizes, StoredLayers, Bits, Benes.Run, Benes.IsNetwork, Permute, LayersOf, FlipNetworks.Behind;
    FieldSize();
    var out := new bv8[COND_BYTES];
    ControlBitsFromPermutation(out, pi, GFBITS, FIELD_SIZE);
    c := out[..];
    SameLayers(c);
    forall p: seq<bool> | |p| == FIELD_SIZE
      ensures Benes.Run(GFBITS, p, LayersOf(c), Benes.Order(GFBITS)) == Permute(p, pi)
    {
      NetworkPermutes(GFBITS, pi, p);
    }
    StoredRealizes(c, pi);
  }

  /**
   For every key pair with a squarefree Goppa polynomial that has no root in the support, and for
   every e of weight SYS_T, the syndrome of e under the public key decrypts to e.
   */
  method EncryptDecrypt(pk: seq<bv8>, sk: seq<bv8>, e: seq<bv8>) returns (ret: bv8, d: array<bv8>)
    requires KeyPair(pk, sk)
    requires IsSquarefree(Decrypt.GoppaOf(sk)) && Decrypt.NoRoots(sk)
    requires 8 * |e| == SYS_N && Weight(BitsOf(e)) == SYS_T
    ensures fresh(d) && ret == 0 && d.Length == |e| && BitsOf(d[..]) == BitsOf(e)
  {
    hide Value, Dot, Kernel, Checks, IsSquarefree, SameKernel, UnitColumns, Support, IsPerm, BitsOf, Weight, Inverses,
      Realizes, SupportOf, Decrypt.Syndrome, Decrypt.GoppaOf, Decrypt.IsCode, PublicKey.Holds, PublicKey.KeyRow;
    ghost var pi: seq<int> :| KeysFor(pk, sk, pi);
    ghost var (g, l) := (Decrypt.GoppaOf(sk), Decrypt.KeySupport(sk));
    ghost var m: Matrix :| KeyMatrix(m, pk, g, pi);
    assert IsSupport(l, pi);
    KeyLength(m, pk);
    var s := new bv8[SYND_BYTES];
    Encrypt.Syndrome(s, pk, e);
    d := new bv8[SYS_N / 8];
    ret := Decrypt.Decrypt(d, sk, s[..]);
    ghost var r := BitsOf(Decrypt.Padded(s[..]));
    forall i | 0 <= i < SYS_N ensures r[i] == (i < PK_NROWS && Dot(m[i], BitsOf(e))) {
      PaddedBits(s[..], i);
      if i < PK_NROWS { PublicKey.UnpackingUndoes(pk, m, i); }
    }
    GoppaMonic(sk);
    SupportOfDistinct(Decrypt.ControlOf(sk));
    CodeIs(g, l);
    SyndromesAgree(m, g, l, r, BitsOf(e));
    assert Decrypt.Explains(BitsOf(e), sk, s[..]);
  }

  lemma CodeIs(g: seq<Gf>, l: seq<Gf>)
    requires |g| == SYS_T + 1 && |l| == SYS_N && Distinct(l)
    requires forall i :: 0 <= i < |l| ==> Value(g, l[i]) != ZERO
    ensures Decrypt.IsCode(g, l)
  {
    hide Value;
  }

  lemma KeyLength(m: Matrix, pk: seq<bv8>)
    requires Shape(m, PK_NROWS, SYS_N) && PublicKey.Holds(pk, m)
    ensures |pk| == PublicKey.Offset(PK_NROWS)
  {
    hide PublicKey.Rest;
  }

  lemma PaddedBits(s: seq<bv8>, i: nat)
    requires |s| == SYND_BYTES && i < SYS_N
    ensures BitsOf(Decrypt.Padded(s))[i] == (i < 8 * SYND_BYTES && BitsOf(s)[i])
  {
  }

  lemma GoppaMonic(sk: seq<bv8>)
    requires |sk| >= IRR_BYTES
    ensures Monic(Decrypt.GoppaOf(sk))
  {
  }

  /** In every variant, key generation only ever yields keys that decrypt correctly. */
  lemma GeneratedKeys(sk: seq<bv8>, f: seq<Gf>)
    requires IsVariant(BUILD)
    requires |sk| == IRR_BYTES + COND_BYTES && IsMinimal(Decrypt.GoppaOf(sk), f)
    ensures IsSquarefree(Decrypt.GoppaOf(sk)) && Decrypt.NoRoots(sk)
  {
    hide IsMinimal, IsSquarefree, IsVariant, Value, Decrypt.GoppaOf, SupportOf;
    var (g, l) := (Decrypt.GoppaOf(sk), Decrypt.KeySupport(sk));
    SquarefreeModulus.ModulusSquarefree();
    MinimalSquarefree(g, f);
    forall a ensures Value(Modulus(), a) != ZERO { RootFree.ModulusNoRoot(a); }
    forall i | 0 <= i < SYS_N ensures Value(g, l[i]) != ZERO {
      MinimalNoRoot(g, f, l[i]);
    }
  }

  /**
   The whole scheme, in every variant: for exactly the random f and perm that lead to keys and the
   nums that make an error vector, the vector comes back from its ciphertext.
   */
  method GenerateEncryptDecrypt(f: seq<Gf>, perm: seq<int>, nums: seq<nat>)
    returns (made: bool, e: array<bv8>, ret: bv8, d: array<bv8>)
    requires IsVariant(BUILD)
    requires |f| == SYS_T && |perm| == FIELD_SIZE && AreWords(perm)
    ensures made <==> LeadToKeys(f, perm) && Accepted(nums)
    ensures made ==> BitsOf(e[..]) == ErrorOf(nums) && Weight(BitsOf(e[..])) == SYS_T
    ensures made ==> ret == 0 && BitsOf(d[..]) == BitsOf(e[..])
  {
    hide IsVariant, IsMinimal, IsSquarefree, KeyPair, KeysOf, LeadToKeys, BitsOf, Weight, ErrorOf, Accepted,
      Decrypt.GoppaOf,
      Decrypt.NoRoots;
    var r, pk, sk, pivots := GenerateKeys(f, perm);
    e := new bv8[SYS_N / 8];
    made := r == 0;
    ret := 1;
    d := e;
    if made {
      KeyLengths(pk[..], sk);
      GeneratedKeys(sk, f);
      made := GenE(e, nums);
    }
    if made {
      ErrorWeight(nums);
      ret, d := EncryptDecrypt(pk[..], sk, e[..]);
    }
  }

  lemma KeyLengths(pk: seq<bv8>, sk: seq<bv8>)
    requires KeyPair(pk, sk)
    ensures |sk| == IRR_BYTES + COND_BYTES
  {
    hide KeysFor;
  }
}
