/** The Berlekamp-Massey algorithm as src/bm.rs runs it, on registers cut off at degree SYS_T. */
module BerlekampMassey {
  import opened Params
  import opened Field
  import opened Frobenius
  import opened FieldMethods
  import opened Recurrences

  /** Some recurrence of length SYS_T or less generates all of s. */
  ghost predicate Short(s: seq<Gf>)
  {
    exists g: seq<Gf>, m: int :: Generates(g, m, s, |s|) && m <= SYS_T
  }

  /** What holds of the registers before step n, whatever the sequence. */
  predicate Registers(c: seq<Gf>, l: int, b: seq<Gf>, base: Gf, n: int)
  {
    && |c| == |b| == SYS_T + 1 && 0 <= l <= n
    && c[0] == ONE && b[0] == ZERO && base != ZERO
    && VanishesAbove(c, l) && VanishesAbove(b, n + 1 - l)
  }

  /** What else holds when the sequence is short: b, times x^l, is still the c of the last length change. */
  ghost predicate Sound(c: seq<Gf>, l: int, b: seq<Gf>, base: Gf, s: seq<Gf>, n: int)
  {
    && l <= SYS_T
    && Silent(c, s, l, n)
    && Minimal(l, s, n)
    && (l > 0 && n + 1 - l <= SYS_T ==> Silent(b, s, n + 1 - l, n) && Conv(b, s, n) == base)
  }

  /** The length after step n, when the discrepancy is d. */
  function NextLength(d: Gf, l: int, n: int): int
  {
    if d != ZERO && 2 * l <= n then n + 1 - l else l
  }

  lemma {:induction false} GeneratesLess(g: seq<Gf>, m: int, s: seq<Gf>, n: int, k: int)
    requires Generates(g, m, s, n) && k <= n
    ensures Generates(g, m, s, k)
  {
    hide Conv;
  }

  /** A length that Massey's theorem forces is no more than SYS_T. */
  lemma Reachable(c: seq<Gf>, l: int, s: seq<Gf>, n: nat)
    requires Short(s) && n < |s|
    requires Generates(c, l, s, n) && Conv(c, s, n) != ZERO
    ensures n + 1 - l <= SYS_T
  {
    hide Generates, Conv;
    var g: seq<Gf>, m: int :| Generates(g, m, s, |s|) && m <= SYS_T;
    GeneratesLess(g, m, s, |s|, n + 1);
    Massey(c, l, g, m, s, n);
  }

  lemma MinimalReach(l: int, s: seq<Gf>, n: int)
    requires Short(s) && n <= |s| && Minimal(l, s, n)
    ensures l <= SYS_T
  {
    hide Generates;
    var g: seq<Gf>, m: int :| Generates(g, m, s, |s|) && m <= SYS_T;
    GeneratesLess(g, m, s, |s|, n);
  }

  lemma MinimalStep(c: seq<Gf>, l: int, s: seq<Gf>, n: nat)
    requires Generates(c, l, s, n) && Minimal(l, s, n)
    ensures Minimal(NextLength(Conv(c, s, n), l, n), s, n + 1)
  {
    hide Generates, Conv;
    var (d, k) := (Conv(c, s, n), n + 1);
    forall g: seq<Gf>, m: int | Generates(g, m, s, k) ensures NextLength(d, l, n) <= m {
      GeneratesLess(g, m, s, k, n);
      if d != ZERO {
        Massey(c, l, g, m, s, n);
      }
    }
  }

  lemma NoChange(f: Gf, b: Gf, c: Gf)
    ensures Add(c, Mul(f, ZERO)) == c && Add(c, Mul(ZERO, b)) == c
  {
    hide Mul, Add;
    ZeroRight(f); ZeroLeft(b); AddZero(c);
  }

  lemma CorrectedVanishes(d: seq<Gf>, c: seq<Gf>, f: Gf, b: seq<Gf>, l: int, k: int)
    requires IsSum(d, c, f, b) && VanishesAbove(c, l) && VanishesAbove(b, k) && l <= k
    ensures VanishesAbove(d, k)
  {
    hide Mul, Add;
    forall i | 0 <= i < |d| && k < i ensures d[i] == ZERO {
      NoChange(f, b[i], c[i]);
    }
  }

  lemma CorrectedVanishesLow(d: seq<Gf>, c: seq<Gf>, f: Gf, b: seq<Gf>, l: int, k: int)
    requires IsSum(d, c, f, b) && VanishesAbove(c, l) && VanishesAbove(b, k) && k <= l
    ensures VanishesAbove(d, l)
  {
    hide Mul, Add;
    forall i | 0 <= i < |d| && l < i ensures d[i] == ZERO {
      NoChange(f, b[i], c[i]);
    }
  }

  lemma ZeroCorrection(d: seq<Gf>, c: seq<Gf>, b: seq<Gf>)
    requires IsSum(d, c, ZERO, b)
    ensures d == c
  {
    hide Mul, Add;
    forall i | 0 <= i < |d| ensures d[i] == c[i] {
      NoChange(ZERO, b[i], c[i]);
    }
  }

  /** d + (d / base) base = 0 in characteristic two. */
  lemma Cancels(d: Gf, base: Gf)
    requires base != ZERO
    ensures Add(d, Mul(Mul(Inv(base), d), base)) == ZERO
  {
    hide Mul, Add, Inv;
    InvMul(base);
    MulComm(Inv(base), d);
    MulAssoc(d, Inv(base), base);
    OneRight(d);
    AddCancel(d, d);
  }

  /** The corrected register is silent one term further. */
  lemma CorrectedSilent(c2: seq<Gf>, c: seq<Gf>, l: int, b: seq<Gf>, base: Gf, s: seq<Gf>, n: nat)
    requires Registers(c, l, b, base, n) && Silent(c, s, l, n) && Conv(c, s, n) != ZERO
    requires IsSum(c2, c, Mul(Inv(base), Conv(c, s, n)), b)
    requires l > 0 ==> Silent(b, s, n + 1 - l, n) && Conv(b, s, n) == base
    ensures Silent(c2, s, NextLength(Conv(c, s, n), l, n), n + 1)
  {
    hide Mul, Add, Inv, Conv, IsSum, VanishesAbove;
    var d := Conv(c, s, n);
    var f := Mul(Inv(base), d);
    forall k | NextLength(d, l, n) <= k < n + 1 ensures Conv(c2, s, k) == ZERO {
      ConvSum(c2, c, f, b, s, k);
      if k == n {
        Cancels(d, base);
      } else {
        ZeroRight(f); AddZero(ZERO);
      }
    }
  }

  lemma ShiftedVanishes(b: seq<Gf>, k: int)
    requires |b| > 0 && VanishesAbove(b, k)
    ensures VanishesAbove(Shifted(b), k + 1)
  {
  }

  /** The register kept for later corrections, moved up one place, serves the next step. */
  lemma ShiftedSilent(b: seq<Gf>, s: seq<Gf>, lo: int, n: int)
    requires |b| == SYS_T + 1 && VanishesAbove(b, lo) && lo + 1 <= SYS_T
    requires Silent(b, s, lo, n)
    ensures Silent(Shifted(b), s, lo + 1, n + 1) && Conv(Shifted(b), s, n + 1) == Conv(b, s, n)
  {
    hide Conv, Shifted;
    var d := Shifted(b);
    forall k | lo + 1 <= k < n + 1 ensures Conv(d, s, k) == ZERO {
      ConvShift(b, s, k);
      assert Conv(b, s, k - 1) == ZERO;
    }
    ConvShift(b, s, n + 1);
  }

  /** One step of the algorithm keeps what holds of every sequence ... */
  lemma RegistersStep(c2: seq<Gf>, c: seq<Gf>, l: int, b: seq<Gf>, base: Gf, s: seq<Gf>, n: nat)
    requires Registers(c, l, b, base, n)
    requires IsSum(c2, c, Mul(Inv(base), Conv(c, s, n)), b)
    ensures var d := Conv(c, s, n);
            var grows := d != ZERO && 2 * l <= n;
            Registers(c2, NextLength(d, l, n), Shifted(if grows then c else b), if grows then d else base, n + 1)
  {
    hide Mul, Add, Inv, Conv;
    var d := Conv(c, s, n);
    var f := Mul(Inv(base), d);
    NoChange(f, ZERO, c[0]);
    if d == ZERO {
      ZeroRight(Inv(base));
      ZeroCorrection(c2, c, b);
    } else if 2 * l <= n {
      CorrectedVanishes(c2, c, f, b, l, n + 1 - l);
    } else {
      CorrectedVanishesLow(c2, c, f, b, l, n + 1 - l);
    }
    ShiftedVanishes(b, n + 1 - l);
    ShiftedVanishes(c, l);
  }

  /** ... and, for a short sequence, what makes c a shortest recurrence so far. */
  lemma SoundStep(c2: seq<Gf>, c: seq<Gf>, l: int, b: seq<Gf>, base: Gf, s: seq<Gf>, n: nat)
    requires Registers(c, l, b, base, n) && Sound(c, l, b, base, s, n) && Short(s) && n < |s|
    requires IsSum(c2, c, Mul(Inv(base), Conv(c, s, n)), b)
    ensures var d := Conv(c, s, n);
            var grows := d != ZERO && 2 * l <= n;
            Sound(c2, NextLength(d, l, n), Shifted(if grows then c else b), if grows then d else base, s, n + 1)
  {
    hide Mul, Add, Inv, Conv, IsSum, Minimal, Short, VanishesAbove, Silent, Shifted;
    var d := Conv(c, s, n);
    var l2 := NextLength(d, l, n);
    MinimalStep(c, l, s, n);
    MinimalReach(l2, s, n + 1);
    if d == ZERO {
      ZeroRight(Inv(base));
      ZeroCorrection(c2, c, b);
      SilentMore(c, s, l, n);
    } else {
      Reachable(c, l, s, n);
      CorrectedSilent(c2, c, l, b, base, s, n);
    }
    if d != ZERO && 2 * l <= n {
      if l + 1 <= SYS_T { ShiftedSilent(c, s, l, n); }
    } else if l > 0 && n + 2 - l <= SYS_T {
      ShiftedSilent(b, s, n + 1 - l, n);
    }
  }

  lemma SilentMore(c: seq<Gf>, s: seq<Gf>, l: int, n: int)
    requires Silent(c, s, l, n) && Conv(c, s, n) == ZERO
    ensures Silent(c, s, l, n + 1)
  {
    hide Conv;
  }

  // ----- masks

  /** All ones when d is not zero, as the source computes it on 16-bit words. */
  function NonzeroMask(d: bv16): bv16
  {
    ((d - 1) >> 15) - 1
  }

  lemma NonzeroMaskIs(d: Gf)
    ensures NonzeroMask(d.bits) == if d == ZERO then 0 else 0xFFFF
  {
  }

  /** (a & !mask) | (b & mask). */
  function Choose(a: Gf, b: Gf, mask: bv16): Gf
  {
    Gf((a.bits & !mask) | (b.bits & mask))
  }

  lemma ChooseIs(a: Gf, b: Gf)
    ensures Choose(a, b, 0) == a && Choose(a, b, 0xFFFF) == b
  {
  }

  /** 16-bit unsigned arithmetic. */
  function Word16(x: int): (w: int)
    ensures 0 <= w < 0x10000
  {
    x % 0x10000
  }

  /** All ones when n >= 2 l, from the sign bit of n - 2 l. */
  function GrowMask(n: nat, l: nat): bv16
  {
    if Word16(n - Word16(l * 2)) / 0x8000 == 0 then 0xFFFF else 0
  }

  lemma GrowMaskIs(n: nat, l: nat)
    requires n < 0x4000 && l < 0x4000
    ensures GrowMask(n, l) == if 2 * l <= n then 0xFFFF else 0
  {
  }

  // ----- the loops of bm

  /** The discrepancy: the inner loop stops at the end of c or at the start of s. */
  method Discrepancy(c: array<Gf>, s: array<Gf>, n: nat) returns (d: Gf)
    requires c.Length == SYS_T + 1 && n < s.Length
    ensures d == Conv(c[..], s[..], n)
  {
    hide Mul, Add;
    d := ZERO;
    var last := if n < SYS_T then n else SYS_T;
    for i := 0 to last + 1
      invariant d == Conv(c[..i], s[..], n)
    {
      var p := GfMul(c[i], s[n - i]);
      ConvAppend(c[..i], c[i], s[..], n);
      assert c[..i + 1] == c[..i] + [c[i]];
      d := Add(d, p);
    }
    if last == n {
      assert c[..][..n + 1] == c[..n + 1];
      ConvPrefix(c[..], s[..], n, n + 1);
    } else {
      assert c[..last + 1] == c[..];
    }
  }

  /** c[i] ^= gf_mul(f, b[i]) & mne, for every i. */
  method Correct(c: array<Gf>, b: array<Gf>, f: Gf, mne: bv16)
    requires c.Length == b.Length == SYS_T + 1 && c != b
    requires mne == 0 || mne == 0xFFFF
    modifies c
    ensures IsSum(c[..], old(c[..]), if mne == 0 then ZERO else f, b[..])
  {
    hide Mul, Add;
    for i := 0 to SYS_T + 1
      invariant forall k :: 0 <= k < i ==> c[k] == Add(old(c[k]), Mul(if mne == 0 then ZERO else f, b[k]))
      invariant forall k :: i <= k <= SYS_T ==> c[k] == old(c[k])
    {
      var p := GfMul(f, b[i]);
      ChooseIs(ZERO, p);
      ZeroLeft(b[i]);
      c[i] := Add(c[i], Choose(ZERO, p, mne));
    }
  }

  /** b[i] = (b[i] & !mle) | (t[i] & mle), for every i. */
  method Replace(b: array<Gf>, t: seq<Gf>, mle: bv16)
    requires b.Length == |t|
    requires mle == 0 || mle == 0xFFFF
    modifies b
    ensures b[..] == if mle == 0 then old(b[..]) else t
  {
    hide Choose;
    for i := 0 to b.Length
      invariant forall k :: 0 <= k < i ==> b[k] == if mle == 0 then old(b[k]) else t[k]
      invariant forall k :: i <= k < b.Length ==> b[k] == old(b[k])
    {
      ChooseIs(b[i], t[i]);
      b[i] := Choose(b[i], t[i], mle);
    }
  }

  /** b times x: the entries move up from the top one down. */
  method ShiftUp(b: array<Gf>)
    requires b.Length == SYS_T + 1
    modifies b
    ensures b[..] == Shifted(old(b[..]))
  {
    var i := SYS_T;
    while i >= 1
      invariant 0 <= i <= SYS_T
      invariant forall k :: 0 <= k <= i ==> b[k] == old(b[k])
      invariant forall k :: i < k <= SYS_T ==> b[k] == old(b[k - 1])
    {
      b[i] := b[i - 1];
      i := i - 1;
    }
    b[0] := ZERO;
  }

  /**
   bm: out is monic of degree SYS_T, and when s has a recurrence of length SYS_T or less, its
   coefficients, from the top one down, are such a recurrence, of the least length l.
   */
  method Bm(out: array<Gf>, s: array<Gf>) returns (ghost l: nat)
    requires out.Length == SYS_T + 1 && s.Length == 2 * SYS_T && out != s
    modifies out
    ensures out[SYS_T] == ONE
    ensures Short(s[..]) ==>
              l <= SYS_T && Generates(Reversed(out[..]), l, s[..], 2 * SYS_T) && Minimal(l, s[..], 2 * SYS_T)
  {
    hide Mul, Add, Inv, Conv, Minimal, Short, IsSum, Sound, Choose, Shifted, NonzeroMask, GrowMask;
    var len: nat := 0;
    var c := new Gf[SYS_T + 1](_ => ZERO);
    var b := new Gf[SYS_T + 1](_ => ZERO);
    var base := ONE;
    b[1] := ONE;
    c[0] := ONE;
    Start(c[..], b[..], s[..]);
    for n := 0 to 2 * SYS_T
      invariant Registers(c[..], len, b[..], base, n)
      invariant Short(s[..]) ==> Sound(c[..], len, b[..], base, s[..], n)
    {
      var d := Discrepancy(c, s, n);
      var mne := NonzeroMask(d.bits);
      var mle := GrowMask(n, len) & mne;
      NonzeroMaskIs(d);
      GrowMaskIs(n, len);
      MaskAnd(GrowMask(n, len));
      var t := c[..];
      ghost var bs := b[..];
      var f := GfFrac(base, d);
      Correct(c, b, f, mne);
      if d == ZERO { ZeroRight(Inv(base)); }
      RegistersStep(c[..], t, len, bs, base, s[..], n);
      if Short(s[..]) { SoundStep(c[..], t, len, bs, base, s[..], n); }
      len := if mle == 0 then len else n + 1 - len;
      Replace(b, t, mle);
      ChooseIs(base, d);
      base := Choose(base, d, mle);
      ShiftUp(b);
    }
    l := len;
    if Short(s[..]) { Finish(c[..], l, b[..], base, s[..], 2 * SYS_T); }
    CopyOut(out, c);
  }

  lemma Finish(c: seq<Gf>, l: nat, b: seq<Gf>, base: Gf, s: seq<Gf>, n: nat)
    requires Registers(c, l, b, base, n) && Sound(c, l, b, base, s, n)
    ensures l <= SYS_T && Generates(c, l, s, n) && Minimal(l, s, n)
  {
    hide Conv, Minimal;
  }

  /** out[i] = c[SYS_T - i], for every i. */
  method CopyOut(out: array<Gf>, c: array<Gf>)
    requires out.Length == c.Length == SYS_T + 1 && out != c
    modifies out
    ensures Reversed(out[..]) == c[..] && out[SYS_T] == c[0]
  {
    for i := 0 to SYS_T + 1
      invariant forall k :: 0 <= k < i ==> out[k] == c[SYS_T - k]
    {
      out[i] := c[SYS_T - i];
    }
    assert Reversed(out[..]) == c[..];
  }

  lemma MaskAnd(mask: bv16)
    ensures mask & 0 == 0 && mask & 0xFFFF == mask
  {
  }

  lemma Start(c: seq<Gf>, b: seq<Gf>, s: seq<Gf>)
    requires |c| == |b| == SYS_T + 1 && c[0] == ONE && b[1] == ONE && b[0] == ZERO
    requires VanishesAbove(c, 0) && VanishesAbove(b, 1)
    ensures Registers(c, 0, b, ONE, 0) && Sound(c, 0, b, ONE, s, 0)
  {
    hide Conv;
    SplitZero();
  }
}
