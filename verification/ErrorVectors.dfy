/** gen_e (src/encrypt.rs): error vectors of weight SYS_T, from random numbers. */
module ErrorVectors {
  import opened Params
  import opened Words
  import opened Polynomials

  /** The numbers that are positions of the code, in order. */
  function Candidates(nums: seq<nat>): (c: seq<nat>)
    ensures |c| <= |nums| && forall j :: 0 <= j < |c| ==> c[j] < SYS_N
  {
    if nums == [] then [] else
      var n := |nums| - 1;
      Candidates(nums[..n]) + if nums[n] < SYS_N then [nums[n]] else []
  }

  predicate Different(s: seq<nat>)
  {
    forall i, j :: 0 <= j < i < |s| ==> s[i] != s[j]
  }

  /** There are enough candidates, and the first SYS_T of them are all different. */
  predicate Accepted(nums: seq<nat>)
  {
    |Candidates(nums)| >= SYS_T && Different(Candidates(nums)[..SYS_T])
  }

  /** The vector that is set at the first SYS_T candidates. */
  function ErrorOf(nums: seq<nat>): (v: seq<bool>)
    requires |Candidates(nums)| >= SYS_T
    ensures |v| == SYS_N
  {
    Marked(Candidates(nums)[..SYS_T], SYS_N)
  }

  function Marked(ind: seq<nat>, n: nat): (v: seq<bool>)
    ensures |v| == n && forall i :: 0 <= i < n ==> v[i] == (i in ind)
  {
    seq(n, i requires 0 <= i < n => i in ind)
  }

  lemma {:induction false} CandidatesPrefix(nums: seq<nat>, k: nat)
    requires k <= |nums|
    ensures Candidates(nums[..k]) <= Candidates(nums)
    decreases |nums|
  {
    if k == |nums| {
      assert nums[..k] == nums;
    } else {
      CandidatesPrefix(nums[..|nums| - 1], k);
      assert nums[..|nums| - 1][..k] == nums[..k];
    }
  }

  // ----- what is made of any numbers, in terms of their indices

  lemma {:induction false} CandidatesAppend(a: seq<nat>, b: seq<nat>)
    ensures Candidates(a + b) == Candidates(a) + Candidates(b)
    decreases |b|
  {
    if b == [] {
      assert a + b == a;
    } else {
      var n := |b| - 1;
      assert (a + b)[..|a + b| - 1] == a + b[..n];
      CandidatesAppend(a, b[..n]);
    }
  }

  /** A number that is not a position has no effect. */
  lemma Skipped(a: seq<nat>, x: nat, b: seq<nat>)
    requires x >= SYS_N
    ensures Candidates(a + [x] + b) == Candidates(a + b)
    ensures Accepted(a + [x] + b) <==> Accepted(a + b)
    ensures Accepted(a + b) ==> ErrorOf(a + [x] + b) == ErrorOf(a + b)
  {
    hide Different;
    CandidatesAppend(a + [x], b); CandidatesAppend(a, [x]); CandidatesAppend(a, b);
    assert [x][..0] == [];
    assert Candidates([x]) == [];
  }

  /** How many of the numbers before index j are positions. */
  function Earlier(nums: seq<nat>, j: nat): (n: nat)
    requires j <= |nums|
  {
    if j == 0 then 0 else Earlier(nums, j - 1) + if nums[j - 1] < SYS_N then 1 else 0
  }

  lemma {:induction false} EarlierPrefix(nums: seq<nat>, n: nat, j: nat)
    requires j <= n <= |nums|
    ensures Earlier(nums[..n], j) == Earlier(nums, j)
    decreases j
  {
    if j > 0 { EarlierPrefix(nums, n, j - 1); }
  }

  lemma {:induction false} EarlierMono(nums: seq<nat>, i: nat, j: nat)
    requires i < j <= |nums|
    ensures Earlier(nums, i) <= Earlier(nums, j)
    ensures nums[i] < SYS_N ==> Earlier(nums, i) < Earlier(nums, j)
    decreases j
  {
    if i < j - 1 { EarlierMono(nums, i, j - 1); }
  }

  /** A position at index j is candidate number Earlier(nums, j), and there are no other candidates. */
  ghost predicate Numbered(nums: seq<nat>, c: seq<nat>)
  {
    && |c| == Earlier(nums, |nums|)
    && (forall j :: 0 <= j < |nums| && nums[j] < SYS_N ==> Earlier(nums, j) < |c| && c[Earlier(nums, j)] == nums[j])
    && forall m :: 0 <= m < |c| ==> StandsIn(c[m], m, nums)
  }

  /** v is position number m among the numbers. */
  ghost predicate StandsIn(v: nat, m: nat, nums: seq<nat>)
  {
    exists j :: 0 <= j < |nums| && Earlier(nums, j) == m && nums[j] == v
  }

  lemma EarlierNext(nums: seq<nat>, j: nat)
    requires j < |nums|
    ensures Earlier(nums, j + 1) == Earlier(nums, j) + if nums[j] < SYS_N then 1 else 0
  {
  }

  lemma {:induction false} CandidatesAre(nums: seq<nat>)
    ensures Numbered(nums, Candidates(nums))
  {
    hide Earlier, Numbered;
    if nums == [] {
      NoneNumbered(nums);
    } else {
      CandidatesAre(nums[..|nums| - 1]);
      NumberedNext(nums, Candidates(nums[..|nums| - 1]));
    }
  }

  lemma NoneNumbered(nums: seq<nat>)
    requires nums == []
    ensures Numbered(nums, [])
  {
  }

  lemma NumberedNext(nums: seq<nat>, c: seq<nat>)
    requires nums != [] && Numbered(nums[..|nums| - 1], c)
    ensures Numbered(nums, c + if nums[|nums| - 1] < SYS_N then [nums[|nums| - 1]] else [])
  {
    hide Earlier;
    var n := |nums| - 1;
    var (h, d) := (nums[..n], c + if nums[n] < SYS_N then [nums[n]] else []);
    EarlierNext(nums, n);
    forall j | 0 <= j <= n ensures Earlier(h, j) == Earlier(nums, j) { EarlierPrefix(nums, n, j); }
    forall m | 0 <= m < |c| ensures StandsIn(c[m], m, nums) {
      var j :| 0 <= j < |h| && Earlier(h, j) == m && h[j] == c[m];
      assert Earlier(nums, j) == m && nums[j] == c[m];
    }
    assert StandsIn(nums[n], |c|, nums);
    forall j | 0 <= j < n && nums[j] < SYS_N ensures Earlier(nums, j) < |c| && c[Earlier(nums, j)] == nums[j] {
      assert h[j] == nums[j];
    }
  }

  /** Enough of the numbers are positions, and the first SYS_T of these do not repeat. */
  lemma AcceptedIs(nums: seq<nat>)
    ensures Accepted(nums) <==>
              && Earlier(nums, |nums|) >= SYS_T
              && forall i, j :: 0 <= i < j < |nums| && nums[i] == nums[j] < SYS_N ==> Earlier(nums, j) >= SYS_T
  {
    hide Earlier, Candidates;
    CandidatesAre(nums);
    var c := Candidates(nums);
    if Accepted(nums) {
      var h := c[..SYS_T];
      forall a, b | 0 <= a < b < SYS_T ensures c[a] != c[b] { assert h[a] == c[a] && h[b] == c[b]; }
      forall i, j | 0 <= i < j < |nums| && nums[i] == nums[j] < SYS_N ensures Earlier(nums, j) >= SYS_T {
        EarlierMono(nums, i, j);
      }
    }
    if |c| >= SYS_T && forall i, j :: 0 <= i < j < |nums| && nums[i] == nums[j] < SYS_N ==> Earlier(nums, j) >= SYS_T {
      forall a, b | 0 <= b < a < SYS_T ensures c[..SYS_T][a] != c[..SYS_T][b] {
        var i :| 0 <= i < |nums| && Earlier(nums, i) == b && nums[i] == c[b];
        var j :| 0 <= j < |nums| && Earlier(nums, j) == a && nums[j] == c[a];
        if j < i { EarlierMono(nums, j, i); }
      }
    }
  }

  /** Position q is set exactly if it is one of the first SYS_T positions among the numbers. */
  lemma ErrorOfIs(nums: seq<nat>, q: nat)
    requires |Candidates(nums)| >= SYS_T && q < SYS_N
    ensures ErrorOf(nums)[q] <==> exists j :: 0 <= j < |nums| && nums[j] == q && Earlier(nums, j) < SYS_T
  {
    hide Earlier, Candidates;
    CandidatesAre(nums);
    var c := Candidates(nums);
    if q in c[..SYS_T] {
      var m :| 0 <= m < SYS_T && c[..SYS_T][m] == q;
      var j :| 0 <= j < |nums| && Earlier(nums, j) == m && nums[j] == c[m];
      assert nums[j] == q && Earlier(nums, j) < SYS_T;
    }
    if exists j :: 0 <= j < |nums| && nums[j] == q && Earlier(nums, j) < SYS_T {
      var j :| 0 <= j < |nums| && nums[j] == q && Earlier(nums, j) < SYS_T;
      assert c[..SYS_T][Earlier(nums, j)] == q;
    }
  }

  /** Marking different positions below n sets as many bits. */
  lemma {:induction false} MarkedWeight(ind: seq<nat>, n: nat)
    requires Different(ind) && forall j :: 0 <= j < |ind| ==> ind[j] < n
    ensures Weight(Marked(ind, n)) == |ind|
    decreases n
  {
    if n > 0 {
      var v := Marked(ind, n);
      var h := v[..n - 1];
      if n - 1 in ind {
        var j :| 0 <= j < |ind| && ind[j] == n - 1;
        var d := ind[..j] + ind[j + 1..];
        forall i | 0 <= i < n - 1 ensures (i in d) == (i in ind) {
          Without(ind, j, i);
        }
        MarkedWeight(d, n - 1);
        assert h == Marked(d, n - 1);
      } else {
        MarkedWeight(ind, n - 1);
        assert h == Marked(ind, n - 1);
      }
    }
  }

  lemma Without(ind: seq<nat>, j: nat, i: nat)
    requires j < |ind| && i != ind[j]
    ensures (i in ind[..j] + ind[j + 1..]) == (i in ind)
  {
    if i in ind {
      var k :| 0 <= k < |ind| && ind[k] == i;
      assert if k < j then ind[..j][k] == i else ind[j + 1..][k - j - 1] == i;
    }
  }

  /** Every accepted choice has weight SYS_T. */
  lemma ErrorWeight(nums: seq<nat>)
    requires Accepted(nums)
    ensures Weight(ErrorOf(nums)) == SYS_T
  {
    MarkedWeight(Candidates(nums)[..SYS_T], SYS_N);
  }

  /** The positions that are set. */
  function Positions(v: seq<bool>): (p: seq<nat>)
    ensures |p| == Weight(v) && Different(p) && forall j :: 0 <= j < |p| ==> p[j] < |v| && v[p[j]]
  {
    if v == [] then [] else
      var n := |v| - 1;
      Positions(v[..n]) + if v[n] then [n] else []
  }

  lemma {:induction false} PositionsAll(v: seq<bool>, i: nat)
    requires i < |v| && v[i]
    ensures i in Positions(v)
  {
    if i < |v| - 1 {
      PositionsAll(v[..|v| - 1], i);
    }
  }

  lemma {:induction false} AllCandidates(p: seq<nat>)
    requires forall j :: 0 <= j < |p| ==> p[j] < SYS_N
    ensures Candidates(p) == p
  {
    if p != [] {
      AllCandidates(p[..|p| - 1]);
    }
  }

  /** No vector of weight SYS_T is left out. */
  lemma EveryError(v: seq<bool>)
    requires |v| == SYS_N && Weight(v) == SYS_T
    ensures Accepted(Positions(v)) && ErrorOf(Positions(v)) == v
  {
    var p := Positions(v);
    AllCandidates(p);
    assert p[..SYS_T] == p;
    PositionsMark(v);
  }

  lemma PositionsMark(v: seq<bool>)
    ensures Marked(Positions(v), |v|) == v
  {
    forall i | 0 <= i < |v| && v[i] ensures i in Positions(v) { PositionsAll(v, i); }
  }

  /** The first SYS_T candidates, if there are as many. */
  method Collect(nums: seq<nat>, ind: array<nat>) returns (count: nat)
    requires ind.Length == SYS_T
    modifies ind
    ensures count <= SYS_T && (count == SYS_T <==> |Candidates(nums)| >= SYS_T)
    ensures count == SYS_T ==> ind[..] == Candidates(nums)[..SYS_T]
  {
    count := 0;
    for i := 0 to |nums|
      invariant count <= SYS_T && ind[..count] == Candidates(nums[..i])
    {
      if count >= SYS_T {
        CandidatesPrefix(nums, i);
        return;
      }
      assert nums[..i + 1][..i] == nums[..i];
      if nums[i] < SYS_N {
        ind[count] := nums[i];
        count := count + 1;
      }
    }
    assert nums[..|nums|] == nums;
  }

  /** The check for repetitions. */
  method Repeated(ind: array<nat>) returns (eq: bool)
    requires ind.Length > 0
    ensures eq <==> !Different(ind[..])
  {
    eq := false;
    for i := 1 to ind.Length
      invariant eq <==> !Different(ind[..i])
    {
      ghost var before := eq;
      for j := 0 to i
        invariant eq <==> before || exists k :: 0 <= k < j && ind[k] == ind[i]
      {
        if ind[i] == ind[j] {
          eq := true;
        }
      }
      assert ind[..i + 1] == ind[..i] + [ind[i]];
    }
    assert ind[..ind.Length] == ind[..];
  }

  /** val[j] & same_mask_u8(i, ind[j] >> 3): a single bit, if it lies in byte i. */
  function BitIn(p: nat, i: nat): bv8
  {
    if i == p / 8 then Mask(p % 8) else 0
  }

  lemma BitInIs(x: bv8, p: nat, i: nat, k: nat)
    requires k < 8
    ensures Bit(x | BitIn(p, i), k) == (Bit(x, k) || p == 8 * i + k)
    ensures !Bit(0, k)
  {
    hide Mask, Bit;
    ZeroBit(k);
    if i == p / 8 {
      OrBit(x, p % 8, k);
    } else {
      assert x | 0 == x;
    }
  }

  lemma ZeroBit(k: nat)
    requires k < 8
    ensures !Bit(0, k)
  {
  }

  /** Byte i of the vector that is set at the positions p. */
  predicate ByteMarks(b: bv8, i: nat, p: seq<nat>)
  {
    forall k :: 0 <= k < 8 ==> (Bit(b, k) <==> 8 * i + k in p)
  }

  lemma NextMark(b: bv8, i: nat, p: seq<nat>, j: nat)
    requires j < |p| && ByteMarks(b, i, p[..j])
    ensures ByteMarks(b | BitIn(p[j], i), i, p[..j + 1])
  {
    hide Bit, BitIn;
    assert p[..j + 1] == p[..j] + [p[j]];
    var d := b | BitIn(p[j], i);
    forall k | 0 <= k < 8 ensures Bit(d, k) <==> 8 * i + k in p[..j + 1] {
      BitInIs(b, p[j], i, k);
    }
  }

  lemma NoMarks(i: nat)
    ensures ByteMarks(0, i, [])
  {
    hide Bit;
    forall k | 0 <= k < 8 ensures !Bit(0, k) { ZeroBit(k); }
  }

  /**
   One pass of gen_e over the random numbers nums; it is repeated if they are not accepted. Numbers that
   are not positions are skipped; of the others the first SYS_T have to be different, and are set.
   */
  method GenE(e: array<bv8>, nums: seq<nat>) returns (ok: bool)
    requires 8 * e.Length == SYS_N
    modifies e
    ensures ok <==> Accepted(nums)
    ensures ok <==>
              && Earlier(nums, |nums|) >= SYS_T
              && forall i, j :: 0 <= i < j < |nums| && nums[i] == nums[j] < SYS_N ==> Earlier(nums, j) >= SYS_T
    ensures ok ==> BitsOf(e[..]) == ErrorOf(nums)
    ensures ok ==> forall q :: 0 <= q < SYS_N ==>
              (BitsOf(e[..])[q] <==> exists j :: 0 <= j < |nums| && nums[j] == q && Earlier(nums, j) < SYS_T)
  {
    hide ByteMarks, BitIn, Different, Earlier;
    AcceptedIs(nums);
    var ind := new nat[SYS_T](_ => 0);
    var count := Collect(nums, ind);
    if count < SYS_T {
      return false;
    }
    var eq := Repeated(ind);
    if eq {
      return false;
    }
    ghost var p := ind[..];
    for i := 0 to e.Length
      invariant ind[..] == p
      invariant forall c :: 0 <= c < i ==> ByteMarks(e[c], c, p)
    {
      e[i] := 0;
      NoMarks(i);
      assert p[..0] == [];
      for j := 0 to SYS_T
        invariant ind[..] == p
        invariant forall c :: 0 <= c < i ==> ByteMarks(e[c], c, p)
        invariant ByteMarks(e[i], i, p[..j])
      {
        NextMark(e[i], i, p, j);
        e[i] := e[i] | BitIn(ind[j], i);
      }
      assert p[..SYS_T] == p;
    }
    MarkedBytes(e[..], p);
    forall q | 0 <= q < SYS_N
      ensures ErrorOf(nums)[q] <==> exists j :: 0 <= j < |nums| && nums[j] == q && Earlier(nums, j) < SYS_T
    {
      ErrorOfIs(nums, q);
    }
    ok := true;
  }

  lemma MarkedBytes(b: seq<bv8>, p: seq<nat>)
    requires forall c :: 0 <= c < |b| ==> ByteMarks(b[c], c, p)
    ensures BitsOf(b) == Marked(p, 8 * |b|)
  {
    hide Bit;
    forall q | 0 <= q < 8 * |b| ensures BitsOf(b)[q] == Marked(p, 8 * |b|)[q] {
      assert ByteMarks(b[q / 8], q / 8, p);
    }
  }
}
