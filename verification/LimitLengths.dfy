/** The tail of jpeg_gen_optimal_table: counting code lengths, the section K.2
    adjustment to 16 bits, the reserved code slot and the sorted symbol list. */
module LimitLengths {
  import opened Arith
  import opened HuffTable
  import opened HuffmanMerge

  const MAXCLEN := 32

  /** How many entries of cs equal k. */
  function Hist(cs: seq<nat>, k: nat): nat {
    if cs == [] then 0 else Hist(cs[..|cs| - 1], k) + if cs[|cs| - 1] == k then 1 else 0
  }

  /** How many entries of cs lie between 1 and k. */
  function HistUpto(cs: seq<nat>, k: nat): nat {
    if k == 0 then 0 else HistUpto(cs, k - 1) + Hist(cs, k)
  }

  lemma {:induction false} HistAppend(cs: seq<nat>, x: nat, k: nat)
    ensures Hist(cs + [x], k) == Hist(cs, k) + if x == k then 1 else 0
    ensures HistUpto(cs + [x], k) == HistUpto(cs, k) + if 1 <= x <= k then 1 else 0
    decreases k
  {
    assert (cs + [x])[..|cs|] == cs;
    if k > 0 {
      HistAppend(cs, x, k - 1);
    }
  }

  lemma {:induction false} HistUptoMono(cs: seq<nat>, k: nat, m: nat)
    requires k <= m
    ensures HistUpto(cs, k) <= HistUpto(cs, m)
    ensures k < m ==> HistUpto(cs, k) + Hist(cs, m) <= HistUpto(cs, m)
  {
    if k < m {
      HistUptoMono(cs, k, m - 1);
    }
  }

  lemma {:induction false} HistUptoBound(cs: seq<nat>, k: nat)
    ensures HistUpto(cs, k) <= |cs|
    decreases |cs|
  {
    if cs == [] {
      HistEmpty(k);
    } else {
      var n := |cs| - 1;
      assert cs == cs[..n] + [cs[n]];
      HistAppend(cs[..n], cs[n], k);
      HistUptoBound(cs[..n], k);
    }
  }

  lemma {:induction false} HistEmpty(k: nat)
    ensures Hist([], k) == 0 && HistUpto([], k) == 0
  {
    if k > 0 {
      HistEmpty(k - 1);
    }
  }

  lemma {:induction false} HistPrefixMono(cs: seq<nat>, j: nat, k: nat)
    requires j <= |cs|
    ensures Hist(cs[..j], k) <= Hist(cs, k)
    decreases |cs|
  {
    if j < |cs| {
      var n := |cs| - 1;
      assert cs[..n][..j] == cs[..j];
      HistPrefixMono(cs[..n], j, k);
    } else {
      assert cs[..j] == cs;
    }
  }

  /** The counts in bits are the histogram of cs. */
  ghost predicate Counts(bits: seq<nat>, cs: seq<nat>) {
    && |bits| == MAXCLEN + 1
    && (forall k :: 1 <= k <= MAXCLEN ==> bits[k] == Hist(cs, k))
  }

  lemma {:induction false} CountsUpto(bits: seq<nat>, cs: seq<nat>, k: nat)
    requires Counts(bits, cs) && k <= MAXCLEN
    ensures Upto(bits, k) == HistUpto(cs, k)
  {
    if k > 0 {
      CountsUpto(bits, cs, k - 1);
    }
  }

  lemma {:induction false} CountsKraft(bits: seq<nat>, cs: seq<nat>, m: nat)
    requires |bits| == m + 1
    requires forall k :: 1 <= k <= m ==> bits[k] == Hist(cs, k)
    requires forall s :: 0 <= s < |cs| ==> cs[s] <= m
    ensures Kraft(bits, m) == Sum(KraftTerms(cs, cs, m))
    decreases |cs|
  {
    hide Hist, Kraft, Pow2;
    if cs == [] {
      forall k | 1 <= k <= m
        ensures bits[k] == 0
      {
        HistEmpty(k);
      }
      KraftZero(bits, m);
    } else {
      var front, x := cs[..|cs| - 1], cs[|cs| - 1];
      assert cs == front + [x];
      KraftTermsAppend(front, x, m);
      forall k: nat
        ensures Hist(cs, k) == Hist(front, k) + if x == k then 1 else 0
      {
        HistAppend(front, x, k);
      }
      if x == 0 {
        CountsKraft(bits, front, m);
      } else {
        assert bits[x] == Hist(front, x) + 1;
        CountsKraft(bits[x := bits[x] - 1], front, m);
        KraftMove(bits, x, -1, m);
      }
    }
  }

  lemma {:induction false} KraftTermsAppend(cs: seq<nat>, x: nat, m: nat)
    ensures Sum(KraftTerms(cs + [x], cs + [x], m)) == Sum(KraftTerms(cs, cs, m)) + KraftTerm(x, x, m)
  {
    var t, one := KraftTerms(cs, cs, m), [KraftTerm(x, x, m)];
    assert KraftTerms(cs + [x], cs + [x], m) == t + one;
    SumAppend(t, one);
    assert one[1..] == [];
  }

  lemma {:induction false} KraftZero(bits: seq<nat>, l: nat)
    requires l < |bits| && forall k :: 0 < k <= l ==> bits[k] == 0
    ensures Kraft(bits, l) == 0
  {
    if l > 0 {
      KraftZero(bits, l - 1);
    }
  }

  /** Fill bits[] with the number of symbols of each code length; fail on a
      length that bits[] has no entry for. */
  method CountLengths(codesize: array<nat>) returns (ok: bool, bits: array<UInt8>)
    requires forall k :: Hist(codesize[..], k) <= 255 || k == 0
    ensures fresh(bits) && bits.Length == MAXCLEN + 1
    ensures ok <==> forall s :: 0 <= s < codesize.Length ==> codesize[s] <= MAXCLEN
    ensures ok ==> Counts(bits[..], codesize[..])
  {
    bits := new UInt8[MAXCLEN + 1](i => 0);
    ok := true;
    for i := 0 to codesize.Length
      invariant fresh(bits)
      invariant forall s :: 0 <= s < i ==> codesize[s] <= MAXCLEN
      invariant Counts(bits[..], codesize[..i])
    {
      ghost var x := codesize[i];
      assert codesize[..i + 1] == codesize[..i] + [x];
      forall k: nat
        ensures Hist(codesize[..i + 1], k) == Hist(codesize[..i], k) + if x == k then 1 else 0
      {
        HistAppend(codesize[..i], x, k);
      }
      if codesize[i] != 0 {
        if codesize[i] > MAXCLEN {
          ok := false;
          return;
        }
        assert Hist(codesize[..], x) <= 255;
        HistPrefixMono(codesize[..], i + 1, x);
        assert codesize[..][..i + 1] == codesize[..i + 1];
        bits[codesize[i]] := bits[codesize[i]] + 1;
      }
    }
    assert codesize[..codesize.Length] == codesize[..];
  }

  // ----- adjusting the lengths

  /** bits describes a full code tree of n leaves and depth at most i. */
  ghost predicate FullTree(bits: seq<nat>, i: nat, n: nat) {
    && |bits| == MAXCLEN + 1 && 1 <= i <= MAXCLEN
    && (forall k :: i < k <= MAXCLEN ==> bits[k] == 0)
    && Kraft(bits, i) == Pow2(i)
    && Upto(bits, i) == n
  }

  lemma {:induction false} EvenTop(bits: seq<nat>, i: nat, n: nat)
    requires FullTree(bits, i, n)
    ensures bits[i] % 2 == 0
    ensures bits[i] == 0 ==> i > 1 && FullTree(bits, i - 1, n)
  {
    assert Pow2(0) == 1 && Kraft(bits, 0) == 0;
  }

  /** Few symbols cannot fill a deep tree with its two deepest levels alone. */
  lemma {:induction false} FindsPrefix(bits: seq<nat>, i: nat, n: nat) returns (j: nat)
    requires FullTree(bits, i, n) && i > MAXBITS && n <= 255
    ensures 1 <= j <= i - 2 && bits[j] > 0
  {
    if j' :| 1 <= j' <= i - 2 && bits[j'] > 0 {
      j := j';
    } else {
      TwoLevels(bits, i, n);
      assert Pow2(5) == 32;
      Pow2Add(5, 5);
      Pow2Mono(10, i);
      assert false;
    }
  }

  lemma {:induction false} TwoLevels(bits: seq<nat>, i: nat, n: nat)
    requires FullTree(bits, i, n) && i > 2
    requires forall j :: 1 <= j <= i - 2 ==> bits[j] == 0
    ensures Pow2(i) <= 3 * n
  {
    KraftZero(bits, i - 2);
    UptoMono(bits, i - 2, i - 1);
    UptoMono(bits, i - 1, i);
    assert Kraft(bits, i - 1) == bits[i - 1];
  }

  function Adjusted(bits: seq<nat>, i: nat, j: nat): seq<nat>
    requires 1 <= j < i - 1 && i < |bits| && bits[i] >= 2 && bits[j] >= 1
  {
    var b1 := bits[i := bits[i] - 2];
    var b2 := b1[i - 1 := b1[i - 1] + 1];
    var b3 := b2[j + 1 := b2[j + 1] + 2];
    b3[j := b3[j] - 1]
  }

  lemma {:induction false} AdjustKeeps(bits: seq<nat>, i: nat, j: nat, n: nat)
    requires FullTree(bits, i, n) && 1 <= j < i - 1 && bits[i] >= 2 && bits[j] >= 1
    ensures FullTree(Adjusted(bits, i, j), i, n)
  {
    hide Kraft, Upto, Pow2;
    PairPowers(i, j);
    var b1 := bits[i := bits[i] - 2];
    var b2 := b1[i - 1 := b1[i - 1] + 1];
    var b3 := b2[j + 1 := b2[j + 1] + 2];
    KraftMove(bits, i, -2, i);
    KraftMove(b1, i - 1, 1, i);
    KraftMove(b2, j + 1, 2, i);
    KraftMove(b3, j, -1, i);
  }

  lemma {:induction false} PairPowers(i: nat, j: nat)
    requires j < i
    ensures Pow2(i - j) == 2 * Pow2(i - (j + 1)) && Pow2(i - i) == 1 && Pow2(i - (i - 1)) == 2
  {
  }

  lemma {:induction false} KraftMove(bits: seq<nat>, k: nat, d: int, l: nat)
    requires 0 < k <= l < |bits| && bits[k] + d >= 0
    ensures var b := bits[k := bits[k] + d];
            Kraft(b, l) == Kraft(bits, l) + d * Pow2(l - k) && Upto(b, l) == Upto(bits, l) + d
  {
    KraftUpdate(bits, k, bits[k] + d, l);
    UptoUpdate(bits, k, bits[k] + d, l);
  }

  lemma {:induction false} UptoPair(bits: seq<nat>, j: nat, k: nat, l: nat)
    requires 0 < j < k <= l < |bits|
    ensures bits[j] + bits[k] <= Upto(bits, l)
  {
    UptoMono(bits, 0, j - 1);
    UptoMono(bits, j - 1, j);
    UptoMono(bits, j, k);
    UptoMono(bits, k, l);
  }

  /** One step of the section K.2 adjustment at length i, from counts b0 to b1: a pair of codes
      of length i goes; one of the two takes their prefix, of length i - 1; the other shares a
      code of length j with the symbol that had it, both one bit longer. And j is the longest
      length in use below i - 1. */
  ghost predicate MovesPair(b0: seq<nat>, b1: seq<nat>, i: nat, j: nat) {
    && |b0| == |b1| == MAXCLEN + 1 && MAXBITS < i <= MAXCLEN && 1 <= j <= i - 2
    && b0[j] > 0 && (forall l :: j < l <= i - 2 ==> b0[l] == 0)
    && (forall l :: i < l <= MAXCLEN ==> b0[l] == 0) && b0[i] >= 2
    && (forall l :: 0 <= l <= MAXCLEN ==>
          b1[l] + (if l == i then 2 else 0) + (if l == j then 1 else 0)
            == b0[l] + (if l == i - 1 then 1 else 0) + (if l == j + 1 then 2 else 0))
  }

  /** b1 is reached from b0 in n steps. */
  ghost predicate Reaches(b0: seq<nat>, b1: seq<nat>, n: nat)
    decreases n
  {
    if n == 0 then b0 == b1 else exists b: seq<nat>, i: nat, j: nat :: MovesPair(b0, b, i, j) && Reaches(b, b1, n - 1)
  }

  ghost predicate InLimit(b: seq<nat>) {
    |b| == MAXCLEN + 1 && forall l :: MAXBITS < l <= MAXCLEN ==> b[l] == 0
  }

  /** b1 is what the adjustment makes of the counts b0: steps until no length over 16 is in use. */
  ghost predicate Limited(b0: seq<nat>, b1: seq<nat>) {
    InLimit(b1) && exists n :: Reaches(b0, b1, n)
  }

  lemma {:induction false} OneMoreStep(b0: seq<nat>, b: seq<nat>, n: nat, b1: seq<nat>, i: nat, j: nat)
    requires Reaches(b0, b, n) && MovesPair(b, b1, i, j)
    ensures Reaches(b0, b1, n + 1)
    decreases n
  {
    hide MovesPair;
    if n == 0 {
      assert Reaches(b1, b1, 0);
    } else {
      var c: seq<nat>, k: nat, l: nat :| MovesPair(b0, c, k, l) && Reaches(c, b, n - 1);
      OneMoreStep(c, b, n - 1, b1, i, j);
    }
  }

  /** A step is determined by the counts. */
  lemma {:induction false} StepUnique(b0: seq<nat>, b1: seq<nat>, i: nat, j: nat, b2: seq<nat>, k: nat, l: nat)
    requires MovesPair(b0, b1, i, j) && MovesPair(b0, b2, k, l)
    ensures i == k && j == l && b1 == b2
  {
    assert i == k by { assert b0[i] > 0 && b0[k] > 0; }
    assert j == l by { assert b0[j] > 0 && b0[l] > 0; }
    forall m | 0 <= m <= MAXCLEN
      ensures b1[m] == b2[m]
    {
    }
  }

  /** So is the outcome of all steps. */
  lemma {:induction false} OneOutcome(b0: seq<nat>, b1: seq<nat>, n: nat, b2: seq<nat>, m: nat)
    requires Reaches(b0, b1, n) && Reaches(b0, b2, m) && InLimit(b1) && InLimit(b2)
    ensures b1 == b2
    decreases n
  {
    hide MovesPair, InLimit;
    if n > 0 {
      var c: seq<nat>, i: nat, j: nat :| MovesPair(b0, c, i, j) && Reaches(c, b1, n - 1);
      StillOver(b0, c, i, j);
      var d: seq<nat>, k: nat, l: nat :| MovesPair(b0, d, k, l) && Reaches(d, b2, m - 1);
      StepUnique(b0, c, i, j, d, k, l);
      OneOutcome(c, b1, n - 1, b2, m - 1);
    } else if m > 0 {
      var d: seq<nat>, k: nat, l: nat :| MovesPair(b0, d, k, l) && Reaches(d, b2, m - 1);
      StillOver(b0, d, k, l);
    }
  }

  lemma {:induction false} StillOver(b0: seq<nat>, b1: seq<nat>, i: nat, j: nat)
    requires MovesPair(b0, b1, i, j)
    ensures !InLimit(b0)
  {
  }

  /** The counts that the adjustment leaves are determined by those it found. */
  lemma {:induction false} LimitedOnce(b0: seq<nat>, b1: seq<nat>, b2: seq<nat>)
    requires Limited(b0, b1) && Limited(b0, b2)
    ensures b1 == b2
  {
    hide Reaches, InLimit;
    var n :| Reaches(b0, b1, n);
    var m :| Reaches(b0, b2, m);
    OneOutcome(b0, b1, n, b2, m);
  }

  /** One code of each length 1 to 16 and two of length 17: the pair at 17 takes its second
      prefix from length 15 and leaves every shorter length alone. */
  lemma {:induction false} LongestPrefixGivesWay(b0: seq<nat>, b1: seq<nat>)
    requires |b0| == MAXCLEN + 1 && Limited(b0, b1)
    requires (forall l :: 1 <= l <= 16 ==> b0[l] == 1) && b0[17] == 2 && forall l :: 17 < l <= MAXCLEN ==> b0[l] == 0
    ensures (forall l :: 1 <= l <= 14 ==> b1[l] == 1) && b1[15] == 0 && b1[16] == 4
  {
    var b := b0[17 := 0][16 := 4][15 := 0];
    assert MovesPair(b0, b, 17, 15);
    NoStep(b0);
    OneMoreStep(b0, b0, 0, b, 17, 15);
    assert Limited(b0, b);
    LimitedOnce(b0, b1, b);
  }

  method LimitTo16(bits: array<UInt8>, ghost n: nat)
    requires FullTree(bits[..], MAXCLEN, n) && n <= 255
    modifies bits
    ensures FullTree(bits[..], MAXBITS, n)
    ensures Limited(old(bits[..]), bits[..])
    ensures old(forall k :: MAXBITS < k <= MAXCLEN ==> bits[k] == 0) ==> bits[..] == old(bits[..])
  {
    hide MovesPair, Reaches;
    ghost var steps: nat := 0;
    NoStep(bits[..]);
    var i := MAXCLEN;
    while i > MAXBITS
      invariant MAXBITS <= i <= MAXCLEN
      invariant FullTree(bits[..], i, n) && Reaches(old(bits[..]), bits[..], steps)
      invariant old(forall k :: MAXBITS < k <= MAXCLEN ==> bits[k] == 0) ==> bits[..] == old(bits[..])
    {
      while bits[i] > 0
        invariant FullTree(bits[..], i, n) && Reaches(old(bits[..]), bits[..], steps)
        invariant old(forall k :: MAXBITS < k <= MAXCLEN ==> bits[k] == 0) ==> bits[..] == old(bits[..])
        decreases bits[i]
      {
        ghost var b := bits[..];
        ghost var j := AdjustOnce(bits, i, n);
        OneMoreStep(old(bits[..]), b, steps, bits[..], i, j);
        steps := steps + 1;
      }
      EvenTop(bits[..], i, n);
      i := i - 1;
    }
  }

  lemma {:induction false} NoStep(b: seq<nat>)
    ensures Reaches(b, b, 0)
  {
  }

  /** Move one pair of longest codes: one takes their prefix, the other shares
      the next shorter code word that is in use. */
  method AdjustOnce(bits: array<UInt8>, i: nat, ghost n: nat) returns (ghost prefix: nat)
    requires FullTree(bits[..], i, n) && n <= 255
    requires i > MAXBITS && bits[i] > 0
    modifies bits
    ensures FullTree(bits[..], i, n)
    ensures bits[i] == old(bits[i]) - 2
    // the prefix comes from the longest length in use below i - 1
    ensures 1 <= prefix <= i - 2 && old(bits[prefix]) > 0
    ensures old(forall l :: prefix < l <= i - 2 ==> bits[l] == 0)
    ensures MovesPair(old(bits[..]), bits[..], i, prefix)
  {
    ghost var b0: seq<nat> := bits[..];
    EvenTop(b0, i, n);
    ghost var w := FindsPrefix(b0, i, n);
    var j := i - 2;
    while bits[j] == 0
      invariant w <= j <= i - 2
      invariant forall l :: j < l <= i - 2 ==> bits[l] == 0
      decreases j
    {
      j := j - 1;
    }
    prefix := j;
    AdjustKeeps(b0, i, j, n);
    ghost var b := Adjusted(b0, i, j);
    UptoPair(b, i - 1, i, i);
    UptoPair(b, j, j + 1, i);
    UptoPair(b0, j, j + 1, i);
    bits[i] := bits[i] - 2;
    bits[i - 1] := bits[i - 1] + 1;
    bits[j + 1] := bits[j + 1] + 2;
    bits[j] := bits[j] - 1;
    assert bits[..] == b;
  }

  // ----- the reserved slot

  /** Give up one code of the largest length in use, the one that would have
      been all ones. */
  method DropPseudo(bits: array<UInt8>, ghost n: nat) returns (i: nat)
    requires FullTree(bits[..], MAXBITS, n) && 2 <= n <= 255
    modifies bits
    ensures 1 <= i <= MAXBITS && old(bits[i]) > 0 && forall k :: i < k <= MAXBITS ==> old(bits[k]) == 0
    ensures bits[..] == old(bits[..])[i := old(bits[i]) - 1]
    ensures LegalCounts(bits[..MAXBITS + 1]) && Upto(bits[..MAXBITS + 1], MAXBITS) == n - 1
  {
    ghost var b0: seq<nat> := bits[..];
    i := MAXBITS;
    while bits[i] == 0
      invariant 1 <= i <= MAXBITS
      invariant FullTree(b0, i, n) && bits[..] == b0
      decreases i
    {
      EvenTop(b0, i, n);
      i := i - 1;
    }
    DropKeeps(b0, i, n);
    bits[i] := bits[i] - 1;
    ghost var b := b0[i := b0[i] - 1];
    assert bits[..] == b;
    assert bits[..MAXBITS + 1] == b[..MAXBITS + 1];
  }

  lemma {:induction false} DropKeeps(bits: seq<nat>, i: nat, n: nat)
    requires FullTree(bits, i, n) && n <= 256 && i <= MAXBITS && bits[i] > 0
    ensures var b := bits[i := bits[i] - 1][..MAXBITS + 1];
            LegalCounts(b) && Upto(b, MAXBITS) == n - 1
  {
    hide Kraft, Upto;
    var b1 := bits[i := bits[i] - 1];
    var b := b1[..MAXBITS + 1];
    KraftUpdate(bits, i, bits[i] - 1, i);
    UptoUpdate(bits, i, bits[i] - 1, i);
    assert Pow2(0) == 1;
    forall l | 1 <= l <= MAXBITS
      ensures Kraft(b, l) < Pow2(l)
    {
      KraftPrefix(b1, b, l);
      if l <= i {
        BelowFull(b1, l, i);
      } else {
        AboveFull(b1, i, l);
      }
    }
    AboveFull(b1, i, MAXBITS);
    KraftPrefix(b1, b, MAXBITS);
  }

  // ----- the symbol list

  /** Entry p stands among the entries of its own code length. */
  predicate InPlace(list: seq<nat>, cs: seq<nat>, p: nat)
    requires p < |list| && list[p] < |cs| && cs[list[p]] >= 1
  {
    HistUpto(cs, cs[list[p]] - 1) <= p < HistUpto(cs, cs[list[p]])
  }

  /** Shorter codes first, and symbols of one length in numerical order. */
  predicate Before(cs: seq<nat>, s: nat, t: nat)
    requires s < |cs| && t < |cs|
  {
    cs[s] < cs[t] || (cs[s] == cs[t] && s < t)
  }

  /** list[..n] holds each symbol with a code once, in order. */
  ghost predicate SortedSymbols(list: seq<nat>, cs: seq<nat>, n: nat) {
    && n <= |list|
    && (forall p :: 0 <= p < n ==> list[p] < |cs| && 1 <= cs[list[p]] <= MAXCLEN && InPlace(list, cs, p))
    && (forall p, q :: 0 <= p < q < n ==> Before(cs, list[p], list[q]))
    && (forall s :: 0 <= s < |cs| && 1 <= cs[s] <= MAXCLEN ==> s in list[..n])
  }

  method SortSymbols(codesize: array<nat>) returns (huffval: array<UInt8>, ghost n: nat)
    requires codesize.Length == 257
    ensures fresh(huffval) && huffval.Length == 256
    ensures n == HistUpto(codesize[..256], MAXCLEN)
    ensures SortedSymbols(huffval[..], codesize[..256], n)
  {
    huffval := new UInt8[256];
    var p := 0;
    ghost var cs := codesize[..256];
    var i := 1;
    while i <= MAXCLEN
      invariant 1 <= i <= MAXCLEN + 1
      invariant p == HistUpto(cs, i - 1)
      invariant Placed(huffval[..], cs, p, i, 0)
    {
      p := SortLength(codesize, huffval, i, p);
      NextLength(huffval[..], cs, p, i);
      i := i + 1;
    }
    n := p;
  }

  /** The inner loop: append the symbols of length i. */
  method SortLength(codesize: array<nat>, huffval: array<UInt8>, i: nat, p0: nat) returns (p: nat)
    requires codesize.Length == 257 && huffval.Length == 256 && huffval != codesize as object && i >= 1
    requires p0 == HistUpto(codesize[..256], i - 1)
    requires Placed(huffval[..], codesize[..256], p0, i, 0)
    modifies huffval
    ensures p == HistUpto(codesize[..256], i)
    ensures Placed(huffval[..], codesize[..256], p, i, 256)
  {
    hide Placed;
    p := p0;
    ghost var cs := codesize[..256];
    assert cs[..0] == [];
    for j := 0 to 256
      invariant codesize[..256] == cs
      invariant p == HistUpto(cs, i - 1) + Hist(cs[..j], i)
      invariant Placed(huffval[..], cs, p, i, j)
    {
      HistPrefixMono(cs, j + 1, i);
      HistUptoBound(cs, i);
      assert cs[..j + 1] == cs[..j] + [cs[j]];
      HistAppend(cs[..j], cs[j], i);
      ghost var h0 := huffval[..];
      if codesize[j] == i {
        huffval[p] := j;
        p := p + 1;
        PlaceOne(h0, huffval[..], cs, p, i, j);
      } else {
        SkipOne(h0, cs, p, i, j);
      }
    }
    assert cs[..256] == cs;
  }

  /** As SortedSymbols, for the lengths below i and the symbols below j of length i. */
  ghost predicate Placed(list: seq<nat>, cs: seq<nat>, p: nat, i: nat, j: nat) {
    && p <= |list| && 1 <= i && j <= |cs|
    && (forall q :: 0 <= q < p ==> list[q] < |cs| && Done(cs, list[q], i, j) && InPlace(list, cs, q))
    && (forall q, r :: 0 <= q < r < p ==> Before(cs, list[q], list[r]))
    && (forall s :: 0 <= s < |cs| && Done(cs, s, i, j) ==> s in list[..p])
  }

  predicate Done(cs: seq<nat>, s: nat, i: nat, j: nat)
    requires s < |cs|
  {
    1 <= cs[s] < i || (1 <= cs[s] == i && s < j)
  }

  lemma {:induction false} PlaceOne(h0: seq<nat>, h: seq<nat>, cs: seq<nat>, p: nat, i: nat, j: nat)
    requires 0 < p <= |h0| == |h| && h == h0[p - 1 := j]
    requires Placed(h0, cs, p - 1, i, j) && j < |cs| && cs[j] == i
    requires HistUpto(cs, i - 1) <= p - 1 < HistUpto(cs, i)
    ensures Placed(h, cs, p, i, j + 1)
  {
    assert h[..p] == h0[..p - 1] + [j];
    assert forall q :: 0 <= q < p - 1 ==> h[q] == h0[q] && InPlace(h0, cs, q);
  }

  lemma {:induction false} SkipOne(h: seq<nat>, cs: seq<nat>, p: nat, i: nat, j: nat)
    requires Placed(h, cs, p, i, j) && j < |cs| && cs[j] != i
    ensures Placed(h, cs, p, i, j + 1)
  {
    assert forall s :: 0 <= s < |cs| ==> (Done(cs, s, i, j) <==> Done(cs, s, i, j + 1));
  }

  lemma {:induction false} NextLength(h: seq<nat>, cs: seq<nat>, p: nat, i: nat)
    requires Placed(h, cs, p, i, |cs|)
    ensures Placed(h, cs, p, i + 1, 0)
  {
    assert forall s :: 0 <= s < |cs| ==> (Done(cs, s, i, |cs|) <==> Done(cs, s, i + 1, 0));
  }
}
