/** jpeg_gen_optimal_table as a whole: counts in, JHUFF_TBL out. */
module TableGenerator {
  import opened JpegLimits
  import opened Arith
  import opened HuffTable
  import opened HuffmanMerge
  import opened MergeForest
  import opened OptimalTable
  import opened LimitLengths

  datatype GenResult = Table(t: HuffTbl) | ClenOverflow

  /** t gives a code to exactly the symbols counted in w. */
  ghost predicate TableFor(t: HuffTbl, w: seq<nat>) {
    && Shaped(t) && LegalCounts(t.bits) && |w| == 256
    && var n := Upto(t.bits, MAXBITS);
    && (forall p, q :: 0 <= p < q < n ==> t.huffval[p] != t.huffval[q])
    && (forall s :: 0 <= s < 256 ==> (w[s] > 0 <==> s in t.huffval[..n]))
  }

  /** The counts of t are those of the lengths cs, limited to 16 bits as section K.2 says, less
      one code of the largest length left; its symbols are those of cs, shorter lengths first. */
  ghost predicate FromLengths(t: HuffTbl, cs: seq<nat>) {
    && Shaped(t) && |cs| == NSYMS && SortedSymbols(t.huffval, cs[..PSEUDO], Upto(t.bits, MAXBITS))
    && exists b0: seq<nat>, b1: seq<nat>, i: nat :: Counts(b0, cs) && Limited(b0, b1) && OneLess(b1, t.bits, i)
  }

  ghost predicate OneLess(b1: seq<nat>, bits: seq<nat>, i: nat) {
    && |b1| == MAXCLEN + 1 && 1 <= i <= MAXBITS && b1[i] > 0
    && (forall k :: i < k <= MAXBITS ==> b1[k] == 0)
    && bits == b1[i := b1[i] - 1][..MAXBITS + 1]
  }

  // ----- from Kraft equality to the counts

  lemma {:induction false} FullPositive(w: seq<nat>, len: seq<nat>, n: nat, s: nat, t: nat)
    requires Full(w, len, n) && s < |w| && t < |w| && s != t && w[s] > 0 && w[t] > 0
    ensures len[s] > 0
  {
    var k := KraftTerms(w, len, n);
    SumUpdate(k, s, 0);
    SumAtLeast(k[s := 0], t);
  }

  lemma {:induction false} FullRaise(w: seq<nat>, len: seq<nat>, n: nat, m: nat)
    requires n <= m && Full(w, len, n)
    ensures Full(w, len, m)
    decreases m
  {
    if n < m {
      FullRaise(w, len, n, m - 1);
      var zero := seq(|w|, i => 0);
      SumZero(zero);
      var hi, lo := KraftTerms(w, len, m), KraftTerms(w, len, m - 1);
      SumCombine(hi, zero, lo, 2);
    }
  }

  lemma {:induction false} FullLower(w: seq<nat>, len: seq<nat>, n: nat, m: nat)
    requires m <= n && Full(w, len, n)
    requires forall i :: 0 <= i < |w| && w[i] > 0 ==> len[i] <= m
    ensures Full(w, len, m)
    decreases n
  {
    if m < n {
      var zero := seq(|w|, i => 0);
      SumZero(zero);
      SumCombine(KraftTerms(w, len, n), zero, KraftTerms(w, len, n - 1), 2);
      FullLower(w, len, n - 1, m);
    }
  }

  lemma {:induction false} OnesAppend(w: seq<nat>, x: nat)
    ensures Used(w + [x]) == Used(w) + if x > 0 then 1 else 0
  {
    var one: seq<nat> := [if x > 0 then 1 else 0];
    assert UsedMarks(w + [x]) == UsedMarks(w) + one;
    SumAppend(UsedMarks(w), one);
    assert one[1..] == [];
  }

  lemma {:induction false} HistUsed(cs: seq<nat>, k: nat)
    ensures HistUpto(cs, k) <= Used(cs)
    ensures (forall s :: 0 <= s < |cs| ==> cs[s] <= k) ==> HistUpto(cs, k) == Used(cs)
    decreases |cs|
  {
    if cs == [] {
      HistEmpty(k);
    } else {
      var front, x := cs[..|cs| - 1], cs[|cs| - 1];
      assert cs == front + [x];
      HistUsed(front, k);
      HistAppend(front, x, k);
      OnesAppend(front, x);
    }
  }

  lemma {:induction false} SameUsed(w: seq<nat>, v: seq<nat>)
    requires |w| == |v| && forall i :: 0 <= i < |w| ==> (w[i] > 0 <==> v[i] > 0)
    ensures Used(w) == Used(v)
  {
    assert UsedMarks(w) == UsedMarks(v);
  }

  const DEEP_TOTAL := 9227464   // fewer counts than this cannot make a code longer than MAXCLEN

  lemma {:induction false} LeastWeightMono(h: nat, k: nat)
    requires h <= k
    ensures LeastWeight(h) <= LeastWeight(k)
    decreases k
  {
    if h < k {
      LeastWeightMono(h, k - 1);
    }
  }

  lemma {:induction false} LeastWeightPast32(h: nat)
    requires h > MAXCLEN
    ensures LeastWeight(h) > DEEP_TOTAL
  {
    assert LeastWeight(8) == 55 && LeastWeight(9) == 89;
    assert LeastWeight(16) == 2584 && LeastWeight(17) == 4181;
    assert LeastWeight(24) == 121393 && LeastWeight(25) == 196418;
    assert LeastWeight(33) == DEEP_TOTAL + 1;
    LeastWeightMono(33, h);
  }

  /** Two symbols take part, so each gets at least one bit. */
  lemma {:induction false} CodedSymbols(w: seq<nat>, cs: seq<nat>)
    requires |w| == |cs| == NSYMS && w[PSEUDO] == 1 && Used(w[..PSEUDO]) >= 1
    requires Full(w, cs, Used(w)) && forall s :: 0 <= s < NSYMS && w[s] == 0 ==> cs[s] == 0
    ensures forall s :: 0 <= s < NSYMS ==> (cs[s] > 0 <==> w[s] > 0)
    ensures Used(cs) == Used(w) == Used(w[..PSEUDO]) + 1
  {
    var other: nat;
    if o :| 0 <= o < PSEUDO && w[o] > 0 {
      other := o;
    } else {
      SumZero(UsedMarks(w[..PSEUDO]));
      assert false;
    }
    forall s | 0 <= s < NSYMS && w[s] > 0
      ensures cs[s] > 0
    {
      FullPositive(w, cs, Used(w), s, if s == PSEUDO then other else PSEUDO);
    }
    SameUsed(w, cs);
    assert w == w[..PSEUDO] + [1];
    OnesAppend(w[..PSEUDO], 1);
  }

  lemma {:induction false} FullCounts(w: seq<nat>, cs: seq<nat>, bits: seq<nat>)
    requires |w| == |cs| == NSYMS
    requires forall s :: 0 <= s < NSYMS ==> (cs[s] > 0 <==> w[s] > 0) && cs[s] <= MAXCLEN
    requires Full(w, cs, Used(w)) && Counts(bits, cs)
    ensures FullTree(bits, MAXCLEN, Used(w))
  {
    if Used(w) <= MAXCLEN {
      FullRaise(w, cs, Used(w), MAXCLEN);
    } else {
      FullLower(w, cs, Used(w), MAXCLEN);
    }
    CountsKraft(bits, cs, MAXCLEN);
    assert KraftTerms(w, cs, MAXCLEN) == KraftTerms(cs, cs, MAXCLEN);
    CountsUpto(bits, cs, MAXCLEN);
    HistUsed(cs, MAXCLEN);
    SameUsed(w, cs);
  }

  /** Without adjustment, dropping the pseudo-symbol leaves the counts of the
      counted symbols. */
  lemma {:induction false} DroppedCounts(bits: seq<nat>, cs: seq<nat>, i: nat, l: nat)
    requires Counts(bits, cs) && |cs| == NSYMS && 1 <= cs[PSEUDO] == i <= MAXCLEN && l <= MAXCLEN && bits[i] > 0
    ensures Upto(bits[i := bits[i] - 1], l) == HistUpto(cs[..PSEUDO], l)
  {
    assert cs == cs[..PSEUDO] + [cs[PSEUDO]];
    HistAppend(cs[..PSEUDO], cs[PSEUDO], l);
    CountsUpto(bits, cs, l);
    UptoUpdate(bits, i, bits[i] - 1, l);
  }

  lemma {:induction false} HistPositive(cs: seq<nat>, s: nat)
    requires s < |cs|
    ensures Hist(cs, cs[s]) > 0
    decreases |cs|
  {
    if s < |cs| - 1 {
      HistPositive(cs[..|cs| - 1], s);
    }
  }

  lemma {:induction false} HistNone(cs: seq<nat>, k: nat)
    requires forall s :: 0 <= s < |cs| ==> cs[s] != k
    ensures Hist(cs, k) == 0
    decreases |cs|
  {
    if cs != [] {
      HistNone(cs[..|cs| - 1], k);
    }
  }

  /** The pseudo-symbol's category is the largest one in use. */
  lemma {:induction false} PseudoLength(bits: seq<nat>, cs: seq<nat>)
    requires Counts(bits, cs) && |cs| == NSYMS && 1 <= cs[PSEUDO] <= MAXCLEN
    requires forall s :: 0 <= s < NSYMS ==> cs[s] <= cs[PSEUDO]
    ensures bits[cs[PSEUDO]] > 0
    ensures forall k :: cs[PSEUDO] < k <= MAXCLEN ==> bits[k] == 0
  {
    HistPositive(cs, PSEUDO);
    forall k | cs[PSEUDO] < k <= MAXCLEN
      ensures bits[k] == 0
    {
      HistNone(cs, k);
    }
  }

  lemma {:induction false} SymbolsOf(list: seq<UInt8>, cs: seq<nat>, w: seq<nat>, n: nat)
    requires |list| == 256 && |cs| == NSYMS && |w| == NSYMS
    requires forall s :: 0 <= s < NSYMS ==> (cs[s] > 0 <==> w[s] > 0) && cs[s] <= MAXCLEN
    requires SortedSymbols(list, cs[..PSEUDO], n)
    ensures forall p, q :: 0 <= p < q < n ==> list[p] != list[q]
    ensures forall s :: 0 <= s < 256 ==> (w[s] > 0 <==> s in list[..n])
  {
    var l: seq<nat> := list;
    forall s | 0 <= s < 256
      ensures w[s] > 0 <==> s in list[..n]
    {
      if w[s] > 0 {
        assert s in l[..n];
      }
      if s in list[..n] {
        var p :| 0 <= p < n && list[p] == s;
        assert 1 <= cs[..PSEUDO][l[p]];
      }
    }
  }

  lemma {:induction false} SumPseudo(counted: seq<nat>)
    ensures Sum(counted + [1]) == Sum(counted) + 1
  {
    SumAppend(counted, [1]);
    assert [1][1..] == [];
  }

  method GenOptimalTable(freq: array<nat>) returns (r: GenResult, ghost cs: seq<nat>)
    requires freq.Length == NSYMS
    requires Sum(freq[..PSEUDO]) < LARGEST
    requires 1 <= Used(freq[..PSEUDO]) <= 254
    modifies freq
    ensures |cs| == NSYMS
    // the unlimited lengths: an optimal full code with the pseudo-symbol deepest
    ensures var w := old(freq[..])[PSEUDO := 1];
            Full(w, cs, Used(w)) && Optimal(w, cs) && forall s :: 0 <= s < NSYMS ==> cs[s] <= cs[PSEUDO]
    ensures r.ClenOverflow? <==> exists s :: 0 <= s < NSYMS && cs[s] > MAXCLEN
    // which takes a large total
    ensures r.ClenOverflow? ==> Sum(old(freq[..PSEUDO])) >= DEEP_TOTAL
    ensures r.Table? ==> TableFor(r.t, old(freq[..PSEUDO]))
    // and it is determined by the unlimited lengths
    ensures r.Table? ==> FromLengths(r.t, cs)
    // which are its own where none exceeds 16 bits
    ensures r.Table? && cs[PSEUDO] <= MAXBITS ==>
              forall p :: 0 <= p < Upto(r.t.bits, MAXBITS) ==> HasLength(r.t.bits, p, cs[r.t.huffval[p]])
  {
    hide Full, Optimal, SortedSymbols, Limited, FromLengths, FullTree, Counts, LegalCounts, Upto, Kraft, Hist, HistUpto, Used, Sum, Pow2;
    ghost var counted := freq[..PSEUDO];
    freq[PSEUDO] := 1;
    ghost var w := freq[..];
    assert w[..PSEUDO] == counted && w == counted + [1];
    SumPseudo(counted);
    var codesize := CodeLengths(freq);
    cs := codesize[..];
    CodedSymbols(w, cs);
    forall k: nat | k > 0
      ensures Hist(cs, k) <= 255
    {
      HistUptoMono(cs, k - 1, k);
      HistUsed(cs, k);
    }
    var ok, bits := CountLengths(codesize);
    if !ok {
      ghost var s :| 0 <= s < NSYMS && cs[s] > MAXCLEN;
      LeastWeightPast32(cs[s]);
      r := ClenOverflow;
      return;
    }
    FullCounts(w, cs, bits[..]);
    ghost var b0: seq<nat> := bits[..];
    LimitTo16(bits, Used(w));
    ghost var b1: seq<nat> := bits[..];
    var i := DropPseudo(bits, Used(w));
    var huffval, n := SortSymbols(codesize);
    assert codesize[..PSEUDO] == cs[..PSEUDO];
    SymbolsOf(huffval[..], cs, w, n);
    r := Table(HuffTbl(bits[..MAXBITS + 1], huffval[..]));
    TableSize(cs, n, counted);
    MadeFrom(b0, b1, r.t, cs, i);
    if cs[PSEUDO] <= MAXBITS {
      PseudoLength(b0, cs);
      assert b1 == b0;
      assert i == cs[PSEUDO];
      Unadjusted(b0, bits[..MAXBITS + 1], huffval[..], cs, i, n);
    }
  }

  lemma {:induction false} MadeFrom(b0: seq<nat>, b1: seq<nat>, t: HuffTbl, cs: seq<nat>, i: nat)
    requires Shaped(t) && |cs| == NSYMS && SortedSymbols(t.huffval, cs[..PSEUDO], Upto(t.bits, MAXBITS))
    requires Counts(b0, cs) && Limited(b0, b1) && OneLess(b1, t.bits, i)
    ensures FromLengths(t, cs)
  {
    hide SortedSymbols, Counts, Limited, OneLess, Upto, Shaped;
  }

  lemma {:induction false} TableSize(cs: seq<nat>, n: nat, counted: seq<nat>)
    requires |cs| == NSYMS && |counted| == PSEUDO
    requires forall s :: 0 <= s < PSEUDO ==> (cs[s] > 0 <==> counted[s] > 0) && cs[s] <= MAXCLEN
    requires n == HistUpto(cs[..PSEUDO], MAXCLEN)
    ensures n == Used(counted)
  {
    HistUsed(cs[..PSEUDO], MAXCLEN);
    SameUsed(cs[..PSEUDO], counted);
  }

  lemma {:induction false} Unadjusted(b0: seq<nat>, b: seq<nat>, list: seq<nat>, cs: seq<nat>, i: nat, n: nat)
    requires Counts(b0, cs) && |cs| == NSYMS && 1 <= cs[PSEUDO] == i <= MAXBITS && b0[i] > 0
    requires forall s :: 0 <= s < NSYMS ==> cs[s] <= i
    requires b == b0[i := b0[i] - 1][..MAXBITS + 1]
    requires SortedSymbols(list, cs[..PSEUDO], n)
    ensures forall p :: 0 <= p < n ==> HasLength(b, p, cs[list[p]])
  {
    var b1 := b0[i := b0[i] - 1];
    forall p | 0 <= p < n
      ensures HasLength(b, p, cs[list[p]])
    {
      var l := cs[list[p]];
      assert InPlace(list, cs[..PSEUDO], p);
      DroppedCounts(b0, cs, i, l - 1);
      DroppedCounts(b0, cs, i, l);
      KraftPrefix(b1, b, l - 1);
      KraftPrefix(b1, b, l);
    }
  }
}
