/** jpeg_gen_optimal_table: an optimal Huffman code for counted symbols, then
    the length adjustment of section K.2 of ITU-T T.81. */
module OptimalTable {
  import opened JpegLimits
  import opened Arith
  import opened HuffmanMerge
  import opened MergeForest

  const LARGEST := 1000000000   // start value of the minimum searches

  function UsedMarks(w: seq<nat>): seq<nat> {
    seq(|w|, i requires 0 <= i < |w| => if w[i] > 0 then 1 else 0)
  }

  /** How many symbols take part. */
  function Used(w: seq<nat>): nat {
    Sum(UsedMarks(w))
  }

  /** Kraft holds with equality: the code tree has no unused leaf. */
  ghost predicate Full(w: seq<nat>, len: seq<nat>, n: nat) {
    && |w| == |len|
    && (forall i :: 0 <= i < |w| && w[i] > 0 ==> len[i] <= n)
    && Sum(KraftTerms(w, len, n)) == Pow2(n)
  }

  /** No assignment of lengths that satisfies Kraft's inequality is cheaper. */
  ghost predicate Optimal(w: seq<nat>, len: seq<nat>)
    requires |w| == |len|
  {
    forall other: seq<nat>, n: nat | Fits(w, other, n) :: Cost(w, len) <= Cost(w, other)
  }

  method FindSmallest(freq: array<nat>, except: int) returns (c: int)
    requires freq.Length == NSYMS
    requires forall i :: 0 <= i < NSYMS ==> freq[i] <= LARGEST
    ensures -1 <= c < NSYMS
    ensures c == -1 ==> forall i :: 0 <= i < NSYMS && i != except ==> freq[i] == 0
    ensures c >= 0 ==> freq[c] > 0 && c != except
    ensures c >= 0 ==> forall i :: 0 <= i < NSYMS && i != except && i != c && freq[i] > 0 ==> Before(freq[..], c, i)
  {
    c := -1;
    var v := LARGEST;
    for i := 0 to NSYMS
      invariant -1 <= c < i
      invariant c == -1 ==> v == LARGEST && forall k :: 0 <= k < i && k != except ==> freq[k] == 0
      invariant c >= 0 ==> freq[c] == v > 0 && c != except
      invariant c >= 0 ==> forall k :: 0 <= k < i && k != except && k != c && freq[k] > 0 ==> Before(freq[..], c, k)
    {
      if freq[i] != 0 && freq[i] <= v && i != except {
        v := freq[i];
        c := i;
      }
    }
  }

  /** Where each symbol of the tree rooted at r stands on its chain. */
  lemma {:induction false} ChainPositions(others: seq<int>, owner: seq<int>, r: int, chain: seq<int>) returns (pos: seq<int>)
    requires |others| == |owner| == NSYMS && Chain(others, owner, r, chain)
    ensures |pos| == NSYMS
    ensures forall s :: 0 <= s < NSYMS ==> (owner[s] == r <==> 0 <= pos[s] < |chain|)
    ensures forall k :: 0 <= k < |chain| ==> pos[chain[k]] == k
  {
    pos := seq(NSYMS, s requires 0 <= s < NSYMS =>
      if owner[s] == r then (assert s in chain; var k :| 0 <= k < |chain| && chain[k] == s; k) else -1);
  }

  function Bumped(codesize: seq<nat>, owner: seq<int>, c: int): seq<nat>
    requires |codesize| == |owner|
  {
    seq(|codesize|, s requires 0 <= s < |codesize| => codesize[s] + if owner[s] == c then 1 else 0)
  }

  lemma {:induction false} BumpedTwice(codesize: seq<nat>, owner: seq<int>, a: int, b: int)
    requires |codesize| == |owner| && a != b
    ensures Bumped(Bumped(codesize, owner, a), owner, b) == Deepened(codesize, owner, a, b)
  {
  }

  /** Add one to the code length of everything on the chain from c; return
      the chain's last symbol. */
  method BumpChain(codesize: array<nat>, others: array<int>, c: int, ghost owner: seq<int>, ghost chain: seq<int>)
    returns (last: int)
    requires codesize.Length == NSYMS && others.Length == NSYMS && |owner| == NSYMS
    requires codesize != others as object
    requires Chain(others[..], owner, c, chain)
    modifies codesize
    ensures last == chain[|chain| - 1]
    ensures codesize[..] == Bumped(old(codesize[..]), owner, c)
  {
    ghost var pos := ChainPositions(others[..], owner, c, chain);
    last := c;
    codesize[last] := codesize[last] + 1;
    ghost var j := 0;
    while others[last] >= 0
      invariant 0 <= j < |chain| && last == chain[j]
      invariant forall s :: 0 <= s < NSYMS ==> codesize[s] == old(codesize[s]) + if 0 <= pos[s] <= j then 1 else 0
      decreases |chain| - j
    {
      assert others[last] == NextInChain(chain, j);
      last := others[last];
      j := j + 1;
      codesize[last] := codesize[last] + 1;
    }
    assert others[last] == NextInChain(chain, j);
  }

  /** Merge tree c2 into tree c1. */
  method MergeTrees(freq: array<nat>, codesize: array<nat>, others: array<int>, c1: nat, c2: nat,
                    ghost owner: seq<int>, ghost ch1: seq<int>, ghost ch2: seq<int>)
    requires freq.Length == codesize.Length == others.Length == NSYMS
    requires others != codesize as object && others != freq as object && freq != codesize
    requires c1 < NSYMS && c2 < NSYMS && c1 != c2 && |owner| == NSYMS
    requires Chain(others[..], owner, c1, ch1) && Chain(others[..], owner, c2, ch2)
    modifies freq, codesize, others
    ensures freq[..] == Merged(old(freq[..]), c1, c2)
    ensures codesize[..] == Deepened(old(codesize[..]), owner, c1, c2)
    ensures others[..] == Relinked(old(others[..]), ch1, c2)
  {
    ghost var o0, cs0 := others[..], codesize[..];
    freq[c1] := freq[c1] + freq[c2];
    freq[c2] := 0;
    var last := BumpChain(codesize, others, c1, owner, ch1);
    others[last] := c2;
    ChainUntouched(o0, others[..], owner, c1, c2, ch2, last);
    var last2 := BumpChain(codesize, others, c2, owner, ch2);
    BumpedTwice(cs0, owner, c1, c2);
  }

  lemma {:induction false} ChainUntouched(o: seq<int>, o': seq<int>, owner: seq<int>, c1: int, c2: int, c: seq<int>, last: nat)
    requires |o| == |owner| == NSYMS && Chain(o, owner, c2, c) && c1 != c2
    requires last < NSYMS && owner[last] == c1 && o' == o[last := c2]
    ensures Chain(o', owner, c2, c)
  {
    forall j | 0 <= j < |c|
      ensures o'[c[j]] == NextInChain(c, j)
    {
      assert owner[c[j]] == c2;
      assert o[c[j]] == NextInChain(c, j);
    }
  }

  lemma {:induction false} WeightBound(orig: seq<nat>, freq: seq<nat>, owner: seq<int>, r: nat)
    requires Forest(orig, freq, owner) && r < NSYMS
    ensures freq[r] <= Sum(orig)
  {
    SumMono(Group(owner, r, orig), orig);
  }

  lemma {:induction false} UsedMerge(w: seq<nat>, a: nat, b: nat)
    requires a < |w| && b < |w| && a != b && w[a] > 0 && w[b] > 0
    ensures Used(Merged(w, a, b)) + 1 == Used(w)
  {
    assert UsedMarks(Merged(w, a, b)) == UsedMarks(w)[b := 0];
    SumUpdate(UsedMarks(w), b, 0);
  }

  lemma {:induction false} UsedAtLeast(w: seq<nat>, a: nat, b: nat)
    requires a < |w| && b < |w| && a != b && w[a] > 0 && w[b] > 0
    ensures Used(w) >= 2
  {
    SumUpdate(UsedMarks(w), a, 0);
    SumAtLeast(UsedMarks(w)[a := 0], b);
  }

  /** The state of the merge loop. */
  ghost predicate LoopState(orig: seq<nat>, freq: seq<nat>, codesize: seq<nat>, others: seq<int>,
                            owner: seq<int>, chains: seq<seq<int>>, m: nat)
  {
    && |orig| == |freq| == |codesize| == |others| == |owner| == |chains| == NSYMS
    && Forest(orig, freq, owner)
    && Linked(freq, others, owner, chains)
    && TreesFull(freq, codesize, owner, Used(orig))
    && PseudoDeepest(freq, codesize, owner, m)
    && Heavy(freq, codesize, owner, m)
    && Dominates(orig, Cost(orig, codesize), freq)
    && (forall s :: 0 <= s < NSYMS ==> codesize[s] + Used(freq) <= Used(orig))
    && (forall s :: 0 <= s < NSYMS && orig[s] == 0 ==> codesize[s] == 0)
  }

  /** What the loop body reads off its state. */
  lemma {:induction false} LoopFacts(orig: seq<nat>, freq: seq<nat>, codesize: seq<nat>, others: seq<int>,
                  owner: seq<int>, chains: seq<seq<int>>, m: nat)
    requires LoopState(orig, freq, codesize, others, owner, chains, m)
    ensures |orig| == |freq| == |codesize| == |others| == |owner| == |chains| == NSYMS
    ensures forall r :: 0 <= r < NSYMS ==> freq[r] <= Sum(orig)
    ensures 0 <= owner[PSEUDO] < NSYMS && freq[owner[PSEUDO]] > 0
    ensures forall r :: 0 <= r < NSYMS && freq[r] > 0 ==> Chain(others, owner, r, chains[r])
  {
    forall r | 0 <= r < NSYMS
      ensures freq[r] <= Sum(orig)
    {
      WeightBound(orig, freq, owner, r);
    }
  }

  lemma {:induction false} LoopMerge(orig: seq<nat>, freq: seq<nat>, codesize: seq<nat>, others: seq<int>,
                  owner: seq<int>, chains: seq<seq<int>>, m: nat, a: nat, b: nat)
    requires LoopState(orig, freq, codesize, others, owner, chains, m) && orig[PSEUDO] > 0
    requires Chosen(freq, a, b)
    ensures LoopState(orig, Merged(freq, a, b), Deepened(codesize, owner, a, b), Relinked(others, chains[a], b),
                      Reowned(owner, a, b), Rechained(chains, a, b), freq[b])
  {
    hide Forest, Linked, TreesFull, PseudoDeepest, Heavy, Dominates;
    UsedAtLeast(freq, a, b);
    RootsOwn(orig, freq, owner, a, b);
    HeavyMerge(freq, codesize, owner, m, a, b);
    ForestMerge(orig, freq, owner, a, b);
    LinkedMerge(freq, others, owner, chains, a, b);
    TreesFullMerge(freq, codesize, owner, Used(orig), a, b);
    PseudoDeepestMerge(orig, freq, codesize, owner, m, a, b);
    CostMerge(orig, freq, codesize, owner, a, b);
    DominatesMerge(orig, Cost(orig, codesize), freq, a, b);
    UsedMerge(freq, a, b);
  }

  lemma {:induction false} RootsOwn(orig: seq<nat>, freq: seq<nat>, owner: seq<int>, a: nat, b: nat)
    requires Forest(orig, freq, owner) && Chosen(freq, a, b)
    ensures owner[a] == a && owner[b] == b
    ensures forall s :: 0 <= s < NSYMS && 0 <= owner[s] < NSYMS ==> freq[owner[s]] > 0
  {
  }

  lemma {:induction false} LoopStart(orig: seq<nat>, owner: seq<int>, chains: seq<seq<int>>)
    requires |orig| == NSYMS && orig[PSEUDO] == 1
    requires |owner| == NSYMS && forall s :: 0 <= s < NSYMS ==> owner[s] == if orig[s] > 0 then s else -1
    requires |chains| == NSYMS && forall s :: 0 <= s < NSYMS ==> chains[s] == [s]
    ensures LoopState(orig, orig, seq(NSYMS, i => 0), seq(NSYMS, i => -1), owner, chains, 1)
  {
    var zero := seq(NSYMS, i => 0);
    forall r | 0 <= r < NSYMS
      ensures Sum(Group(owner, r, orig)) == orig[r]
      ensures orig[r] > 0 ==> Sum(Group(owner, r, Weights(zero, Used(orig)))) == Pow2(Used(orig))
    {
      GroupSingle(owner, r, orig);
      GroupSingle(owner, r, Weights(zero, Used(orig)));
    }
    SumZero(CostTerms(orig, zero));
    DominatesInit(orig);
  }

  lemma {:induction false} GroupSingle(owner: seq<int>, r: nat, f: seq<nat>)
    requires |owner| == |f| && r < |f|
    requires forall s :: 0 <= s < |f| && s != r ==> owner[s] != r || f[s] == 0
    ensures Sum(Group(owner, r, f)) == if owner[r] == r then f[r] else 0
  {
    var g := Group(owner, r, f);
    SumUpdate(g, r, 0);
    SumZero(g[r := 0]);
  }

  lemma {:induction false} LoopEnd(orig: seq<nat>, freq: seq<nat>, codesize: seq<nat>, others: seq<int>,
                owner: seq<int>, chains: seq<seq<int>>, m: nat, r: nat)
    requires LoopState(orig, freq, codesize, others, owner, chains, m)
    requires r < NSYMS && freq[r] > 0 && forall i :: 0 <= i < NSYMS && i != r ==> freq[i] == 0
    ensures Full(orig, codesize, Used(orig))
    ensures Optimal(orig, codesize)
    ensures forall s :: 0 <= s < NSYMS ==> codesize[s] <= codesize[PSEUDO]
    ensures forall s :: 0 <= s < NSYMS && orig[s] == 0 ==> codesize[s] == 0
    ensures forall s :: 0 <= s < NSYMS && orig[s] > 0 ==> LeastWeight(codesize[s]) <= Sum(orig)
  {
    WeightBound(orig, freq, owner, r);
    forall s | 0 <= s < NSYMS && orig[s] > 0
      ensures owner[s] == r
    {
      assert freq[owner[s]] > 0;
    }
    assert KraftTerms(orig, codesize, Used(orig)) == Group(owner, r, Weights(codesize, Used(orig)));
    forall other: seq<nat>, n: nat | Fits(orig, other, n)
      ensures Cost(orig, codesize) <= Cost(orig, other)
    {
      assert LowerBound(orig, other, Cost(orig, codesize), freq);
    }
  }

  /** Huffman's algorithm on the counts. */
  method CodeLengths(freq: array<nat>) returns (codesize: array<nat>)
    requires freq.Length == NSYMS && freq[PSEUDO] == 1
    requires Sum(freq[..]) <= LARGEST
    modifies freq
    ensures fresh(codesize) && codesize.Length == NSYMS
    ensures Full(old(freq[..]), codesize[..], Used(old(freq[..])))
    ensures Optimal(old(freq[..]), codesize[..])
    ensures forall s :: 0 <= s < NSYMS ==> codesize[s] <= codesize[PSEUDO]
    ensures forall s :: 0 <= s < NSYMS && old(freq[s]) == 0 ==> codesize[s] == 0
    // a long code word takes a large total count
    ensures forall s :: 0 <= s < NSYMS && old(freq[s]) > 0 ==> LeastWeight(codesize[s]) <= Sum(old(freq[..]))
  {
    hide LoopState;
    ghost var orig := freq[..];
    codesize := new nat[NSYMS](i => 0);
    var others := new int[NSYMS](i => -1);
    ghost var owner: seq<int> := seq(NSYMS, i requires 0 <= i < NSYMS => if orig[i] > 0 then i else -1);
    ghost var chains: seq<seq<int>> := seq(NSYMS, i => [i]);
    ghost var m: nat := 1;
    LoopStart(orig, owner, chains);
    assert codesize[..] == seq(NSYMS, i => 0) && others[..] == seq(NSYMS, i => -1);

    while true
      invariant freq.Length == NSYMS && codesize.Length == NSYMS && others.Length == NSYMS
      invariant fresh(codesize) && fresh(others) && others != codesize as object
      invariant LoopState(orig, freq[..], codesize[..], others[..], owner, chains, m)
      decreases Used(freq[..])
    {
      LoopFacts(orig, freq[..], codesize[..], others[..], owner, chains, m);
      var c1 := FindSmallest(freq, -1);
      var c2 := FindSmallest(freq, c1);
      if c2 < 0 {
        LoopEnd(orig, freq[..], codesize[..], others[..], owner, chains, m, c1);
        break;
      }
      assert Chosen(freq[..], c1, c2);
      assert Chain(others[..], owner, c1, chains[c1]) && Chain(others[..], owner, c2, chains[c2]);
      LoopMerge(orig, freq[..], codesize[..], others[..], owner, chains, m, c1, c2);
      UsedMerge(freq[..], c1, c2);
      m := freq[c2];
      MergeTrees(freq, codesize, others, c1, c2, owner, chains[c1], chains[c2]);
      owner, chains := Reowned(owner, c1, c2), Rechained(chains, c1, c2);
    }
  }

  function Longest(codes: seq<seq<bool>>): (n: nat)
    ensures forall i :: 0 <= i < |codes| ==> |codes[i]| <= n
  {
    if codes == [] then 0 else
    var n := Longest(codes[..|codes| - 1]);
    if |codes[|codes| - 1]| > n then |codes[|codes| - 1]| else n
  }

  /** No prefix code for the same weights makes the data shorter. */
  lemma {:induction false} BeatsEveryPrefixCode(w: seq<nat>, len: seq<nat>, codes: seq<seq<bool>>)
    requires |w| == |len| == |codes| && Optimal(w, len) && PrefixFree(w, codes)
    ensures Cost(w, len) <= Cost(w, Lengths(codes))
  {
    KraftInequality(w, codes, Longest(codes));
  }
}
