/** The forest that the merge loop of jpeg_gen_optimal_table keeps in freq[],
    codesize[] and others[]: what one merge does to it, on plain sequences. */
module MergeForest {
  import opened JpegLimits
  import opened Arith
  import opened HuffmanMerge

  /** The entries of f that belong to the tree rooted at r. */
  function Group(owner: seq<int>, r: int, f: seq<nat>): seq<nat>
    requires |owner| == |f|
  {
    seq(|f|, i requires 0 <= i < |f| => if owner[i] == r then f[i] else 0)
  }

  /** Each counted symbol sits in one tree; freq is nonzero exactly at the
      roots, where it holds the weight of the whole tree. */
  ghost predicate Forest(orig: seq<nat>, freq: seq<nat>, owner: seq<int>) {
    && |orig| == |freq| == |owner| == NSYMS
    && (forall s :: 0 <= s < NSYMS ==>
          if orig[s] == 0 then owner[s] == -1 else 0 <= owner[s] < NSYMS && freq[owner[s]] > 0)
    && (forall r :: 0 <= r < NSYMS && freq[r] > 0 ==> owner[r] == r)
    && (forall r :: 0 <= r < NSYMS ==> freq[r] == Sum(Group(owner, r, orig)))
  }

  function NextInChain(c: seq<int>, j: nat): int
    requires j < |c|
  {
    if j + 1 < |c| then c[j + 1] else -1
  }

  /** chains[r] lists the tree of root r in the order of its others[] links. */
  ghost predicate Chain(others: seq<int>, owner: seq<int>, r: int, c: seq<int>)
    requires |others| == |owner| == NSYMS
  {
    && |c| > 0 && c[0] == r
    && (forall j :: 0 <= j < |c| ==> 0 <= c[j] < NSYMS && owner[c[j]] == r)
    && (forall j {:trigger NextInChain(c, j)} :: 0 <= j < |c| ==> others[c[j]] == NextInChain(c, j))
    && (forall j, k :: 0 <= j < k < |c| ==> c[j] != c[k])
    && (forall s :: 0 <= s < NSYMS && owner[s] == r ==> s in c)
  }

  ghost predicate Linked(freq: seq<nat>, others: seq<int>, owner: seq<int>, chains: seq<seq<int>>) {
    && |freq| == |others| == |owner| == |chains| == NSYMS
    && (forall r :: 0 <= r < NSYMS && freq[r] > 0 ==> Chain(others, owner, r, chains[r]))
  }

  function Weights(codesize: seq<nat>, n: nat): seq<nat> {
    seq(|codesize|, i requires 0 <= i < |codesize| => if codesize[i] <= n then Pow2(n - codesize[i]) else 0)
  }

  /** Inside every tree the code lengths satisfy Kraft with equality. */
  ghost predicate TreesFull(freq: seq<nat>, codesize: seq<nat>, owner: seq<int>, n: nat) {
    && |freq| == |codesize| == |owner| == NSYMS
    && (forall r :: 0 <= r < NSYMS && freq[r] > 0 ==> Sum(Group(owner, r, Weights(codesize, n))) == Pow2(n))
  }

  /** How weight a compares with weight b when ties go to the pseudo-symbol's
      tree: a strict comparison once that tree has lost its root number. */
  predicate AtLeast(a: nat, b: nat, strict: bool) {
    if strict then a > b else a >= b
  }

  /** The pseudo-symbol is as deep as anything in its own tree, and no other
      tree can overtake it: m bounds every current weight from below. */
  ghost predicate PseudoDeepest(freq: seq<nat>, codesize: seq<nat>, owner: seq<int>, m: nat) {
    && |freq| == |codesize| == |owner| == NSYMS
    && var root := owner[PSEUDO];
       var depth := codesize[PSEUDO];
    && 0 <= root < NSYMS && m > 0
    && (forall r :: 0 <= r < NSYMS && freq[r] > 0 ==> freq[r] >= m)
    && 0 < freq[root] <= 2 * m
    && (forall s :: 0 <= s < NSYMS && 0 <= owner[s] < NSYMS ==> codesize[s] <= depth)
    && (forall s :: 0 <= s < NSYMS && 0 <= owner[s] < NSYMS && owner[s] != root && codesize[s] == depth ==>
          AtLeast(freq[owner[s]], freq[root], root != PSEUDO))
    && (forall s :: 0 <= s < NSYMS && 0 <= owner[s] < NSYMS && owner[s] != root && codesize[s] + 1 == depth ==>
          AtLeast(freq[owner[s]] + m, freq[root], root != PSEUDO))
  }

  // ----- the state after merging tree b into tree a

  function Reowned(owner: seq<int>, a: int, b: int): seq<int> {
    seq(|owner|, i requires 0 <= i < |owner| => if owner[i] == b then a else owner[i])
  }

  function Deepened(codesize: seq<nat>, owner: seq<int>, a: int, b: int): seq<nat>
    requires |codesize| == |owner|
  {
    seq(|codesize|, i requires 0 <= i < |codesize| => if owner[i] == a || owner[i] == b then codesize[i] + 1 else codesize[i])
  }

  function Relinked(others: seq<int>, ca: seq<int>, b: int): seq<int>
    requires |ca| > 0 && 0 <= ca[|ca| - 1] < |others|
  {
    others[ca[|ca| - 1] := b]
  }

  function Rechained(chains: seq<seq<int>>, a: nat, b: nat): seq<seq<int>>
    requires a < |chains| && b < |chains|
  {
    chains[a := chains[a] + chains[b]][b := []]
  }

  /** The choice the two scans of freq[] make: least weight first, and among
      equal weights the larger symbol number. */
  predicate Before(freq: seq<nat>, i: nat, j: nat)
    requires i < |freq| && j < |freq|
  {
    freq[i] < freq[j] || (freq[i] == freq[j] && i > j)
  }

  ghost predicate Chosen(freq: seq<nat>, a: nat, b: nat) {
    && a < |freq| && b < |freq| && a != b && freq[a] > 0 && freq[b] > 0
    && (forall i :: 0 <= i < |freq| && freq[i] > 0 && i != a ==> Before(freq, a, i))
    && (forall i :: 0 <= i < |freq| && freq[i] > 0 && i != a && i != b ==> Before(freq, b, i))
  }

  // ----- one merge keeps everything

  lemma {:induction false} GroupSums(owner: seq<int>, a: int, b: int, r: int, f: seq<nat>)
    requires |owner| == |f| && a != b
    ensures r != a && r != b ==> Group(Reowned(owner, a, b), r, f) == Group(owner, r, f)
    ensures Sum(Group(Reowned(owner, a, b), a, f)) == Sum(Group(owner, a, f)) + Sum(Group(owner, b, f))
    ensures Sum(Group(Reowned(owner, a, b), b, f)) == 0
  {
    SumCombine(Group(owner, a, f), Group(owner, b, f), Group(Reowned(owner, a, b), a, f), 1);
    SumZero(Group(Reowned(owner, a, b), b, f));
  }

  lemma {:induction false} ForestMerge(orig: seq<nat>, freq: seq<nat>, owner: seq<int>, a: nat, b: nat)
    requires Forest(orig, freq, owner)
    requires a < NSYMS && b < NSYMS && a != b && freq[a] > 0 && freq[b] > 0
    ensures Forest(orig, Merged(freq, a, b), Reowned(owner, a, b))
  {
    forall r | 0 <= r < NSYMS
      ensures Merged(freq, a, b)[r] == Sum(Group(Reowned(owner, a, b), r, orig))
    {
      GroupSums(owner, a, b, r, orig);
    }
  }

  lemma {:induction false} LinkedMerge(freq: seq<nat>, others: seq<int>, owner: seq<int>, chains: seq<seq<int>>, a: nat, b: nat)
    requires Linked(freq, others, owner, chains)
    requires a < NSYMS && b < NSYMS && a != b && freq[a] > 0 && freq[b] > 0
    ensures Linked(Merged(freq, a, b), Relinked(others, chains[a], b), Reowned(owner, a, b), Rechained(chains, a, b))
  {
    var others', owner', chains' := Relinked(others, chains[a], b), Reowned(owner, a, b), Rechained(chains, a, b);
    forall r | 0 <= r < NSYMS && Merged(freq, a, b)[r] > 0
      ensures Chain(others', owner', r, chains'[r])
    {
      if r == a {
        ChainJoin(others, owner, a, b, chains[a], chains[b]);
      } else {
        assert Chain(others, owner, r, chains[r]);
        var last := chains[a][|chains[a]| - 1];
        forall j | 0 <= j < |chains[r]|
          ensures chains[r][j] != last
        {
          assert owner[chains[r][j]] == r && owner[last] == a;
        }
        assert forall j :: 0 <= j < |chains[r]| ==> others'[chains[r][j]] == others[chains[r][j]];
      }
    }
  }

  lemma {:induction false} ChainJoin(others: seq<int>, owner: seq<int>, a: nat, b: nat, ca: seq<int>, cb: seq<int>)
    requires |others| == |owner| == NSYMS && a < NSYMS && b < NSYMS && a != b
    requires Chain(others, owner, a, ca) && Chain(others, owner, b, cb)
    ensures Chain(Relinked(others, ca, b), Reowned(owner, a, b), a, ca + cb)
  {
    var others', owner', c := Relinked(others, ca, b), Reowned(owner, a, b), ca + cb;
    forall j | 0 <= j < |c|
      ensures 0 <= c[j] < NSYMS && owner'[c[j]] == a
      ensures others'[c[j]] == NextInChain(c, j)
    {
      var last := ca[|ca| - 1];
      assert owner[last] == a;
      if j < |ca| - 1 {
        assert c[j] == ca[j] != last && c[j + 1] == ca[j + 1];
        assert others[ca[j]] == NextInChain(ca, j);
      } else if j == |ca| - 1 {
        assert c[j] == last && c[j + 1] == cb[0];
      } else {
        var k := j - |ca|;
        assert c[j] == cb[k] && owner[cb[k]] == b;
        assert j + 1 < |c| ==> c[j + 1] == cb[k + 1];
        assert others[cb[k]] == NextInChain(cb, k);
      }
    }
    forall j, k | 0 <= j < k < |c|
      ensures c[j] != c[k]
    {
      if j < |ca| <= k {
        assert owner[ca[j]] == a && owner[cb[k - |ca|]] == b;
      }
    }
    forall s | 0 <= s < NSYMS && owner'[s] == a
      ensures s in c
    {
      assert s in ca || s in cb;
    }
  }

  lemma {:induction false} TreesFullMerge(freq: seq<nat>, codesize: seq<nat>, owner: seq<int>, n: nat, a: nat, b: nat)
    requires TreesFull(freq, codesize, owner, n)
    requires forall s :: 0 <= s < NSYMS ==> codesize[s] < n
    requires a < NSYMS && b < NSYMS && a != b && freq[a] > 0 && freq[b] > 0
    ensures TreesFull(Merged(freq, a, b), Deepened(codesize, owner, a, b), Reowned(owner, a, b), n)
  {
    var w, w' := Weights(codesize, n), Weights(Deepened(codesize, owner, a, b), n);
    var owner' := Reowned(owner, a, b);
    forall r | 0 <= r < NSYMS && Merged(freq, a, b)[r] > 0
      ensures Sum(Group(owner', r, w')) == Pow2(n)
    {
      if r == a {
        SumCombine(Group(owner, a, w), Group(owner, b, w), Group(owner', a, w'), 2);
      } else {
        assert Group(owner', r, w') == Group(owner, r, w);
      }
    }
  }

  /** The merge adds the weights of both trees to the cost paid so far. */
  lemma {:induction false} CostMerge(orig: seq<nat>, freq: seq<nat>, codesize: seq<nat>, owner: seq<int>, a: nat, b: nat)
    requires Forest(orig, freq, owner) && |codesize| == NSYMS
    requires a < NSYMS && b < NSYMS && a != b
    ensures Cost(orig, Deepened(codesize, owner, a, b)) == Cost(orig, codesize) + freq[a] + freq[b]
  {
    var both := Group(Reowned(owner, a, b), a, orig);
    GroupSums(owner, a, b, a, orig);
    var c, c' := CostTerms(orig, codesize), CostTerms(orig, Deepened(codesize, owner, a, b));
    forall i | 0 <= i < NSYMS
      ensures 1 * c'[i] == c[i] + both[i]
    {
      if owner[i] == a || owner[i] == b {
        assert orig[i] * (codesize[i] + 1) == orig[i] * codesize[i] + orig[i];
      }
    }
    SumCombine(c, both, c', 1);
  }

  lemma {:induction false} PseudoDeepestMerge(orig: seq<nat>, freq: seq<nat>, codesize: seq<nat>, owner: seq<int>, m: nat, a: nat, b: nat)
    requires Forest(orig, freq, owner) && orig[PSEUDO] > 0
    requires PseudoDeepest(freq, codesize, owner, m)
    requires Chosen(freq, a, b)
    ensures PseudoDeepest(Merged(freq, a, b), Deepened(codesize, owner, a, b), Reowned(owner, a, b), freq[b])
  {
    var freq', codesize', owner' := Merged(freq, a, b), Deepened(codesize, owner, a, b), Reowned(owner, a, b);
    var root, root' := owner[PSEUDO], owner'[PSEUDO];
    assert m <= freq[a] <= freq[b];
    forall s | 0 <= s < NSYMS && 0 <= owner'[s] < NSYMS
      ensures codesize'[s] <= codesize'[PSEUDO]
      ensures owner'[s] != root' && codesize'[s] == codesize'[PSEUDO] ==>
                AtLeast(freq'[owner'[s]], freq'[root'], root' != PSEUDO)
      ensures owner'[s] != root' && codesize'[s] + 1 == codesize'[PSEUDO] ==>
                AtLeast(freq'[owner'[s]] + freq[b], freq'[root'], root' != PSEUDO)
    {
    }
  }

  // ----- how deep a tree of a given weight can be

  /** The least weight of a tree of height h: the Fibonacci numbers. */
  function LeastWeight(h: nat): nat {
    if h < 2 then h + 1 else LeastWeight(h - 1) + LeastWeight(h - 2)
  }

  /** Every symbol's depth is paid for by the weight of its tree, and short of
      the last level by every tree. */
  ghost predicate Heavy(freq: seq<nat>, codesize: seq<nat>, owner: seq<int>, m: nat) {
    && |freq| == |codesize| == |owner| == NSYMS
    && (forall s :: 0 <= s < NSYMS && 0 <= owner[s] < NSYMS ==> freq[owner[s]] >= LeastWeight(codesize[s]))
    && (forall s :: 0 <= s < NSYMS && 0 <= owner[s] < NSYMS && codesize[s] > 0 ==> m >= LeastWeight(codesize[s] - 1))
  }

  lemma {:induction false} HeavyMerge(freq: seq<nat>, codesize: seq<nat>, owner: seq<int>, m: nat, a: nat, b: nat)
    requires PseudoDeepest(freq, codesize, owner, m) && Heavy(freq, codesize, owner, m)
    requires Chosen(freq, a, b) && owner[a] == a && owner[b] == b
    requires forall s :: 0 <= s < NSYMS && 0 <= owner[s] < NSYMS ==> freq[owner[s]] > 0
    ensures Heavy(Merged(freq, a, b), Deepened(codesize, owner, a, b), Reowned(owner, a, b), freq[b])
  {
    var freq', codesize', owner' := Merged(freq, a, b), Deepened(codesize, owner, a, b), Reowned(owner, a, b);
    assert m <= freq[a] <= freq[b];
    forall s | 0 <= s < NSYMS && 0 <= owner'[s] < NSYMS
      ensures freq'[owner'[s]] >= LeastWeight(codesize'[s])
      ensures codesize'[s] > 0 ==> freq[b] >= LeastWeight(codesize'[s] - 1)
    {
      var d := codesize[s];
      if owner[s] == a || owner[s] == b {
        assert codesize'[s] == d + 1;
        assert d > 0 ==> LeastWeight(d + 1) == LeastWeight(d) + LeastWeight(d - 1);
      } else {
        assert owner'[s] == owner[s] != a;
      }
    }
  }
}
