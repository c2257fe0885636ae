/** Section K.2 code lengths: the weights, the Kraft sum and the cost that the
    merge loop of jpeg_gen_optimal_table works against, on plain sequences. */
module HuffmanMerge {
  import opened Arith

  // A symbol takes part when its weight is nonzero.

  function KraftTerm(w: nat, len: nat, n: nat): nat {
    if w > 0 && len <= n then Pow2(n - len) else 0
  }

  function KraftTerms(w: seq<nat>, len: seq<nat>, n: nat): seq<nat>
    requires |w| == |len|
  {
    seq(|w|, i requires 0 <= i < |w| => KraftTerm(w[i], len[i], n))
  }

  function CostTerms(w: seq<nat>, len: seq<nat>): seq<nat>
    requires |w| == |len|
  {
    seq(|w|, i requires 0 <= i < |w| => w[i] * len[i])
  }

  /** Total size of the coded data: the sum of weight times code length. */
  function Cost(w: seq<nat>, len: seq<nat>): nat
    requires |w| == |len|
  {
    Sum(CostTerms(w, len))
  }

  /** The lengths satisfy the Kraft inequality, scaled by 2^n. */
  ghost predicate Fits(w: seq<nat>, len: seq<nat>, n: nat) {
    && |w| == |len|
    && (forall i :: 0 <= i < |w| && w[i] > 0 ==> len[i] <= n)
    && Sum(KraftTerms(w, len, n)) <= Pow2(n)
  }

  function Merged(w: seq<nat>, a: nat, b: nat): seq<nat>
    requires a < |w| && b < |w|
  {
    w[a := w[a] + w[b]][b := 0]
  }

  /** a carries the least weight, b the least of the others. */
  ghost predicate LeastPair(w: seq<nat>, a: nat, b: nat) {
    && a < |w| && b < |w| && a != b && w[a] > 0 && w[b] > 0
    && (forall i :: 0 <= i < |w| && w[i] > 0 ==> w[a] <= w[i])
    && (forall i :: 0 <= i < |w| && w[i] > 0 && i != a ==> w[b] <= w[i])
  }

  // ----- exchange arguments on code lengths

  lemma {:induction false} LowerScale(w: seq<nat>, len: seq<nat>, n: nat)
    requires n > 0 && Fits(w, len, n)
    requires forall i :: 0 <= i < |w| && w[i] > 0 ==> len[i] < n
    ensures Fits(w, len, n - 1)
  {
    var lo := KraftTerms(w, len, n - 1);
    var zero := seq(|w|, i => 0);
    SumZero(zero);
    SumCombine(KraftTerms(w, len, n), zero, lo, 2);
  }

  /** With one longest code word the sum is odd, so that word can be shortened. */
  lemma {:induction false} ShortenUnique(w: seq<nat>, len: seq<nat>, n: nat, x: nat)
    requires n > 0 && Fits(w, len, n)
    requires x < |w| && w[x] > 0 && len[x] == n
    requires forall i :: 0 <= i < |w| && w[i] > 0 && i != x ==> len[i] < n
    ensures Fits(w, len[x := n - 1], n)
    ensures Cost(w, len[x := n - 1]) <= Cost(w, len)
  {
    var t := KraftTerms(w, len, n);
    var len' := len[x := n - 1];
    assert KraftTerms(w, len', n) == t[x := 2];
    SumUpdate(t, x, 2);
    SumUpdate(t, x, 0);
    var rest := t[x := 0];
    var half := seq(|w|, i requires 0 <= i < |w| => if i == x then 0 else KraftTerm(w[i], len[i], n - 1));
    var zero := seq(|w|, i => 0);
    SumZero(zero);
    SumCombine(rest, zero, half, 2);
    assert Pow2(n) == 2 * Pow2(n - 1);
    var c := CostTerms(w, len);
    assert CostTerms(w, len') == c[x := w[x] * (n - 1)];
    SumUpdate(c, x, w[x] * (n - 1));
  }

  /** Giving the longer of two lengths to the lighter symbol costs nothing. */
  lemma {:induction false} SwapLengths(w: seq<nat>, len: seq<nat>, n: nat, a: nat, x: nat)
    requires Fits(w, len, n)
    requires a < |w| && x < |w| && w[a] > 0 && w[x] > 0 && a != x
    requires w[a] <= w[x] && len[a] <= len[x]
    ensures Fits(w, len[a := len[x]][x := len[a]], n)
    ensures Cost(w, len[a := len[x]][x := len[a]]) <= Cost(w, len)
  {
    var len' := len[a := len[x]][x := len[a]];
    var t := KraftTerms(w, len, n);
    assert KraftTerms(w, len', n) == t[a := t[x]][x := t[a]];
    SumUpdate(t, a, t[x]);
    SumUpdate(t[a := t[x]], x, t[a]);
    var c := CostTerms(w, len);
    var c1 := c[a := w[a] * len[x]];
    assert CostTerms(w, len') == c1[x := w[x] * len[a]];
    SumUpdate(c, a, w[a] * len[x]);
    SumUpdate(c1, x, w[x] * len[a]);
    CrossTerms(w[a], w[x], len[a], len[x]);
  }

  lemma {:induction false} CrossTerms(p: nat, q: nat, l: nat, m: nat)
    requires p <= q && l <= m
    ensures p * m + q * l <= p * l + q * m
  {
    assert (q - p) * (m - l) >= 0;
    assert (q - p) * (m - l) == q * m - q * l - p * m + p * l;
  }

  /** Joining two longest code words under one parent saves their weight. */
  lemma {:induction false} JoinSiblings(w: seq<nat>, len: seq<nat>, n: nat, a: nat, b: nat)
    requires Fits(w, len, n)
    requires a < |w| && b < |w| && a != b && w[a] > 0 && w[b] > 0
    requires len[a] == n && len[b] == n
    ensures n > 0
    ensures Fits(Merged(w, a, b), len[a := n - 1], n)
    ensures Cost(w, len) == w[a] + w[b] + Cost(Merged(w, a, b), len[a := n - 1])
  {
    var t := KraftTerms(w, len, n);
    assert t[a] == 1 && t[b] == 1;
    SumUpdate(t, a, 2);
    SumUpdate(t[a := 2], b, 0);
    SumAtLeast(t[a := 2][b := 0], a);
    assert n > 0;
    assert KraftTerms(Merged(w, a, b), len[a := n - 1], n) == t[a := 2][b := 0];
    JoinCost(w, len, n, a, b);
  }

  lemma {:induction false} JoinCost(w: seq<nat>, len: seq<nat>, n: nat, a: nat, b: nat)
    requires |w| == |len| && n > 0
    requires a < |w| && b < |w| && a != b && len[a] == n && len[b] == n
    ensures Cost(w, len) == w[a] + w[b] + Cost(Merged(w, a, b), len[a := n - 1])
  {
    var c := CostTerms(w, len);
    var x: nat := (w[a] + w[b]) * (n - 1);
    assert CostTerms(Merged(w, a, b), len[a := n - 1]) == c[a := x][b := 0];
    SumUpdate(c, a, x);
    SumUpdate(c[a := x], b, 0);
    assert c[a] == w[a] * n && c[b] == w[b] * n;
    JoinArithmetic(w[a], w[b], n);
  }

  lemma {:induction false} JoinArithmetic(p: nat, q: nat, n: nat)
    requires n > 0
    ensures p * n + q * n == p + q + (p + q) * (n - 1)
  {
  }

  /** The step behind optimality: any lengths for the current weights give
      lengths for the merged weights that are cheaper by what the merge pays. */
  lemma {:induction false} MergeStep(w: seq<nat>, len: seq<nat>, n: nat, a: nat, b: nat)
    returns (len': seq<nat>, n': nat)
    requires LeastPair(w, a, b) && Fits(w, len, n)
    ensures Fits(Merged(w, a, b), len', n')
    ensures Cost(w, len) >= w[a] + w[b] + Cost(Merged(w, a, b), len')
    decreases n
  {
    if x :| 0 <= x < |w| && w[x] > 0 && len[x] == n {
      if y :| 0 <= y < |w| && w[y] > 0 && len[y] == n && y != x {
        len' := TwoLongest(w, len, n, a, b, x, y);
        JoinSiblings(w, len', n, a, b);
        len', n' := len'[a := n - 1], n;
      } else {
        if n == 0 {
          assert false;
        }
        ShortenUnique(w, len, n, x);
        LowerScale(w, len[x := n - 1], n);
        len', n' := MergeStep(w, len[x := n - 1], n - 1, a, b);
      }
    } else {
      assert len[a] <= n && len[a] != n;
      LowerScale(w, len, n);
      len', n' := MergeStep(w, len, n - 1, a, b);
    }
  }

  lemma {:induction false} TwoLongest(w: seq<nat>, len: seq<nat>, n: nat, a: nat, b: nat, x: nat, y: nat)
    returns (len': seq<nat>)
    requires LeastPair(w, a, b) && Fits(w, len, n)
    requires x < |w| && y < |w| && x != y && w[x] > 0 && w[y] > 0 && len[x] == n && len[y] == n
    ensures Fits(w, len', n) && len'[a] == n && len'[b] == n
    ensures Cost(w, len') <= Cost(w, len)
  {
    len' := len;
    var y' := y;
    if len[a] != n {
      // take the length of a symbol other than b
      var z := if x == b then y else x;
      y' := if x == b then x else y;
      SwapLengths(w, len, n, a, z);
      len' := len[a := n][z := len[a]];
    } else if y == a {
      y' := x;
    }
    if len'[b] != n {
      SwapLengths(w, len', n, b, y');
      len' := len'[b := n][y' := len'[b]];
    }
  }

  /** Whatever lengths the original symbols get, they cost at least what has
      been paid already plus some lengths for the current weights. */
  ghost predicate Dominates(orig: seq<nat>, paid: nat, w: seq<nat>) {
    forall len: seq<nat>, n: nat | Fits(orig, len, n) :: LowerBound(orig, len, paid, w)
  }

  ghost predicate LowerBound(orig: seq<nat>, len: seq<nat>, paid: nat, w: seq<nat>)
    requires |orig| == |len|
  {
    exists len': seq<nat>, n': nat :: Fits(w, len', n') && Cost(orig, len) >= paid + Cost(w, len')
  }

  lemma {:induction false} DominatesInit(orig: seq<nat>)
    ensures Dominates(orig, 0, orig)
  {
    forall len: seq<nat>, n: nat | Fits(orig, len, n)
      ensures LowerBound(orig, len, 0, orig)
    {
    }
  }

  lemma {:induction false} DominatesMerge(orig: seq<nat>, paid: nat, w: seq<nat>, a: nat, b: nat)
    requires Dominates(orig, paid, w) && LeastPair(w, a, b)
    ensures Dominates(orig, paid + w[a] + w[b], Merged(w, a, b))
  {
    forall len: seq<nat>, n: nat | Fits(orig, len, n)
      ensures LowerBound(orig, len, paid + w[a] + w[b], Merged(w, a, b))
    {
      assert LowerBound(orig, len, paid, w);
      var l1, n1 :| Fits(w, l1, n1) && Cost(orig, len) >= paid + Cost(w, l1);
      var l2, n2 := MergeStep(w, l1, n1, a, b);
    }
  }

  // ----- prefix codes

  /** No code word of a symbol in use begins with another one's. */
  ghost predicate PrefixFree(w: seq<nat>, codes: seq<seq<bool>>)
    requires |w| == |codes|
  {
    forall i, j :: 0 <= i < |w| && 0 <= j < |w| && i != j && w[i] > 0 && w[j] > 0 ==> !(codes[i] <= codes[j])
  }

  function Lengths(codes: seq<seq<bool>>): seq<nat> {
    seq(|codes|, i requires 0 <= i < |codes| => |codes[i]|)
  }

  /** The symbols whose code word starts with bit b, and those words without it. */
  function Starting(w: seq<nat>, codes: seq<seq<bool>>, b: bool): seq<nat>
    requires |w| == |codes|
  {
    seq(|w|, i requires 0 <= i < |w| => if codes[i] != [] && codes[i][0] == b then w[i] else 0)
  }

  function Tails(codes: seq<seq<bool>>): seq<seq<bool>> {
    seq(|codes|, i requires 0 <= i < |codes| => if codes[i] == [] then [] else codes[i][1..])
  }

  /** Kraft's inequality: every prefix code is among the length assignments
      that Dominates ranges over. */
  lemma {:induction false} KraftInequality(w: seq<nat>, codes: seq<seq<bool>>, n: nat)
    requires |w| == |codes| && PrefixFree(w, codes)
    requires forall i :: 0 <= i < |w| && w[i] > 0 ==> |codes[i]| <= n
    ensures Fits(w, Lengths(codes), n)
    decreases n
  {
    if x :| 0 <= x < |w| && w[x] > 0 && codes[x] == [] {
      KraftEmptyWord(w, codes, n, x);
    } else if n == 0 {
      SumZero(KraftTerms(w, Lengths(codes), n));
    } else {
      var w0, w1, c := Starting(w, codes, false), Starting(w, codes, true), Tails(codes);
      TailsPrefixFree(w, codes, false);
      TailsPrefixFree(w, codes, true);
      KraftInequality(w0, c, n - 1);
      KraftInequality(w1, c, n - 1);
      KraftSplit(w, codes, n);
    }
  }

  lemma {:induction false} KraftEmptyWord(w: seq<nat>, codes: seq<seq<bool>>, n: nat, x: nat)
    requires |w| == |codes| && PrefixFree(w, codes)
    requires x < |w| && w[x] > 0 && codes[x] == []
    ensures Fits(w, Lengths(codes), n)
  {
    var t := KraftTerms(w, Lengths(codes), n);
    forall i | 0 <= i < |w| && i != x
      ensures w[i] == 0
    {
      assert codes[x] <= codes[i];
    }
    SumUpdate(t, x, 0);
    SumZero(t[x := 0]);
  }

  lemma {:induction false} KraftSplit(w: seq<nat>, codes: seq<seq<bool>>, n: nat)
    requires |w| == |codes| && n > 0
    requires forall i :: 0 <= i < |w| && w[i] > 0 ==> 0 < |codes[i]| <= n
    ensures Sum(KraftTerms(w, Lengths(codes), n))
         == Sum(KraftTerms(Starting(w, codes, false), Lengths(Tails(codes)), n - 1))
          + Sum(KraftTerms(Starting(w, codes, true), Lengths(Tails(codes)), n - 1))
  {
    var l := Lengths(Tails(codes));
    var t0 := KraftTerms(Starting(w, codes, false), l, n - 1);
    var t1 := KraftTerms(Starting(w, codes, true), l, n - 1);
    var t := KraftTerms(w, Lengths(codes), n);
    forall i | 0 <= i < |w|
      ensures t[i] == t0[i] + t1[i]
    {
      if w[i] > 0 {
        assert l[i] == |codes[i]| - 1;
      }
    }
    SumCombine(t0, t1, t, 1);
  }

  lemma {:induction false} TailsPrefixFree(w: seq<nat>, codes: seq<seq<bool>>, b: bool)
    requires |w| == |codes| && PrefixFree(w, codes)
    ensures PrefixFree(Starting(w, codes, b), Tails(codes))
  {
    var w', c := Starting(w, codes, b), Tails(codes);
    forall i, j | 0 <= i < |w| && 0 <= j < |w| && i != j && w'[i] > 0 && w'[j] > 0
      ensures !(c[i] <= c[j])
    {
      assert codes[i] == [b] + c[i] && codes[j] == [b] + c[j];
      assert !(codes[i] <= codes[j]);
    }
  }
}
