/** finish_pass_gather: tables from the counts, and the guarantee that the
    output pass finds a code for everything it has to send. */
module OptimizedTables {
  import opened JpegLimits
  import opened Arith
  import opened HuffTable
  import opened DerivedTables
  import opened OptimalTable
  import opened TableGenerator
  import opened BlockCoding
  import opened ScanCoding
  import opened HuffGather

  /** A table for the counts is one both sides accept, and it gives a code to
      every counted symbol. */
  lemma {:induction false} TableAccepted(t: HuffTbl, w: seq<nat>, isDC: bool)
    requires TableFor(t, w)
    requires forall s :: 0 <= s < 256 && w[s] > 0 ==> s <= MaxSymbol(isDC)
    ensures LegalForEncoder(t, isDC) && LegalForDecoder(t, isDC)
  {
    var n := Upto(t.bits, MAXBITS);
    forall p | 0 <= p < n
      ensures t.huffval[p] <= MaxSymbol(isDC)
    {
      assert t.huffval[p] in t.huffval[..n];
    }
  }

  lemma {:induction false} CountedHasCode(t: HuffTbl, w: seq<nat>, c: CDerived, s: UInt8)
    requires TableFor(t, w) && Encodes(c, t) && w[s] > 0
    ensures c.ehufsi[s] > 0
  {
    var n := Upto(t.bits, MAXBITS);
    assert s in t.huffval[..n];
    var p :| 0 <= p < n && t.huffval[p] == s;
    assert HasLength(t.bits, p, c.ehufsi[s]);
  }

  /** The first 256 counters; the last one belongs to the pseudo-symbol. */
  function RealCounts(counts: seq<nat>): seq<nat>
    requires |counts| == NSYMS
  {
    counts[..PSEUDO]
  }

  /** Every component's tables are made from the counters of its slots. */
  ghost predicate TablesMade(sc: Scan, dcT: seq<HuffTbl>, acT: seq<HuffTbl>, dc: seq<seq<nat>>, ac: seq<seq<nat>>)
    requires ValidScan(sc)
    requires |dc| == |ac| == NUM_HUFF_TBLS && forall t :: 0 <= t < NUM_HUFF_TBLS ==> |dc[t]| == |ac[t]| == NSYMS
  {
    && |dcT| == |acT| == NUM_HUFF_TBLS
    && (forall c :: 0 <= c < |sc.dcTbl| ==> TableFor(dcT[sc.dcTbl[c]], RealCounts(dc[sc.dcTbl[c]])))
    && (forall c :: 0 <= c < |sc.acTbl| ==> TableFor(acT[sc.acTbl[c]], RealCounts(ac[sc.acTbl[c]])))
  }

  /** The encoder's derived tables are those of the tables in their slots. */
  ghost predicate EncodesSlots(sc: Scan, tabs: CTables, dcT: seq<HuffTbl>, acT: seq<HuffTbl>)
    requires ValidScan(sc) && ShapedTables(tabs)
  {
    && |dcT| == |acT| == NUM_HUFF_TBLS
    && (forall c :: 0 <= c < |sc.dcTbl| ==> Encodes(tabs.dc[sc.dcTbl[c]], dcT[sc.dcTbl[c]]))
    && (forall c :: 0 <= c < |sc.acTbl| ==> Encodes(tabs.ac[sc.acTbl[c]], acT[sc.acTbl[c]]))
  }

  /** Derived tables built from tables for these counters. */
  ghost predicate TablesFrom(sc: Scan, tabs: CTables, dcT: seq<HuffTbl>, acT: seq<HuffTbl>, dc: seq<seq<nat>>, ac: seq<seq<nat>>)
    requires ValidScan(sc) && ShapedTables(tabs)
  {
    && |dc| == |ac| == NUM_HUFF_TBLS && (forall t :: 0 <= t < NUM_HUFF_TBLS ==> |dc[t]| == |ac[t]| == NSYMS)
    && TablesMade(sc, dcT, acT, dc, ac) && EncodesSlots(sc, tabs, dcT, acT)
  }

  lemma {:induction false} TallyPositive(sc: Scan, its: seq<Tagged>, i: nat)
    requires ValidScan(sc) && TaggedOk(sc, its) && i < |its|
    ensures its[i].item.Dc? ==> TallyDc(sc, its, sc.dcTbl[its[i].comp], its[i].item.size) > 0
    ensures its[i].item.Ac? ==> TallyAc(sc, its, sc.acTbl[its[i].comp], 16 * its[i].item.run + its[i].item.size) > 0
  {
    if i > 0 {
      TallyPositive(sc, its[1..], i - 1);
    }
  }

  /** The missing-code error cannot happen: whatever was counted has a code. */
  lemma {:induction false} StatisticsSuffice(sc: Scan, tabs: CTables, dcT: seq<HuffTbl>, acT: seq<HuffTbl>,
                            dc: seq<seq<nat>>, ac: seq<seq<nat>>, its: seq<Tagged>)
    requires ValidScan(sc) && ShapedTables(tabs) && TaggedOk(sc, its)
    requires Tallied(sc, dc, ac, its) && TablesFrom(sc, tabs, dcT, acT, dc, ac) && TaggedInRange(its)
    ensures TaggedCodable(sc, tabs, its)
  {
    hide TableFor, Encodes, TallyDc, TallyAc;
    forall i | 0 <= i < |its|
      ensures Codable(tabs.dc[sc.dcTbl[its[i].comp]], tabs.ac[sc.acTbl[its[i].comp]], its[i].item)
    {
      TallyPositive(sc, its, i);
      assert InRange(its[i].item);
      var d, a := sc.dcTbl[its[i].comp], sc.acTbl[its[i].comp];
      match its[i].item
      case Dc(s) => CountedHasCode(dcT[d], RealCounts(dc[d]), tabs.dc[d], s);
      case Ac(r, s) => CountedHasCode(acT[a], RealCounts(ac[a]), tabs.ac[a], 16 * r + s);
      case Extra(_, _) =>
    }
  }

  /** Over a whole scan: if the tables come from counting the same MCUs, the
      output pass never gives up. */
  lemma {:induction false} ScanNeverFails(sc: Scan, tabs: CTables, st: State, mcus: seq<seq<Block>>)
    requires ValidScan(sc) && ShapedTables(tabs) && ValidState(sc, st) && ValidMcus(sc, mcus)
    requires TaggedCodable(sc, tabs, ScanItems(sc, st.last, st.togo, mcus))
    ensures ScanCodable(sc, tabs, st, mcus)
  {
    forall i | 0 <= i < |mcus|
      ensures McuCodable(sc, tabs, Steps(sc, tabs, st, mcus[..i]), mcus[i])
    {
      McuInScan(sc, tabs, st, mcus, i);
    }
  }

  lemma {:induction false} McuInScan(sc: Scan, tabs: CTables, st: State, mcus: seq<seq<Block>>, i: nat)
    requires ValidScan(sc) && ShapedTables(tabs) && ValidState(sc, st) && ValidMcus(sc, mcus) && i < |mcus|
    requires TaggedCodable(sc, tabs, ScanItems(sc, st.last, st.togo, mcus))
    ensures McuCodable(sc, tabs, Steps(sc, tabs, st, mcus[..i]), mcus[i])
    decreases i
  {
    hide ItemsFrom, TaggedCodable, LastFrom, TaggedBits;
    var l1 := LastIn(sc, st.last, st.togo);
    var rest := ScanItems(sc, LastFrom(sc, l1, mcus[0], 0), TogoAfter(sc, st.togo), mcus[1..]);
    TaggedBitsAppend(sc, tabs, ItemsFrom(sc, l1, mcus[0], 0), rest);
    StepPredictions(sc, tabs, st, mcus[0]);
    if i == 0 {
      assert mcus[..0] == [];
    } else {
      var s1 := Step(sc, tabs, st, mcus[0]);
      McuInScan(sc, tabs, s1, mcus[1..], i - 1);
      StepsFront(sc, tabs, st, mcus[..i]);
      assert mcus[..i][1..] == mcus[1..][..i - 1];
    }
  }

  lemma {:induction false} StepsFront(sc: Scan, tabs: CTables, st: State, mcus: seq<seq<Block>>)
    requires ValidScan(sc) && ShapedTables(tabs) && ValidState(sc, st) && ValidMcus(sc, mcus) && |mcus| > 0
    ensures Steps(sc, tabs, st, mcus) == Steps(sc, tabs, Step(sc, tabs, st, mcus[0]), mcus[1..])
  {
    hide Step;
    if |mcus| > 1 {
      StepsFront(sc, tabs, st, mcus[..|mcus| - 1]);
      assert mcus[..|mcus| - 1][1..] == mcus[1..][..|mcus| - 2];
    } else {
      assert mcus[..0] == [];
    }
  }

  // ----- the counters meet what the table generator assumes

  lemma {:induction false} UsedZeros(w: seq<nat>, i: nat, j: nat)
    requires i < |w| && j < |w| && i != j && w[i] == 0 && w[j] == 0
    ensures Used(w) + 2 <= |w|
  {
    var one: seq<nat> := seq(|w|, k => 1);
    SumOnes(|w|);
    SumUpdate(one, i, 0);
    SumUpdate(one[i := 0], j, 0);
    SumMono(UsedMarks(w), one[i := 0][j := 0]);
  }

  lemma {:induction false} SumOnes(n: nat)
    ensures Sum(seq(n, k => 1)) == n
  {
    if n > 0 {
      SumOnes(n - 1);
      assert seq(n, k => 1)[1..] == seq(n - 1, k => 1);
    }
  }

  lemma {:induction false} UsedSome(w: seq<nat>, i: nat)
    requires i < |w| && w[i] > 0
    ensures Used(w) >= 1
  {
    SumAtLeast(UsedMarks(w), i);
  }

  lemma {:induction false} TallyRange(sc: Scan, its: seq<Tagged>, tbl: nat, s: nat)
    requires ValidScan(sc) && TaggedOk(sc, its) && TaggedInRange(its)
    ensures s > MAX_COEF_BITS + 1 ==> TallyDc(sc, its, tbl, s) == 0
    ensures s % 16 > MAX_COEF_BITS ==> TallyAc(sc, its, tbl, s) == 0
  {
    hide NaturalOrder;
    if its != [] {
      assert InRange(its[0].item);
      TallyRange(sc, its[1..], tbl, s);
    }
  }

  /** The tables in their slots, or the overflow error. */
  datatype Finished = Tables(dc: seq<HuffTbl>, ac: seq<HuffTbl>) | Overflow

  /** What jpeg_gen_optimal_table needs of a set of counters. */
  ghost predicate Usable(counts: seq<nat>)
    requires |counts| == NSYMS
  {
    1 <= Used(RealCounts(counts)) <= 254 && Sum(RealCounts(counts)) < LARGEST
  }

  method GenerateFor(counts: seq<nat>) returns (r: GenResult)
    requires |counts| == NSYMS && Usable(counts)
    ensures r.Table? ==> TableFor(r.t, RealCounts(counts))
    ensures r.ClenOverflow? ==> Sum(RealCounts(counts)) >= DEEP_TOTAL
  {
    var freq := new nat[NSYMS](i requires 0 <= i < NSYMS => counts[i]);
    assert freq[..] == counts;
    ghost var cs;
    r, cs := GenOptimalTable(freq);
  }

  /** Slots marked in did have a table made from their counters, the others what they had before. */
  ghost predicate MadeSlots(tbls: seq<HuffTbl>, did: seq<bool>, ptrs: seq<HuffTbl>, counts: seq<seq<nat>>, used: seq<nat>) {
    && |tbls| == |did| == |ptrs| == |counts| == NUM_HUFF_TBLS
    && (forall t :: 0 <= t < NUM_HUFF_TBLS ==> |counts[t]| == NSYMS)
    && (forall t :: 0 <= t < NUM_HUFF_TBLS && did[t] ==> t in used && TableFor(tbls[t], RealCounts(counts[t])))
    && (forall t :: 0 <= t < NUM_HUFF_TBLS && !did[t] ==> tbls[t] == ptrs[t])
  }

  /** The table of one slot, unless it was made for an earlier component. */
  method MakeTable(slot: nat, counts: seq<seq<nat>>, tbls: seq<HuffTbl>, did: seq<bool>, ghost ptrs: seq<HuffTbl>, ghost used: seq<nat>)
    returns (ok: bool, tbls': seq<HuffTbl>, did': seq<bool>)
    requires MadeSlots(tbls, did, ptrs, counts, used) && slot < NUM_HUFF_TBLS && slot in used && Usable(counts[slot])
    ensures ok ==> MadeSlots(tbls', did', ptrs, counts, used) && did' == did[slot := true]
    ensures !ok ==> Sum(RealCounts(counts[slot])) >= DEEP_TOTAL
  {
    hide TableFor, Usable, RealCounts, Sum;
    ok, tbls', did' := true, tbls, did[slot := true];
    if !did[slot] {
      var g := GenerateFor(counts[slot]);
      if g.ClenOverflow? {
        ok := false;
      } else {
        tbls' := tbls[slot := g.t];
      }
    }
  }

  /** Some slot in use has so many counts that its code could be too long. */
  ghost predicate ManyCounts(sc: Scan, dc: seq<seq<nat>>, ac: seq<seq<nat>>)
    requires ValidScan(sc)
    requires |dc| == |ac| == NUM_HUFF_TBLS && forall t :: 0 <= t < NUM_HUFF_TBLS ==> |dc[t]| == |ac[t]| == NSYMS
  {
    || (exists c :: 0 <= c < |sc.dcTbl| && Sum(RealCounts(dc[sc.dcTbl[c]])) >= DEEP_TOTAL)
    || (exists c :: 0 <= c < |sc.acTbl| && Sum(RealCounts(ac[sc.acTbl[c]])) >= DEEP_TOTAL)
  }

  /** A table for each slot the scan uses, once per slot; other slots keep what they had. */
  method FinishPassGather(sc: Scan, dcCounts: seq<seq<nat>>, acCounts: seq<seq<nat>>, dcPtrs: seq<HuffTbl>, acPtrs: seq<HuffTbl>)
    returns (r: Finished)
    requires ValidScan(sc) && |dcCounts| == |acCounts| == |dcPtrs| == |acPtrs| == NUM_HUFF_TBLS
    requires forall t :: 0 <= t < NUM_HUFF_TBLS ==> |dcCounts[t]| == |acCounts[t]| == NSYMS
    requires forall c :: 0 <= c < |sc.dcTbl| ==> Usable(dcCounts[sc.dcTbl[c]]) && Usable(acCounts[sc.acTbl[c]])
    ensures r.Tables? ==> TablesMade(sc, r.dc, r.ac, dcCounts, acCounts)
    ensures r.Tables? ==> forall t :: 0 <= t < NUM_HUFF_TBLS ==>
              (t !in sc.dcTbl ==> r.dc[t] == dcPtrs[t]) && (t !in sc.acTbl ==> r.ac[t] == acPtrs[t])
    ensures r.Overflow? ==> ManyCounts(sc, dcCounts, acCounts)
  {
    hide TableFor, Usable, NaturalOrder, RealCounts, Sum, MadeSlots;
    var dcT, acT := dcPtrs, acPtrs;
    var didDc, didAc := seq(NUM_HUFF_TBLS, i => false), seq(NUM_HUFF_TBLS, i => false);
    NothingMade(dcPtrs, dcCounts, sc.dcTbl);
    NothingMade(acPtrs, acCounts, sc.acTbl);
    for ci := 0 to |sc.dcTbl|
      invariant |didDc| == |didAc| == NUM_HUFF_TBLS
      invariant MadeSlots(dcT, didDc, dcPtrs, dcCounts, sc.dcTbl) && MadeSlots(acT, didAc, acPtrs, acCounts, sc.acTbl)
      invariant forall c :: 0 <= c < ci ==> didDc[sc.dcTbl[c]] && didAc[sc.acTbl[c]]
    {
      var ok;
      ok, dcT, didDc := MakeTable(sc.dcTbl[ci], dcCounts, dcT, didDc, dcPtrs, sc.dcTbl);
      if !ok { return Overflow; }
      ok, acT, didAc := MakeTable(sc.acTbl[ci], acCounts, acT, didAc, acPtrs, sc.acTbl);
      if !ok { return Overflow; }
    }
    AllMade(dcT, didDc, dcPtrs, dcCounts, sc.dcTbl);
    AllMade(acT, didAc, acPtrs, acCounts, sc.acTbl);
    r := Tables(dcT, acT);
  }

  lemma {:induction false} NothingMade(ptrs: seq<HuffTbl>, counts: seq<seq<nat>>, used: seq<nat>)
    requires |ptrs| == |counts| == NUM_HUFF_TBLS && forall t :: 0 <= t < NUM_HUFF_TBLS ==> |counts[t]| == NSYMS
    ensures MadeSlots(ptrs, seq(NUM_HUFF_TBLS, i => false), ptrs, counts, used)
  {
  }

  lemma {:induction false} AllMade(tbls: seq<HuffTbl>, did: seq<bool>, ptrs: seq<HuffTbl>, counts: seq<seq<nat>>, used: seq<nat>)
    requires MadeSlots(tbls, did, ptrs, counts, used) && forall c :: 0 <= c < |used| ==> used[c] < NUM_HUFF_TBLS && did[used[c]]
    ensures |tbls| == NUM_HUFF_TBLS
    ensures forall c :: 0 <= c < |used| ==> TableFor(tbls[used[c]], RealCounts(counts[used[c]]))
    ensures forall t :: 0 <= t < NUM_HUFF_TBLS && t !in used ==> tbls[t] == ptrs[t]
  {
    hide TableFor, RealCounts;
  }

  /** Counters of an in-range scan are usable as soon as the slot was used and
      the image is not too large for the searches in the generator. */
  lemma {:induction false} TalliesUsable(sc: Scan, dc: seq<seq<nat>>, ac: seq<seq<nat>>, its: seq<Tagged>, t: nat, s: nat)
    requires ValidScan(sc) && TaggedOk(sc, its) && Tallied(sc, dc, ac, its) && TaggedInRange(its)
    requires t < NUM_HUFF_TBLS && s < 256
    ensures dc[t][s] > 0 && Sum(RealCounts(dc[t])) < LARGEST ==> Usable(dc[t])
    ensures ac[t][s] > 0 && Sum(RealCounts(ac[t])) < LARGEST ==> Usable(ac[t])
  {
    TallyRange(sc, its, t, 254);
    TallyRange(sc, its, t, 255);
    UsedZeros(RealCounts(dc[t]), 254, 255);
    UsedZeros(RealCounts(ac[t]), 254, 255);
    if dc[t][s] > 0 { UsedSome(RealCounts(dc[t]), s); }
    if ac[t][s] > 0 { UsedSome(RealCounts(ac[t]), s); }
  }
}
