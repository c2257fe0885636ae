/** A sequential scan with optimal tables, from the statistics pass to the bytes
    and back. */
module OptimizedScan {
  import opened JpegLimits
  import opened Arith
  import opened HuffTable
  import opened DerivedTables
  import opened OptimalTable
  import opened TableGenerator
  import opened BlockCoding
  import opened ScanCoding
  import opened HuffGather
  import opened OptimizedTables
  import opened HuffDecoder
  import opened ScanRoundTrip
  import opened EncodingRuns

  /** Everything a scan sends, from its start. */
  ghost function AllItems(sc: Scan, mcus: seq<seq<Block>>): (its: seq<Tagged>)
    requires ValidScan(sc) && ValidMcus(sc, mcus)
    ensures TaggedOk(sc, its)
  {
    ScanItems(sc, ZeroLast(|sc.dcTbl|), sc.restart, mcus)
  }

  /** The statistics pass: it fails exactly for a coefficient out of range, and
      otherwise counts every symbol of the scan. */
  method GatherScan(sc: Scan, mcus: seq<seq<Block>>) returns (ok: bool, dc: seq<seq<nat>>, ac: seq<seq<nat>>)
    requires ValidScan(sc) && ValidMcus(sc, mcus)
    ensures ok <==> TaggedInRange(AllItems(sc, mcus))
    ensures ok ==> Tallied(sc, dc, ac, AllItems(sc, mcus))
  {
    hide Tallied, TaggedInRange, ItemsFrom, LastFrom, ValidScan, LastIn, TogoAfter;
    dc, ac := [], [];
    var g := new HuffGatherer(sc);
    ghost var all := AllItems(sc, mcus);
    assert mcus[0..] == mcus && [] + all == all;
    assert TaggedInRange([]) by { RangeTagged(0, [], []); }
    for i := 0 to |mcus|
      invariant fresh(g) && g.Valid() && g.sc == sc && TaggedInRange(g.seen)
      invariant all == g.seen + ScanItems(sc, g.lastDc, g.restartsToGo, mcus[i..])
    {
      assert mcus[i..][0] == mcus[i] && mcus[i..][1..] == mcus[i + 1..];
      ghost var l1 := LastIn(sc, g.lastDc, g.restartsToGo);
      ghost var here := ItemsFrom(sc, l1, mcus[i], 0);
      ghost var rest := ScanItems(sc, LastFrom(sc, l1, mcus[i], 0), TogoAfter(sc, g.restartsToGo), mcus[i + 1..]);
      RangeParts(g.seen, here, rest);
      ok := g.EncodeMcuGather(mcus[i]);
      if !ok { return; }
    }
    assert g.seen + [] == g.seen;
    ok, dc, ac := true, g.dcCounts, g.acCounts;
  }

  lemma {:induction false} RangeParts(a: seq<Tagged>, b: seq<Tagged>, c: seq<Tagged>)
    ensures a + (b + c) == (a + b) + c
    ensures TaggedInRange(a + b) <==> TaggedInRange(a) && TaggedInRange(b)
    ensures TaggedInRange((a + b) + c) ==> TaggedInRange(a + b)
  {
    assert forall i :: 0 <= i < |a| ==> (a + b)[i] == a[i];
    assert forall i :: 0 <= i < |b| ==> (a + b)[|a| + i] == b[i];
    assert forall i :: 0 <= i < |a + b| ==> ((a + b) + c)[i] == (a + b)[i];
  }

  // ----- every slot in use is counted in

  /** A block sends a DC symbol and at least one AC symbol. */
  lemma {:induction false} BlockSends(zz: seq<Coef>, last: int) returns (j: nat)
    requires |zz| == DCTSIZE2
    ensures var its := BlockItems(zz, last); |its| > 0 && its[0].Dc? && j < |its| && its[j].Ac?
  {
    j := AcSends(zz, 1, 0);
    j := |DcItems(zz[0] - last)| + j;
  }

  lemma {:induction false} AcSends(zz: seq<int>, k: nat, r: nat) returns (j: nat)
    requires k <= |zz| && (k < |zz| || r > 0)
    ensures j < |AcItems(zz, k, r)| && AcItems(zz, k, r)[j].Ac?
    decreases |zz| - k, r
  {
    if k < |zz| && zz[k] == 0 {
      j := AcSends(zz, k + 1, r + 1);
    } else {
      j := 0;
    }
  }

  lemma {:induction false} McuSends(sc: Scan, last: seq<int>, mcu: seq<Block>, b0: nat, b: nat) returns (i: nat, j: nat)
    requires ValidScan(sc) && ValidMcu(sc, mcu) && |last| == |sc.dcTbl| && b0 <= b < |mcu|
    ensures var its := ItemsFrom(sc, last, mcu, b0);
            && i < |its| && its[i].comp == sc.membership[b] && its[i].item.Dc?
            && j < |its| && its[j].comp == sc.membership[b] && its[j].item.Ac?
    decreases b - b0
  {
    hide BlockItems, ZigZag;
    var c := sc.membership[b0];
    var here := BlockItems(ZigZag(mcu[b0], sc.order), last[c]);
    if b == b0 {
      i := 0;
      j := BlockSends(ZigZag(mcu[b0], sc.order), last[c]);
    } else {
      i, j := McuSends(sc, last[c := mcu[b0][0]], mcu, b0 + 1, b);
      i, j := |Tag(c, here)| + i, |Tag(c, here)| + j;
    }
  }

  /** Every component has at least one block in an MCU. */
  predicate AllTakePart(sc: Scan) {
    forall c :: 0 <= c < |sc.dcTbl| ==> c in sc.membership
  }

  /** What each slot counts in total. */
  ghost function DcTotal(sc: Scan, its: seq<Tagged>, t: nat): nat
    requires ValidScan(sc) && TaggedOk(sc, its)
  {
    Sum(seq(PSEUDO, s requires 0 <= s < PSEUDO => TallyDc(sc, its, t, s)))
  }

  ghost function AcTotal(sc: Scan, its: seq<Tagged>, t: nat): nat
    requires ValidScan(sc) && TaggedOk(sc, its)
  {
    Sum(seq(PSEUDO, s requires 0 <= s < PSEUDO => TallyAc(sc, its, t, s)))
  }

  /** No slot in use counts as many symbols as n. */
  ghost predicate Below(sc: Scan, its: seq<Tagged>, n: nat)
    requires ValidScan(sc) && TaggedOk(sc, its)
  {
    forall c :: 0 <= c < |sc.dcTbl| ==> DcTotal(sc, its, sc.dcTbl[c]) < n && AcTotal(sc, its, sc.acTbl[c]) < n
  }

  lemma {:induction false} TotalsAre(sc: Scan, dc: seq<seq<nat>>, ac: seq<seq<nat>>, its: seq<Tagged>, t: nat)
    requires ValidScan(sc) && TaggedOk(sc, its) && Tallied(sc, dc, ac, its) && t < NUM_HUFF_TBLS
    ensures Sum(RealCounts(dc[t])) == DcTotal(sc, its, t) && Sum(RealCounts(ac[t])) == AcTotal(sc, its, t)
  {
    assert RealCounts(dc[t]) == seq(PSEUDO, s requires 0 <= s < PSEUDO => TallyDc(sc, its, t, s));
    assert RealCounts(ac[t]) == seq(PSEUDO, s requires 0 <= s < PSEUDO => TallyAc(sc, its, t, s));
  }

  /** The counters of a scan are what the generator can work with. */
  lemma {:induction false} CountsUsable(sc: Scan, mcus: seq<seq<Block>>, dc: seq<seq<nat>>, ac: seq<seq<nat>>, c: nat)
    requires ValidScan(sc) && ValidMcus(sc, mcus) && |mcus| > 0 && AllTakePart(sc) && c < |sc.dcTbl|
    requires TaggedInRange(AllItems(sc, mcus)) && Tallied(sc, dc, ac, AllItems(sc, mcus)) && Below(sc, AllItems(sc, mcus), LARGEST)
    ensures Usable(dc[sc.dcTbl[c]]) && Usable(ac[sc.acTbl[c]])
  {
    hide ItemsFrom, LastFrom, Usable, RealCounts, DcTotal, AcTotal, TallyDc, TallyAc;
    var its := AllItems(sc, mcus);
    assert c in sc.membership;
    var b :| 0 <= b < |sc.membership| && sc.membership[b] == c;
    var i, j := McuSends(sc, LastIn(sc, ZeroLast(|sc.dcTbl|), sc.restart), mcus[0], 0, b);
    TallyPositive(sc, its, i);
    TallyPositive(sc, its, j);
    assert InRange(its[i].item) && InRange(its[j].item);
    TotalsAre(sc, dc, ac, its, sc.dcTbl[c]);
    TotalsAre(sc, dc, ac, its, sc.acTbl[c]);
    TalliesUsable(sc, dc, ac, its, sc.dcTbl[c], its[i].item.size);
    TalliesUsable(sc, dc, ac, its, sc.acTbl[c], 16 * its[j].item.run + its[j].item.size);
  }

  lemma {:induction false} FewCounts(sc: Scan, dc: seq<seq<nat>>, ac: seq<seq<nat>>, its: seq<Tagged>)
    requires ValidScan(sc) && TaggedOk(sc, its) && Tallied(sc, dc, ac, its)
    ensures ManyCounts(sc, dc, ac) <==> !Below(sc, its, DEEP_TOTAL)
  {
    hide RealCounts, DcTotal, AcTotal, TallyDc, TallyAc, Sum;
    forall c | 0 <= c < |sc.dcTbl|
      ensures Sum(RealCounts(dc[sc.dcTbl[c]])) == DcTotal(sc, its, sc.dcTbl[c])
      ensures Sum(RealCounts(ac[sc.acTbl[c]])) == AcTotal(sc, its, sc.acTbl[c])
    {
      TotalsAre(sc, dc, ac, its, sc.dcTbl[c]);
      TotalsAre(sc, dc, ac, its, sc.acTbl[c]);
    }
  }

  // ----- the tables of the output pass

  lemma {:induction false} EncodesShort(c: CDerived, t: HuffTbl)
    requires Encodes(c, t)
    ensures ShortCodes(c)
  {
    forall s: nat | s < 256
      ensures c.ehufsi[s] <= MAXBITS
    {
      var n := Upto(t.bits, MAXBITS);
      if s in t.huffval[..n] {
        var p :| 0 <= p < n && t.huffval[p] == s;
        assert HasLength(t.bits, p, c.ehufsi[t.huffval[p]]);
        assert TableShaped(c);
      } else {
        var u: UInt8 := s;
        assert c.ehufsi[u] == 0;
      }
    }
  }

  lemma {:induction false} CodelessShort()
    ensures ShortCodes(Codeless())
  {
  }

  function Codeless(): CDerived {
    CDerived(seq(256, i => 0), seq(256, i => 0))
  }

  /** start_pass_huff without statistics: derive the tables of all components. It
      succeeds exactly when each is legal for its class. */
  method StartPass(sc: Scan, dcT: seq<HuffTbl>, acT: seq<HuffTbl>) returns (ok: bool, tabs: CTables)
    requires ValidScan(sc) && |dcT| == |acT| == NUM_HUFF_TBLS
    requires forall t :: 0 <= t < NUM_HUFF_TBLS ==> Shaped(dcT[t]) && Shaped(acT[t])
    ensures ok <==> forall c :: 0 <= c < |sc.dcTbl| ==>
                      LegalForEncoder(dcT[sc.dcTbl[c]], true) && LegalForEncoder(acT[sc.acTbl[c]], false)
    ensures ok ==> ShapedTables(tabs) && EncodesSlots(sc, tabs, dcT, acT)
  {
    hide LegalForEncoder, Encodes, ShortCodes, Codeless, NaturalOrder;
    CodelessShort();
    var dc, ac := seq(NUM_HUFF_TBLS, i => Codeless()), seq(NUM_HUFF_TBLS, i => Codeless());
    tabs := CTables(dc, ac);
    for ci := 0 to |sc.dcTbl|
      invariant |dc| == |ac| == NUM_HUFF_TBLS
      invariant forall t :: 0 <= t < NUM_HUFF_TBLS ==> ShortCodes(dc[t]) && ShortCodes(ac[t])
      invariant forall c :: 0 <= c < ci ==> LegalForEncoder(dcT[sc.dcTbl[c]], true) && LegalForEncoder(acT[sc.acTbl[c]], false)
      invariant forall c :: 0 <= c < ci ==> Encodes(dc[sc.dcTbl[c]], dcT[sc.dcTbl[c]]) && Encodes(ac[sc.acTbl[c]], acT[sc.acTbl[c]])
    {
      var dctbl, actbl := sc.dcTbl[ci], sc.acTbl[ci];
      var d, a;
      ok, d := MakeCDerivedTbl(dcT[dctbl], true);
      if !ok { return; }
      ok, a := MakeCDerivedTbl(acT[actbl], false);
      if !ok { return; }
      EncodesShort(d, dcT[dctbl]);
      EncodesShort(a, acT[actbl]);
      dc, ac := dc[dctbl := d], ac[actbl := a];
    }
    ok, tabs := true, CTables(dc, ac);
  }

  /** Tables made for counters of symbols in range are legal. */
  lemma {:induction false} MadeLegal(sc: Scan, dcT: seq<HuffTbl>, acT: seq<HuffTbl>, dc: seq<seq<nat>>, ac: seq<seq<nat>>, its: seq<Tagged>, c: nat)
    requires ValidScan(sc) && TaggedOk(sc, its) && Tallied(sc, dc, ac, its) && TaggedInRange(its) && c < |sc.dcTbl|
    requires TablesMade(sc, dcT, acT, dc, ac)
    ensures LegalForEncoder(dcT[sc.dcTbl[c]], true) && LegalForEncoder(acT[sc.acTbl[c]], false)
    ensures LegalForDecoder(dcT[sc.dcTbl[c]], true) && LegalForDecoder(acT[sc.acTbl[c]], false)
  {
    hide TableFor, LegalForEncoder, LegalForDecoder, TallyDc, TallyAc;
    var d, a := sc.dcTbl[c], sc.acTbl[c];
    forall s | 0 <= s < 256 && RealCounts(dc[d])[s] > 0
      ensures s <= MaxSymbol(true)
    {
      TallyRange(sc, its, d, s);
    }
    assert |dc[d]| == |ac[a]| == NSYMS;
    TableSized(dcT[d], RealCounts(dc[d]));
    TableAccepted(dcT[d], RealCounts(dc[d]), true);
    TableAccepted(acT[a], RealCounts(ac[a]), false);
  }

  lemma {:induction false} TableSized(t: HuffTbl, w: seq<nat>)
    requires TableFor(t, w)
    ensures |w| == 256 && Shaped(t)
  {
  }

  // ----- all passes of an optimised scan

  /** The tables of a scan, as sent and as derived from that, or one of the two errors. */
  datatype Optimal = Optimal(tabs: CTables, dcT: seq<HuffTbl>, acT: seq<HuffTbl>) | BadCoefficient | CodeTooLong

  /** Statistics pass, optimal tables, derived tables. The only errors are a coefficient out of
      range, and a code longer than 32 bits, which needs more than nine million symbols of a
      kind. With these tables no symbol of the scan is without a code, and a decoder accepts them. */
  method OptimalTables(sc: Scan, mcus: seq<seq<Block>>, dcPtrs: seq<HuffTbl>, acPtrs: seq<HuffTbl>) returns (r: Optimal)
    requires ValidScan(sc) && ValidMcus(sc, mcus) && |mcus| > 0 && AllTakePart(sc)
    requires |dcPtrs| == |acPtrs| == NUM_HUFF_TBLS
    requires forall t :: 0 <= t < NUM_HUFF_TBLS ==> Shaped(dcPtrs[t]) && Shaped(acPtrs[t])
    requires Below(sc, AllItems(sc, mcus), LARGEST)
    ensures r.BadCoefficient? <==> !TaggedInRange(AllItems(sc, mcus))
    ensures r.CodeTooLong? ==> !Below(sc, AllItems(sc, mcus), DEEP_TOTAL)
    ensures r.Optimal? ==> |r.dcT| == |r.acT| == NUM_HUFF_TBLS && ShapedTables(r.tabs) && EncodesSlots(sc, r.tabs, r.dcT, r.acT)
    ensures r.Optimal? ==> ScanCodable(sc, r.tabs, StartState(sc), mcus)
    ensures r.Optimal? ==> forall t :: 0 <= t < NUM_HUFF_TBLS ==> Shaped(r.dcT[t]) && Shaped(r.acT[t])
    ensures r.Optimal? ==> forall c :: 0 <= c < |sc.dcTbl| ==>
              LegalForDecoder(r.dcT[sc.dcTbl[c]], true) && LegalForDecoder(r.acT[sc.acTbl[c]], false)
  {
    hide *;
    var ok, dc, ac := GatherScan(sc, mcus);
    if !ok { return BadCoefficient; }
    ghost var its := AllItems(sc, mcus);
    Counters(sc, dc, ac, its);
    forall c | 0 <= c < |sc.dcTbl| {
      CountsUsable(sc, mcus, dc, ac, c);
    }
    FewCounts(sc, dc, ac, its);
    var f := FinishPassGather(sc, dc, ac, dcPtrs, acPtrs);
    if f.Overflow? { return CodeTooLong; }
    forall c | 0 <= c < |sc.dcTbl| {
      MadeLegal(sc, f.dc, f.ac, dc, ac, its, c);
    }
    MadeShaped(sc, f.dc, f.ac, dc, ac, dcPtrs, acPtrs);
    var tabs;
    ok, tabs := StartPass(sc, f.dc, f.ac);
    FromIs(sc, tabs, f.dc, f.ac, dc, ac);
    StatisticsSuffice(sc, tabs, f.dc, f.ac, dc, ac, its);
    StartScan(sc, tabs, mcus);
    ScanNeverFails(sc, tabs, StartState(sc), mcus);
    r := Optimal(tabs, f.dc, f.ac);
  }

  lemma {:induction false} Counters(sc: Scan, dc: seq<seq<nat>>, ac: seq<seq<nat>>, its: seq<Tagged>)
    requires ValidScan(sc) && TaggedOk(sc, its) && Tallied(sc, dc, ac, its)
    ensures |dc| == |ac| == NUM_HUFF_TBLS && forall t :: 0 <= t < NUM_HUFF_TBLS ==> |dc[t]| == |ac[t]| == NSYMS
    ensures |sc.dcTbl| == |sc.acTbl| && forall c :: 0 <= c < |sc.dcTbl| ==> sc.dcTbl[c] < NUM_HUFF_TBLS && sc.acTbl[c] < NUM_HUFF_TBLS
  {
  }

  lemma {:induction false} MadeShaped(sc: Scan, dcT: seq<HuffTbl>, acT: seq<HuffTbl>, dc: seq<seq<nat>>, ac: seq<seq<nat>>,
                         dcPtrs: seq<HuffTbl>, acPtrs: seq<HuffTbl>)
    requires ValidScan(sc) && |dc| == |ac| == |dcPtrs| == |acPtrs| == NUM_HUFF_TBLS
    requires forall t :: 0 <= t < NUM_HUFF_TBLS ==> |dc[t]| == |ac[t]| == NSYMS && Shaped(dcPtrs[t]) && Shaped(acPtrs[t])
    requires TablesMade(sc, dcT, acT, dc, ac)
    requires forall t :: 0 <= t < NUM_HUFF_TBLS ==>
               (t !in sc.dcTbl ==> dcT[t] == dcPtrs[t]) && (t !in sc.acTbl ==> acT[t] == acPtrs[t])
    ensures forall t :: 0 <= t < NUM_HUFF_TBLS ==> Shaped(dcT[t]) && Shaped(acT[t])
    ensures |dcT| == |acT| == NUM_HUFF_TBLS
  {
    hide TableFor, RealCounts;
    forall t | 0 <= t < NUM_HUFF_TBLS
      ensures Shaped(dcT[t]) && Shaped(acT[t])
    {
      if c :| 0 <= c < |sc.dcTbl| && sc.dcTbl[c] == t { TableSized(dcT[t], RealCounts(dc[t])); }
      if c :| 0 <= c < |sc.acTbl| && sc.acTbl[c] == t { TableSized(acT[t], RealCounts(ac[t])); }
    }
  }

  lemma {:induction false} FromIs(sc: Scan, tabs: CTables, dcT: seq<HuffTbl>, acT: seq<HuffTbl>, dc: seq<seq<nat>>, ac: seq<seq<nat>>)
    requires ValidScan(sc) && ShapedTables(tabs) && EncodesSlots(sc, tabs, dcT, acT)
    requires |dc| == |ac| == NUM_HUFF_TBLS && forall t :: 0 <= t < NUM_HUFF_TBLS ==> |dc[t]| == |ac[t]| == NSYMS
    requires TablesMade(sc, dcT, acT, dc, ac)
    ensures TablesFrom(sc, tabs, dcT, acT, dc, ac)
  {
  }

  lemma {:induction false} StartScan(sc: Scan, tabs: CTables, mcus: seq<seq<Block>>)
    requires ValidScan(sc) && ShapedTables(tabs) && ValidMcus(sc, mcus)
    ensures ValidState(sc, StartState(sc))
    ensures AllItems(sc, mcus) == ScanItems(sc, StartState(sc).last, StartState(sc).togo, mcus)
  {
  }

  /** start_pass_huff_decoder: the decoder's tables for a scan in which all coefficients are wanted. */
  method StartDecoder(sc: Scan, dcT: seq<HuffTbl>, acT: seq<HuffTbl>) returns (ok: bool, dt: DTables)
    requires ValidScan(sc) && |dcT| == |acT| == NUM_HUFF_TBLS
    requires forall t :: 0 <= t < NUM_HUFF_TBLS ==> Shaped(dcT[t]) && Shaped(acT[t])
    ensures ok <==> forall c :: 0 <= c < |sc.dcTbl| ==>
                      LegalForDecoder(dcT[sc.dcTbl[c]], true) && LegalForDecoder(acT[sc.acTbl[c]], false)
    ensures ok ==> ValidDTables(sc, dt) && dt.dcT == dcT && dt.acT == acT
    ensures ok ==> forall b :: 0 <= b < |sc.membership| ==> dt.dcNeeded[b] && dt.acNeeded[b]
  {
    hide LegalForDecoder, DerivedFrom, NaturalOrder;
    var none := DDerived(HuffTbl([], []), [], [], [], []);
    var dc, ac := seq(NUM_HUFF_TBLS, i => none), seq(NUM_HUFF_TBLS, i => none);
    var all := seq(|sc.membership|, i => true);
    dt := DTables(dc, ac, dcT, acT, all, all);
    for ci := 0 to |sc.dcTbl|
      invariant |dc| == |ac| == NUM_HUFF_TBLS
      invariant forall c :: 0 <= c < ci ==> LegalForDecoder(dcT[sc.dcTbl[c]], true) && LegalForDecoder(acT[sc.acTbl[c]], false)
      invariant forall c :: 0 <= c < ci ==> DerivedFrom(dc[sc.dcTbl[c]], dcT[sc.dcTbl[c]]) && DerivedFrom(ac[sc.acTbl[c]], acT[sc.acTbl[c]])
    {
      var d, a;
      ok, d := MakeDDerivedTbl(dcT[sc.dcTbl[ci]], true);
      if !ok { return; }
      ok, a := MakeDDerivedTbl(acT[sc.acTbl[ci]], false);
      if !ok { return; }
      dc, ac := dc[sc.dcTbl[ci] := d], ac[sc.acTbl[ci] := a];
    }
    ok, dt := true, DTables(dc, ac, dcT, acT, all, all);
  }

  /** All passes of an optimised scan and back: if no slot counts nine million symbols, they
      succeed exactly when the coefficients are in range; and then a decoder with the tables
      that were sent gets every coefficient back without making up data. The passes run inside
      jpeg_finish_compress, where the destination may not refuse. */
  method ThereAndBack(sc: Scan, mcus: seq<seq<Block>>, dcPtrs: seq<HuffTbl>, acPtrs: seq<HuffTbl>, bufSize: nat, m: UInt8, rest: seq<UInt8>)
    returns (ok: bool, back: seq<seq<Block>>, filled: bool)
    requires ValidScan(sc) && ValidMcus(sc, mcus) && |mcus| > 0 && AllTakePart(sc) && bufSize > 0 && m != 0 && m != 0xFF
    requires |dcPtrs| == |acPtrs| == NUM_HUFF_TBLS
    requires forall t :: 0 <= t < NUM_HUFF_TBLS ==> Shaped(dcPtrs[t]) && Shaped(acPtrs[t])
    requires Below(sc, AllItems(sc, mcus), DEEP_TOTAL)
    ensures ok <==> TaggedInRange(AllItems(sc, mcus))
    ensures ok ==> back == mcus && !filled
  {
    hide *;
    ok, back, filled := false, [], false;
    BelowMore(sc, AllItems(sc, mcus));
    var r := OptimalTables(sc, mcus, dcPtrs, acPtrs);
    if !r.Optimal? { return; }
    var bytes;
    ok, bytes := EncodeScan(sc, r.tabs, mcus, bufSize);
    var usable, dt := StartDecoder(sc, r.dcT, r.acT);
    PairedIs(sc, r.tabs, dt, r.dcT, r.acT);
    back, filled := DecodeScan(sc, dt, bytes + [0xFF, m] + rest, r.tabs, mcus, |mcus|, m, rest);
  }

  lemma {:induction false} BelowMore(sc: Scan, its: seq<Tagged>)
    requires ValidScan(sc) && TaggedOk(sc, its) && Below(sc, its, DEEP_TOTAL)
    ensures Below(sc, its, LARGEST)
  {
    hide DcTotal, AcTotal;
  }

  lemma {:induction false} PairedIs(sc: Scan, tabs: CTables, dt: DTables, dcT: seq<HuffTbl>, acT: seq<HuffTbl>)
    requires ValidDTables(sc, dt) && ShapedTables(tabs) && EncodesSlots(sc, tabs, dcT, acT) && dt.dcT == dcT && dt.acT == acT
    requires forall b :: 0 <= b < |sc.membership| ==> dt.dcNeeded[b] && dt.acNeeded[b]
    ensures Paired(sc, tabs, dt)
  {
  }
}
