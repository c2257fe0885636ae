/** A first DC scan with optimal tables, from the statistics pass to the bytes
    and back. Refinement scans of DC send no symbols and have no tables. */
module OptimizedDcScan {
  import opened JpegLimits
  import opened Arith
  import opened HuffTable
  import opened DerivedTables
  import opened OptimalTable
  import opened TableGenerator
  import opened BlockCoding
  import opened ScanCoding
  import opened OptimizedTables
  import opened ProgressiveTokens
  import opened ProgressiveRoundTrip
  import opened ProgressiveDc
  import opened PhuffOutput
  import opened DcScanPasses
  import OptimizedScan
  import OptimizedAcScan

  // ----- every slot in use is counted in

  /** Block b of an MCU sends a symbol of its component's slot. */
  lemma {:induction false} McuSpeaks(sc: DcScan, last: seq<int>, ws: seq<int>, b0: nat, b: nat) returns (j: nat)
    requires ValidDc(sc) && !sc.refine && |last| == |sc.tbl| && |ws| == |sc.membership| && b0 <= b < |ws|
    ensures var toks := McuTokens(sc, last, ws, b0);
            j < |toks| && toks[j].Sym? && toks[j].tbl == sc.tbl[sc.membership[b]]
    decreases b - b0
  {
    hide RawBits, Category;
    var here, more := DcTokens(sc, last, ws[b0], b0), McuTokens(sc, DcLast(sc, last, ws[b0], b0), ws, b0 + 1);
    assert here[0] == Sym(sc.tbl[sc.membership[b0]], here[0].s);
    if b == b0 {
      j := 0;
    } else {
      j := McuSpeaks(sc, DcLast(sc, last, ws[b0], b0), ws, b0 + 1, b);
      assert (here + more)[|here| + j] == more[j];
      j := |here| + j;
    }
  }

  lemma {:induction false} SlotSpeaks(sc: DcScan, vs: seq<seq<int>>, t: nat) returns (s: nat)
    requires ValidDc(sc) && ValidValues(sc, vs) && RunInRange(sc, vs) && vs != [] && !sc.refine
    requires forall c :: 0 <= c < |sc.tbl| ==> c in sc.membership
    requires t in sc.tbl
    ensures s < 256 && TallyLog(RunDc(sc, vs).log, t, s) > 0
  {
    hide McuTokens, McuLast, RunInRange;
    var c :| 0 <= c < |sc.tbl| && sc.tbl[c] == t;
    assert c in sc.membership;
    var b :| 0 <= b < |sc.membership| && sc.membership[b] == c;
    var n := |vs| - 1;
    var s1 := DcRestarted(sc, RunDc(sc, vs[..n]));
    var toks := McuTokens(sc, s1.last, vs[n], 0);
    var j := McuSpeaks(sc, s1.last, vs[n], 0, b);
    var log, i := RunDc(sc, vs).log, |s1.log| - 1;
    assert log == Append(s1.log, toks) && log[i] == s1.log[i] + toks;
    assert log[i][|s1.log[i]| + j] == toks[j];
    ProgressiveTokens.TallyPositive(log, i, |s1.log[i]| + j);
    DcRunWithin(sc, vs);
    assert DcWithin(sc, log[i]);
    s := toks[j].s;
  }

  lemma {:induction false} DcNeverCounted(sc: DcScan, log: Log, t: nat, s: nat)
    requires LogWithin(sc, log) && s > MAX_COEF_BITS + 1
    ensures TallyLog(log, t, s) == 0
  {
    forall i, j | 0 <= i < |log| && 0 <= j < |log[i]|
      ensures log[i][j] != Sym(t, s)
    {
      assert DcWithin(sc, log[i]);
    }
    TallyNone(log, t, s);
  }

  /** How many symbols the scan sends with slot t. */
  function SlotTotal(sc: DcScan, vs: seq<seq<int>>, t: nat): nat
    requires ValidDc(sc) && ValidValues(sc, vs)
  {
    Sum(seq(PSEUDO, s requires 0 <= s < PSEUDO => TallyLog(RunDc(sc, vs).log, t, s)))
  }

  ghost predicate SlotsBelow(sc: DcScan, vs: seq<seq<int>>, n: nat)
    requires ValidDc(sc) && ValidValues(sc, vs)
  {
    forall t :: t in sc.tbl ==> SlotTotal(sc, vs, t) < n
  }

  lemma {:induction false} SlotTotalIs(sc: DcScan, vs: seq<seq<int>>, counts: seq<seq<nat>>, t: nat)
    requires ValidDc(sc) && ValidValues(sc, vs) && TalliesOf(counts, RunDc(sc, vs).log) && t < NUM_HUFF_TBLS
    ensures Sum(RealCounts(counts[t])) == SlotTotal(sc, vs, t)
  {
    hide RunDc, TallyLog;
    assert RealCounts(counts[t]) == seq(PSEUDO, s requires 0 <= s < PSEUDO => TallyLog(RunDc(sc, vs).log, t, s));
  }

  lemma {:induction false} DcCountsUsable(sc: DcScan, vs: seq<seq<int>>, counts: seq<seq<nat>>, t: nat)
    requires ValidDc(sc) && ValidValues(sc, vs) && RunInRange(sc, vs) && vs != [] && !sc.refine
    requires forall c :: 0 <= c < |sc.tbl| ==> c in sc.membership
    requires TalliesOf(counts, RunDc(sc, vs).log) && t in sc.tbl && SlotTotal(sc, vs, t) < LARGEST
    ensures Usable(counts[t]) && forall s :: 0 <= s < 256 && RealCounts(counts[t])[s] > 0 ==> s <= MaxSymbol(true)
  {
    hide RunDc, RunInRange, LogWithin, TallyLog, Used, Sum;
    var log := RunDc(sc, vs).log;
    DcRunWithin(sc, vs);
    SlotTotalIs(sc, vs, counts, t);
    DcNeverCounted(sc, log, t, 254);
    DcNeverCounted(sc, log, t, 255);
    UsedZeros(RealCounts(counts[t]), 254, 255);
    var s := SlotSpeaks(sc, vs, t);
    UsedSome(RealCounts(counts[t]), s);
    forall s | 0 <= s < 256 && RealCounts(counts[t])[s] > 0
      ensures s <= MaxSymbol(true)
    {
      if s > MaxSymbol(true) { DcNeverCounted(sc, log, t, s); }
    }
  }

  // ----- tables

  /** finish_pass_gather_phuff for a DC scan: a table for each slot in use. */
  method MakeDcTables(sc: DcScan, counts: seq<seq<nat>>, ptrs: seq<HuffTbl>) returns (ok: bool, ts: seq<HuffTbl>)
    requires ValidDc(sc) && |counts| == |ptrs| == NUM_HUFF_TBLS && forall t :: 0 <= t < NUM_HUFF_TBLS ==> |counts[t]| == NSYMS
    requires forall t :: t in sc.tbl ==> Usable(counts[t])
    ensures ok ==> |ts| == NUM_HUFF_TBLS && forall t :: t in sc.tbl ==> TableFor(ts[t], RealCounts(counts[t]))
    ensures !ok ==> exists t :: t in sc.tbl && Sum(RealCounts(counts[t])) >= DEEP_TOTAL
  {
    hide TableFor, Usable, RealCounts, Sum;
    ts := ptrs;
    var did := seq(NUM_HUFF_TBLS, i => false);
    for ci := 0 to |sc.tbl|
      invariant MadeSlots(ts, did, ptrs, counts, sc.tbl)
      invariant forall c :: 0 <= c < ci ==> did[sc.tbl[c]]
    {
      hide MadeSlots;
      ok, ts, did := MakeTable(sc.tbl[ci], counts, ts, did, ptrs, sc.tbl);
      if !ok { return; }
    }
    ok := true;
  }

  /** start_pass_phuff for a DC scan: it succeeds exactly when every table in use is legal. */
  method DeriveDcTables(sc: DcScan, ts: seq<HuffTbl>) returns (ok: bool, tabs: seq<CDerived>)
    requires ValidDc(sc) && |ts| == NUM_HUFF_TBLS && forall t :: t in sc.tbl ==> Shaped(ts[t])
    ensures ok <==> forall t :: t in sc.tbl ==> LegalForEncoder(ts[t], true)
    ensures ok ==> SameTables(sc, tabs, ts)
  {
    hide LegalForEncoder, Encodes, ShortCodes;
    OptimizedAcScan.NoTablesShaped();
    tabs := OptimizedAcScan.NoTables();
    for ci := 0 to |sc.tbl|
      invariant |tabs| == NUM_HUFF_TBLS && ShapedSlots(tabs)
      invariant forall c :: 0 <= c < ci ==> LegalForEncoder(ts[sc.tbl[c]], true) && Encodes(tabs[sc.tbl[c]], ts[sc.tbl[c]])
    {
      var t, d := sc.tbl[ci], tabs[0];
      ok, d := MakeCDerivedTbl(ts[t], true);
      if !ok { return; }
      OptimizedScan.EncodesShort(d, ts[t]);
      tabs := tabs[t := d];
    }
    ok := true;
  }

  // ----- all passes

  /** The scan's bytes with the tables that go in front of them, or an error. */
  datatype DcOptimized = DcCoded(bytes: seq<UInt8>, ts: seq<HuffTbl>, tabs: seq<CDerived>) | BadCoefficient | CodeTooLong

  /** The shifted DC values of the scan. */
  function Values(sc: DcScan, mcus: seq<seq<Block>>): (vs: seq<seq<int>>)
    ensures |vs| == |mcus|
  {
    ShiftAll(ValuesOf(mcus), sc.al)
  }

  /** Statistics pass, optimal tables, output pass of a first DC scan. The only errors are a
      difference out of range, and a code longer than 32 bits, which needs more than nine
      million symbols in a slot. Whatever marker follows, a decoder with the tables gets every
      value back. */
  method EncodeDcOptimized(sc: DcScan, mcus: seq<seq<Block>>, ptrs: seq<HuffTbl>, bufSize: nat) returns (r: DcOptimized)
    requires ValidDcMcus(sc, mcus) && !sc.refine && |mcus| > 0 && bufSize > 0 && |ptrs| == NUM_HUFF_TBLS
    requires forall c :: 0 <= c < |sc.tbl| ==> c in sc.membership
    requires ValidValues(sc, Values(sc, mcus)) && SlotsBelow(sc, Values(sc, mcus), LARGEST)
    ensures r.BadCoefficient? <==> !RunInRange(sc, Values(sc, mcus))
    ensures r.CodeTooLong? ==> !SlotsBelow(sc, Values(sc, mcus), DEEP_TOTAL)
    ensures r.DcCoded? ==> SameTables(sc, r.tabs, r.ts) && forall t :: t in sc.tbl ==> LegalForDecoder(r.ts[t], true)
    ensures r.DcCoded? ==> LogCodable(r.tabs, RunDc(sc, Values(sc, mcus)).log) && r.bytes == ScanBytes(r.tabs, RunDc(sc, Values(sc, mcus)).log)
    ensures r.DcCoded? ==> forall m: UInt8, rest: seq<UInt8> | m != 0 && m != 0xFF && !(RST0 <= m < RST0 + 8) ::
              ValuesBack(sc, r.ts, Values(sc, mcus), r.bytes + [0xFF, m] + rest)
  {
    hide *;
    ghost var vs := Values(sc, mcus);
    DcParts(sc, mcus);
    OptimizedAcScan.NoTablesShaped();
    var ok, counts := DcStatisticsPass(sc, OptimizedAcScan.NoTables(), mcus);
    if !ok { return BadCoefficient; }
    DcCounters(counts, RunDc(sc, vs).log);
    forall t | t in sc.tbl
      ensures Usable(counts[t]) && forall s :: 0 <= s < 256 && RealCounts(counts[t])[s] > 0 ==> s <= MaxSymbol(true)
      ensures Sum(RealCounts(counts[t])) == SlotTotal(sc, vs, t)
    {
      SlotIsBelow(sc, vs, t);
      DcCountsUsable(sc, vs, counts, t);
      SlotTotalIs(sc, vs, counts, t);
    }
    var ts;
    ok, ts := MakeDcTables(sc, counts, ptrs);
    if !ok {
      NotBelow(sc, vs, counts);
      return CodeTooLong;
    }
    forall t | t in sc.tbl
      ensures Shaped(ts[t]) && LegalForEncoder(ts[t], true) && LegalForDecoder(ts[t], true)
    {
      OptimizedScan.TableSized(ts[t], RealCounts(counts[t]));
      TableAccepted(ts[t], RealCounts(counts[t]), true);
    }
    var tabs;
    ok, tabs := DeriveDcTables(sc, ts);
    SameParts(sc, tabs, ts);
    DcCountsSuffice(sc, tabs, ts, vs, counts);
    var bytes;
    ok, bytes := DcOutputPass(sc, tabs, mcus, bufSize);
    forall m: UInt8, rest: seq<UInt8> | m != 0 && m != 0xFF && !(RST0 <= m < RST0 + 8)
      ensures ValuesBack(sc, ts, vs, bytes + [0xFF, m] + rest)
    {
      ScanBack(sc, tabs, ts, vs, bytes, m, rest);
    }
    r := DcCoded(bytes, ts, tabs);
  }

  /** Decoding data with tables ts gives the values and leaves only padding. */
  ghost predicate ValuesBack(sc: DcScan, ts: seq<HuffTbl>, vs: seq<seq<int>>, data: seq<UInt8>)
    requires ValidDc(sc) && ValidValues(sc, vs)
  {
    && GoodTables(sc, ts)
    && var (values, d) := DecRun(sc, ts, KnownDc(vs), SegmentsOf(data, 0));
    && values == vs && d.i == |SegmentsOf(data, 0)| - 1 && |d.cur| <= 7
  }

  lemma {:induction false} ScanBack(sc: DcScan, tabs: seq<CDerived>, ts: seq<HuffTbl>, vs: seq<seq<int>>, bytes: seq<UInt8>, m: UInt8, rest: seq<UInt8>)
    requires SameTables(sc, tabs, ts) && ValidValues(sc, vs) && LogCodable(tabs, RunDc(sc, vs).log)
    requires m != 0 && m != 0xFF && !(RST0 <= m < RST0 + 8) && bytes == ScanBytes(tabs, RunDc(sc, vs).log)
    ensures ValuesBack(sc, ts, vs, bytes + [0xFF, m] + rest)
  {
    hide RunDc, LogCodable, ScanBytes, DecRun, SegmentsOf, GoodTables, Encodes;
    DcScanLossless(sc, tabs, ts, vs, bytes + [0xFF, m] + rest, m, rest);
  }

  lemma {:induction false} DcParts(sc: DcScan, mcus: seq<seq<Block>>)
    requires ValidDcMcus(sc, mcus)
    ensures ValidDc(sc) && forall t :: t in sc.tbl ==> t < NUM_HUFF_TBLS
    ensures Values(sc, mcus) == ShiftAll(ValuesOf(mcus), sc.al) && ValidValues(sc, Values(sc, mcus))
    ensures mcus != [] ==> Values(sc, mcus) != []
  {
  }

  lemma {:induction false} DcCounters(counts: seq<seq<nat>>, log: Log)
    requires TalliesOf(counts, log)
    ensures |counts| == NUM_HUFF_TBLS && forall t :: 0 <= t < NUM_HUFF_TBLS ==> |counts[t]| == NSYMS && |RealCounts(counts[t])| == 256
  {
  }

  lemma {:induction false} SlotIsBelow(sc: DcScan, vs: seq<seq<int>>, t: nat)
    requires ValidDc(sc) && ValidValues(sc, vs) && SlotsBelow(sc, vs, LARGEST) && t in sc.tbl
    ensures SlotTotal(sc, vs, t) < LARGEST
  {
    hide SlotTotal;
  }

  lemma {:induction false} NotBelow(sc: DcScan, vs: seq<seq<int>>, counts: seq<seq<nat>>)
    requires ValidDc(sc) && ValidValues(sc, vs) && |counts| == NUM_HUFF_TBLS && forall t :: 0 <= t < NUM_HUFF_TBLS ==> |counts[t]| == NSYMS
    requires exists t :: t in sc.tbl && Sum(RealCounts(counts[t])) >= DEEP_TOTAL
    requires forall t :: t in sc.tbl ==> Sum(RealCounts(counts[t])) == SlotTotal(sc, vs, t)
    ensures !SlotsBelow(sc, vs, DEEP_TOTAL)
  {
    hide SlotTotal, Sum;
    var t :| t in sc.tbl && Sum(RealCounts(counts[t])) >= DEEP_TOTAL;
    assert SlotTotal(sc, vs, t) >= DEEP_TOTAL;
  }

  lemma {:induction false} SameParts(sc: DcScan, tabs: seq<CDerived>, ts: seq<HuffTbl>)
    requires SameTables(sc, tabs, ts)
    ensures ShapedSlots(tabs) && |tabs| == NUM_HUFF_TBLS && forall t :: t in sc.tbl ==> Encodes(tabs[t], ts[t])
  {
  }
}
