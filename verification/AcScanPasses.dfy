/** Whole AC scans through the encoder of jcphuff.c: the statistics pass and the
    output pass see the same symbols, so optimised tables never miss a code;
    and successive scans bring every coefficient back bit by bit. */
module AcScanPasses {
  import opened JpegLimits
  import opened Arith
  import opened Bits
  import opened HuffTable
  import opened DerivedTables
  import opened Stuffing
  import opened BlockCoding
  import opened ScanCoding
  import opened TableGenerator
  import opened OptimizedTables
  import opened ProgressiveTokens
  import opened ProgressiveBlock
  import opened ProgressiveBlockRoundTrip
  import opened ProgressiveScan
  import opened ProgressiveRoundTrip
  import opened PhuffOutput
  import opened PhuffEncoder
  import opened AcLayout
  import BitWriter
  import Registers

  /** The blocks of a component as jobs of one scan. */
  function JobsOf(blocks: seq<Block>, order: seq<nat>, al: nat, refine: bool): (jobs: seq<Job>)
    requires |order| == DCTSIZE2 + 16 && forall k :: 0 <= k < |order| ==> order[k] < DCTSIZE2
    ensures |jobs| == |blocks| && forall i :: 0 <= i < |blocks| ==> jobs[i] == BlockJob(blocks[i], order, al, refine)
  {
    if blocks == [] then [] else
    JobsOf(blocks[..|blocks| - 1], order, al, refine) + [BlockJob(blocks[|blocks| - 1], order, al, refine)]
  }

  /** One MCU of either kind of scan. */
  method EncodeMcu(e: PhuffEncoder, block: Block) returns (ok: bool)
    requires e.Valid()
    modifies e, e.bitBuffer, e.out`log, e.out`counts, e.out.w
    ensures ok ==> ValidJob(e.sc, BlockJob(block, e.order, e.al, e.refine))
    ensures var goal := ScanStep(e.sc, old(e.State()), JobPiece(e.sc, BlockJob(block, e.order, e.al, e.refine)));
            && (ok ==> e.Valid() && e.State() == goal)
            && (!ok ==> e.out.MayFail(goal.log) || !ValidJob(e.sc, BlockJob(block, e.order, e.al, e.refine)))
  {
    hide ScanStep, JobPiece, LogCodable, InBand, TokenWriter.Valid, Bounded;
    if e.refine {
      RefineInBand(block, e.order, e.al, e.sc);
      ok := e.EncodeMcuAcRefine(block);
    } else {
      ok := e.EncodeMcuAcFirst(block);
    }
  }

  /** Every block of a scan, in either mode, on a fresh encoder. */
  method CodeBlocks(e: PhuffEncoder, blocks: seq<Block>) returns (ok: bool)
    requires e.Valid() && e.State() == AcStart(e.sc)
    modifies e, e.bitBuffer, e.out`log, e.out`counts, e.out.w
    ensures ok ==> ValidJobs(e.sc, JobsOf(blocks, e.order, e.al, e.refine))
    ensures ok ==> e.Valid() && e.State() == RunScan(e.sc, JobsOf(blocks, e.order, e.al, e.refine))
    ensures var jobs := JobsOf(blocks, e.order, e.al, e.refine);
            ValidJobs(e.sc, jobs) && !ok ==> e.out.MayFail(RunScan(e.sc, jobs).log)
  {
    hide PhuffEncoder.Valid, PhuffEncoder.State, BlockJob, ScanStep, RunScan, JobPiece, LogCodable, JobsOf, ValidJob;
    Orderly(e);
    ghost var jobs := JobsOf(blocks, e.order, e.al, e.refine);
    NoJobs(e.sc, jobs);
    var i := 0;
    while i < |blocks|
      invariant 0 <= i <= |blocks| && e.Valid()
      invariant e.State() == RunScan(e.sc, jobs[..i]) && ValidJobs(e.sc, jobs[..i])
    {
      NextJob(e.sc, e.out.tabs, jobs, i);
      ok := EncodeMcu(e, blocks[i]);
      if !ok { return; }
      i := i + 1;
    }
    assert jobs[..i] == jobs;
    ok := true;
  }

  lemma {:induction false} NoJobs(sc: AcScan, jobs: seq<Job>)
    requires ValidBand(sc)
    ensures ValidJobs(sc, jobs[..0]) && RunScan(sc, jobs[..0]) == AcStart(sc)
  {
  }

  /** One more block of a scan. */
  lemma {:induction false} NextJob(sc: AcScan, tabs: seq<CDerived>, jobs: seq<Job>, i: nat)
    requires ValidBand(sc) && (forall k :: 0 <= k < |jobs| ==> |jobs[k].w| == |jobs[k].kn| == DCTSIZE2) && i < |jobs|
    ensures RunScan(sc, jobs[..i + 1]) == ScanStep(sc, RunScan(sc, jobs[..i]), JobPiece(sc, jobs[i]))
    ensures ValidJobs(sc, jobs[..i + 1]) <==> ValidJobs(sc, jobs[..i]) && ValidJob(sc, jobs[i])
    ensures ValidJobs(sc, jobs) ==> ValidJob(sc, jobs[i])
    ensures LogCodable(tabs, RunScan(sc, jobs).log) ==> LogCodable(tabs, RunScan(sc, jobs[..i + 1]).log)
  {
    hide ScanStep, JobPiece, LogCodable, ValidJob;
    PrefixCodable(sc, tabs, jobs, i + 1);
    assert jobs[..i + 1][..i] == jobs[..i];
    assert forall k :: 0 <= k < i ==> jobs[..i + 1][k] == jobs[..i][k];
  }

  lemma {:induction false} Orderly(e: PhuffEncoder)
    requires e.Valid()
    ensures ValidBand(e.sc) && |e.order| == DCTSIZE2 + 16 && forall k :: 0 <= k < |e.order| ==> e.order[k] < DCTSIZE2
  {
  }

  /** A log only grows from block to block. */
  lemma {:induction false} PrefixCodable(sc: AcScan, tabs: seq<CDerived>, jobs: seq<Job>, i: nat)
    requires ValidBand(sc) && (forall k :: 0 <= k < |jobs| ==> |jobs[k].w| == |jobs[k].kn| == DCTSIZE2) && i <= |jobs|
    ensures LogCodable(tabs, RunScan(sc, jobs).log) ==> LogCodable(tabs, RunScan(sc, jobs[..i]).log)
    decreases |jobs|
  {
    hide LogCodable, ScanStep, JobPiece;
    if i == |jobs| {
      assert jobs[..i] == jobs;
    } else {
      var n := |jobs| - 1;
      PrefixCodable(sc, tabs, jobs[..n], i);
      assert jobs[..n][..i] == jobs[..i];
      RunBounded(sc, jobs[..n]);
      StepCodable(sc, tabs, RunScan(sc, jobs[..n]), jobs[n]);
    }
  }

  lemma {:induction false} StepCodable(sc: AcScan, tabs: seq<CDerived>, s: AcState, jb: Job)
    requires ValidBand(sc) && |jb.w| == |jb.kn| == DCTSIZE2 && Bounded(sc, s)
    ensures LogCodable(tabs, ScanStep(sc, s, JobPiece(sc, jb)).log) ==> LogCodable(tabs, s.log)
  {
    McuFacts(sc, tabs, s, jb);
    hide LogCodable, ScanStep, JobPiece, Flush;
    var f := Flush(sc.tbl, s.eobrun, s.be);
    FailGrows(tabs, s.log, f, []);
    assert f + [] == f;
    RestartCodable(sc, tabs, s);
  }

  lemma {:induction false} RestartCodable(sc: AcScan, tabs: seq<CDerived>, s: AcState)
    ensures LogCodable(tabs, AcRestarted(sc, s).log) ==> LogCodable(tabs, s.log)
  {
    hide LogCodable, Flush;
    var f := Flush(sc.tbl, s.eobrun, s.be);
    LogCodableAppend(tabs, Append(s.log, f), []);
    LogCodableAppend(tabs, s.log, f);
  }

  // ----- the two passes

  ghost predicate Setup(sc: AcScan, order: seq<nat>) {
    ValidBand(sc) && sc.tbl < NUM_HUFF_TBLS && NaturalOrder(order)
  }

  method NewWriter(bufSize: nat) returns (w: BitWriter.Writer)
    requires bufSize > 0
    ensures fresh(w) && w.Valid() && w.base == [] && w.seg == [] && w.canDump
  {
    hide BitWriter.Sent, Registers.Holds, Remainder;
    BitWriter.EmptySent();
    Registers.EmptyHolds();
    w := new BitWriter.Writer([], bufSize, 0, 0, true, bufSize, [], []);
  }

  method NewEncoder(sc: AcScan, al: nat, refine: bool, order: seq<nat>, gather: bool, tabs: seq<CDerived>, bufSize: nat)
    returns (e: PhuffEncoder)
    requires Setup(sc, order) && ShapedSlots(tabs) && |tabs| == NUM_HUFF_TBLS && bufSize > 0
    ensures fresh(e) && fresh(e.bitBuffer) && fresh(e.out) && fresh(e.out.w) && e.Valid() && e.State() == AcStart(sc)
    ensures e.sc == sc && e.al == al && e.refine == refine && e.order == order
    ensures e.out.gather == gather && e.out.tabs == tabs && e.out.w.canDump
  {
    hide TokenWriter.Valid, PhuffEncoder.Valid, BitWriter.Writer.Valid, PhuffEncoder.State, NaturalOrder, ShapedSlots;
    var w := NewWriter(bufSize);
    var out := new TokenWriter(gather, tabs, w);
    e := new PhuffEncoder(sc, al, refine, order, out);
  }

  /** The output pass: it succeeds exactly when the coefficients are in range
      and every symbol of the scan has a code. */
  method OutputPass(sc: AcScan, al: nat, refine: bool, order: seq<nat>, tabs: seq<CDerived>, blocks: seq<Block>, bufSize: nat)
    returns (ok: bool, bytes: seq<UInt8>)
    requires Setup(sc, order) && ShapedSlots(tabs) && |tabs| == NUM_HUFF_TBLS && bufSize > 0
    ensures var jobs := JobsOf(blocks, order, al, refine);
            && (ok <==> ValidJobs(sc, jobs) && LogCodable(tabs, FinalLog(sc, jobs)))
            && (ok ==> bytes == ScanBytes(tabs, FinalLog(sc, jobs)))
            && (ok && blocks != [] ==> exists m :: SegmentsSay(sc, jobs, FinalLog(sc, jobs), m))
  {
    hide TokenWriter.Valid, PhuffEncoder.Valid, PhuffEncoder.State, BlockJob, RunScan, ValidJob, LogCodable, ScanBytes, JobsOf,
      SegmentsSay;
    bytes := [];
    var e := NewEncoder(sc, al, refine, order, false, tabs, bufSize);
    FinalCodable(sc, tabs, JobsOf(blocks, order, al, refine));
    ok := CodeBlocks(e, blocks);
    if ok {
      ok := e.FinishPass();
      bytes := e.out.w.out;
      if blocks != [] {
        ghost var m := ScanSays(sc, JobsOf(blocks, order, al, refine));
      }
    }
  }

  /** The statistics pass: it counts the symbols of the same log. */
  method StatisticsPass(sc: AcScan, al: nat, refine: bool, order: seq<nat>, tabs: seq<CDerived>, blocks: seq<Block>)
    returns (ok: bool, counts: seq<nat>)
    requires Setup(sc, order) && ShapedSlots(tabs) && |tabs| == NUM_HUFF_TBLS
    ensures var jobs := JobsOf(blocks, order, al, refine);
            && (ok <==> ValidJobs(sc, jobs))
            && (ok ==> CountsOf(sc, jobs, counts))
  {
    hide TokenWriter.Valid, PhuffEncoder.Valid, PhuffEncoder.State, BlockJob, RunScan, ValidJob, LogCodable, TallyLog, JobsOf;
    counts := [];
    var e := NewEncoder(sc, al, refine, order, true, tabs, 1);
    ok := CodeBlocks(e, blocks);
    if ok {
      counts := e.FinishCounts();
    }
  }

  /** counts are the occurrences of each symbol in the whole scan. */
  ghost predicate CountsOf(sc: AcScan, jobs: seq<Job>, counts: seq<nat>)
    requires ValidBand(sc) && forall i :: 0 <= i < |jobs| ==> |jobs[i].w| == |jobs[i].kn| == DCTSIZE2
  {
    |counts| == NSYMS && forall s :: 0 <= s < NSYMS ==> counts[s] == TallyLog(FinalLog(sc, jobs), sc.tbl, s)
  }

  lemma {:induction false} FinalCodable(sc: AcScan, tabs: seq<CDerived>, jobs: seq<Job>)
    requires ValidBand(sc) && forall i :: 0 <= i < |jobs| ==> |jobs[i].w| == |jobs[i].kn| == DCTSIZE2
    ensures LogCodable(tabs, FinalLog(sc, jobs)) ==> LogCodable(tabs, RunScan(sc, jobs).log)
  {
    hide LogCodable, Flush, RunScan;
    var s := RunScan(sc, jobs);
    LogCodableAppend(tabs, s.log, Flush(sc.tbl, s.eobrun, s.be));
  }

  // ----- every counted symbol has a code

  /** All symbols are of slot tbl, below 256, and of a legal category. */
  predicate Within(tbl: nat, toks: seq<Token>) {
    forall i :: 0 <= i < |toks| && toks[i].Sym? ==> toks[i].tbl == tbl && toks[i].s < 256 && toks[i].s % 16 <= MAX_COEF_BITS
  }

  lemma {:induction false} WithinJoin(tbl: nat, a: seq<Token>, b: seq<Token>)
    requires Within(tbl, a) && Within(tbl, b)
    ensures Within(tbl, a + b)
  {
  }

  lemma {:induction false} BlockWithin(tbl: nat, w: seq<int>, kn: seq<int>, ss: nat, k: nat, se: nat, r: nat, br: BitString)
    requires |w| == |kn| && ss <= k <= se + 1 <= |w| && InBand(w, kn, ss, se)
    ensures Within(tbl, BlockFrom(tbl, w, kn, k, se, LastNew(w, kn, ss, se + 1), r, br).toks)
    decreases se + 1 - k, r
  {
    hide NBits, LastNew;
    var eob := LastNew(w, kn, ss, se + 1);
    if k > se {
    } else if w[k] == 0 {
      BlockWithin(tbl, w, kn, ss, k + 1, se, r + 1, br);
    } else if r > 15 && k <= eob {
      BlockWithin(tbl, w, kn, ss, k, se, r - 16, []);
      WithinJoin(tbl, Zrl(tbl, br), BlockFrom(tbl, w, kn, k, se, eob, r - 16, []).toks);
    } else if kn[k] != 0 {
      BlockWithin(tbl, w, kn, ss, k + 1, se, r, br + [CorrectionBit(w[k])]);
    } else {
      BlockWithin(tbl, w, kn, ss, k + 1, se, 0, []);
      CoefWithin(tbl, r, w[k], br);
      WithinJoin(tbl, NewCoef(tbl, r, w[k], br), BlockFrom(tbl, w, kn, k + 1, se, eob, 0, []).toks);
    }
  }

  lemma {:induction false} CoefWithin(tbl: nat, r: nat, v: int, br: BitString)
    requires r <= 15 && Category(v) <= MAX_COEF_BITS
    ensures Within(tbl, NewCoef(tbl, r, v, br))
  {
    hide NBits, Pow2, ToBits;
  }

  lemma {:induction false} FlushWithin(tbl: nat, eobrun: nat, be: BitString)
    requires eobrun <= MAX_EOBRUN
    ensures Within(tbl, Flush(tbl, eobrun, be))
  {
    if eobrun > 0 {
      var s, x := RunSize(eobrun);
      hide NBits, Pow2, ToBits, EobRun;
      RunTokens(tbl, eobrun, be);
      assert 16 * s % 16 == 0;
    }
  }

  ghost predicate LogWithin(tbl: nat, log: seq<seq<Token>>) {
    forall i :: 0 <= i < |log| ==> Within(tbl, log[i])
  }

  lemma {:induction false} AppendWithin(tbl: nat, log: Log, toks: seq<Token>)
    requires LogWithin(tbl, log) && Within(tbl, toks)
    ensures LogWithin(tbl, Append(log, toks)) && LogWithin(tbl, log + [[]])
  {
    hide Within;
    WithinJoin(tbl, log[|log| - 1], toks);
    assert Within(tbl, []) by { NothingWithin(tbl); }
  }

  lemma {:induction false} NothingWithin(tbl: nat)
    ensures Within(tbl, [])
  {
  }

  lemma {:induction false} RunWithin(sc: AcScan, jobs: seq<Job>)
    requires ValidBand(sc) && ValidJobs(sc, jobs)
    ensures LogWithin(sc.tbl, RunScan(sc, jobs).log) && LogWithin(sc.tbl, FinalLog(sc, jobs))
    decreases |jobs|
  {
    hide Within, LogWithin, Flush, JobPiece, Append, ScanStep;
    var s := RunScan(sc, jobs);
    RunBounded(sc, jobs);
    if jobs == [] {
      StartWithin(sc);
    } else {
      var n := |jobs| - 1;
      RunWithin(sc, jobs[..n]);
      RunBounded(sc, jobs[..n]);
      StepWithin(sc, RunScan(sc, jobs[..n]), jobs[n]);
    }
    FlushWithin(sc.tbl, s.eobrun, s.be);
    AppendWithin(sc.tbl, s.log, Flush(sc.tbl, s.eobrun, s.be));
  }

  lemma {:induction false} StartWithin(sc: AcScan)
    ensures LogWithin(sc.tbl, AcStart(sc).log)
  {
  }

  lemma {:induction false} StepWithin(sc: AcScan, s0: AcState, jb: Job)
    requires ValidBand(sc) && ValidJob(sc, jb) && Bounded(sc, s0) && LogWithin(sc.tbl, s0.log)
    ensures LogWithin(sc.tbl, ScanStep(sc, s0, JobPiece(sc, jb)).log)
  {
    hide Within, LogWithin, Flush, JobPiece, Append;
    var p := JobPiece(sc, jb);
    assert Within(sc.tbl, p.toks) by { BlockWithin(sc.tbl, jb.w, jb.kn, sc.ss, sc.ss, sc.se, 0, []); PieceIs(sc, jb); }
    FlushWithin(sc.tbl, s0.eobrun, s0.be);
    AppendWithin(sc.tbl, s0.log, Flush(sc.tbl, s0.eobrun, s0.be));
    var flushed := Append(s0.log, Flush(sc.tbl, s0.eobrun, s0.be));
    AppendWithin(sc.tbl, flushed, Flush(sc.tbl, s0.eobrun, s0.be));
    var s1 := AcRestarted(sc, s0);
    var f1 := Flush(sc.tbl, s1.eobrun, s1.be);
    RestartBounded(sc, s0);
    FlushWithin(sc.tbl, s1.eobrun, s1.be);
    WithinJoin(sc.tbl, f1, p.toks);
    AppendWithin(sc.tbl, s1.log, f1 + p.toks);
    var s2 := Joined(AfterTokens(sc, s1, p), p);
    FlushWithin(sc.tbl, s2.eobrun, s2.be);
    AppendWithin(sc.tbl, s2.log, Flush(sc.tbl, s2.eobrun, s2.be));
  }

  lemma {:induction false} PieceIs(sc: AcScan, jb: Job)
    requires ValidBand(sc) && |jb.w| == |jb.kn| == DCTSIZE2
    ensures JobPiece(sc, jb) == BlockFrom(sc.tbl, jb.w, jb.kn, sc.ss, sc.se, LastNew(jb.w, jb.kn, sc.ss, sc.se + 1), 0, [])
  {
  }

  /** With a table made from the counts of the statistics pass, the output
      pass over the same blocks finds a code for every symbol. */
  lemma {:induction false} CountsSuffice(sc: AcScan, tabs: seq<CDerived>, t: HuffTbl, jobs: seq<Job>, counts: seq<nat>)
    requires ValidBand(sc) && ValidJobs(sc, jobs) && CountsOf(sc, jobs, counts)
    requires sc.tbl < |tabs| && TableFor(t, RealCounts(counts)) && Encodes(tabs[sc.tbl], t)
    ensures LogCodable(tabs, FinalLog(sc, jobs))
  {
    var log := FinalLog(sc, jobs);
    hide FinalLog, TableFor, Encodes, TallyLog, ValidJob, Within, TokenCodable;
    RunWithin(sc, jobs);
    forall i, j | 0 <= i < |log| && 0 <= j < |log[i]|
      ensures TokenCodable(tabs, log[i][j])
    {
      SymbolCounted(sc.tbl, tabs, t, log, counts, i, j);
    }
  }

  lemma {:induction false} SymbolCounted(tbl: nat, tabs: seq<CDerived>, t: HuffTbl, log: Log, counts: seq<nat>, i: nat, j: nat)
    requires |counts| == NSYMS && tbl < |tabs| && TableFor(t, RealCounts(counts)) && Encodes(tabs[tbl], t)
    requires forall s :: 0 <= s < NSYMS ==> counts[s] == TallyLog(log, tbl, s)
    requires i < |log| && j < |log[i]| && Within(tbl, log[i])
    ensures TokenCodable(tabs, log[i][j])
  {
    hide TableFor, Encodes, TallyLog;
    if log[i][j].Sym? {
      ProgressiveTokens.TallyPositive(log, i, j);
      CountedHasCode(t, RealCounts(counts), tabs[tbl], log[i][j].s);
      SlotShape(tabs[tbl], t);
    }
  }

  lemma {:induction false} SlotShape(c: CDerived, t: HuffTbl)
    requires Encodes(c, t)
    ensures |c.ehufsi| == 256
  {
  }

  // ----- successive approximation

  /** What a refinement scan takes as known is what a scan at one bit less
      precision delivered. */
  lemma {:induction false} KnownIsEarlierScan(block: Block, order: seq<nat>, al: nat, refine: bool)
    requires NaturalOrder(order)
    ensures BlockJob(block, order, al, true).kn == BlockJob(block, order, al + 1, refine).w
  {
    hide Point, Half;
    forall k | 0 <= k < DCTSIZE2
      ensures Half(Point(block[order[k]], al)) == Point(block[order[k]], al + 1)
    {
      PointStep(block[order[k]], al);
    }
  }

  /** At bit 0 a recovered band is the coefficients themselves. */
  lemma {:induction false} FullPrecision(block: Block, order: seq<nat>, sc: AcScan, refine: bool, blk: seq<int>)
    requires NaturalOrder(order) && ValidBand(sc) && Recovered(sc, BlockJob(block, order, 0, refine), blk)
    ensures forall k :: sc.ss <= k <= sc.se ==> blk[k] == block[order[k]]
  {
    assert Pow2(0) == 1;
    forall c: int
      ensures Point(c, 0) == c
    {
    }
  }
}
