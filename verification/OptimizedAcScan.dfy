/** An AC scan with an optimal table, from the statistics pass to the bytes and
    back through the decoder of section G.2 of ITU-T T.81. */
module OptimizedAcScan {
  import opened JpegLimits
  import opened Arith
  import opened Bits
  import opened HuffTable
  import opened DerivedTables
  import opened OptimalTable
  import opened TableGenerator
  import opened BlockCoding
  import opened ScanCoding
  import opened OptimizedTables
  import opened ProgressiveTokens
  import opened ProgressiveBlock
  import opened ProgressiveBlockRoundTrip
  import opened ProgressiveScan
  import opened ProgressiveRoundTrip
  import opened AcScanPasses
  import OptimizedScan
  import PhuffEncoder

  // ----- at least one symbol

  /** There is a symbol somewhere in the log. */
  ghost predicate Speaks(log: Log) {
    exists i, j :: 0 <= i < |log| && 0 <= j < |log[i]| && log[i][j].Sym?
  }

  lemma {:induction false} AppendSpeaks(log: Log, toks: seq<Token>)
    ensures Speaks(log) ==> Speaks(Append(log, toks))
    ensures toks != [] && toks[0].Sym? ==> Speaks(Append(log, toks))
  {
    var a, n := Append(log, toks), |log| - 1;
    assert a[n] == log[n] + toks;
    if Speaks(log) {
      var i, j :| 0 <= i < |log| && 0 <= j < |log[i]| && log[i][j].Sym?;
      assert a[i][j] == log[i][j];
    }
    if toks != [] && toks[0].Sym? {
      assert a[n][|log[n]|] == toks[0];
    }
  }

  /** What a block sends starts with a symbol; and if it sends nothing, something waits. */
  lemma {:induction false} PieceSpeaks(tbl: nat, w: seq<int>, kn: seq<int>, k: nat, se: nat, eob: nat, r: nat, br: BitString)
    requires |w| == |kn| && se < |w| && (k <= se || r > 0 || br != [])
    ensures var p := BlockFrom(tbl, w, kn, k, se, eob, r, br); if p.toks == [] then p.Pending() else p.toks[0].Sym?
    decreases se + 1 - k, r
  {
    hide Category, ToBits, RawBits;
    if k > se {
    } else if w[k] == 0 {
      PieceSpeaks(tbl, w, kn, k + 1, se, eob, r + 1, br);
    } else if r > 15 && k <= eob {
      ZrlSpeaks(tbl, br);
    } else if kn[k] != 0 {
      PieceSpeaks(tbl, w, kn, k + 1, se, eob, r, br + [CorrectionBit(w[k])]);
    } else {
      CoefSpeaks(tbl, r, w[k], br);
    }
  }

  lemma {:induction false} ZrlSpeaks(tbl: nat, br: BitString)
    ensures Zrl(tbl, br) != [] && Zrl(tbl, br)[0].Sym?
  {
  }

  lemma {:induction false} CoefSpeaks(tbl: nat, r: nat, v: int, br: BitString)
    ensures NewCoef(tbl, r, v, br) != [] && NewCoef(tbl, r, v, br)[0].Sym?
  {
  }

  lemma {:induction false} FlushSpeaks(tbl: nat, eobrun: nat, be: BitString)
    requires eobrun > 0
    ensures Flush(tbl, eobrun, be) != [] && Flush(tbl, eobrun, be)[0].Sym?
  {
    PhuffEncoder.RunTokens(tbl, eobrun, be);
  }

  /** A block's symbols are in the log, or the run it joined is pending. */
  lemma {:induction false} BlockHeard(sc: AcScan, s1: AcState, p: Piece)
    requires if p.toks == [] then p.Pending() else p.toks[0].Sym?
    ensures var s := AfterBlock(sc, s1, p); Speaks(s.log) || s.eobrun > 0
  {
    hide Flush, Append, Speaks;
    var s2 := Joined(AfterTokens(sc, s1, p), p);
    if p.toks != [] {
      var f := Flush(sc.tbl, s1.eobrun, s1.be);
      AppendSpeaks(s1.log, f);
      AppendTwice(s1.log, f, p.toks);
      AppendSpeaks(Append(s1.log, f), p.toks);
      AppendSpeaks(s2.log, Flush(sc.tbl, s2.eobrun, s2.be));
    } else {
      FlushSpeaks(sc.tbl, s2.eobrun, s2.be);
      AppendSpeaks(s2.log, Flush(sc.tbl, s2.eobrun, s2.be));
    }
  }

  lemma {:induction false} ScanSpeaks(sc: AcScan, jobs: seq<Job>)
    requires ValidBand(sc) && ValidJobs(sc, jobs) && jobs != []
    ensures Speaks(FinalLog(sc, jobs))
  {
    hide Speaks, Flush, AfterBlock, Append, AcRestarted, InBand;
    var n := |jobs| - 1;
    assert ValidJob(sc, jobs[n]);
    JobSpeaks(sc, jobs[n]);
    var s := RunScan(sc, jobs);
    BlockHeard(sc, AcRestarted(sc, RunScan(sc, jobs[..n])), JobPiece(sc, jobs[n]));
    if s.eobrun > 0 {
      FlushSpeaks(sc.tbl, s.eobrun, s.be);
    }
    AppendSpeaks(s.log, Flush(sc.tbl, s.eobrun, s.be));
  }

  lemma {:induction false} JobSpeaks(sc: AcScan, jb: Job)
    requires ValidBand(sc) && ValidJob(sc, jb)
    ensures var p := JobPiece(sc, jb); if p.toks == [] then p.Pending() else p.toks[0].Sym?
  {
    PieceSpeaks(sc.tbl, jb.w, jb.kn, sc.ss, sc.se, LastNew(jb.w, jb.kn, sc.ss, sc.se + 1), 0, []);
    PieceIs(sc, jb);
  }

  // ----- the counters

  /** How many symbols the scan sends. */
  function SymbolTotal(sc: AcScan, jobs: seq<Job>): nat
    requires ValidBand(sc) && forall i :: 0 <= i < |jobs| ==> |jobs[i].w| == |jobs[i].kn| == DCTSIZE2
  {
    Sum(seq(PSEUDO, s requires 0 <= s < PSEUDO => TallyLog(FinalLog(sc, jobs), sc.tbl, s)))
  }

  lemma {:induction false} TotalIs(sc: AcScan, jobs: seq<Job>, counts: seq<nat>)
    requires ValidBand(sc) && ValidJobs(sc, jobs) && CountsOf(sc, jobs, counts)
    ensures Sum(RealCounts(counts)) == SymbolTotal(sc, jobs)
  {
    assert RealCounts(counts) == seq(PSEUDO, s requires 0 <= s < PSEUDO => TallyLog(FinalLog(sc, jobs), sc.tbl, s));
  }

  lemma {:induction false} NeverCounted(tbl: nat, log: Log, s: nat)
    requires LogWithin(tbl, log) && s % 16 > MAX_COEF_BITS
    ensures TallyLog(log, tbl, s) == 0
  {
    forall i, j | 0 <= i < |log| && 0 <= j < |log[i]|
      ensures log[i][j] != Sym(tbl, s)
    {
      assert Within(tbl, log[i]);
    }
    TallyNone(log, tbl, s);
  }

  lemma {:induction false} SomethingCounted(tbl: nat, log: Log) returns (s: nat)
    requires Speaks(log) && LogWithin(tbl, log)
    ensures s < 256 && TallyLog(log, tbl, s) > 0
  {
    var i, j :| 0 <= i < |log| && 0 <= j < |log[i]| && log[i][j].Sym?;
    assert Within(tbl, log[i]);
    s := log[i][j].s;
    ProgressiveTokens.TallyPositive(log, i, j);
  }

  lemma {:induction false} AcCountsUsable(sc: AcScan, jobs: seq<Job>, counts: seq<nat>)
    requires ValidBand(sc) && ValidJobs(sc, jobs) && jobs != [] && CountsOf(sc, jobs, counts) && SymbolTotal(sc, jobs) < LARGEST
    ensures Usable(counts)
  {
    hide FinalLog, RunScan, LogWithin, TallyLog, InBand, Used, Sum;
    var log := FinalLog(sc, jobs);
    RunWithin(sc, jobs);
    ScanSpeaks(sc, jobs);
    TotalIs(sc, jobs, counts);
    NeverCounted(sc.tbl, log, 254);
    NeverCounted(sc.tbl, log, 255);
    UsedZeros(RealCounts(counts), 254, 255);
    var s := SomethingCounted(sc.tbl, log);
    UsedSome(RealCounts(counts), s);
  }

  // ----- all passes

  function NoTables(): (tabs: seq<CDerived>)
    ensures |tabs| == NUM_HUFF_TBLS
  {
    seq(NUM_HUFF_TBLS, i => OptimizedScan.Codeless())
  }

  lemma {:induction false} NoTablesShaped()
    ensures ShapedSlots(NoTables())
  {
    OptimizedScan.CodelessShort();
  }

  /** The scan's bytes with the table that goes in front of them, or an error. */
  datatype AcOptimized = AcCoded(bytes: seq<UInt8>, t: HuffTbl, tabs: seq<CDerived>) | BadCoefficient | CodeTooLong

  /** Statistics pass, optimal table, output pass of one AC scan, first or refinement. The only
      errors are a coefficient out of range, and a code longer than 32 bits, which needs more
      than nine million symbols. Whatever marker follows, a decoder with the table recovers
      every block. */
  method EncodeAcOptimized(sc: AcScan, al: nat, refine: bool, order: seq<nat>, blocks: seq<Block>, bufSize: nat) returns (r: AcOptimized)
    requires Setup(sc, order) && |blocks| > 0 && bufSize > 0
    requires SymbolTotal(sc, JobsOf(blocks, order, al, refine)) < LARGEST
    ensures r.BadCoefficient? <==> !ValidJobs(sc, JobsOf(blocks, order, al, refine))
    ensures r.CodeTooLong? ==> SymbolTotal(sc, JobsOf(blocks, order, al, refine)) >= DEEP_TOTAL
    ensures r.AcCoded? ==> Good(sc, r.tabs, r.t) && LegalForDecoder(r.t, false) && |r.tabs| == NUM_HUFF_TBLS
    ensures var jobs := JobsOf(blocks, order, al, refine);
            r.AcCoded? ==> LogCodable(r.tabs, FinalLog(sc, jobs)) && r.bytes == ScanBytes(r.tabs, FinalLog(sc, jobs))
    ensures r.AcCoded? ==> forall m: UInt8, rest: seq<UInt8> | m != 0 && m != 0xFF && !(RST0 <= m < RST0 + 8) ::
              BlocksBack(sc, r.t, JobsOf(blocks, order, al, refine), r.bytes + [0xFF, m] + rest)
  {
    hide *;
    SetupIs(sc, order, blocks, al, refine);
    ghost var jobs := JobsOf(blocks, order, al, refine);
    NoTablesShaped();
    var ok, counts := StatisticsPass(sc, al, refine, order, NoTables(), blocks);
    if !ok { return BadCoefficient; }
    AcCountsUsable(sc, jobs, counts);
    TotalIs(sc, jobs, counts);
    CountsSize(sc, jobs, counts);
    var g := GenerateFor(counts);
    if g.ClenOverflow? { return CodeTooLong; }
    AnySymbol(g.t, RealCounts(counts));
    TableAccepted(g.t, RealCounts(counts), false);
    var c;
    ok, c := MakeCDerivedTbl(g.t, false);
    var tabs := NoTables()[sc.tbl := c];
    OptimizedScan.EncodesShort(c, g.t);
    SlotFilled(sc, tabs, g.t, c);
    CountsSuffice(sc, tabs, g.t, jobs, counts);
    var bytes;
    ok, bytes := OutputPass(sc, al, refine, order, tabs, blocks, bufSize);
    forall m: UInt8, rest: seq<UInt8> | m != 0 && m != 0xFF && !(RST0 <= m < RST0 + 8)
      ensures BlocksBack(sc, g.t, jobs, bytes + [0xFF, m] + rest)
    {
      ScanBack(sc, tabs, g.t, jobs, bytes, m, rest);
    }
    r := AcCoded(bytes, g.t, tabs);
  }

  /** Decoding data with table t recovers every block of the scan and leaves only padding. */
  ghost predicate BlocksBack(sc: AcScan, t: HuffTbl, jobs: seq<Job>, data: seq<UInt8>)
    requires ValidBand(sc) && forall i :: 0 <= i < |jobs| ==> |jobs[i].w| == |jobs[i].kn| == DCTSIZE2
  {
    && Shaped(t) && LegalCounts(t.bits)
    && var (blocks, d) := DRun(sc, t, KnownOf(jobs), SegmentsOf(data, 0));
    && (forall i :: 0 <= i < |jobs| ==> Recovered(sc, jobs[i], blocks[i]))
    && d.eobrun == 0 && d.i == |SegmentsOf(data, 0)| - 1 && |d.cur| <= 7
  }

  lemma {:induction false} ScanBack(sc: AcScan, tabs: seq<CDerived>, t: HuffTbl, jobs: seq<Job>, bytes: seq<UInt8>, m: UInt8, rest: seq<UInt8>)
    requires Good(sc, tabs, t) && ValidJobs(sc, jobs) && LogCodable(tabs, FinalLog(sc, jobs))
    requires m != 0 && m != 0xFF && !(RST0 <= m < RST0 + 8) && bytes == ScanBytes(tabs, FinalLog(sc, jobs))
    ensures BlocksBack(sc, t, jobs, bytes + [0xFF, m] + rest)
  {
    hide FinalLog, LogCodable, ScanBytes, DRun, SegmentsOf, Recovered, KnownOf, LegalCounts, Encodes;
    AcScanLossless(sc, tabs, t, jobs, bytes + [0xFF, m] + rest, m, rest);
  }

  lemma {:induction false} SetupIs(sc: AcScan, order: seq<nat>, blocks: seq<Block>, al: nat, refine: bool)
    requires Setup(sc, order)
    ensures ValidBand(sc) && sc.tbl < NUM_HUFF_TBLS && NaturalOrder(order)
    ensures |order| == DCTSIZE2 + 16 && forall k :: 0 <= k < |order| ==> order[k] < DCTSIZE2
    ensures var jobs := JobsOf(blocks, order, al, refine);
            (blocks != [] ==> jobs != []) && forall i :: 0 <= i < |jobs| ==> |jobs[i].w| == |jobs[i].kn| == DCTSIZE2
  {
  }

  lemma {:induction false} CountsSize(sc: AcScan, jobs: seq<Job>, counts: seq<nat>)
    requires ValidBand(sc) && (forall i :: 0 <= i < |jobs| ==> |jobs[i].w| == |jobs[i].kn| == DCTSIZE2) && CountsOf(sc, jobs, counts)
    ensures |counts| == NSYMS && |RealCounts(counts)| == 256
  {
  }

  lemma {:induction false} AnySymbol(t: HuffTbl, w: seq<nat>)
    requires TableFor(t, w)
    ensures Shaped(t) && |w| == 256 && forall s :: 0 <= s < 256 && w[s] > 0 ==> s <= MaxSymbol(false)
  {
  }

  lemma {:induction false} SlotFilled(sc: AcScan, tabs: seq<CDerived>, t: HuffTbl, c: CDerived)
    requires ValidBand(sc) && sc.tbl < NUM_HUFF_TBLS && tabs == NoTables()[sc.tbl := c] && ShapedSlots(NoTables())
    requires Encodes(c, t) && ShortCodes(c)
    ensures Good(sc, tabs, t) && ShapedSlots(tabs) && tabs[sc.tbl] == c
  {
    hide Encodes, ShortCodes;
    assert forall i :: 0 <= i < |tabs| && i != sc.tbl ==> tabs[i] == NoTables()[i];
  }
}
