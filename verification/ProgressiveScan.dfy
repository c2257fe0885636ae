/** AC scans of progressive mode as a whole: EOB runs and buffered correction
    bits across blocks and restarts, and the decoder of section G.2 run over
    the segments of the scan. */
module ProgressiveScan {
  import opened JpegLimits
  import opened Bits
  import opened HuffTable
  import opened DerivedTables
  import opened ProgressiveTokens
  import opened ProgressiveBlock
  import opened ProgressiveBlockRoundTrip

  const MAX_CORR_BITS := 1000
  const MAX_EOBRUN := 0x7FFF

  /** A spectral band ss..se of one component, its table slot, and the restart interval. */
  datatype AcScan = AcScan(ss: nat, se: nat, tbl: nat, restart: nat)

  predicate ValidBand(sc: AcScan) {
    1 <= sc.ss <= sc.se < DCTSIZE2
  }

  /** A block as the scan sees it: its values at this precision and what
      earlier scans have told of them. */
  datatype Job = Job(w: seq<int>, kn: seq<int>)

  ghost predicate ValidJob(sc: AcScan, jb: Job)
    requires ValidBand(sc)
  {
    Known(jb.w, jb.kn) && InBand(jb.w, jb.kn, sc.ss, sc.se)
  }

  ghost predicate ValidJobs(sc: AcScan, jobs: seq<Job>)
    requires ValidBand(sc)
  {
    forall i :: 0 <= i < |jobs| ==> ValidJob(sc, jobs[i])
  }

  function JobPiece(sc: AcScan, jb: Job): Piece
    requires ValidBand(sc) && |jb.w| == |jb.kn| == DCTSIZE2
  {
    BlockPiece(sc.tbl, jb.w, jb.kn, sc.ss, sc.se)
  }

  // ----- the encoder's state between blocks

  datatype AcState = AcState(log: Log, eobrun: nat, be: BitString, togo: nat)

  /** What holds between MCUs: correction bits only wait for a pending run,
      the run fits its symbol, and another block's bits fit the buffer. */
  predicate Bounded(sc: AcScan, s: AcState) {
    && s.eobrun < MAX_EOBRUN
    && |s.be| <= MAX_CORR_BITS - DCTSIZE2 + 1
    && (s.be != [] ==> s.eobrun > 0)
    && (sc.restart > 0 ==> s.togo <= sc.restart)
  }

  function AcStart(sc: AcScan): AcState {
    AcState([[]], 0, [], sc.restart)
  }

  function Flushed(sc: AcScan, s: AcState): AcState {
    AcState(Append(s.log, Flush(sc.tbl, s.eobrun, s.be)), 0, [], s.togo)
  }

  predicate RestartDue(sc: AcScan, s: AcState) {
    sc.restart > 0 && s.togo == 0
  }

  /** A new segment when the restart interval is used up. */
  function AcRestarted(sc: AcScan, s: AcState): AcState {
    if RestartDue(sc, s) then AcState(Flushed(sc, s).log + [[]], 0, [], sc.restart) else s
  }

  /** A block's own tokens first send the pending run. */
  function AfterTokens(sc: AcScan, s: AcState, p: Piece): AcState {
    if p.toks == [] then s else AcState(Append(s.log, Flush(sc.tbl, s.eobrun, s.be) + p.toks), 0, [], s.togo)
  }

  /** A block that leaves something pending joins the run. */
  function Joined(s: AcState, p: Piece): AcState {
    if p.Pending() then s.(eobrun := s.eobrun + 1, be := s.be + p.br) else s
  }

  predicate MustFlush(s: AcState, p: Piece) {
    p.Pending() && (s.eobrun == MAX_EOBRUN || |s.be| > MAX_CORR_BITS - DCTSIZE2 + 1)
  }

  function AfterBlock(sc: AcScan, s: AcState, p: Piece): AcState {
    var s2 := Joined(AfterTokens(sc, s, p), p);
    if MustFlush(s2, p) then Flushed(sc, s2) else s2
  }

  function Counted(sc: AcScan, s: AcState): AcState {
    if sc.restart > 0 && s.togo > 0 then s.(togo := s.togo - 1) else s
  }

  function ScanStep(sc: AcScan, s: AcState, p: Piece): AcState {
    Counted(sc, AfterBlock(sc, AcRestarted(sc, s), p))
  }

  function RunScan(sc: AcScan, jobs: seq<Job>): AcState
    requires ValidBand(sc) && forall i :: 0 <= i < |jobs| ==> |jobs[i].w| == |jobs[i].kn| == DCTSIZE2
  {
    if jobs == [] then AcStart(sc) else
    ScanStep(sc, RunScan(sc, jobs[..|jobs| - 1]), JobPiece(sc, jobs[|jobs| - 1]))
  }

  lemma {:induction false} PieceBound(tbl: nat, w: seq<int>, kn: seq<int>, k: nat, se: nat, eob: nat, r: nat, br: BitString)
    requires |w| == |kn| && se < |w| && k <= se + 1
    ensures |BlockFrom(tbl, w, kn, k, se, eob, r, br).br| <= |br| + (se + 1 - k)
    decreases se + 1 - k, r
  {
    hide NewCoef, Zrl;
    if k > se {
    } else if w[k] == 0 {
      PieceBound(tbl, w, kn, k + 1, se, eob, r + 1, br);
    } else if r > 15 && k <= eob {
      PieceBound(tbl, w, kn, k, se, eob, r - 16, []);
    } else if kn[k] != 0 {
      PieceBound(tbl, w, kn, k + 1, se, eob, r, br + [CorrectionBit(w[k])]);
    } else {
      PieceBound(tbl, w, kn, k + 1, se, eob, 0, []);
    }
  }

  /** Every step of every run keeps the bounds, and before the forced flush a
      block's bits still fit the buffer and the run its 15 bits. */
  lemma {:induction false} StepBounded(sc: AcScan, s: AcState, jb: Job)
    requires ValidBand(sc) && |jb.w| == |jb.kn| == DCTSIZE2 && Bounded(sc, s)
    ensures Bounded(sc, ScanStep(sc, s, JobPiece(sc, jb)))
    ensures |AcRestarted(sc, s).be| + |JobPiece(sc, jb).br| <= MAX_CORR_BITS
    ensures AcRestarted(sc, s).eobrun + 1 <= MAX_EOBRUN
  {
    PieceBound(sc.tbl, jb.w, jb.kn, sc.ss, sc.se, LastNew(jb.w, jb.kn, sc.ss, sc.se + 1), 0, []);
  }

  lemma {:induction false} RunBounded(sc: AcScan, jobs: seq<Job>)
    requires ValidBand(sc) && forall i :: 0 <= i < |jobs| ==> |jobs[i].w| == |jobs[i].kn| == DCTSIZE2
    ensures Bounded(sc, RunScan(sc, jobs))
  {
    if jobs != [] {
      RunBounded(sc, jobs[..|jobs| - 1]);
      StepBounded(sc, RunScan(sc, jobs[..|jobs| - 1]), jobs[|jobs| - 1]);
    }
  }

  // ----- the decoder over the segments ds of a scan

  /** Current segment, what is left of it, finished blocks still to come in
      the run, and blocks until the next restart. */
  datatype DState = DState(i: nat, cur: BitString, eobrun: nat, togo: nat)

  function DStart(sc: AcScan, ds: seq<BitString>): DState {
    DState(0, if |ds| > 0 then ds[0] else [], 0, sc.restart)
  }

  function DRestarted(sc: AcScan, ds: seq<BitString>, s: DState): DState {
    if sc.restart > 0 && s.togo == 0
    then DState(s.i + 1, if s.i + 1 < |ds| then ds[s.i + 1] else [], 0, sc.restart) else s
  }

  function DNext(sc: AcScan, t: HuffTbl, kn: seq<int>, ds: seq<BitString>, s: DState): (res: (seq<int>, DState))
    requires ValidBand(sc) && Shaped(t) && LegalCounts(t.bits) && |kn| == DCTSIZE2
  {
    var s1 := DRestarted(sc, ds, s);
    var (blk, e, cur) := AcBlock(t, kn, Doubled(kn), sc.ss, sc.se, s1.eobrun, s1.cur);
    (blk, DState(s1.i, cur, e, if sc.restart > 0 && s1.togo > 0 then s1.togo - 1 else s1.togo))
  }

  /** All blocks of a scan whose earlier scans gave the values in known. */
  function DRun(sc: AcScan, t: HuffTbl, known: seq<seq<int>>, ds: seq<BitString>): (res: (seq<seq<int>>, DState))
    requires ValidBand(sc) && Shaped(t) && LegalCounts(t.bits) && forall i :: 0 <= i < |known| ==> |known[i]| == DCTSIZE2
    ensures |res.0| == |known|
  {
    if known == [] then ([], DStart(sc, ds)) else
    var n := |known| - 1;
    var (blocks, s) := DRun(sc, t, known[..n], ds);
    var (blk, s') := DNext(sc, t, known[n], ds, s);
    (blocks + [blk], s')
  }

  // ----- a decoder in step with the encoder

  ghost predicate Good(sc: AcScan, tabs: seq<CDerived>, t: HuffTbl) {
    ValidBand(sc) && ShapedSlots(tabs) && sc.tbl < |tabs| && Encodes(tabs[sc.tbl], t)
  }

  ghost function PendBits(sc: AcScan, tabs: seq<CDerived>, s: AcState, e: nat): BitString
    requires ShapedSlots(tabs)
    requires s.eobrun > 0 ==> TokCodable(tabs, EobRun(sc.tbl, s.eobrun + e, s.be))
  {
    if s.eobrun == 0 then [] else TokBits(tabs, EobRun(sc.tbl, s.eobrun + e, s.be))
  }

  /** ds continues what the encoder has logged: e more blocks join the pending
      run, and tail follows it. */
  ghost predicate Matches(sc: AcScan, tabs: seq<CDerived>, s: AcState, ds: seq<BitString>, e: nat, tail: BitString)
    requires ShapedSlots(tabs)
  {
    var j := |s.log| - 1;
    && LogCodable(tabs, s.log) && j < |ds|
    && (forall i :: 0 <= i < j ==> TokBits(tabs, s.log[i]) <= ds[i])
    && s.eobrun + e <= MAX_EOBRUN && (s.eobrun == 0 ==> e == 0)
    && (s.eobrun > 0 ==> TokCodable(tabs, EobRun(sc.tbl, s.eobrun + e, s.be)))
    && ds[j] == TokBits(tabs, s.log[j]) + PendBits(sc, tabs, s, e) + tail
  }

  /** Sending the pending run moves its bits from the pending part to the log. */
  lemma {:induction false} MatchFlushed(sc: AcScan, tabs: seq<CDerived>, s: AcState, toks: seq<Token>, ds: seq<BitString>, x: BitString)
    requires ShapedSlots(tabs) && s.eobrun <= MAX_EOBRUN && (s.be != [] ==> s.eobrun > 0)
    requires var log := Append(s.log, Flush(sc.tbl, s.eobrun, s.be) + toks); var j := |s.log| - 1;
             && LogCodable(tabs, log) && j < |ds|
             && (forall i :: 0 <= i < j ==> TokBits(tabs, log[i]) <= ds[i])
             && ds[j] == TokBits(tabs, log[j]) + x
    ensures TokCodable(tabs, toks) && Matches(sc, tabs, s, ds, 0, TokBits(tabs, toks) + x)
  {
    hide TokBits, TokCodable, EobRun;
    var flush, j := Flush(sc.tbl, s.eobrun, s.be), |s.log| - 1;
    var log := Append(s.log, flush + toks);
    LogCodableAppend(tabs, s.log, flush + toks);
    CodableSplit(tabs, flush, toks);
    assert forall i :: 0 <= i < j ==> log[i] == s.log[i];
    assert log[j] == s.log[j] + (flush + toks);
    TokBitsAppend(tabs, s.log[j], flush + toks);
    TokBitsAppend(tabs, flush, toks);
    EmptyTokens(tabs);
    assert PendBits(sc, tabs, s, 0) == TokBits(tabs, flush);
    var a, b, c := TokBits(tabs, s.log[j]), TokBits(tabs, flush), TokBits(tabs, toks);
    assert (a + (b + c)) + x == a + b + (c + x);
  }

  /** The same run with more blocks needs the same symbol. */
  lemma {:induction false} RunCodable(tabs: seq<CDerived>, tbl: nat, n: nat, be: BitString, br: BitString)
    requires ShapedSlots(tabs) && n > 0 && TokCodable(tabs, EobRun(tbl, n, be + br))
    ensures TokCodable(tabs, EobRun(tbl, n, be)) && TokCodable(tabs, EobRun(tbl, n, br))
    ensures TokBits(tabs, EobRun(tbl, n, be + br)) == TokBits(tabs, EobRun(tbl, n, be)) + br
  {
    hide EobCount, RawBits, TokBits, TokCodable;
    var h, x, y := EobCount(tbl, n), RawBits(be), RawBits(br);
    RawAppend(be, br);
    assert EobRun(tbl, n, be + br) == (h + x) + y;
    TokBitsAppend(tabs, h + x, y);
    CodableSplit(tabs, h, x);
    CodableSplit(tabs, h, y);
    RawTokBits(tabs, br);
  }

  /** The bits a block with tokens of its own reads, tail excluded. */
  ghost function Ending(tabs: seq<CDerived>, tbl: nat, p: Piece, e: nat): BitString
    requires ShapedSlots(tabs) && (p.Pending() ==> TokCodable(tabs, EobRun(tbl, e + 1, p.br)))
  {
    if p.Pending() then TokBits(tabs, EobRun(tbl, e + 1, p.br)) else []
  }

  lemma {:induction false} MatchSent(sc: AcScan, tabs: seq<CDerived>, s1: AcState, p: Piece, ds: seq<BitString>, e: nat, tail: BitString)
    requires ShapedSlots(tabs) && Bounded(sc, s1) && p.toks != []
    requires Matches(sc, tabs, Joined(AfterTokens(sc, s1, p), p), ds, e, tail)
    ensures TokCodable(tabs, p.toks) && (p.Pending() ==> e + 1 <= MAX_EOBRUN && TokCodable(tabs, EobRun(sc.tbl, e + 1, p.br)))
    ensures !p.Pending() ==> e == 0
    ensures Matches(sc, tabs, s1, ds, 0, TokBits(tabs, p.toks) + (Ending(tabs, sc.tbl, p, e) + tail))
  {
    hide TokBits, TokCodable, EobRun, Flush;
    var s2 := Joined(AfterTokens(sc, s1, p), p);
    assert [] + p.br == p.br;
    var x := PendBits(sc, tabs, s2, e);
    assert x == Ending(tabs, sc.tbl, p, e);
    var a := TokBits(tabs, s2.log[|s2.log| - 1]);
    assert a + x + tail == a + (x + tail);
    MatchFlushed(sc, tabs, s1, p.toks, ds, x + tail);
  }

  lemma {:induction false} MatchJoined(sc: AcScan, tabs: seq<CDerived>, s1: AcState, p: Piece, ds: seq<BitString>, e: nat, tail: BitString)
    requires ShapedSlots(tabs) && Bounded(sc, s1) && p.toks == [] && p.Pending()
    requires Matches(sc, tabs, Joined(s1, p), ds, e, tail)
    ensures TokCodable(tabs, EobRun(sc.tbl, s1.eobrun + e + 1, p.br)) && s1.eobrun + e + 1 <= MAX_EOBRUN
    ensures s1.eobrun == 0 ==> TokCodable(tabs, EobRun(sc.tbl, e + 1, p.br))
    ensures s1.eobrun > 0 ==> Matches(sc, tabs, s1, ds, e + 1, p.br + tail)
    ensures s1.eobrun == 0 ==> Matches(sc, tabs, s1, ds, 0, Ending(tabs, sc.tbl, p, e) + tail)
  {
    hide TokBits, TokCodable, EobRun;
    var n := s1.eobrun + 1 + e;
    RunCodable(tabs, sc.tbl, n, s1.be, p.br);
    var a := TokBits(tabs, s1.log[|s1.log| - 1]);
    if s1.eobrun > 0 {
      var x := TokBits(tabs, EobRun(sc.tbl, n, s1.be));
      assert a + (x + p.br) + tail == a + x + (p.br + tail);
    } else {
      assert [] + p.br == p.br;
      var x := TokBits(tabs, EobRun(sc.tbl, n, p.br));
      assert a + x + tail == a + [] + (x + tail);
    }
  }

  lemma {:induction false} MatchRestart(sc: AcScan, tabs: seq<CDerived>, s0: AcState, ds: seq<BitString>, tail: BitString)
      returns (pad: BitString)
    requires ShapedSlots(tabs) && Bounded(sc, s0) && RestartDue(sc, s0)
    requires Matches(sc, tabs, AcRestarted(sc, s0), ds, 0, tail)
    ensures Matches(sc, tabs, s0, ds, 0, pad) && |s0.log| < |ds| && ds[|s0.log|] == tail
  {
    hide TokBits, TokCodable, EobRun, Flush;
    var j := |s0.log| - 1;
    var log := Append(s0.log, Flush(sc.tbl, s0.eobrun, s0.be) + []);
    assert Flush(sc.tbl, s0.eobrun, s0.be) + [] == Flush(sc.tbl, s0.eobrun, s0.be);
    var s1 := AcRestarted(sc, s0);
    LogCodableAppend(tabs, log, []);
    assert s1.log == log + [[]];
    assert forall i :: 0 <= i <= j ==> s1.log[i] == log[i];
    assert TokBits(tabs, s1.log[j]) <= ds[j];
    pad := ds[j][|TokBits(tabs, log[j])|..];
    assert ds[j] == TokBits(tabs, log[j]) + pad;
    MatchFlushed(sc, tabs, s0, [], ds, pad);
    EmptyTokens(tabs);
    assert [] + pad == pad;
    assert s1.log[j + 1] == [] && [] + [] + tail == tail;
  }

  lemma {:induction false} MatchForced(sc: AcScan, tabs: seq<CDerived>, s2: AcState, ds: seq<BitString>, e: nat, tail: BitString)
    requires ShapedSlots(tabs) && 0 < s2.eobrun <= MAX_EOBRUN
    requires Matches(sc, tabs, Flushed(sc, s2), ds, e, tail)
    ensures e == 0 && Matches(sc, tabs, s2, ds, 0, tail)
  {
    hide TokBits, TokCodable, EobRun, Flush;
    var f := Flush(sc.tbl, s2.eobrun, s2.be);
    assert f + [] == f;
    var a := TokBits(tabs, Flushed(sc, s2).log[|s2.log| - 1]);
    assert a + [] + tail == a + tail;
    MatchFlushed(sc, tabs, s2, [], ds, tail);
    EmptyTokens(tabs);
    assert [] + tail == tail;
  }
}
