/** AC scans are lossless: the decoder of section G.2 turns the bytes of a
    whole scan, restarts included, back into the coefficients. */
module ProgressiveRoundTrip {
  import opened JpegLimits
  import opened Bits
  import opened HuffTable
  import opened DerivedTables
  import opened Stuffing
  import opened ScanCoding
  import opened ProgressiveTokens
  import opened ProgressiveBlock
  import opened ProgressiveBlockRoundTrip
  import opened ProgressiveScan

  /** A block that sends nothing is one window: it all waits for the EOB. */
  lemma {:induction false} SilentWindow(tbl: nat, w: seq<int>, kn: seq<int>, ss: nat, se: nat, kd: nat, k: nat, r: nat, br: BitString)
    requires Known(w, kn) && ss <= kd <= k <= se + 1 <= DCTSIZE2
    requires var eob := LastNew(w, kn, ss, se + 1);
             Window(w, kn, eob, kd, k, r, br) && BlockFrom(tbl, w, kn, k, se, eob, r, br).toks == []
    ensures var eob := LastNew(w, kn, ss, se + 1); var p := BlockFrom(tbl, w, kn, k, se, eob, r, br);
            Window(w, kn, eob, kd, se + 1, p.r, p.br)
    decreases se + 1 - k
  {
    hide Window, LastNew;
    var eob := LastNew(w, kn, ss, se + 1);
    if k <= se {
      WindowGrows(w, kn, eob, kd, k, r, br);
      if w[k] == 0 {
        SilentWindow(tbl, w, kn, ss, se, kd, k + 1, r + 1, br);
      } else {
        SilentWindow(tbl, w, kn, ss, se, kd, k + 1, r, br + [CorrectionBit(w[k])]);
      }
    }
  }

  lemma {:induction false} WindowNonempty(w: seq<int>, kn: seq<int>, a: nat, b: nat)
    requires a < b <= |kn| == |w|
    ensures Zeros(kn, a, b) > 0 || Corrections(w, kn, a, b) != []
  {
  }

  /** The block of a job, as the decoder leaves it: the band's values. */
  ghost predicate Recovered(sc: AcScan, jb: Job, blk: seq<int>)
    requires ValidBand(sc) && |jb.w| == |jb.kn| == DCTSIZE2
  {
    |blk| == DCTSIZE2 && forall k :: sc.ss <= k <= sc.se ==> blk[k] == jb.w[k]
  }

  lemma {:induction false} Started(w: seq<int>, kn: seq<int>, ss: nat, se: nat, eob: nat)
    requires Known(w, kn) && ss <= se < DCTSIZE2
    ensures Progress(w, kn, Doubled(kn), ss, ss, se) && Window(w, kn, eob, ss, ss, 0, [])
  {
  }

  /** Decoding a block whose tokens, if any, come first. */
  lemma {:induction false} FreshBlock(sc: AcScan, tabs: seq<CDerived>, t: HuffTbl, jb: Job, e: nat, tail: BitString) returns (blk: seq<int>)
    requires Good(sc, tabs, t) && ValidJob(sc, jb)
    requires var p := JobPiece(sc, jb);
             && TokCodable(tabs, p.toks)
             && (p.Pending() ==> e + 1 <= MAX_EOBRUN && TokCodable(tabs, EobRun(sc.tbl, e + 1, p.br)))
             && (!p.Pending() ==> e == 0)
    ensures Recovered(sc, jb, blk)
    ensures var p := JobPiece(sc, jb); var bits := TokBits(tabs, p.toks) + (Ending(tabs, sc.tbl, p, e) + tail);
            AcBlock(t, jb.kn, Doubled(jb.kn), sc.ss, sc.se, 0, bits) == (blk, e, tail)
  {
    hide AcBlock, TokBits, EobRun, Encodes, Window, BlockFrom, TokCodable;
    var p := JobPiece(sc, jb);
    Started(jb.w, jb.kn, sc.ss, sc.se, LastNew(jb.w, jb.kn, sc.ss, sc.se + 1));
    assert [] + tail == tail;
    blk := BlockDecodes(tabs, sc.tbl, t, jb.w, jb.kn, Doubled(jb.kn), sc.ss, sc.se, sc.ss, sc.ss, 0, [], e,
                        Ending(tabs, sc.tbl, p, e) + tail, tail);
  }

  /** A block inside a run only reads its correction bits. */
  lemma {:induction false} RunBlock(sc: AcScan, t: HuffTbl, jb: Job, eobrun: nat, tail: BitString) returns (blk: seq<int>)
    requires ValidBand(sc) && ValidJob(sc, jb) && Shaped(t) && LegalCounts(t.bits)
    requires JobPiece(sc, jb).toks == [] && eobrun > 0
    ensures JobPiece(sc, jb).Pending() && Recovered(sc, jb, blk)
    ensures AcBlock(t, jb.kn, Doubled(jb.kn), sc.ss, sc.se, eobrun, JobPiece(sc, jb).br + tail) == (blk, eobrun - 1, tail)
  {
    hide Skip, LegalCounts;
    var p := JobPiece(sc, jb);
    Started(jb.w, jb.kn, sc.ss, sc.se, LastNew(jb.w, jb.kn, sc.ss, sc.se + 1));
    SilentWindow(sc.tbl, jb.w, jb.kn, sc.ss, sc.se, sc.ss, sc.ss, 0, []);
    WindowNonempty(jb.w, jb.kn, sc.ss, sc.se + 1);
    ZerosBound(jb.kn, sc.ss, sc.se + 1);
    blk := SkipWindow(jb.w, jb.kn, Doubled(jb.kn), sc.ss, sc.ss, sc.se + 1, sc.se, DCTSIZE2, tail);
  }

  /** One block, from what the encoder holds after the restart check: where
      the decoder must be (e1 blocks left in its run, cur ahead) for the
      block to come out right. */
  lemma {:induction false} BlockInStep(sc: AcScan, tabs: seq<CDerived>, t: HuffTbl, s1: AcState, jb: Job, ds: seq<BitString>,
                       e: nat, tail: BitString) returns (e1: nat, cur: BitString, blk: seq<int>)
    requires Good(sc, tabs, t) && ValidJob(sc, jb) && Bounded(sc, s1)
    requires Matches(sc, tabs, AfterBlock(sc, s1, JobPiece(sc, jb)), ds, e, tail)
    ensures Matches(sc, tabs, s1, ds, e1, cur) && Recovered(sc, jb, blk)
    ensures AcBlock(t, jb.kn, Doubled(jb.kn), sc.ss, sc.se, e1, cur) == (blk, e, tail)
  {
    hide AcBlock, TokBits, EobRun, Encodes, BlockFrom, TokCodable, Matches, Doubled, ShapedSlots, LegalCounts;
    TableLegal(sc, tabs, t);
    var p := JobPiece(sc, jb);
    var s2 := Joined(AfterTokens(sc, s1, p), p);
    if MustFlush(s2, p) {
      MatchForced(sc, tabs, s2, ds, e, tail);
    }
    if p.toks != [] {
      MatchSent(sc, tabs, s1, p, ds, e, tail);
      e1, cur := 0, TokBits(tabs, p.toks) + (Ending(tabs, sc.tbl, p, e) + tail);
      blk := FreshBlock(sc, tabs, t, jb, e, tail);
    } else {
      blk := RunBlock(sc, t, jb, 1, []);
      MatchJoined(sc, tabs, s1, p, ds, e, tail);
      if s1.eobrun > 0 {
        e1, cur := e + 1, p.br + tail;
        blk := RunBlock(sc, t, jb, e1, tail);
      } else {
        e1, cur := 0, Ending(tabs, sc.tbl, p, e) + tail;
        EmptyTokens(tabs);
        assert [] + cur == cur;
        blk := FreshBlock(sc, tabs, t, jb, e, tail);
      }
    }
  }

  lemma {:induction false} TableLegal(sc: AcScan, tabs: seq<CDerived>, t: HuffTbl)
    requires Good(sc, tabs, t)
    ensures ValidBand(sc) && ShapedSlots(tabs) && Shaped(t) && LegalCounts(t.bits)
  {
  }

  lemma {:induction false} JobsFront(sc: AcScan, jobs: seq<Job>)
    requires ValidBand(sc) && ValidJobs(sc, jobs)
    ensures forall i :: 0 <= i < |jobs| ==> ValidJob(sc, jobs[i]) && |jobs[i].w| == |jobs[i].kn| == DCTSIZE2
    ensures jobs != [] ==> ValidJobs(sc, jobs[..|jobs| - 1])
  {
    hide InBand;
  }

  function KnownOf(jobs: seq<Job>): (ks: seq<seq<int>>)
    ensures |ks| == |jobs| && forall i :: 0 <= i < |jobs| ==> ks[i] == jobs[i].kn
  {
    if jobs == [] then [] else KnownOf(jobs[..|jobs| - 1]) + [jobs[|jobs| - 1].kn]
  }

  lemma {:induction false} MatchTogo(sc: AcScan, tabs: seq<CDerived>, s: AcState, n: nat, ds: seq<BitString>, e: nat, tail: BitString)
    requires ShapedSlots(tabs)
    ensures Matches(sc, tabs, s.(togo := n), ds, e, tail) <==> Matches(sc, tabs, s, ds, e, tail)
  {
    hide TokBits, EobRun, TokCodable;
  }

  /** The restart check, for the decoder and for the encoder. */
  lemma {:induction false} RestartInStep(sc: AcScan, tabs: seq<CDerived>, s0: AcState, ds: seq<BitString>, e1: nat, cur: BitString)
      returns (e0: nat, cur0: BitString)
    requires ShapedSlots(tabs) && Bounded(sc, s0) && Matches(sc, tabs, AcRestarted(sc, s0), ds, e1, cur)
    ensures Matches(sc, tabs, s0, ds, e0, cur0)
    ensures var s1 := AcRestarted(sc, s0);
            DRestarted(sc, ds, DState(|s0.log| - 1, cur0, e0, s0.togo)) == DState(|s1.log| - 1, cur, e1, s1.togo)
  {
    hide TokBits, EobRun, TokCodable;
    if RestartDue(sc, s0) {
      cur0 := MatchRestart(sc, tabs, s0, ds, cur);
      e0 := 0;
    } else {
      e0, cur0 := e1, cur;
    }
  }

  lemma {:induction false} AfterBlockKeeps(sc: AcScan, s1: AcState, p: Piece)
    ensures |AfterBlock(sc, s1, p).log| == |s1.log| && AfterBlock(sc, s1, p).togo == s1.togo
  {
  }

  /** The decoder, after as many blocks as the encoder has coded, has read
      exactly what was sent for them, and recovered every one. */
  lemma {:induction false} RunDecodes(sc: AcScan, tabs: seq<CDerived>, t: HuffTbl, jobs: seq<Job>, ds: seq<BitString>, e: nat, tail: BitString)
      returns (blocks: seq<seq<int>>)
    requires Good(sc, tabs, t) && ValidJobs(sc, jobs) && Matches(sc, tabs, RunScan(sc, jobs), ds, e, tail)
    ensures |blocks| == |jobs| && forall i :: 0 <= i < |jobs| ==> Recovered(sc, jobs[i], blocks[i])
    ensures var s := RunScan(sc, jobs);
            DRun(sc, t, KnownOf(jobs), ds) == (blocks, DState(|s.log| - 1, tail, e, s.togo))
    decreases |jobs|
  {
    hide *;
    TableLegal(sc, tabs, t);
    JobsFront(sc, jobs);
    if jobs == [] {
      blocks := NothingDecoded(sc, tabs, t, ds, e, tail);
    } else {
      var n := |jobs| - 1;
      var init, jb := jobs[..n], jobs[n];
      var s0, s1 := StepInStep(sc, tabs, t, jobs, ds, e, tail);
      var e1, cur, blk := BlockInStep(sc, tabs, t, s1, jb, ds, e, tail);
      var e0, cur0 := RestartInStep(sc, tabs, s0, ds, e1, cur);
      var before := RunDecodes(sc, tabs, t, init, ds, e0, cur0);
      blocks := before + [blk];
      DecodeNext(sc, t, jobs, ds, before, DState(|s0.log| - 1, cur0, e0, s0.togo));
    }
  }

  lemma {:induction false} NothingDecoded(sc: AcScan, tabs: seq<CDerived>, t: HuffTbl, ds: seq<BitString>, e: nat, tail: BitString)
      returns (blocks: seq<seq<int>>)
    requires Good(sc, tabs, t) && Shaped(t) && LegalCounts(t.bits) && Matches(sc, tabs, RunScan(sc, []), ds, e, tail)
    ensures blocks == []
    ensures DRun(sc, t, KnownOf([]), ds) == (blocks, DState(0, tail, e, RunScan(sc, []).togo)) && |RunScan(sc, []).log| == 1
  {
    hide TokBits;
    EmptyTokens(tabs);
    assert [] + [] + tail == tail;
    blocks := [];
  }

  /** The last step of the encoder: the states around its restart check. */
  lemma {:induction false} StepInStep(sc: AcScan, tabs: seq<CDerived>, t: HuffTbl, jobs: seq<Job>, ds: seq<BitString>, e: nat, tail: BitString)
      returns (s0: AcState, s1: AcState)
    requires Good(sc, tabs, t) && Shaped(t) && LegalCounts(t.bits) && ValidJobs(sc, jobs) && jobs != []
    requires Matches(sc, tabs, RunScan(sc, jobs), ds, e, tail)
    ensures var n := |jobs| - 1; var s := AfterBlock(sc, s1, JobPiece(sc, jobs[n]));
            && s0 == RunScan(sc, jobs[..n]) && s1 == AcRestarted(sc, s0)
            && Bounded(sc, s0) && Bounded(sc, s1)
            && Matches(sc, tabs, s, ds, e, tail)
            && |RunScan(sc, jobs).log| == |s1.log|
            && RunScan(sc, jobs).togo == if sc.restart > 0 && s1.togo > 0 then s1.togo - 1 else s1.togo
  {
    hide Matches, AfterBlock, AcRestarted, Bounded, LegalCounts, JobPiece;
    var n := |jobs| - 1;
    RunBounded(sc, jobs[..n]);
    s0 := RunScan(sc, jobs[..n]);
    s1 := AcRestarted(sc, s0);
    RestartBounded(sc, s0);
    var s2 := AfterBlock(sc, s1, JobPiece(sc, jobs[n]));
    AfterBlockKeeps(sc, s1, JobPiece(sc, jobs[n]));
    RunUnfold(sc, t, jobs, ds);
    MatchTogo(sc, tabs, s2, Counted(sc, s2).togo, ds, e, tail);
  }

  /** The last step of the decoder. */
  lemma {:induction false} DecodeNext(sc: AcScan, t: HuffTbl, jobs: seq<Job>, ds: seq<BitString>, before: seq<seq<int>>, d: DState)
    requires ValidBand(sc) && Shaped(t) && LegalCounts(t.bits) && ValidJobs(sc, jobs) && jobs != []
    requires DRun(sc, t, KnownOf(jobs[..|jobs| - 1]), ds) == (before, d)
    ensures var kn := jobs[|jobs| - 1].kn; var d1 := DRestarted(sc, ds, d);
            var (blk, e, cur) := AcBlock(t, kn, Doubled(kn), sc.ss, sc.se, d1.eobrun, d1.cur);
            var togo := if sc.restart > 0 && d1.togo > 0 then d1.togo - 1 else d1.togo;
            DRun(sc, t, KnownOf(jobs), ds) == (before + [blk], DState(d1.i, cur, e, togo))
  {
    hide AcBlock, DRestarted, LegalCounts;
    RunUnfold(sc, t, jobs, ds);
  }

  lemma {:induction false} RestartBounded(sc: AcScan, s: AcState)
    requires Bounded(sc, s)
    ensures Bounded(sc, AcRestarted(sc, s))
  {
  }

  lemma {:induction false} RunUnfold(sc: AcScan, t: HuffTbl, jobs: seq<Job>, ds: seq<BitString>)
    requires ValidBand(sc) && Shaped(t) && LegalCounts(t.bits) && jobs != []
    requires forall i :: 0 <= i < |jobs| ==> |jobs[i].w| == |jobs[i].kn| == DCTSIZE2
    ensures var n := |jobs| - 1; var s1 := AcRestarted(sc, RunScan(sc, jobs[..n]));
            RunScan(sc, jobs) == Counted(sc, AfterBlock(sc, s1, JobPiece(sc, jobs[n])))
    ensures var n := |jobs| - 1;
            var (bs, d) := DRun(sc, t, KnownOf(jobs[..n]), ds);
            var (b, d') := DNext(sc, t, jobs[n].kn, ds, d);
            DRun(sc, t, KnownOf(jobs), ds) == (bs + [b], d')
  {
    hide AfterBlock, AcRestarted, DNext, LegalCounts;
    assert KnownOf(jobs)[..|jobs| - 1] == KnownOf(jobs[..|jobs| - 1]);
  }

  // ----- from bytes to segments

  /** The segments in data, as long as each ends in the restart marker that is due. */
  function SegmentsOf(data: seq<UInt8>, n: nat): (ds: seq<BitString>)
    ensures |ds| > 0
    decreases |data|
  {
    var cur := BytesBits(DataBytes(data));
    if Closed(data) && AfterSegment(data).0 == RST0 + n % 8
    then [cur] + SegmentsOf(AfterSegment(data).1, n + 1)
    else [cur]
  }

  /** The bytes of segments k, k+1, ... */
  ghost function BytesFrom(tabs: seq<CDerived>, log: Log, k: nat): seq<UInt8>
    requires ShapedSlots(tabs) && LogCodable(tabs, log) && k < |log|
    decreases |log| - k
  {
    if k == |log| - 1 then SegmentBytes(TokBits(tabs, log[k]))
    else SegmentBytes(TokBits(tabs, log[k])) + [0xFF, RST0 + k % 8] + BytesFrom(tabs, log, k + 1)
  }

  lemma {:induction false} BytesSplit(tabs: seq<CDerived>, log: Log, k: nat)
    requires ShapedSlots(tabs) && LogCodable(tabs, log) && k < |log|
    ensures ScanBytes(tabs, log) == FinishedBytes(tabs, log[..k]) + BytesFrom(tabs, log, k)
    decreases |log| - k
  {
    hide TokBits, TokCodable, SegmentBytes, ShapedSlots;
    if k < |log| - 1 {
      BytesSplit(tabs, log, k + 1);
      assert log[..k + 1][..k] == log[..k] && log[..k + 1][k] == log[k];
      var a, x, m, y := FinishedBytes(tabs, log[..k]), SegmentBytes(TokBits(tabs, log[k])), [0xFF, RST0 + k % 8], BytesFrom(tabs, log, k + 1);
      assert FinishedBytes(tabs, log[..k + 1]) == a + x + m;
      assert (a + x + m) + y == a + (x + m + y);
    }
  }

  /** Reading the bytes of a scan gives its segments, each followed by fewer
      than eight padding bits. */
  lemma {:induction false} SegmentsBack(tabs: seq<CDerived>, log: Log, k: nat, m: UInt8, rest: seq<UInt8>)
    requires ShapedSlots(tabs) && LogCodable(tabs, log) && k < |log|
    requires m != 0 && m != 0xFF && !(RST0 <= m < RST0 + 8)
    ensures var ds := SegmentsOf(BytesFrom(tabs, log, k) + [0xFF, m] + rest, k);
            && |ds| == |log| - k
            && (forall i :: k <= i < |log| ==> TokBits(tabs, log[i]) <= ds[i - k] && |ds[i - k]| <= |TokBits(tabs, log[i])| + 7)
    decreases |log| - k
  {
    hide TokBits, TokCodable, SegmentBytes, BytesBits, DataBytes, Closed, AfterSegment;
    var data := BytesFrom(tabs, log, k) + [0xFF, m] + rest;
    if k == |log| - 1 {
      ReadSegment(TokBits(tabs, log[k]), m, rest);
    } else {
      var more := BytesFrom(tabs, log, k + 1) + [0xFF, m] + rest;
      assert data == SegmentBytes(TokBits(tabs, log[k])) + [0xFF, RST0 + k % 8] + more;
      ReadSegment(TokBits(tabs, log[k]), RST0 + k % 8, more);
      SegmentsBack(tabs, log, k + 1, m, rest);
    }
  }

  /** The log once the last run is sent. */
  function FinalLog(sc: AcScan, jobs: seq<Job>): Log
    requires ValidBand(sc) && forall i :: 0 <= i < |jobs| ==> |jobs[i].w| == |jobs[i].kn| == DCTSIZE2
  {
    Flushed(sc, RunScan(sc, jobs)).log
  }

  /** Decoding the bytes of an AC scan, refinement or first, closed by any
      marker that is not a restart, recovers every block: no run is left
      over, every segment is used, and at most padding is left unread. */
  lemma {:induction false} AcScanLossless(sc: AcScan, tabs: seq<CDerived>, t: HuffTbl, jobs: seq<Job>, data: seq<UInt8>, m: UInt8, rest: seq<UInt8>)
    requires Good(sc, tabs, t) && ValidJobs(sc, jobs) && LogCodable(tabs, FinalLog(sc, jobs))
    requires m != 0 && m != 0xFF && !(RST0 <= m < RST0 + 8)
    requires data == ScanBytes(tabs, FinalLog(sc, jobs)) + [0xFF, m] + rest
    ensures Shaped(t) && LegalCounts(t.bits)
    ensures var (blocks, d) := DRun(sc, t, KnownOf(jobs), SegmentsOf(data, 0));
            && (forall i :: 0 <= i < |jobs| ==> Recovered(sc, jobs[i], blocks[i]))
            && d.eobrun == 0 && d.i == |SegmentsOf(data, 0)| - 1 && |d.cur| <= 7
  {
    hide *;
    TableLegal(sc, tabs, t);
    JobsFront(sc, jobs);
    RunBounded(sc, jobs);
    FinalIs(sc, jobs);
    var pad := LogHeld(tabs, FinalLog(sc, jobs), data, m, rest);
    FlushedMatches(sc, tabs, RunScan(sc, jobs), SegmentsOf(data, 0), pad);
    FinalMatches(sc, tabs, RunScan(sc, jobs), SegmentsOf(data, 0), pad);
    var blocks := RunDecodes(sc, tabs, t, jobs, SegmentsOf(data, 0), 0, pad);
    AllBack(sc, jobs, blocks);
  }

  lemma {:induction false} AllBack(sc: AcScan, jobs: seq<Job>, blocks: seq<seq<int>>)
    requires ValidBand(sc) && forall i :: 0 <= i < |jobs| ==> |jobs[i].w| == |jobs[i].kn| == DCTSIZE2
    requires |blocks| == |jobs| && forall i :: 0 <= i < |jobs| ==> Recovered(sc, jobs[i], blocks[i])
    ensures forall i :: 0 <= i < |jobs| ==> Recovered(sc, jobs[i], blocks[i])
  {
  }

  lemma {:induction false} FinalIs(sc: AcScan, jobs: seq<Job>)
    requires ValidBand(sc) && forall i :: 0 <= i < |jobs| ==> |jobs[i].w| == |jobs[i].kn| == DCTSIZE2
    ensures FinalLog(sc, jobs) == Flushed(sc, RunScan(sc, jobs)).log && |FinalLog(sc, jobs)| == |RunScan(sc, jobs).log|
  {
    hide Flush, RunScan;
  }

  /** ds holds the segments of the log, with x left over after the last. */
  ghost predicate Held(tabs: seq<CDerived>, log: Log, ds: seq<BitString>, x: BitString)
    requires ShapedSlots(tabs)
  {
    var j := |log| - 1;
    && LogCodable(tabs, log) && j < |ds|
    && (forall i :: 0 <= i < j ==> TokBits(tabs, log[i]) <= ds[i])
    && ds[j] == TokBits(tabs, log[j]) + x
  }

  /** The bytes of a scan cut into segments hold its log, with padding left over. */
  lemma {:induction false} LogHeld(tabs: seq<CDerived>, log: Log, data: seq<UInt8>, m: UInt8, rest: seq<UInt8>) returns (pad: BitString)
    requires ShapedSlots(tabs) && LogCodable(tabs, log) && m != 0 && m != 0xFF && !(RST0 <= m < RST0 + 8)
    requires data == ScanBytes(tabs, log) + [0xFF, m] + rest
    ensures Held(tabs, log, SegmentsOf(data, 0), pad) && |pad| <= 7 && |SegmentsOf(data, 0)| == |log|
  {
    hide TokBits, TokCodable, SegmentsOf;
    var j := |log| - 1;
    BytesSplit(tabs, log, 0);
    assert log[..0] == [];
    assert data == BytesFrom(tabs, log, 0) + [0xFF, m] + rest;
    SegmentsBack(tabs, log, 0, m, rest);
    var ds := SegmentsOf(data, 0);
    assert forall i :: 0 <= i <= j ==> TokBits(tabs, log[i]) <= ds[i - 0];
    pad := ds[j][|TokBits(tabs, log[j])|..];
  }

  lemma {:induction false} FlushedMatches(sc: AcScan, tabs: seq<CDerived>, s: AcState, ds: seq<BitString>, pad: BitString)
    requires ShapedSlots(tabs) && Held(tabs, Flushed(sc, s).log, ds, pad)
    ensures Matches(sc, tabs, Flushed(sc, s), ds, 0, pad)
  {
    hide TokBits, TokCodable, EobRun, Flush;
    var x := TokBits(tabs, Flushed(sc, s).log[|s.log| - 1]);
    assert x + [] + pad == x + pad;
  }

  lemma {:induction false} FinalMatches(sc: AcScan, tabs: seq<CDerived>, s: AcState, ds: seq<BitString>, pad: BitString)
    requires ShapedSlots(tabs) && Bounded(sc, s) && Matches(sc, tabs, Flushed(sc, s), ds, 0, pad)
    ensures Matches(sc, tabs, s, ds, 0, pad)
  {
    hide TokBits, TokCodable, EobRun;
    if s.eobrun > 0 {
      MatchForced(sc, tabs, s, ds, 0, pad);
    } else {
      AppendTwice(s.log, [], []);
      assert Flushed(sc, s) == s;
    }
  }
}
