/** jcphuff.c: the MCU encoders of DC scans, first and refinement, and the passes
    over a whole DC scan. */
module DcScanPasses {
  import opened JpegLimits
  import opened Arith
  import opened Bits
  import opened HuffTable
  import opened DerivedTables
  import opened BlockCoding
  import opened ScanCoding
  import opened TableGenerator
  import opened OptimizedTables
  import opened ProgressiveTokens
  import opened ProgressiveDc
  import DcLayout
  import opened PhuffOutput
  import HuffEncoder
  import PhuffEncoder
  import AcScanPasses

  /** The DC coefficients of an MCU. */
  function DcOf(mcu: seq<Block>): (vs: seq<int>)
    ensures |vs| == |mcu| && forall b :: 0 <= b < |mcu| ==> vs[b] == mcu[b][0]
  {
    seq(|mcu|, b requires 0 <= b < |mcu| => mcu[b][0])
  }

  // ----- differences within the range of the code

  predicate InDcRange(sc: DcScan, last: seq<int>, ws: seq<int>, b: nat)
    requires ValidDc(sc) && |last| == |sc.tbl| && |ws| == |sc.membership| && b <= |ws|
    decreases |ws| - b
  {
    b == |ws| ||
    ((sc.refine || Category(ws[b] - last[sc.membership[b]]) <= MAX_COEF_BITS + 1) && InDcRange(sc, DcLast(sc, last, ws[b], b), ws, b + 1))
  }

  predicate RunInRange(sc: DcScan, mcus: seq<seq<int>>)
    requires ValidDc(sc) && ValidValues(sc, mcus)
  {
    mcus == [] ||
    (RunInRange(sc, mcus[..|mcus| - 1]) &&
     InDcRange(sc, DcRestarted(sc, RunDc(sc, mcus[..|mcus| - 1])).last, mcus[|mcus| - 1], 0))
  }

  class DcEncoder {
    const sc: DcScan
    const out: TokenWriter
    var lastDc: seq<int>         // last_dc_val
    var restartsToGo: nat
    var nextRestartNum: nat

    ghost predicate Valid()
      reads this, out, out.w
    {
      ValidDc(sc) && out.Valid() && |lastDc| == |sc.tbl| && nextRestartNum == (|out.log| - 1) % 8
    }

    ghost function State(): DcState
      reads this, out
    {
      DcState(out.log, lastDc, restartsToGo)
    }

    constructor (sc: DcScan, out: TokenWriter)
      requires ValidDc(sc) && out.Valid() && out.log == [[]]
      ensures Valid() && State() == DcStart(sc) && this.sc == sc && this.out == out
    {
      this.sc, this.out := sc, out;
      lastDc, restartsToGo, nextRestartNum := ZeroLast(|sc.tbl|), sc.restart, 0;
      new;
      hide TokenWriter.Valid;
    }

    /** Send a difference: its category as a symbol, then its bits. */
    method EncodeDiff(tbl: nat, diff: int) returns (ok: bool)
      requires out.Valid() && tbl < NUM_HUFF_TBLS
      modifies out`log, out`counts, out.w
      ensures ok ==> out.Valid() && out.log == Append(old(out.log), DiffTokens(tbl, diff)) && Category(diff) <= MAX_COEF_BITS + 1
      ensures !ok ==> out.MayFail(Append(old(out.log), DiffTokens(tbl, diff))) || Category(diff) > MAX_COEF_BITS + 1
    {
      hide TokenWriter.Valid, Append, LogCodable, RawBits, ToBits, Pow2, NBits;
      var temp, temp2 := diff, diff;
      if temp < 0 {
        temp := -temp;
        temp2 := temp2 - 1;
      }
      var nbits := HuffEncoder.CountBits(temp);
      if nbits > MAX_COEF_BITS + 1 {
        return false;
      }
      ghost var log0, sym, extra := out.log, [Sym(tbl, nbits)], RawBits(ToBits(temp2 % Pow2(nbits), nbits));
      PhuffEncoder.FailGrows(out.tabs, log0, sym, extra);
      ok := out.EmitSymbol(tbl, nbits);
      if !ok {
        return;
      }
      AppendTwice(log0, sym, extra);
      if nbits != 0 {
        ok := out.EmitBits(temp2, nbits);
      } else {
        PhuffEncoder.NoExtra(temp2, nbits);
        AppendTwice(out.log, [], []);
      }
    }

    /** The restart at the start of an MCU. */
    method BeginMcu() returns (ok: bool)
      requires Valid()
      modifies `lastDc, out`log, out.w
      ensures ok ==> out.Valid() && out.log == DcRestarted(sc, old(State())).log && lastDc == DcRestarted(sc, old(State())).last
      ensures !ok ==> !out.gather && !out.w.canDump
    {
      hide TokenWriter.Valid;
      ok := true;
      if sc.restart > 0 && restartsToGo == 0 {
        ok := out.EmitMarker(nextRestartNum);
        lastDc := ZeroLast(|sc.tbl|);
      }
    }

    method EndMcu()
      modifies `restartsToGo, `nextRestartNum
      ensures var togo := if sc.restart > 0 && old(restartsToGo) == 0 then sc.restart else old(restartsToGo);
              restartsToGo == if sc.restart > 0 && togo > 0 then togo - 1 else togo
      ensures nextRestartNum == if sc.restart > 0 && old(restartsToGo) == 0 then (old(nextRestartNum) + 1) % 8 else old(nextRestartNum)
    {
      if sc.restart > 0 {
        if restartsToGo == 0 {
          restartsToGo := sc.restart;
          nextRestartNum := (nextRestartNum + 1) % 8;
        }
        restartsToGo := restartsToGo - 1;
      }
    }

    /** The blocks of an MCU, sent as differences (first scan) or as single bits (refinement). */
    method EncodeBlocks(mcu: seq<Block>) returns (ok: bool)
      requires ValidDc(sc) && out.Valid() && |lastDc| == |sc.tbl| && |mcu| == |sc.membership|
      modifies `lastDc, out`log, out`counts, out.w
      ensures var ws := ShiftEach(DcOf(mcu), sc.al); var goal := Append(old(out.log), McuTokens(sc, old(lastDc), ws, 0));
              && (ok ==> out.Valid() && out.log == goal && lastDc == McuLast(sc, old(lastDc), ws, 0) && InDcRange(sc, old(lastDc), ws, 0))
              && (!ok ==> out.MayFail(goal) || !InDcRange(sc, old(lastDc), ws, 0))
    {
      hide TokenWriter.Valid, Append, LogCodable, Shift, DcTokens, McuTokens, McuLast, InDcRange, DcLast, DiffTokens;
      ghost var ws, log0, last0 := ShiftEach(DcOf(mcu), sc.al), out.log, lastDc;
      ghost var done: seq<Token> := [];
      AppendTwice(log0, [], []);
      var b: nat := 0;
      while b < |mcu|
        invariant b <= |mcu| && out.Valid() && |lastDc| == |sc.tbl| && out.log == Append(log0, done)
        invariant OnCourse(sc, last0, lastDc, ws, b, done)
      {
        ghost var last1, here := lastDc, DcTokens(sc, lastDc, ws[b], b);
        CourseStep(sc, last0, lastDc, ws, b, done);
        AppendTwice(log0, done, here);
        CourseFails(sc, out.tabs, last0, lastDc, ws, b, done, log0);
        ok := EncodeDcBlock(mcu[b], b);
        if !ok {
          return;
        }
        done := done + here;
        b := b + 1;
      }
      CourseEnds(sc, last0, lastDc, ws, done);
      ok := true;
    }

    method EncodeDcBlock(block: Block, b: nat) returns (ok: bool)
      requires ValidDc(sc) && out.Valid() && |lastDc| == |sc.tbl| && b < |sc.membership|
      modifies `lastDc, out`log, out`counts, out.w
      ensures var w := Shift(block[0], sc.al); var c := sc.membership[b];
              var goal := Append(old(out.log), DcTokens(sc, old(lastDc), w, b));
              var inRange := sc.refine || Category(w - old(lastDc)[c]) <= MAX_COEF_BITS + 1;
              && (ok ==> out.Valid() && out.log == goal && lastDc == DcLast(sc, old(lastDc), w, b) && inRange)
              && (!ok ==> out.MayFail(goal) || !inRange)
      // a refinement sends one bit, and leaves the predictions alone
      ensures ok && sc.refine ==>
                out.log == Append(old(out.log), [Bit(block[0] / Pow2(sc.al) % 2 == 1)]) && lastDc == old(lastDc)
      // a first scan sends the difference from the prediction: its category, then its bits
      ensures ok && !sc.refine ==>
                var c := sc.membership[b]; var d := block[0] / Pow2(sc.al) - old(lastDc)[c]; var s := NBits(Abs(d));
                && lastDc == old(lastDc)[c := block[0] / Pow2(sc.al)] && Abs(d) < Pow2(s)
                && out.log == Append(old(out.log), [Sym(sc.tbl[c], s)]
                                + RawBits(if d >= 0 then ToBits(d, s) else ToBits(Pow2(s) - 1 + d, s)))
    {
      hide TokenWriter.Valid, Append, LogCodable, DiffTokens, RawBits, ToBits, Pow2, NBits;
      var temp2 := Shift(block[0], sc.al);
      if sc.refine {
        LowBit(temp2);
        ok := out.EmitBits(temp2, 1);
      } else {
        var c := sc.membership[b];
        var temp := temp2 - lastDc[c];
        lastDc := lastDc[c := temp2];
        DcLayout.DifferenceTokens(sc.tbl[c], temp);
        ok := EncodeDiff(sc.tbl[c], temp);
      }
    }

    /** encode_mcu_DC_first and encode_mcu_DC_refine. */
    method EncodeMcu(mcu: seq<Block>) returns (ok: bool)
      requires Valid() && |mcu| == |sc.membership|
      modifies this, out`log, out`counts, out.w
      ensures var ws, s := ShiftEach(DcOf(mcu), sc.al), old(State());
              var inRange := InDcRange(sc, DcRestarted(sc, s).last, ws, 0);
              && (ok ==> Valid() && State() == DcStep(sc, s, ws) && inRange)
              && (!ok ==> out.MayFail(DcStep(sc, s, ws).log) || !inRange)
    {
      hide TokenWriter.Valid, LogCodable, Shift, McuTokens, McuLast, InDcRange, Append, ValidDc;
      ghost var s1 := DcRestarted(sc, State());
      ok := BeginMcu();
      if !ok {
        return;
      }
      SameLength(s1.log, McuTokens(sc, s1.last, ShiftEach(DcOf(mcu), sc.al), 0));
      ok := EncodeBlocks(mcu);
      if !ok {
        return;
      }
      EndMcu();
    }
  }

  lemma {:induction false} SameLength(log: Log, toks: seq<Token>)
    ensures |Append(log, toks)| == |log|
  {
  }

  /** b blocks are done: what was sent for them and what is still to come make up the MCU. */
  ghost predicate OnCourse(sc: DcScan, last0: seq<int>, last: seq<int>, ws: seq<int>, b: nat, done: seq<Token>)
    requires ValidDc(sc) && |last0| == |last| == |sc.tbl| && |ws| == |sc.membership| && b <= |ws|
  {
    && done + McuTokens(sc, last, ws, b) == McuTokens(sc, last0, ws, 0)
    && McuLast(sc, last, ws, b) == McuLast(sc, last0, ws, 0)
    && InDcRange(sc, last, ws, b) == InDcRange(sc, last0, ws, 0)
  }

  lemma {:induction false} CourseStep(sc: DcScan, last0: seq<int>, last: seq<int>, ws: seq<int>, b: nat, done: seq<Token>)
    requires ValidDc(sc) && |last0| == |last| == |sc.tbl| && |ws| == |sc.membership| && b < |ws|
    requires OnCourse(sc, last0, last, ws, b, done)
    ensures var inRange := sc.refine || Category(ws[b] - last[sc.membership[b]]) <= MAX_COEF_BITS + 1;
            if inRange then OnCourse(sc, last0, DcLast(sc, last, ws[b], b), ws, b + 1, done + DcTokens(sc, last, ws[b], b))
            else !InDcRange(sc, last0, ws, 0)
  {
    hide DcTokens, DcLast, NBits;
    var here, more := DcTokens(sc, last, ws[b], b), McuTokens(sc, DcLast(sc, last, ws[b], b), ws, b + 1);
    assert (done + here) + more == done + (here + more);
  }

  lemma {:induction false} CourseFails(sc: DcScan, tabs: seq<CDerived>, last0: seq<int>, last: seq<int>, ws: seq<int>, b: nat, done: seq<Token>, log: Log)
    requires ValidDc(sc) && |last0| == |last| == |sc.tbl| && |ws| == |sc.membership| && b < |ws|
    requires OnCourse(sc, last0, last, ws, b, done)
    ensures LogCodable(tabs, Append(log, McuTokens(sc, last0, ws, 0))) ==> LogCodable(tabs, Append(log, done + DcTokens(sc, last, ws[b], b)))
  {
    hide DcTokens, DcLast, LogCodable;
    var here, more := DcTokens(sc, last, ws[b], b), McuTokens(sc, DcLast(sc, last, ws[b], b), ws, b + 1);
    assert (done + here) + more == done + (here + more);
    PhuffEncoder.FailGrows(tabs, log, done + here, more);
  }

  lemma {:induction false} CourseEnds(sc: DcScan, last0: seq<int>, last: seq<int>, ws: seq<int>, done: seq<Token>)
    requires ValidDc(sc) && |last0| == |last| == |sc.tbl| && |ws| == |sc.membership|
    requires OnCourse(sc, last0, last, ws, |ws|, done)
    ensures done == McuTokens(sc, last0, ws, 0) && last == McuLast(sc, last0, ws, 0) && InDcRange(sc, last0, ws, 0)
  {
  }

  lemma {:induction false} LowBit(w: int)
    ensures RawBits(ToBits(w % Pow2(1), 1)) == [Bit(w % 2 == 1)]
  {
    OneBit(w % 2 == 1);
    assert Pow2(1) == 2;
  }

  // ----- a whole scan

  function ValuesOf(mcus: seq<seq<Block>>): (vs: seq<seq<int>>)
    ensures |vs| == |mcus| && forall i :: 0 <= i < |mcus| ==> vs[i] == DcOf(mcus[i])
  {
    seq(|mcus|, i requires 0 <= i < |mcus| => DcOf(mcus[i]))
  }

  ghost predicate ValidDcMcus(sc: DcScan, mcus: seq<seq<Block>>) {
    ValidDc(sc) && forall i :: 0 <= i < |mcus| ==> |mcus[i]| == |sc.membership|
  }

  method CodeMcus(e: DcEncoder, mcus: seq<seq<Block>>) returns (ok: bool)
    requires e.Valid() && e.State() == DcStart(e.sc) && ValidDcMcus(e.sc, mcus)
    modifies e, e.out`log, e.out`counts, e.out.w
    ensures var vs := ShiftAll(ValuesOf(mcus), e.sc.al);
            && (ok ==> e.Valid() && e.State() == RunDc(e.sc, vs) && RunInRange(e.sc, vs))
            && (!ok ==> e.out.MayFail(RunDc(e.sc, vs).log) || !RunInRange(e.sc, vs))
  {
    hide DcEncoder.Valid, DcStep, RunDc, RunInRange, LogCodable, InDcRange, Shift;
    ghost var vs := ShiftAll(ValuesOf(mcus), e.sc.al);
    RunStarts(e.sc, vs);
    var i: nat := 0;
    while i < |mcus|
      invariant i <= |mcus| && e.Valid() && e.State() == RunDc(e.sc, vs[..i]) && RunInRange(e.sc, vs[..i])
    {
      RunNext(e.sc, e.out.tabs, vs, i);
      ok := e.EncodeMcu(mcus[i]);
      if !ok {
        return;
      }
      i := i + 1;
    }
    assert vs[..i] == vs;
    ok := true;
  }

  lemma {:induction false} RunStarts(sc: DcScan, vs: seq<seq<int>>)
    requires ValidDc(sc)
    ensures ValidValues(sc, vs[..0]) && RunDc(sc, vs[..0]) == DcStart(sc) && RunInRange(sc, vs[..0])
  {
  }

  lemma {:induction false} RunNext(sc: DcScan, tabs: seq<CDerived>, vs: seq<seq<int>>, i: nat)
    requires ValidDc(sc) && ValidValues(sc, vs) && i < |vs|
    ensures var s := RunDc(sc, vs[..i]); var inRange := InDcRange(sc, DcRestarted(sc, s).last, vs[i], 0);
            && RunDc(sc, vs[..i + 1]) == DcStep(sc, s, vs[i])
            && RunInRange(sc, vs[..i + 1]) == (RunInRange(sc, vs[..i]) && inRange)
            && (RunInRange(sc, vs) ==> RunInRange(sc, vs[..i + 1]))
            && (LogCodable(tabs, RunDc(sc, vs).log) ==> LogCodable(tabs, RunDc(sc, vs[..i + 1]).log))
  {
    hide DcStep, InDcRange, LogCodable;
    assert vs[..i + 1][..i] == vs[..i] && vs[..i + 1][i] == vs[i];
    RunPrefix(sc, tabs, vs, i + 1);
  }

  lemma {:induction false} RunPrefix(sc: DcScan, tabs: seq<CDerived>, vs: seq<seq<int>>, i: nat)
    requires ValidDc(sc) && ValidValues(sc, vs) && i <= |vs|
    ensures RunInRange(sc, vs) ==> RunInRange(sc, vs[..i])
    ensures LogCodable(tabs, RunDc(sc, vs).log) ==> LogCodable(tabs, RunDc(sc, vs[..i]).log)
    decreases |vs|
  {
    hide InDcRange, LogCodable, McuTokens, McuLast;
    if i == |vs| {
      assert vs[..i] == vs;
    } else {
      var n := |vs| - 1;
      assert vs[..n][..i] == vs[..i];
      RunPrefix(sc, tabs, vs[..n], i);
      var s := RunDc(sc, vs[..n]);
      var s1 := DcRestarted(sc, s);
      LogCodableAppend(tabs, s1.log, McuTokens(sc, s1.last, vs[n], 0));
      LogCodableAppend(tabs, s.log, []);
    }
  }

  method NewDcEncoder(sc: DcScan, gather: bool, tabs: seq<CDerived>, bufSize: nat) returns (e: DcEncoder)
    requires ValidDc(sc) && ShapedSlots(tabs) && |tabs| == NUM_HUFF_TBLS && bufSize > 0
    ensures fresh(e) && fresh(e.out) && fresh(e.out.w) && e.Valid() && e.State() == DcStart(sc)
    ensures e.sc == sc && e.out.gather == gather && e.out.tabs == tabs && e.out.w.canDump
  {
    hide TokenWriter.Valid, ShapedSlots;
    var w := AcScanPasses.NewWriter(bufSize);
    var out := new TokenWriter(gather, tabs, w);
    e := new DcEncoder(sc, out);
  }

  /** The output pass of a DC scan: it succeeds exactly when all differences are in range and
      every symbol has a code, and then sends the scan's bytes. */
  method DcOutputPass(sc: DcScan, tabs: seq<CDerived>, mcus: seq<seq<Block>>, bufSize: nat) returns (ok: bool, bytes: seq<UInt8>)
    requires ValidDcMcus(sc, mcus) && ShapedSlots(tabs) && |tabs| == NUM_HUFF_TBLS && bufSize > 0
    ensures var vs := ShiftAll(ValuesOf(mcus), sc.al);
            && (ok <==> RunInRange(sc, vs) && LogCodable(tabs, RunDc(sc, vs).log))
            && (ok ==> bytes == ScanBytes(tabs, RunDc(sc, vs).log))
            && (ok && mcus != [] ==> exists m :: DcLayout.SegmentsAre(sc, vs, RunDc(sc, vs).log, m))
  {
    hide TokenWriter.Valid, ShapedSlots, RunDc, RunInRange, LogCodable, ScanBytes, Shift, DcLayout.SegmentsAre;
    bytes := [];
    if mcus != [] {
      ghost var m := DcLayout.ScanLaidOut(sc, ShiftAll(ValuesOf(mcus), sc.al));
    }
    var e := NewDcEncoder(sc, false, tabs, bufSize);
    ok := CodeMcus(e, mcus);
    if ok {
      ok := e.out.FlushBits();
      bytes := e.out.w.out;
    }
  }

  /** The statistics pass of a first DC scan counts the symbols of the same log. */
  method DcStatisticsPass(sc: DcScan, tabs: seq<CDerived>, mcus: seq<seq<Block>>) returns (ok: bool, counts: seq<seq<nat>>)
    requires ValidDcMcus(sc, mcus) && ShapedSlots(tabs) && |tabs| == NUM_HUFF_TBLS
    ensures var vs := ShiftAll(ValuesOf(mcus), sc.al);
            && (ok <==> RunInRange(sc, vs))
            && (ok ==> TalliesOf(counts, RunDc(sc, vs).log))
  {
    hide ShapedSlots, RunDc, RunInRange, LogCodable, TalliesOf, Shift;
    counts := [];
    var e := NewDcEncoder(sc, true, tabs, 1);
    ok := CodeMcus(e, mcus);
    if ok {
      counts := e.out.counts;
    }
  }

  // ----- every counted symbol has a code

  /** Every symbol is of one of the scan's slots and a legal category. */
  predicate DcWithin(sc: DcScan, toks: seq<Token>) {
    forall i :: 0 <= i < |toks| && toks[i].Sym? ==> toks[i].s <= MAX_COEF_BITS + 1 && toks[i].tbl in sc.tbl
  }

  lemma {:induction false} BlockWithin(sc: DcScan, last: seq<int>, w: int, b: nat)
    requires ValidDc(sc) && |last| == |sc.tbl| && b < |sc.membership|
    requires sc.refine || Category(w - last[sc.membership[b]]) <= MAX_COEF_BITS + 1
    ensures DcWithin(sc, DcTokens(sc, last, w, b))
  {
    hide NBits, Pow2, ToBits;
  }

  lemma {:induction false} McuWithin(sc: DcScan, last: seq<int>, ws: seq<int>, b: nat)
    requires ValidDc(sc) && |last| == |sc.tbl| && |ws| == |sc.membership| && b <= |ws| && InDcRange(sc, last, ws, b)
    ensures DcWithin(sc, McuTokens(sc, last, ws, b))
    decreases |ws| - b
  {
    hide NBits, Pow2, ToBits, DcTokens, DcLast;
    if b < |ws| {
      var here, more := DcTokens(sc, last, ws[b], b), McuTokens(sc, DcLast(sc, last, ws[b], b), ws, b + 1);
      McuWithin(sc, DcLast(sc, last, ws[b], b), ws, b + 1);
      BlockWithin(sc, last, ws[b], b);
      JoinWithin(sc, here, more);
    }
  }

  lemma {:induction false} JoinWithin(sc: DcScan, a: seq<Token>, b: seq<Token>)
    requires DcWithin(sc, a) && DcWithin(sc, b)
    ensures DcWithin(sc, a + b)
  {
    assert forall i :: 0 <= i < |a + b| ==> (a + b)[i] == if i < |a| then a[i] else b[i - |a|];
  }

  ghost predicate LogWithin(sc: DcScan, log: Log) {
    forall i :: 0 <= i < |log| ==> DcWithin(sc, log[i])
  }

  lemma {:induction false} DcRunWithin(sc: DcScan, vs: seq<seq<int>>)
    requires ValidDc(sc) && ValidValues(sc, vs) && RunInRange(sc, vs)
    ensures LogWithin(sc, RunDc(sc, vs).log)
  {
    hide McuTokens, InDcRange, McuLast;
    if vs != [] {
      var n := |vs| - 1;
      DcRunWithin(sc, vs[..n]);
      var s := RunDc(sc, vs[..n]);
      var s1 := DcRestarted(sc, s);
      assert LogWithin(sc, s1.log);
      McuWithin(sc, s1.last, vs[n], 0);
      AppendDcWithin(sc, s1.log, McuTokens(sc, s1.last, vs[n], 0));
    }
  }

  lemma {:induction false} AppendDcWithin(sc: DcScan, log: Log, toks: seq<Token>)
    requires LogWithin(sc, log) && DcWithin(sc, toks)
    ensures LogWithin(sc, Append(log, toks))
  {
    var n := |log| - 1;
    assert forall i :: 0 <= i < n ==> Append(log, toks)[i] == log[i];
  }

  /** With tables made from the counts of the statistics pass, the output pass over the same
      MCUs finds a code for every symbol. */
  lemma {:induction false} DcCountsSuffice(sc: DcScan, tabs: seq<CDerived>, ts: seq<HuffTbl>, vs: seq<seq<int>>, counts: seq<seq<nat>>)
    requires ValidDc(sc) && ValidValues(sc, vs) && RunInRange(sc, vs) && TalliesOf(counts, RunDc(sc, vs).log)
    requires |tabs| == |ts| == NUM_HUFF_TBLS
    requires forall t :: t in sc.tbl ==> TableFor(ts[t], RealCounts(counts[t])) && Encodes(tabs[t], ts[t])
    ensures LogCodable(tabs, RunDc(sc, vs).log)
  {
    hide TableFor, Encodes, TallyLog, RunDc, RunInRange;
    DcRunWithin(sc, vs);
    var log := RunDc(sc, vs).log;
    forall i, j | 0 <= i < |log| && 0 <= j < |log[i]|
      ensures TokenCodable(tabs, log[i][j])
    {
      if log[i][j].Sym? {
        ProgressiveTokens.TallyPositive(log, i, j);
        var t := log[i][j].tbl;
        assert log[i][j].s < 256 && t in sc.tbl;
        CountedHasCode(ts[t], RealCounts(counts[t]), tabs[t], log[i][j].s);
        AcScanPasses.SlotShape(tabs[t], ts[t]);
      }
    }
  }
}
