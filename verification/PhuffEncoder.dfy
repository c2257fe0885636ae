/** jcphuff.c: the MCU encoders of AC scans, first and refinement. */
module PhuffEncoder {
  import opened JpegLimits
  import opened Arith
  import opened Bits
  import opened DerivedTables
  import opened BlockCoding
  import opened ScanCoding
  import opened ProgressiveTokens
  import opened ProgressiveBlock
  import opened ProgressiveBlockRoundTrip
  import opened ProgressiveScan
  import opened PhuffOutput
  import opened AcLayout

  /** The coefficients of a block in zigzag order after the point transform. */
  function Scaled(block: seq<Coef>, order: seq<nat>, al: nat): (w: seq<int>)
    requires |block| == DCTSIZE2 && |order| == DCTSIZE2 + 16
    requires forall k :: 0 <= k < |order| ==> order[k] < DCTSIZE2
    ensures |w| == DCTSIZE2 && forall k :: 0 <= k < DCTSIZE2 ==> w[k] == Point(block[order[k]], al)
  {
    seq(DCTSIZE2, k requires 0 <= k < DCTSIZE2 => Point(block[order[k]], al))
  }

  function Halves(w: seq<int>): (kn: seq<int>)
    ensures |kn| == |w| && forall k :: 0 <= k < |w| ==> kn[k] == Half(w[k])
  {
    seq(|w|, k requires 0 <= k < |w| => Half(w[k]))
  }

  /** A block in a first scan (nothing known) or in a refinement scan (all but
      the last bit known). */
  function BlockJob(block: seq<Coef>, order: seq<nat>, al: nat, refine: bool): (jb: Job)
    requires |block| == DCTSIZE2 && |order| == DCTSIZE2 + 16
    requires forall k :: 0 <= k < |order| ==> order[k] < DCTSIZE2
    ensures Known(jb.w, jb.kn)
  {
    var w := Scaled(block, order, al);
    Job(w, if refine then Halves(w) else seq(DCTSIZE2, k => 0))
  }

  lemma {:induction false} RefineInBand(block: seq<Coef>, order: seq<nat>, al: nat, sc: AcScan)
    requires |block| == DCTSIZE2 && |order| == DCTSIZE2 + 16 && ValidBand(sc)
    requires forall k :: 0 <= k < |order| ==> order[k] < DCTSIZE2
    ensures ValidJob(sc, BlockJob(block, order, al, true))
  {
    var jb := BlockJob(block, order, al, true);
    forall k | sc.ss <= k <= sc.se && jb.kn[k] == 0
      ensures Category(jb.w[k]) <= MAX_COEF_BITS
    {
      assert Abs(jb.w[k]) <= 1;
    }
  }

  /** For the coefficients of the band that were nonzero one bit above al, in zigzag order: is
      bit al of the magnitude set? ps are their positions. */
  ghost predicate Corrects(block: seq<Coef>, order: seq<nat>, al: nat, ss: nat, se: nat, ps: seq<nat>, bits: BitString)
    requires |block| == DCTSIZE2 && NaturalOrder(order) && se < DCTSIZE2
  {
    && |bits| == |ps|
    && (forall i, j :: 0 <= i < j < |ps| ==> ps[i] < ps[j])
    && (forall i :: 0 <= i < |ps| ==> ss <= ps[i] <= se && Abs(block[order[ps[i]]]) / Pow2(al) > 1)
    && (forall i :: 0 <= i < |ps| ==> bits[i] == (Abs(block[order[ps[i]]]) / Pow2(al) % 2 == 1))
    && (forall k :: ss <= k <= se && Abs(block[order[k]]) / Pow2(al) > 1 ==> k in ps)
  }

  lemma {:induction false} BlockCorrections(block: seq<Coef>, order: seq<nat>, al: nat, sc: AcScan, bits: BitString)
    requires |block| == DCTSIZE2 && NaturalOrder(order) && ValidBand(sc)
    requires var jb := BlockJob(block, order, al, true); SaysCorrections(jb.w, jb.kn, sc.ss, sc.se + 1, bits)
    ensures Corrects(block, order, al, sc.ss, sc.se, OldAt(BlockJob(block, order, al, true).kn, sc.ss, sc.se + 1), bits)
  {
    hide Point, Pow2, OldAt, Half, Abs;
    var jb := BlockJob(block, order, al, true);
    forall k | sc.ss <= k <= sc.se
      ensures Abs(jb.w[k]) == Abs(block[order[k]]) / Pow2(al) && (jb.kn[k] != 0 <==> Abs(jb.w[k]) > 1)
    {
      AbsPoint(block[order[k]], al);
      HalfNonzero(jb.w[k]);
    }
    OldPositions(jb.kn, sc.ss, sc.se + 1);
  }

  lemma {:induction false} OrderEntries(order: seq<nat>)
    requires NaturalOrder(order)
    ensures |order| == DCTSIZE2 + 16 && forall k :: 0 <= k < DCTSIZE2 ==> order[k] < DCTSIZE2
  {
  }

  lemma {:induction false} HalfNonzero(v: int)
    ensures Half(v) != 0 <==> Abs(v) > 1
  {
  }

  lemma {:induction false} OldPositions(kn: seq<int>, a: nat, b: nat)
    requires b <= |kn|
    ensures var ps := OldAt(kn, a, b);
            && (forall i :: 0 <= i < |ps| ==> a <= ps[i] < b && kn[ps[i]] != 0)
            && (forall p :: a <= p < b && kn[p] != 0 ==> p in ps)
            && (forall i, j :: 0 <= i < j < |ps| ==> ps[i] < ps[j])
  {
  }

  // ----- tokens appended piecemeal

  lemma {:induction false} FlushThen(sc: AcScan, s1: AcState, emitted: seq<Token>, toks: seq<Token>)
    requires Bounded(sc, s1) && toks != []
    ensures var s := AfterTokens(sc, s1, Piece(emitted, 0, []));
            var log := Append(Append(s.log, Flush(sc.tbl, s.eobrun, s.be)), toks);
            AfterTokens(sc, s1, Piece(emitted + toks, 0, [])) == AcState(log, 0, [], s1.togo)
  {
    hide EobRun;
    var s := AfterTokens(sc, s1, Piece(emitted, 0, []));
    AppendTwice(s.log, Flush(sc.tbl, s.eobrun, s.be), toks);
    if emitted == [] {
      assert emitted + toks == toks;
    } else {
      var f := Flush(sc.tbl, s1.eobrun, s1.be);
      AppendTwice(s1.log, f + emitted, toks);
      assert f + emitted + toks == f + (emitted + toks);
      assert [] + toks == toks;
    }
  }

  /** A log that fails stays uncodable when it grows. */
  lemma {:induction false} FailGrows(tabs: seq<CDerived>, log: Log, a: seq<Token>, b: seq<Token>)
    ensures LogCodable(tabs, Append(log, a + b)) ==> LogCodable(tabs, Append(log, a)) && LogCodable(tabs, log)
  {
    AppendTwice(log, a, b);
    LogCodableAppend(tabs, Append(log, a), b);
    LogCodableAppend(tabs, log, a);
  }

  class PhuffEncoder {
    const sc: AcScan
    const al: nat
    const refine: bool                // Ah != 0
    const order: seq<nat>
    const out: TokenWriter
    const bitBuffer: array<bool>      // bit_buffer
    var eobrun: nat                   // EOBRUN
    var be: nat                       // BE
    var restartsToGo: nat
    var nextRestartNum: nat

    ghost predicate Fixed()
    {
      && ValidBand(sc) && sc.tbl < NUM_HUFF_TBLS && NaturalOrder(order) && bitBuffer.Length == MAX_CORR_BITS
    }

    /** The state of the scan; togo is passed because the field is updated last. */
    ghost function Now(togo: nat): AcState
      requires be <= bitBuffer.Length
      reads this, out, bitBuffer
    {
      AcState(out.log, eobrun, bitBuffer[..be], togo)
    }

    ghost predicate Valid()
      reads this, out, out.w, bitBuffer
    {
      && Fixed() && out.Valid() && be <= bitBuffer.Length
      && Bounded(sc, Now(restartsToGo)) && Whole(Now(restartsToGo)) && (!refine ==> be == 0)
      && nextRestartNum == (|out.log| - 1) % 8
    }

    /** The state of the scan between MCUs. */
    ghost function State(): AcState
      requires Valid()
      reads this, out, out.w, bitBuffer
    {
      Now(restartsToGo)
    }

    /** start_pass_phuff. */
    constructor (sc: AcScan, al: nat, refine: bool, order: seq<nat>, out: TokenWriter)
      requires ValidBand(sc) && sc.tbl < NUM_HUFF_TBLS && NaturalOrder(order)
      requires out.Valid() && out.log == [[]]
      ensures Valid() && State() == AcStart(sc) && fresh(bitBuffer)
      ensures this.sc == sc && this.al == al && this.refine == refine && this.order == order && this.out == out
    {
      this.sc, this.al, this.refine, this.order, this.out := sc, al, refine, order, out;
      bitBuffer := new bool[MAX_CORR_BITS](i => false);
      eobrun, be, restartsToGo, nextRestartNum := 0, 0, sc.restart, 0;
      new;
      assert bitBuffer[..be] == [];
      StartSays(sc);
    }

    /** emit_eobrun: the error for runs of more than 14 extra bits cannot occur. */
    method EmitEobrun() returns (ok: bool)
      requires Fixed() && out.Valid() && be <= bitBuffer.Length && eobrun <= MAX_EOBRUN && (be > 0 ==> eobrun > 0)
      modifies `eobrun, `be, out`log, out`counts, out.w
      ensures ok ==> out.Valid() && eobrun == 0 && be == 0
      ensures ok ==> out.log == Append(old(out.log), Flush(sc.tbl, old(eobrun), old(bitBuffer[..be])))
      ensures !ok ==> out.MayFail(Append(old(out.log), Flush(sc.tbl, old(eobrun), old(bitBuffer[..be]))))
    {
      hide TokenWriter.Valid, Append, RawBits, ToBits, Pow2, LogCodable, NBits;
      ghost var log0, corr := out.log, bitBuffer[..be];
      if eobrun > 0 {
        ghost var s, x := RunSize(eobrun);
        var nbits := CountRun(eobrun);
        if nbits > 14 {
          assert false;
        }
        ghost var h: seq<Token> := [Sym(sc.tbl, 16 * s)];
        ghost var run: seq<Token> := RawBits(ToBits(x, s));
        RunTokens(sc.tbl, eobrun, corr);
        FailGrows(out.tabs, log0, h, run + RawBits(corr));
        ok := out.EmitSymbol(sc.tbl, 16 * nbits);
        if !ok { return; }
        AppendTwice(log0, h, run);
        NoRun(x, s);
        if nbits != 0 {
          ok := out.EmitBits(eobrun, nbits);
          if !ok { return; }
        } else {
          AppendTwice(out.log, [], []);
        }
        eobrun := 0;
        AppendTwice(log0, h + run, RawBits(corr));
        assert h + run + RawBits(corr) == h + (run + RawBits(corr));
        assert bitBuffer[0..be] == corr;
        ok := out.EmitBufferedBits(bitBuffer, 0, be);
        if !ok { return; }
        be := 0;
      } else {
        AppendTwice(log0, [], []);
        ok := true;
      }
    }

    /** emit_eobrun, then a symbol with its bits, then n buffered correction bits. */
    method EmitCoded(symbol: nat, code: int, size: nat, start: nat, n: nat, ghost s1: AcState, ghost emitted: seq<Token>)
      returns (ok: bool)
      requires Fixed() && out.Valid() && be <= bitBuffer.Length && symbol < 256 && size <= 16 && start + n <= bitBuffer.Length
      requires Bounded(sc, s1) && Now(s1.togo) == AfterTokens(sc, s1, Piece(emitted, 0, []))
      modifies `eobrun, `be, out`log, out`counts, out.w
      ensures var toks := [Sym(sc.tbl, symbol)] + RawBits(ToBits(code % Pow2(size), size)) + RawBits(bitBuffer[start..start + n]);
              var goal := AfterTokens(sc, s1, Piece(emitted + toks, 0, []));
              && (ok ==> out.Valid() && be <= bitBuffer.Length && Now(s1.togo) == goal)
              && (!ok ==> out.MayFail(goal.log))
    {
      hide TokenWriter.Valid, Append, RawBits, ToBits, Pow2, LogCodable, EobRun;
      ghost var corr := bitBuffer[start..start + n];
      ghost var h: seq<Token> := [Sym(sc.tbl, symbol)];
      ghost var extra := RawBits(ToBits(code % Pow2(size), size));
      ghost var toks := h + extra + RawBits(corr);
      FlushThen(sc, s1, emitted, toks);
      ghost var log1 := Append(out.log, Flush(sc.tbl, eobrun, bitBuffer[..be]));
      assert toks == h + (extra + RawBits(corr));
      FailGrows(out.tabs, log1, h, extra + RawBits(corr));
      AppendTwice(log1, h, extra);
      AppendTwice(log1, h + extra, RawBits(corr));
      ok := EmitEobrun();
      if !ok { return; }
      ok := out.EmitSymbol(sc.tbl, symbol);
      if !ok { return; }
      if size > 0 {
        ok := out.EmitBits(code, size);
        if !ok { return; }
      } else {
        NoExtra(code, size);
        AppendTwice(out.log, [], []);
      }
      ok := out.EmitBufferedBits(bitBuffer, start, n);
      assert bitBuffer[..0] == [];
    }

    /** emit_restart for an AC scan. */
    method EmitRestart(num: nat) returns (ok: bool)
      requires Fixed() && out.Valid() && be <= bitBuffer.Length && Bounded(sc, Now(0)) && num == (|out.log| - 1) % 8
      modifies `eobrun, `be, out`log, out`counts, out.w
      ensures var goal := Flushed(sc, old(Now(0))).log + [[]];
              && (ok ==> out.Valid() && eobrun == 0 && be == 0 && out.log == goal)
              && (!ok ==> out.MayFail(goal))
    {
      hide TokenWriter.Valid, LogCodable, EobRun;
      ghost var flushed := Append(out.log, Flush(sc.tbl, eobrun, bitBuffer[..be]));
      LogCodableAppend(out.tabs, flushed, []);
      ok := EmitEobrun();
      if !ok { return; }
      ok := out.EmitMarker(num);
    }

    /** The job of a block in this scan. */
    ghost function JobOf(block: Block): (jb: Job)
      requires Fixed()
      ensures Known(jb.w, jb.kn)
    {
      BlockJob(block, order, al, refine)
    }

    /** The pre-pass: absolute values after the point transform, and EOB. */
    method PrePass(block: Block) returns (absvalues: seq<nat>, eob: nat)
      requires Fixed() && refine
      ensures |absvalues| == DCTSIZE2
      ensures forall k :: sc.ss <= k <= sc.se ==> absvalues[k] == Abs(JobOf(block).w[k]) == Abs(block[order[k]]) / Pow2(al)
      ensures eob == LastNew(JobOf(block).w, JobOf(block).kn, sc.ss, sc.se + 1)
    {
      hide Pow2, NaturalOrder, BlockJob, Abs, Point;
      var values := new nat[DCTSIZE2](i => 0);
      ghost var jb := JobOf(block);
      OrderEntries(order);
      eob := 0;
      var k := sc.ss;
      while k <= sc.se
        invariant sc.ss <= k <= sc.se + 1
        invariant forall j :: sc.ss <= j < k ==> values[j] == Abs(jb.w[j]) == Abs(block[order[j]]) / Pow2(al)
        invariant eob == LastNew(jb.w, jb.kn, sc.ss, k)
      {
        PrePassValue(block, order, al, k);
        var temp: int := block[order[k]];
        if temp < 0 {
          temp := -temp;
        }
        temp := temp / Pow2(al);
        values[k] := temp;
        if temp == 1 {
          eob := k;
        }
        k := k + 1;
      }
      absvalues := values[..];
    }

    /** Inside a block: emitted is what it has sent so far. */
    ghost predicate InBlock(s1: AcState, emitted: seq<Token>)
      reads this, out, out.w, bitBuffer
    {
      && Fixed() && Bounded(sc, s1) && out.Valid() && be <= bitBuffer.Length
      && Now(s1.togo) == AfterTokens(sc, s1, Piece(emitted, 0, []))
    }

    /** Before position k, after r zeros and br buffered correction bits. */
    ghost predicate OnTrack(s1: AcState, jb: Job, eob: nat, k: nat, r: nat, br: nat, emitted: seq<Token>)
      reads this, out, out.w, bitBuffer
    {
      && InBlock(s1, emitted) && be + br <= bitBuffer.Length
      && RestOf(sc, jb, eob, k, r, bitBuffer[be..be + br], emitted)
    }

    /** One required ZRL with the correction bits that go with it. */
    method EmitZrl(k: nat, ghost eob: nat, ghost r: nat, br: nat, ghost s1: AcState, ghost jb: Job, ghost emitted0: seq<Token>)
      returns (ok: bool, ghost emitted: seq<Token>)
      requires OnTrack(s1, jb, eob, k, r, br, emitted0) && k <= sc.se && jb.w[k] != 0 && r > 15 && k <= eob
      modifies `eobrun, `be, out`log, out`counts, out.w
      ensures ok ==> OnTrack(s1, jb, eob, k, r - 16, 0, emitted) && be == 0
      ensures !ok ==> out.MayFail(AfterBlock(sc, s1, JobPiece(sc, jb)).log)
    {
      hide TokenWriter.Valid, RestOf, AfterTokens, AfterBlock, RawBits, LogCodable, Bounded, JobPiece, NaturalOrder;
      ghost var corr := bitBuffer[be..be + br];
      ghost var toks := Zrl(sc.tbl, corr);
      emitted := emitted0 + toks;
      ZrlStep(sc, out.tabs, s1, jb, k, eob, r, corr, emitted0);
      NoExtra(0, 0);
      assert [Sym(sc.tbl, 0xF0)] + [] + RawBits(corr) == toks;
      ok := EmitCoded(0xF0, 0, 0, be, br, s1, emitted0);
      assert ok ==> bitBuffer[be..be + 0] == [];
    }

    /** The correction bit of a coefficient that was nonzero before. */
    method BufferBit(temp: nat, k: nat, ghost eob: nat, ghost r: nat, br: nat, ghost s1: AcState, ghost jb: Job, ghost emitted: seq<Token>)
      requires OnTrack(s1, jb, eob, k, r, br, emitted) && k <= sc.se && br <= k - sc.ss
      requires temp == Abs(jb.w[k]) > 1 && jb.kn[k] != 0 && !(r > 15 && k <= eob)
      modifies bitBuffer
      ensures OnTrack(s1, jb, eob, k + 1, r, br + 1, emitted)
      ensures bitBuffer[be + br] == (temp % 2 == 1)
      ensures forall i :: 0 <= i < bitBuffer.Length && i != be + br ==> bitBuffer[i] == old(bitBuffer[i])
    {
      assert |jb.w| == DCTSIZE2;
      hide TokenWriter.Valid, RestOf, AfterTokens, JobPiece, NaturalOrder;
      ghost var corr := bitBuffer[be..be + br];
      RestSkip(sc, jb, eob, k, r, corr, emitted);
      BufferRoom(sc, s1, emitted);
      bitBuffer[be + br] := temp % 2 == 1;
      assert bitBuffer[be..be + (br + 1)] == corr + [CorrectionBit(jb.w[k])];
      assert bitBuffer[..be] == old(bitBuffer[..be]);
    }

    /** A newly nonzero coefficient: its symbol and bits, then the buffered ones. */
    method EmitNew(code: int, nbits: nat, k: nat, ghost eob: nat, r: nat, br: nat,
                   ghost s1: AcState, ghost jb: Job, ghost emitted0: seq<Token>)
      returns (ok: bool, ghost emitted: seq<Token>)
      requires OnTrack(s1, jb, eob, k, r, br, emitted0) && k <= sc.se && jb.w[k] != 0 && jb.kn[k] == 0
      requires r <= 15 && nbits == Category(jb.w[k]) <= MAX_COEF_BITS
      requires code % Pow2(nbits) == ExtraCode(jb.w[k]) % Pow2(nbits)
      modifies `eobrun, `be, out`log, out`counts, out.w
      ensures ok ==> OnTrack(s1, jb, eob, k + 1, 0, 0, emitted) && be == 0
      ensures !ok ==> out.MayFail(AfterBlock(sc, s1, JobPiece(sc, jb)).log)
    {
      assert |jb.w| == DCTSIZE2;
      hide TokenWriter.Valid, RestOf, AfterTokens, AfterBlock, RawBits, LogCodable, Bounded, JobPiece, NaturalOrder, Pow2, ToBits, NBits;
      ghost var corr := bitBuffer[be..be + br];
      emitted := emitted0 + NewCoef(sc.tbl, r, jb.w[k], corr);
      CoefStep(sc, out.tabs, s1, jb, k, eob, r, corr, emitted0);
      ok := EmitCoded(16 * r + nbits, code, nbits, be, br, s1, emitted0);
      assert ok ==> bitBuffer[be..be + 0] == [];
    }

    /** The main pass of encode_mcu_AC_refine. */
    method RefineBlock(block: Block, ghost s1: AcState) returns (ok: bool)
      requires Fixed() && refine && out.Valid() && be <= bitBuffer.Length && Bounded(sc, s1) && Now(s1.togo) == s1
      modifies `eobrun, `be, out`log, out`counts, out.w, bitBuffer
      ensures var goal := AfterBlock(sc, s1, JobPiece(sc, JobOf(block)));
              && (ok ==> out.Valid() && be <= bitBuffer.Length && Now(s1.togo) == goal)
              && (!ok ==> out.MayFail(goal.log))
    {
      hide TokenWriter.Valid, RestOf, AfterBlock, AfterTokens, LogCodable, Bounded, JobPiece, Pow2, NBits, Abs, LastNew;
      ghost var jb := JobOf(block);
      var absvalues, eob := PrePass(block);
      var r, br, k := 0, 0, sc.ss;
      ghost var emitted: seq<Token> := [];
      RestStarts(sc, jb, s1);
      assert bitBuffer[be..be + br] == [];
      while k <= sc.se
        invariant sc.ss <= k <= sc.se + 1 && br <= k - sc.ss
        invariant OnTrack(s1, jb, eob, k, r, br, emitted)
        invariant forall j :: sc.ss <= j <= sc.se ==> absvalues[j] == Abs(jb.w[j])
      {
        hide OnTrack;
        var temp := absvalues[k];
        RefineValue(block, order, al, k);
        if temp == 0 {
          ZeroOnTrack(s1, jb, eob, k, r, br, emitted);
          r := r + 1;
          k := k + 1;
          continue;
        }
        while r > 15 && k <= eob
          invariant br <= k - sc.ss && OnTrack(s1, jb, eob, k, r, br, emitted)
        {
          ok, emitted := EmitZrl(k, eob, r, br, s1, jb, emitted);
          if !ok { return; }
          br := 0;
          r := r - 16;
        }
        if temp > 1 {
          BufferBit(temp, k, eob, r, br, s1, jb, emitted);
          br := br + 1;
        } else {
          ok, emitted := EmitNew(if block[order[k]] < 0 then 0 else 1, 1, k, eob, r, br, s1, jb, emitted);
          if !ok { return; }
          r, br := 0, 0;
        }
        k := k + 1;
      }
      ok := EndBlock(r, br, s1, jb, eob, emitted);
    }

    lemma {:induction false} ZeroOnTrack(s1: AcState, jb: Job, eob: nat, k: nat, r: nat, br: nat, emitted: seq<Token>)
      requires OnTrack(s1, jb, eob, k, r, br, emitted) && k <= sc.se && jb.w[k] == 0
      ensures OnTrack(s1, jb, eob, k + 1, r + 1, br, emitted)
    {
      hide InBlock;
      RestSkip(sc, jb, eob, k, r, bitBuffer[be..be + br], emitted);
    }

    /** Trailing zeros or corrections: count an EOB, and force it out if the
        counter or the bit buffer might overflow in the next MCU. */
    method EndBlock(r: nat, br: nat, ghost s1: AcState, ghost jb: Job, ghost eob: nat, ghost emitted: seq<Token>) returns (ok: bool)
      requires OnTrack(s1, jb, eob, sc.se + 1, r, br, emitted)
      modifies `eobrun, `be, out`log, out`counts, out.w
      ensures var goal := AfterBlock(sc, s1, JobPiece(sc, jb));
              && (ok ==> out.Valid() && be <= bitBuffer.Length && Now(s1.togo) == goal)
              && (!ok ==> out.MayFail(goal.log))
    {
      hide TokenWriter.Valid, Append, JobPiece, LogCodable, NaturalOrder, Flush, RestOf;
      ok := true;
      ghost var be0, corr := bitBuffer[..be], bitBuffer[be..be + br];
      RestEnds(sc, jb, eob, r, corr, emitted);
      RunRoom(sc, s1, emitted);
      if r > 0 || br > 0 {
        eobrun := eobrun + 1;
        be := be + br;
        assert bitBuffer[..be] == be0 + corr;
        if eobrun == MAX_EOBRUN || be > MAX_CORR_BITS - DCTSIZE2 + 1 {
          ok := EmitEobrun();
          assert ok ==> bitBuffer[..be] == [];
        }
      }
    }

    /** The block part of encode_mcu_AC_first. */
    method FirstBlock(block: Block, ghost s1: AcState) returns (ok: bool)
      requires Fixed() && !refine && out.Valid() && be == 0 && Bounded(sc, s1) && Now(s1.togo) == s1
      modifies `eobrun, `be, out`log, out`counts, out.w
      ensures ok ==> InBand(JobOf(block).w, JobOf(block).kn, sc.ss, sc.se)
      ensures var goal := AfterBlock(sc, s1, JobPiece(sc, JobOf(block)));
              && (ok ==> out.Valid() && be == 0 && Now(s1.togo) == goal)
              && (!ok ==> out.MayFail(goal.log) || !InBand(JobOf(block).w, JobOf(block).kn, sc.ss, sc.se))
    {
      hide TokenWriter.Valid, RestOf, AfterBlock, AfterTokens, LogCodable, Bounded, JobPiece, Pow2, NBits, LastNew;
      ghost var jb := JobOf(block);
      ghost var eob := LastNew(jb.w, jb.kn, sc.ss, sc.se + 1);
      var r, k := 0, sc.ss;
      ghost var emitted: seq<Token> := [];
      RestStarts(sc, jb, s1);
      assert bitBuffer[be..be + 0] == [];
      while k <= sc.se
        invariant sc.ss <= k <= sc.se + 1 && be == 0
        invariant OnTrack(s1, jb, eob, k, r, 0, emitted)
        invariant forall j :: sc.ss <= j < k ==> Category(jb.w[j]) <= MAX_COEF_BITS
      {
        hide OnTrack;
        FirstValue(block, order, al, k, sc);
        var temp: int := block[order[k]];
        var temp2: int;
        if temp < 0 {
          temp := -temp;
          temp := temp / Pow2(al);
          temp2 := -temp - 1;
        } else {
          temp := temp / Pow2(al);
          temp2 := temp;
        }
        if temp == 0 {
          ZeroOnTrack(s1, jb, eob, k, r, 0, emitted);
          r := r + 1;
          k := k + 1;
          continue;
        }
        while r > 15
          invariant be == 0 && OnTrack(s1, jb, eob, k, r, 0, emitted)
        {
          ok, emitted := EmitZrl(k, eob, r, 0, s1, jb, emitted);
          if !ok { return; }
          r := r - 16;
        }
        var nbits := CountRun(temp);
        nbits := nbits + 1;
        if nbits > MAX_COEF_BITS {
          return false;
        }
        ok, emitted := EmitNew(temp2, nbits, k, eob, r, 0, s1, jb, emitted);
        if !ok { return; }
        r := 0;
        k := k + 1;
      }
      ok := EndFirst(r, s1, jb, eob, emitted);
    }

    /** Trailing zeros: count an EOB, and force it out before the counter overflows. */
    method EndFirst(r: nat, ghost s1: AcState, ghost jb: Job, ghost eob: nat, ghost emitted: seq<Token>) returns (ok: bool)
      requires OnTrack(s1, jb, eob, sc.se + 1, r, 0, emitted) && be == 0
      modifies `eobrun, `be, out`log, out`counts, out.w
      ensures var goal := AfterBlock(sc, s1, JobPiece(sc, jb));
              && (ok ==> out.Valid() && be == 0 && Now(s1.togo) == goal)
              && (!ok ==> out.MayFail(goal.log))
    {
      hide TokenWriter.Valid, Append, JobPiece, LogCodable, NaturalOrder, Flush, RestOf;
      ok := true;
      assert bitBuffer[..be] == [] && bitBuffer[be..be + 0] == [];
      RestEnds(sc, jb, eob, r, [], emitted);
      RunRoom(sc, s1, emitted);
      if r > 0 {
        eobrun := eobrun + 1;
        if eobrun == MAX_EOBRUN {
          ok := EmitEobrun();
          assert ok ==> bitBuffer[..be] == [];
        }
      }
    }

    /** The restart marker, if one is due. */
    method BeginMcu() returns (ok: bool, ghost s1: AcState)
      requires Valid()
      modifies `eobrun, `be, out`log, out`counts, out.w
      ensures s1 == AcRestarted(sc, old(State())) && Bounded(sc, s1)
      ensures ok ==> out.Valid() && be <= bitBuffer.Length && (!refine ==> be == 0) && Now(s1.togo) == s1
      ensures !ok ==> out.MayFail(s1.log)
    {
      hide TokenWriter.Valid, Append, LogCodable, NaturalOrder, Flush;
      s1 := AcRestarted(sc, Now(restartsToGo));
      ok := true;
      if sc.restart > 0 && restartsToGo == 0 {
        ok := EmitRestart(nextRestartNum);
        assert ok ==> bitBuffer[..be] == [];
      }
    }

    /** Update the restart-interval state. */
    method EndMcu()
      modifies `restartsToGo, `nextRestartNum
      ensures restartsToGo == TogoLater(sc, old(restartsToGo))
      ensures nextRestartNum == if sc.restart > 0 && old(restartsToGo) == 0 then (old(nextRestartNum) + 1) % 8 else old(nextRestartNum)
    {
      if sc.restart > 0 {
        if restartsToGo == 0 {
          restartsToGo := sc.restart;
          nextRestartNum := (nextRestartNum + 1) % 8;
        }
        restartsToGo := restartsToGo - 1;
      }
    }

    method EncodeMcuAcRefine(block: Block) returns (ok: bool)
      requires Valid() && refine
      modifies this, bitBuffer, out`log, out`counts, out.w
      ensures var goal := ScanStep(sc, old(State()), JobPiece(sc, JobOf(block)));
              && (ok ==> Valid() && State() == goal)
              && (!ok ==> out.MayFail(goal.log))
      // after the correction bits sent or waiting in the segment, those of the block
      ensures ok ==> exists ps: seq<nat>, bits: BitString ::
                Corrects(block, order, al, sc.ss, sc.se, ps, bits) &&
                Told(State()).corrections
                  == (if sc.restart > 0 && old(restartsToGo) == 0 then [] else old(Told(State()).corrections)) + bits
    {
      hide TokenWriter.Valid, AfterBlock, AcRestarted, JobPiece, LogCodable, NaturalOrder, BlockJob, Bounded, Whole, Told, Corrects;
      ghost var s0 := Now(restartsToGo);
      RefineSays(block, order, al, sc, s0);
      McuFacts(sc, out.tabs, s0, JobOf(block));
      ghost var s1;
      ok, s1 := BeginMcu();
      if !ok { return; }
      ok := RefineBlock(block, s1);
      if !ok { return; }
      EndMcu();
    }

    method EncodeMcuAcFirst(block: Block) returns (ok: bool)
      requires Valid() && !refine
      modifies this, out`log, out`counts, out.w
      ensures ok ==> InBand(JobOf(block).w, JobOf(block).kn, sc.ss, sc.se)
      ensures var goal := ScanStep(sc, old(State()), JobPiece(sc, JobOf(block)));
              && (ok ==> Valid() && State() == goal)
              && (!ok ==> out.MayFail(goal.log) || !InBand(JobOf(block).w, JobOf(block).kn, sc.ss, sc.se))
    {
      hide TokenWriter.Valid, AfterBlock, AcRestarted, JobPiece, LogCodable, NaturalOrder, BlockJob, Bounded, InBand, Whole;
      ghost var s0 := Now(restartsToGo);
      McuFacts(sc, out.tabs, s0, JobOf(block));
      ghost var s1;
      ok, s1 := BeginMcu();
      if !ok { return; }
      ok := FirstBlock(block, s1);
      if !ok { return; }
      FirstSays(sc, s0, JobOf(block));
      EndMcu();
    }

    /** finish_pass_phuff: the last run, and the last byte. */
    method FinishPass() returns (ok: bool)
      requires Valid() && !out.gather
      modifies this, out`log, out`counts, out.w
      ensures ok ==> ShapedSlots(out.tabs) && LogCodable(out.tabs, out.log) && out.log == Flushed(sc, old(State())).log
      ensures ok ==> out.w.out == ScanBytes(out.tabs, out.log)
      ensures !ok ==> out.MayFail(Flushed(sc, old(State())).log)
    {
      hide TokenWriter.Valid, Append, LogCodable, NaturalOrder, Flush, ScanBytes;
      ok := EmitEobrun();
      if !ok { return; }
      ok := out.FlushBits();
    }

    /** finish_pass_gather_phuff up to the call of jpeg_gen_optimal_table: the
        counters are those of the complete scan. */
    method FinishCounts() returns (counts: seq<nat>)
      requires Valid() && out.gather
      modifies this, out`log, out`counts, out.w
      ensures var log := Flushed(sc, old(State())).log;
              |counts| == NSYMS && forall s :: 0 <= s < NSYMS ==> counts[s] == TallyLog(log, sc.tbl, s)
    {
      hide Append, LogCodable, NaturalOrder, Flush;
      var ok := EmitEobrun();
      counts := out.counts[sc.tbl];
    }
  }

  function TogoLater(sc: AcScan, togo: nat): nat {
    if sc.restart == 0 then togo else if togo == 0 then sc.restart - 1 else togo - 1
  }

  /** What a block of a refinement scan adds to its segment. */
  lemma {:induction false} RefineSays(block: Block, order: seq<nat>, al: nat, sc: AcScan, s0: AcState)
    requires NaturalOrder(order) && ValidBand(sc) && Whole(s0) && Bounded(sc, s0)
    ensures var s := ScanStep(sc, s0, JobPiece(sc, BlockJob(block, order, al, true)));
            && Whole(s)
            && exists ps: seq<nat>, bits: BitString ::
                 Corrects(block, order, al, sc.ss, sc.se, ps, bits) &&
                 Told(s).corrections == (if sc.restart > 0 && s0.togo == 0 then [] else Told(s0).corrections) + bits
  {
    hide ScanStep, JobPiece, BlockJob, Corrects, Whole, Told, Bounded, SaysCorrections, SaysNews;
    RefineInBand(block, order, al, sc);
    var jb := BlockJob(block, order, al, true);
    var rd := McuSays(sc, s0, jb);
    BlockCorrections(block, order, al, sc, rd.corrections);
  }

  lemma {:induction false} FirstSays(sc: AcScan, s0: AcState, jb: Job)
    requires ValidBand(sc) && Whole(s0) && Bounded(sc, s0) && Known(jb.w, jb.kn) && InBand(jb.w, jb.kn, sc.ss, sc.se)
    ensures Whole(ScanStep(sc, s0, JobPiece(sc, jb)))
  {
    var rd := McuSays(sc, s0, jb);
  }

  /** One MCU seen from outside: it adds a segment exactly when a restart is
      due, keeps the bounds, and can only need more codes than its restart. */
  lemma {:induction false} McuFacts(sc: AcScan, tabs: seq<CDerived>, s0: AcState, jb: Job)
    requires ValidBand(sc) && |jb.w| == |jb.kn| == DCTSIZE2 && Bounded(sc, s0)
    ensures var s1 := AcRestarted(sc, s0); var s2 := AfterBlock(sc, s1, JobPiece(sc, jb)); var s3 := ScanStep(sc, s0, JobPiece(sc, jb));
            && s3 == s2.(togo := TogoLater(sc, s0.togo)) && s2.togo == s1.togo && Bounded(sc, s3)
            && |s3.log| == |s0.log| + (if sc.restart > 0 && s0.togo == 0 then 1 else 0)
            && (LogCodable(tabs, s3.log) ==> LogCodable(tabs, s1.log))
  {
    StepBounded(sc, s0, jb);
    AfterBlockCodable(sc, tabs, AcRestarted(sc, s0), JobPiece(sc, jb));
    hide JobPiece, LogCodable, Bounded, Flush, ValidBand, AfterBlock;
  }

  lemma {:induction false} AfterBlockCodable(sc: AcScan, tabs: seq<CDerived>, s1: AcState, p: Piece)
    ensures LogCodable(tabs, AfterBlock(sc, s1, p).log) ==> LogCodable(tabs, s1.log)
    ensures |AfterBlock(sc, s1, p).log| == |s1.log| && AfterBlock(sc, s1, p).togo == s1.togo
  {
    hide LogCodable, Flush;
    var f1 := Flush(sc.tbl, s1.eobrun, s1.be) + p.toks;
    LogCodableAppend(tabs, s1.log, f1);
    var s2 := Joined(AfterTokens(sc, s1, p), p);
    LogCodableAppend(tabs, s2.log, Flush(sc.tbl, s2.eobrun, s2.be));
  }

  /** What the first scan computes for one coefficient. */
  lemma {:induction false} FirstValue(block: Block, order: seq<nat>, al: nat, k: nat, sc: AcScan)
    requires NaturalOrder(order) && ValidBand(sc) && sc.ss <= k <= sc.se
    ensures |order| == DCTSIZE2 + 16 && order[k] < DCTSIZE2
    ensures var jb := BlockJob(block, order, al, false); var c := block[order[k]]; var v := jb.w[k];
            var m := (if c < 0 then -c else c) / Pow2(al);
            && m == Abs(v) >= 0 && jb.kn[k] == 0
            && (m != 0 ==> k <= LastNew(jb.w, jb.kn, sc.ss, sc.se + 1) && ExtraCode(v) == if c < 0 then -m - 1 else m)
            && (m == 0 ==> v == 0 && Category(v) == 0) && (m > 0 ==> Category(v) == NBits(m))
  {
    hide Pow2, LastNew;
    AbsPoint(block[order[k]], al);
    var v := BlockJob(block, order, al, false).w[k];
    assert Abs(v) == 0 ==> NBits(0) == 0;
  }

  /** The tokens emitted and what is coded from position k on make the block's piece. */
  ghost predicate RestOf(sc: AcScan, jb: Job, eob: nat, k: nat, r: nat, br: BitString, emitted: seq<Token>) {
    && ValidBand(sc) && Known(jb.w, jb.kn) && k <= sc.se + 1
    && Prepend(emitted, BlockFrom(sc.tbl, jb.w, jb.kn, k, sc.se, eob, r, br)) == JobPiece(sc, jb)
  }

  lemma {:induction false} RestStarts(sc: AcScan, jb: Job, s1: AcState)
    requires ValidBand(sc) && Known(jb.w, jb.kn)
    ensures RestOf(sc, jb, LastNew(jb.w, jb.kn, sc.ss, sc.se + 1), sc.ss, 0, [], [])
    ensures AfterTokens(sc, s1, Piece([], 0, [])) == s1
  {
    hide BlockFrom;
    var p := JobPiece(sc, jb);
    assert [] + p.toks == p.toks;
  }

  lemma {:induction false} RestSkip(sc: AcScan, jb: Job, eob: nat, k: nat, r: nat, br: BitString, emitted: seq<Token>)
    requires RestOf(sc, jb, eob, k, r, br, emitted) && k <= sc.se
    ensures jb.w[k] == 0 ==> RestOf(sc, jb, eob, k + 1, r + 1, br, emitted)
    ensures jb.w[k] != 0 && jb.kn[k] != 0 && !(r > 15 && k <= eob) ==>
              RestOf(sc, jb, eob, k + 1, r, br + [CorrectionBit(jb.w[k])], emitted)
  {
    hide JobPiece, NewCoef, Zrl;
  }

  lemma {:induction false} RestEnds(sc: AcScan, jb: Job, eob: nat, r: nat, br: BitString, emitted: seq<Token>)
    requires RestOf(sc, jb, eob, sc.se + 1, r, br, emitted)
    ensures JobPiece(sc, jb) == Piece(emitted, r, br)
  {
    hide JobPiece;
    assert emitted + [] == emitted;
  }

  lemma {:induction false} BufferRoom(sc: AcScan, s1: AcState, emitted: seq<Token>)
    requires Bounded(sc, s1)
    ensures |AfterTokens(sc, s1, Piece(emitted, 0, [])).be| <= MAX_CORR_BITS - DCTSIZE2 + 1
  {
  }

  lemma {:induction false} RunRoom(sc: AcScan, s1: AcState, emitted: seq<Token>)
    requires Bounded(sc, s1)
    ensures AfterTokens(sc, s1, Piece(emitted, 0, [])).eobrun < MAX_EOBRUN
  {
  }

  lemma {:induction false} AbsPoint(c: int, al: nat)
    ensures Abs(Point(c, al)) == Abs(c) / Pow2(al)
  {
    hide Pow2;
  }

  /** What the pre-pass computes for one coefficient. */
  lemma {:induction false} PrePassValue(block: Block, order: seq<nat>, al: nat, k: nat)
    requires NaturalOrder(order) && k < DCTSIZE2
    ensures |order| == DCTSIZE2 + 16 && order[k] < DCTSIZE2
    ensures var jb := BlockJob(block, order, al, true); var c := block[order[k]];
            && (if c < 0 then -c else c) / Pow2(al) == Abs(jb.w[k]) == Abs(c) / Pow2(al) >= 0
            && (Abs(jb.w[k]) == 1 <==> jb.w[k] != 0 && jb.kn[k] == 0)
  {
    hide Point, Pow2;
    AbsPoint(block[order[k]], al);
    UnitIsNew(BlockJob(block, order, al, true).w[k]);
  }

  /** What the main pass relies on for one coefficient. */
  lemma {:induction false} RefineValue(block: Block, order: seq<nat>, al: nat, k: nat)
    requires NaturalOrder(order) && k < DCTSIZE2
    ensures |order| == DCTSIZE2 + 16 && order[k] < DCTSIZE2
    ensures var v, kn := BlockJob(block, order, al, true).w[k], BlockJob(block, order, al, true).kn[k];
            && (Abs(v) == 0 <==> v == 0) && (Abs(v) > 1 <==> kn != 0)
            && (Abs(v) == 1 ==> Category(v) == 1 && ExtraCode(v) % Pow2(1) == (if block[order[k]] < 0 then 0 else 1) % Pow2(1))
  {
    hide Pow2;
    var v := BlockJob(block, order, al, true).w[k];
    if Abs(v) == 1 {
      UnitCoef(v);
    }
  }

  lemma {:induction false} UnitIsNew(v: int)
    ensures Abs(v) == 1 <==> v != 0 && Half(v) == 0
  {
  }

  lemma {:induction false} UnitCoef(v: int)
    requires Abs(v) == 1
    ensures Category(v) == 1 && ExtraCode(v) % Pow2(1) == (if v < 0 then 0 else 1) % Pow2(1)
  {
    assert NBits(1) == 1 + NBits(0);
    assert Pow2(1) == 2;
  }

  lemma {:induction false} ZrlStep(sc: AcScan, tabs: seq<CDerived>, s1: AcState, jb: Job, k: nat, eob: nat, r: nat, br: BitString,
                       emitted: seq<Token>)
    requires RestOf(sc, jb, eob, k, r, br, emitted) && k <= sc.se && jb.w[k] != 0 && r > 15 && k <= eob
    ensures var now := emitted + Zrl(sc.tbl, br); var s := AfterTokens(sc, s1, Piece(now, 0, []));
            && RestOf(sc, jb, eob, k, r - 16, [], now) && s.eobrun == 0 && s.be == []
            && (LogCodable(tabs, AfterBlock(sc, s1, JobPiece(sc, jb)).log) ==> LogCodable(tabs, s.log))
  {
    hide JobPiece, LogCodable, AfterBlock;
    var z := Zrl(sc.tbl, br);
    var rest := BlockFrom(sc.tbl, jb.w, jb.kn, k, sc.se, eob, r - 16, []);
    assert emitted + (z + rest.toks) == (emitted + z) + rest.toks;
    TokensGrow(sc, tabs, s1, emitted + z, rest.toks, JobPiece(sc, jb));
  }

  lemma {:induction false} CoefStep(sc: AcScan, tabs: seq<CDerived>, s1: AcState, jb: Job, k: nat, eob: nat, r: nat, br: BitString,
                        emitted: seq<Token>)
    requires RestOf(sc, jb, eob, k, r, br, emitted) && k <= sc.se && jb.w[k] != 0 && jb.kn[k] == 0 && r <= 15
    ensures var now := emitted + NewCoef(sc.tbl, r, jb.w[k], br); var s := AfterTokens(sc, s1, Piece(now, 0, []));
            && RestOf(sc, jb, eob, k + 1, 0, [], now) && s.eobrun == 0 && s.be == []
            && (LogCodable(tabs, AfterBlock(sc, s1, JobPiece(sc, jb)).log) ==> LogCodable(tabs, s.log))
  {
    var z := NewCoef(sc.tbl, r, jb.w[k], br);
    assert z != [];
    hide JobPiece, LogCodable, AfterBlock, NewCoef;
    var rest := BlockFrom(sc.tbl, jb.w, jb.kn, k + 1, sc.se, eob, 0, []);
    assert emitted + (z + rest.toks) == (emitted + z) + rest.toks;
    TokensGrow(sc, tabs, s1, emitted + z, rest.toks, JobPiece(sc, jb));
  }

  /** If the log that includes a whole block is codable, so is any part of it. */
  lemma {:induction false} TokensGrow(sc: AcScan, tabs: seq<CDerived>, s1: AcState, some: seq<Token>, more: seq<Token>, p: Piece)
    requires some != [] && p.toks == some + more
    ensures LogCodable(tabs, AfterBlock(sc, s1, p).log) ==> LogCodable(tabs, AfterTokens(sc, s1, Piece(some, 0, [])).log)
  {
    hide LogCodable;
    var f := Flush(sc.tbl, s1.eobrun, s1.be);
    assert f + (some + more) == (f + some) + more;
    FailGrows(tabs, s1.log, f + some, more);
    var s2 := Joined(AfterTokens(sc, s1, p), p);
    FailGrows(tabs, s2.log, Flush(sc.tbl, s2.eobrun, s2.be), []);
    assert Flush(sc.tbl, s2.eobrun, s2.be) + [] == Flush(sc.tbl, s2.eobrun, s2.be);
  }

  /** nbits = 0; while ((temp >>= 1)) nbits++; */
  method CountRun(n: nat) returns (nbits: nat)
    requires n > 0
    ensures nbits == NBits(n) - 1
  {
    nbits := 0;
    var temp: nat := n / 2;
    while temp != 0
      invariant nbits + NBits(temp) == NBits(n) - 1
    {
      nbits := nbits + 1;
      temp := temp / 2;
    }
  }

  lemma {:induction false} RunTokens(tbl: nat, n: nat, be: BitString)
    requires n > 0
    ensures var s := NBits(n) - 1;
            EobRun(tbl, n, be) == [Sym(tbl, 16 * s)] + (RawBits(ToBits(n % Pow2(s), s)) + RawBits(be))
  {
    hide NBits, ToBits, RawBits;
  }

  lemma {:induction false} NoRun(x: nat, s: nat)
    ensures s == 0 ==> RawBits(ToBits(x, s)) == []
  {
  }

  lemma {:induction false} NoExtra(code: int, size: nat)
    requires size == 0
    ensures RawBits(ToBits(code % Pow2(size), size)) == []
  {
  }
}
