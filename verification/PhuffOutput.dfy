/** The output side of jcphuff.c: symbols and bits either counted or sent, and
    the restart marker. A ghost log records the tokens in both modes. */
module PhuffOutput {
  import opened JpegLimits
  import opened Arith
  import opened Bits
  import opened HuffTable
  import opened DerivedTables
  import opened Stuffing
  import opened BlockCoding
  import opened ScanCoding
  import opened BitWriter
  import opened ProgressiveTokens
  import HuffEncoder

  /** Every counter of slot t holds the number of its symbols in the log. */
  ghost predicate TalliesOf(counts: seq<seq<nat>>, log: Log) {
    && |counts| == NUM_HUFF_TBLS
    && (forall t :: 0 <= t < NUM_HUFF_TBLS ==> |counts[t]| == NSYMS)
    && (forall t, s :: 0 <= t < NUM_HUFF_TBLS && 0 <= s < NSYMS ==> counts[t][s] == TallyLog(log, t, s))
  }

  lemma {:induction false} TallySymbol(counts: seq<seq<nat>>, log: Log, tbl: nat, s: nat)
    requires TalliesOf(counts, log) && tbl < NUM_HUFF_TBLS && s < NSYMS
    ensures TalliesOf(counts[tbl := counts[tbl][s := counts[tbl][s] + 1]], Append(log, [Sym(tbl, s)]))
  {
    hide Append;
    var toks := [Sym(tbl, s)];
    forall t, x | 0 <= t < NUM_HUFF_TBLS && 0 <= x < NSYMS
      ensures TallyLog(Append(log, toks), t, x) == counts[t][x] + if t == tbl && x == s then 1 else 0
    {
      TallyLogAppend(log, toks, t, x);
      assert toks[1..] == [];
    }
  }

  lemma {:induction false} TallyBits(counts: seq<seq<nat>>, log: Log, bs: BitString)
    requires TalliesOf(counts, log)
    ensures TalliesOf(counts, Append(log, RawBits(bs))) && TalliesOf(counts, log + [[]])
  {
    hide Append;
    forall t, x | 0 <= t < NUM_HUFF_TBLS && 0 <= x < NSYMS
      ensures TallyLog(Append(log, RawBits(bs)), t, x) == counts[t][x] && TallyLog(log + [[]], t, x) == counts[t][x]
    {
      TallyLogAppend(log, RawBits(bs), t, x);
      TallyRaw(bs, t, x);
    }
  }

  /** base and seg are the bytes and bits of the log. */
  ghost predicate BytesOf(tabs: seq<CDerived>, base: seq<UInt8>, seg: BitString, log: Log) {
    && ShapedSlots(tabs) && LogCodable(tabs, log)
    && base == FinishedBytes(tabs, log[..|log| - 1])
    && seg == TokBits(tabs, log[|log| - 1])
  }

  lemma {:induction false} BytesAppend(tabs: seq<CDerived>, base: seq<UInt8>, seg: BitString, log: Log, toks: seq<Token>)
    requires BytesOf(tabs, base, seg, log) && TokCodable(tabs, toks)
    ensures BytesOf(tabs, base, seg + TokBits(tabs, toks), Append(log, toks))
  {
    hide TokBits, TokCodable, FinishedBytes;
    var n := |log| - 1;
    LogCodableAppend(tabs, log, toks);
    assert Append(log, toks)[..n] == log[..n] && Append(log, toks)[n] == log[n] + toks;
    assert TokCodable(tabs, log[n] + toks);
    TokBitsAppend(tabs, log[n], toks);
  }

  lemma {:induction false} BytesRestart(tabs: seq<CDerived>, base: seq<UInt8>, seg: BitString, log: Log)
    requires BytesOf(tabs, base, seg, log)
    ensures BytesOf(tabs, base + SegmentBytes(seg) + [0xFF, RST0 + (|log| - 1) % 8], [], log + [[]])
  {
    hide TokBits, TokCodable, SegmentBytes;
    var n := |log| - 1;
    LogCodableAppend(tabs, log, []);
    EmptyTokens(tabs);
    assert (log + [[]])[..n + 1] == log && (log + [[]])[n + 1] == [];
  }

  lemma {:induction false} NothingSent(tabs: seq<CDerived>, counts: seq<seq<nat>>)
    requires ShapedSlots(tabs)
    requires |counts| == NUM_HUFF_TBLS && forall t :: 0 <= t < NUM_HUFF_TBLS ==> |counts[t]| == NSYMS
    requires forall t, s :: 0 <= t < NUM_HUFF_TBLS && 0 <= s < NSYMS ==> counts[t][s] == 0
    ensures TalliesOf(counts, [[]]) && BytesOf(tabs, [], [], [[]])
  {
    EmptyTokens(tabs);
    var log: Log := [[]];
    assert log[..0] == [] && log[0] == [];
    forall t, s | 0 <= t < NUM_HUFF_TBLS && 0 <= s < NSYMS
      ensures TallyLog(log, t, s) == 0
    {
      assert Tally([], t, s) == 0 && TallyLog([], t, s) == 0;
    }
  }

  lemma {:induction false} CodeOf(tabs: seq<CDerived>, tbl: nat, s: nat)
    requires ShapedSlots(tabs) && tbl < |tabs| && s < 256
    ensures TableShaped(tabs[tbl]) && tabs[tbl].ehufsi[s] <= MAXBITS
    ensures TokenCodable(tabs, Sym(tbl, s)) <==> tabs[tbl].ehufsi[s] > 0
    ensures var c := tabs[tbl]; ToBits(c.ehufco[s] % Pow2(c.ehufsi[s]), c.ehufsi[s]) == CodeBits(c, s)
  {
    ToBitsMod(tabs[tbl].ehufco[s], tabs[tbl].ehufsi[s]);
  }

  class TokenWriter {
    const gather: bool                // gather_statistics
    const tabs: seq<CDerived>         // derived_tbls
    const w: Writer                   // put_buffer, put_bits and the destination
    var counts: seq<seq<nat>>         // count_ptrs
    ghost var log: Log

    ghost predicate Valid()
      reads this, w
    {
      && ShapedSlots(tabs) && |tabs| == NUM_HUFF_TBLS
      && (gather ==> TalliesOf(counts, log))
      && (!gather ==> w.Valid() && BytesOf(tabs, w.base, w.seg, log))
    }

    constructor (gather: bool, tabs: seq<CDerived>, w: Writer)
      requires ShapedSlots(tabs) && |tabs| == NUM_HUFF_TBLS
      requires w.Valid() && w.base == [] && w.seg == []
      ensures Valid() && log == [[]] && this.gather == gather && this.tabs == tabs && this.w == w
    {
      this.gather, this.tabs, this.w := gather, tabs, w;
      counts := seq(NUM_HUFF_TBLS, i => seq(NSYMS, j => 0));
      log := [[]];
      new;
      hide TallyLog, TokBits, TokCodable, Writer.Valid;
      NothingSent(tabs, counts);
    }

    /** The reasons a step may give up: in output mode, a symbol without a
        code, or a destination that cannot be emptied. */
    ghost predicate MayFail(goal: Log)
    {
      !gather && (!w.canDump || !LogCodable(tabs, goal))
    }

    method EmitBits(code: int, size: nat) returns (ok: bool)
      requires Valid() && 0 < size <= 16
      modifies `log, w
      ensures ok ==> Valid() && log == Append(old(log), RawBits(ToBits(code % Pow2(size), size)))
      ensures !ok ==> !gather && !w.canDump
    {
      hide ToBits, Pow2, TalliesOf, BytesOf, Append, RawBits, Writer.Valid, TokBits, TokCodable;
      ghost var bs := ToBits(code % Pow2(size), size);
      if gather {
        TallyBits(counts, log, bs);
        log := Append(log, RawBits(bs));
        return true;
      }
      RawTokBits(tabs, bs);
      BytesAppend(tabs, w.base, w.seg, log, RawBits(bs));
      var st := w.EmitBits(code, size);
      if st != Done {
        return false;
      }
      log := Append(log, RawBits(bs));
      ok := true;
    }

    method EmitSymbol(tbl: nat, symbol: nat) returns (ok: bool)
      requires Valid() && tbl < NUM_HUFF_TBLS && symbol < 256
      modifies `log, `counts, w
      ensures ok ==> Valid() && log == Append(old(log), [Sym(tbl, symbol)])
      ensures !ok ==> MayFail(Append(old(log), [Sym(tbl, symbol)]))
    {
      hide ToBits, Pow2, BytesOf, Append, RawBits, Writer.Valid, TokBits, TallyLog;
      if gather {
        TallySymbol(counts, log, tbl, symbol);
        counts := counts[tbl := counts[tbl][symbol := counts[tbl][symbol] + 1]];
        log := Append(log, [Sym(tbl, symbol)]);
        return true;
      }
      CodeOf(tabs, tbl, symbol);
      LogCodableAppend(tabs, log, [Sym(tbl, symbol)]);
      assert TokCodable(tabs, [Sym(tbl, symbol)]) ==> TokenCodable(tabs, [Sym(tbl, symbol)][0]);
      var c := tabs[tbl];
      if TokenCodable(tabs, Sym(tbl, symbol)) {
        OneSymbol(tabs, tbl, symbol);
        BytesAppend(tabs, w.base, w.seg, log, [Sym(tbl, symbol)]);
      }
      var st := w.EmitBits(c.ehufco[symbol], c.ehufsi[symbol]);
      if st != Done {
        return false;
      }
      log := Append(log, [Sym(tbl, symbol)]);
      ok := true;
    }

    /** emit_buffered_bits: n bits of buf from position start on. */
    method EmitBufferedBits(buf: array<bool>, start: nat, n: nat) returns (ok: bool)
      requires Valid() && start + n <= buf.Length
      modifies `log, w
      ensures ok ==> Valid() && log == Append(old(log), RawBits(buf[start..start + n]))
      ensures !ok ==> !gather && !w.canDump
    {
      hide Valid, Append, RawBits, ToBits, Pow2;
      ghost var all := buf[start..start + n];
      if gather {
        GatherBits(all);
        return true;
      }
      var i := 0;
      NoBits(log);
      assert all[..0] == [];
      while i < n
        invariant 0 <= i <= n && Valid() && buf[start..start + n] == all
        invariant log == Append(old(log), RawBits(all[..i]))
      {
        assert all[i] == buf[start + i];
        OneBit(buf[start + i]);
        ok := EmitBits(if buf[start + i] then 1 else 0, 1);
        if !ok {
          return;
        }
        assert all[..i + 1] == all[..i] + [all[i]];
        RawAppend(all[..i], [all[i]]);
        AppendTwice(old(log), RawBits(all[..i]), RawBits([all[i]]));
        i := i + 1;
      }
      assert all[..n] == all;
      ok := true;
    }

    ghost method GatherBits(bs: BitString)
      requires Valid() && gather
      modifies `log
      ensures Valid() && log == Append(old(log), RawBits(bs))
    {
      TallyBits(counts, log, bs);
      log := Append(log, RawBits(bs));
    }

    /** The marker part of emit_restart: a new segment starts. */
    method EmitMarker(num: nat) returns (ok: bool)
      requires Valid() && num == (|log| - 1) % 8
      modifies `log, w
      ensures ok ==> Valid() && log == old(log) + [[]]
      ensures !ok ==> !gather && !w.canDump
    {
      hide TalliesOf, BytesOf, Writer.Valid, SegmentBytes;
      if gather {
        TallyBits(counts, log, []);
      } else {
        BytesRestart(tabs, w.base, w.seg, log);
        var st := HuffEncoder.EmitRestart(w, num);
        if st != Done {
          return false;
        }
      }
      log := log + [[]];
      ok := true;
    }

    /** flush_bits at the end of an output pass. */
    method FlushBits() returns (ok: bool)
      requires Valid() && !gather
      modifies w
      ensures ok ==> ShapedSlots(tabs) && LogCodable(tabs, log) && w.out == ScanBytes(tabs, log)
      ensures !ok ==> !w.canDump
    {
      hide TalliesOf, LogCodable, TokBits, SegmentBytes, FinishedBytes;
      var st := w.FlushBits();
      ok := st == Done;
      EmptySent();
    }
  }

  lemma {:induction false} NoBits(log: Log)
    ensures Append(log, RawBits([])) == log
  {
    AppendTwice(log, [], []);
  }

  lemma {:induction false} OneBit(b: bool)
    ensures ToBits((if b then 1 else 0) % Pow2(1), 1) == [b]
  {
    assert Pow2(1) == 2;
    assert ToBits(if b then 1 else 0, 1) == ToBits(0, 0) + [b];
  }
}
