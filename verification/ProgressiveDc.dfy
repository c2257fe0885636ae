/** DC scans of progressive mode: what the first scan and the refinement scans
    send (section G.1.2.1 of ITU-T T.81), a decoder after section G.2, and the
    proof that it gets every shifted DC value back. */
module ProgressiveDc {
  import opened JpegLimits
  import opened Arith
  import opened Bits
  import opened HuffTable
  import opened DerivedTables
  import opened BlockCoding
  import opened ScanCoding
  import opened ProgressiveTokens
  import opened ProgressiveBlock
  import opened ProgressiveRoundTrip

  // ----- point transform

  /** Arithmetic shift right: unlike AC values, DC values are rounded down. */
  function Shift(v: int, al: nat): int {
    v / Pow2(al)
  }

  lemma {:induction false} ShiftStep(v: int, al: nat)
    ensures Shift(v, al + 1) == Shift(v, al) / 2
  {
    var p := Pow2(al);
    assert Pow2(al + 1) == 2 * p;
    hide Pow2;
    var q, r := v / p, v % p;
    var h, b := q / 2, q % 2;
    assert v == h * (2 * p) + (b * p + r) by {
      assert q * p == (2 * h + b) * p;
      assert (2 * h + b) * p == h * (2 * p) + b * p;
    }
    assert 0 <= b * p + r < 2 * p by {
      if b == 0 { assert b * p == 0; } else { assert b * p == p; }
    }
    FloorUnique(v, 2 * p, h, b * p + r);
  }

  lemma {:induction false} FloorUnique(v: int, d: nat, q: int, r: nat)
    requires d > 0 && v == q * d + r && r < d
    ensures v / d == q
  {
    var q1, r1 := v / d, v % d;
    assert (q1 - q) * d == r - r1 by {
      MulDiff(q1, q, d);
    }
    if q1 > q {
      MulAtLeast(q1 - q, d);
    } else if q1 < q {
      MulAtLeast(q - q1, d);
      MulDiff(q1, q, d);
      MulDiff(q, q1, d);
    }
  }

  // ----- the encoder

  /** membership gives the component of each block, tbl the table slot of each component. */
  datatype DcScan = DcScan(refine: bool, al: nat, restart: nat, membership: seq<nat>, tbl: seq<nat>)

  predicate ValidDc(sc: DcScan) {
    && (forall b :: 0 <= b < |sc.membership| ==> sc.membership[b] < |sc.tbl|)
    && (forall c :: 0 <= c < |sc.tbl| ==> sc.tbl[c] < NUM_HUFF_TBLS)
  }

  /** A difference as symbol and extra bits. */
  function DiffTokens(tbl: nat, diff: int): seq<Token> {
    var s := Category(diff);
    [Sym(tbl, s)] + RawBits(ToBits(ExtraCode(diff) % Pow2(s), s))
  }

  /** A block whose shifted DC value is w. */
  function DcTokens(sc: DcScan, last: seq<int>, w: int, b: nat): seq<Token>
    requires ValidDc(sc) && |last| == |sc.tbl| && b < |sc.membership|
  {
    var c := sc.membership[b];
    if sc.refine then [Bit(w % 2 == 1)] else DiffTokens(sc.tbl[c], w - last[c])
  }

  function DcLast(sc: DcScan, last: seq<int>, w: int, b: nat): (r: seq<int>)
    requires ValidDc(sc) && |last| == |sc.tbl| && b < |sc.membership|
    ensures |r| == |last|
  {
    if sc.refine then last else last[sc.membership[b] := w]
  }

  /** The blocks of an MCU from the b-th on. */
  function McuTokens(sc: DcScan, last: seq<int>, ws: seq<int>, b: nat): seq<Token>
    requires ValidDc(sc) && |last| == |sc.tbl| && |ws| == |sc.membership| && b <= |ws|
    decreases |ws| - b
  {
    if b == |ws| then [] else DcTokens(sc, last, ws[b], b) + McuTokens(sc, DcLast(sc, last, ws[b], b), ws, b + 1)
  }

  function McuLast(sc: DcScan, last: seq<int>, ws: seq<int>, b: nat): (r: seq<int>)
    requires ValidDc(sc) && |last| == |sc.tbl| && |ws| == |sc.membership| && b <= |ws|
    ensures |r| == |last|
    decreases |ws| - b
  {
    if b == |ws| then last else McuLast(sc, DcLast(sc, last, ws[b], b), ws, b + 1)
  }

  datatype DcState = DcState(log: Log, last: seq<int>, togo: nat)

  function DcStart(sc: DcScan): DcState {
    DcState([[]], ZeroLast(|sc.tbl|), sc.restart)
  }

  function DcRestarted(sc: DcScan, s: DcState): DcState {
    if sc.restart > 0 && s.togo == 0 then DcState(s.log + [[]], ZeroLast(|sc.tbl|), sc.restart) else s
  }

  function DcStep(sc: DcScan, s: DcState, ws: seq<int>): DcState
    requires ValidDc(sc) && |s.last| == |sc.tbl| && |ws| == |sc.membership|
  {
    var s1 := DcRestarted(sc, s);
    DcState(Append(s1.log, McuTokens(sc, s1.last, ws, 0)), McuLast(sc, s1.last, ws, 0),
            if sc.restart > 0 && s1.togo > 0 then s1.togo - 1 else s1.togo)
  }

  predicate ValidValues(sc: DcScan, mcus: seq<seq<int>>) {
    forall i :: 0 <= i < |mcus| ==> |mcus[i]| == |sc.membership|
  }

  function RunDc(sc: DcScan, mcus: seq<seq<int>>): (s: DcState)
    requires ValidDc(sc) && ValidValues(sc, mcus)
    ensures |s.last| == |sc.tbl|
  {
    if mcus == [] then DcStart(sc) else
    DcStep(sc, RunDc(sc, mcus[..|mcus| - 1]), mcus[|mcus| - 1])
  }

  // ----- the decoder

  /** One block: the value, given its prediction or the bits already known. */
  function DecBlock(sc: DcScan, t: HuffTbl, pred: int, known: int, bits: BitString): (int, BitString)
    requires Shaped(t) && LegalCounts(t.bits)
  {
    if sc.refine then
      var (x, rest) := Take(bits, 1);
      (2 * known + x, rest)
    else
      var (s, b1) := NextSym(t, bits);
      if s == 0 then (pred, b1) else
      var (x, b2) := Take(b1, s);
      (pred + Extend(x, s), b2)
  }

  ghost predicate GoodTables(sc: DcScan, ts: seq<HuffTbl>) {
    ValidDc(sc) && |ts| == NUM_HUFF_TBLS
    && forall c :: 0 <= c < |sc.tbl| ==> Shaped(ts[sc.tbl[c]]) && LegalCounts(ts[sc.tbl[c]].bits)
  }

  ghost function DecMcu(sc: DcScan, ts: seq<HuffTbl>, last: seq<int>, known: seq<int>, bits: BitString, b: nat): (r: (seq<int>, seq<int>, BitString))
    requires GoodTables(sc, ts) && |last| == |sc.tbl| && |known| == |sc.membership| && b <= |known|
    ensures |r.0| == |known| - b && |r.1| == |last|
    decreases |known| - b
  {
    if b == |known| then ([], last, bits) else
    var c := sc.membership[b];
    var (w, rest) := DecBlock(sc, ts[sc.tbl[c]], last[c], known[b], bits);
    var (ws, last', rest') := DecMcu(sc, ts, DcLast(sc, last, w, b), known, rest, b + 1);
    ([w] + ws, last', rest')
  }

  datatype DecState = DecState(i: nat, cur: BitString, last: seq<int>, togo: nat)

  function SegmentAt(ds: seq<BitString>, i: nat): BitString {
    if i < |ds| then ds[i] else []
  }

  function DecRestarted(sc: DcScan, ds: seq<BitString>, s: DecState): DecState {
    if sc.restart > 0 && s.togo == 0
    then DecState(s.i + 1, SegmentAt(ds, s.i + 1), ZeroLast(|sc.tbl|), sc.restart) else s
  }

  /** All MCUs of a scan; known gives what earlier scans delivered. */
  ghost function DecRun(sc: DcScan, ts: seq<HuffTbl>, known: seq<seq<int>>, ds: seq<BitString>): (r: (seq<seq<int>>, DecState))
    requires GoodTables(sc, ts) && ValidValues(sc, known)
    ensures |r.1.last| == |sc.tbl| && |r.0| == |known|
  {
    if known == [] then ([], DecState(0, SegmentAt(ds, 0), ZeroLast(|sc.tbl|), sc.restart)) else
    var n := |known| - 1;
    var (mcus, s) := DecRun(sc, ts, known[..n], ds);
    var s1 := DecRestarted(sc, ds, s);
    var (ws, last, cur) := DecMcu(sc, ts, s1.last, known[n], s1.cur, 0);
    (mcus + [ws], DecState(s1.i, cur, last, if sc.restart > 0 && s1.togo > 0 then s1.togo - 1 else s1.togo))
  }

  // ----- the round trip

  /** The value without its lowest bit. */
  function Floors(ws: seq<int>): (r: seq<int>)
    ensures |r| == |ws| && forall b :: 0 <= b < |ws| ==> r[b] == ws[b] / 2
  {
    seq(|ws|, b requires 0 <= b < |ws| => ws[b] / 2)
  }

  function KnownDc(mcus: seq<seq<int>>): (r: seq<seq<int>>)
    ensures |r| == |mcus| && forall i :: 0 <= i < |mcus| ==> r[i] == Floors(mcus[i])
  {
    seq(|mcus|, i requires 0 <= i < |mcus| => Floors(mcus[i]))
  }

  /** Encoder and decoder tables are derived from the same tables. */
  ghost predicate SameTables(sc: DcScan, tabs: seq<CDerived>, ts: seq<HuffTbl>) {
    && ValidDc(sc) && |tabs| == |ts| == NUM_HUFF_TBLS && ShapedSlots(tabs)
    && forall c :: 0 <= c < |sc.tbl| ==> Encodes(tabs[sc.tbl[c]], ts[sc.tbl[c]])
  }

  lemma {:induction false} SameAreGood(sc: DcScan, tabs: seq<CDerived>, ts: seq<HuffTbl>)
    requires SameTables(sc, tabs, ts)
    ensures GoodTables(sc, ts)
  {
  }

  lemma {:induction false} DiffBack(tabs: seq<CDerived>, tbl: nat, t: HuffTbl, diff: int, rest: BitString)
    requires ShapedSlots(tabs) && tbl < |tabs| && Encodes(tabs[tbl], t) && TokCodable(tabs, DiffTokens(tbl, diff))
    ensures Shaped(t) && LegalCounts(t.bits)
    ensures var (s, b1) := NextSym(t, TokBits(tabs, DiffTokens(tbl, diff)) + rest);
            s == Category(diff) && (if s == 0 then diff == 0 && b1 == rest else Extend(Take(b1, s).0, s) == diff && Take(b1, s).1 == rest)
  {
    var s := Category(diff);
    var x := ToBits(ExtraCode(diff) % Pow2(s), s);
    hide Encodes, LegalCounts, NextSym, Take, TokBits, Extend, ExtraCode, Pow2, ToBits;
    TableIs(tabs[tbl], t);
    CodableSplit(tabs, [Sym(tbl, s)], RawBits(x));
    assert TokenCodable(tabs, [Sym(tbl, s)][0]);
    OneSymbol(tabs, tbl, s);
    RawTokBits(tabs, x);
    TokBitsAppend(tabs, [Sym(tbl, s)], RawBits(x));
    assert (CodeBits(tabs[tbl], s) + x) + rest == CodeBits(tabs[tbl], s) + (x + rest);
    NextSymBack(tabs[tbl], t, s, x + rest);
    if diff == 0 {
      NoBitsLeft(x, rest);
    } else {
      TakeExtra(diff, rest);
    }
  }

  lemma {:induction false} TableIs(c: CDerived, t: HuffTbl)
    requires Encodes(c, t)
    ensures Shaped(t) && LegalCounts(t.bits)
  {
  }

  lemma {:induction false} NoBitsLeft(x: BitString, rest: BitString)
    ensures |x| == 0 ==> x + rest == rest
    ensures Category(0) == 0
  {
  }

  lemma {:induction false} BlockBack(sc: DcScan, tabs: seq<CDerived>, ts: seq<HuffTbl>, last: seq<int>, w: int, b: nat, rest: BitString)
    requires SameTables(sc, tabs, ts) && |last| == |sc.tbl| && b < |sc.membership| && TokCodable(tabs, DcTokens(sc, last, w, b))
    ensures GoodTables(sc, ts)
    ensures var c := sc.membership[b];
            DecBlock(sc, ts[sc.tbl[c]], last[c], w / 2, TokBits(tabs, DcTokens(sc, last, w, b)) + rest) == (w, rest)
  {
    hide *;
    SameAreGood(sc, tabs, ts);
    Parts(sc, tabs, ts);
    BlockTable(sc, tabs, ts, b);
    TokensAre(sc, last, w, b);
    var c := sc.membership[b];
    if sc.refine {
      BitBack(sc, tabs, ts[sc.tbl[c]], last[c], w, rest);
    } else {
      DifferenceBack(sc, tabs, sc.tbl[c], ts[sc.tbl[c]], last[c], w, rest);
    }
  }

  lemma {:induction false} BlockTable(sc: DcScan, tabs: seq<CDerived>, ts: seq<HuffTbl>, b: nat)
    requires SameTables(sc, tabs, ts) && b < |sc.membership|
    ensures var c := sc.membership[b];
            c < |sc.tbl| && sc.tbl[c] < |ts| == |tabs| && Encodes(tabs[sc.tbl[c]], ts[sc.tbl[c]])
            && Shaped(ts[sc.tbl[c]]) && LegalCounts(ts[sc.tbl[c]].bits)
  {
    hide LegalCounts;
  }

  lemma {:induction false} TokensAre(sc: DcScan, last: seq<int>, w: int, b: nat)
    requires ValidDc(sc) && |last| == |sc.tbl| && b < |sc.membership|
    ensures var c := sc.membership[b];
            DcTokens(sc, last, w, b) == if sc.refine then [Bit(w % 2 == 1)] else DiffTokens(sc.tbl[c], w - last[c])
  {
    hide DiffTokens;
  }

  lemma {:induction false} BitBack(sc: DcScan, tabs: seq<CDerived>, t: HuffTbl, pred: int, w: int, rest: BitString)
    requires ShapedSlots(tabs) && sc.refine && Shaped(t) && LegalCounts(t.bits) && TokCodable(tabs, [Bit(w % 2 == 1)])
    ensures DecBlock(sc, t, pred, w / 2, TokBits(tabs, [Bit(w % 2 == 1)]) + rest) == (w, rest)
  {
    hide TokBits, NextSym, Take, Extend, LegalCounts, ShapedSlots;
    OneRawBit(tabs, w % 2 == 1);
    TakeBit(w % 2 == 1, rest);
  }

  lemma {:induction false} DifferenceBack(sc: DcScan, tabs: seq<CDerived>, tbl: nat, t: HuffTbl, pred: int, w: int, rest: BitString)
    requires ShapedSlots(tabs) && !sc.refine && tbl < |tabs| && Encodes(tabs[tbl], t) && Shaped(t) && LegalCounts(t.bits)
    requires TokCodable(tabs, DiffTokens(tbl, w - pred))
    ensures DecBlock(sc, t, pred, w / 2, TokBits(tabs, DiffTokens(tbl, w - pred)) + rest) == (w, rest)
  {
    hide TokBits, NextSym, Take, Extend, LegalCounts, Encodes, DiffTokens, Category, ShapedSlots, TokCodable;
    DiffBack(tabs, tbl, t, w - pred, rest);
  }

  lemma {:induction false} OneRawBit(tabs: seq<CDerived>, bit: bool)
    requires ShapedSlots(tabs)
    ensures TokCodable(tabs, [Bit(bit)]) && TokBits(tabs, [Bit(bit)]) == [bit]
  {
    assert RawBits([bit]) == [Bit(bit)];
    hide TokBits;
    RawTokBits(tabs, [bit]);
  }

  lemma {:induction false} DecMcuStep(sc: DcScan, ts: seq<HuffTbl>, last: seq<int>, known: seq<int>, bits: BitString, b: nat, w: int, rest: BitString)
    requires GoodTables(sc, ts) && |last| == |sc.tbl| && |known| == |sc.membership| && b < |known|
    requires DecBlock(sc, ts[sc.tbl[sc.membership[b]]], last[sc.membership[b]], known[b], bits) == (w, rest)
    ensures var (ws, last', rest') := DecMcu(sc, ts, DcLast(sc, last, w, b), known, rest, b + 1);
            DecMcu(sc, ts, last, known, bits, b) == ([w] + ws, last', rest')
  {
    hide DecBlock, LegalCounts;
  }

  /** The tokens of an MCU are those of its first block and of the others. */
  lemma {:induction false} McuSplit(sc: DcScan, tabs: seq<CDerived>, last: seq<int>, ws: seq<int>, b: nat, rest: BitString)
    requires ShapedSlots(tabs) && ValidDc(sc) && |last| == |sc.tbl| && |ws| == |sc.membership| && b < |ws|
    requires TokCodable(tabs, McuTokens(sc, last, ws, b))
    ensures var here, more := DcTokens(sc, last, ws[b], b), McuTokens(sc, DcLast(sc, last, ws[b], b), ws, b + 1);
            && TokCodable(tabs, here) && TokCodable(tabs, more)
            && TokBits(tabs, McuTokens(sc, last, ws, b)) + rest == TokBits(tabs, here) + (TokBits(tabs, more) + rest)
  {
    hide TokBits, TokCodable, DcTokens, DcLast, ShapedSlots;
    var here, more := DcTokens(sc, last, ws[b], b), McuTokens(sc, DcLast(sc, last, ws[b], b), ws, b + 1);
    CodableSplit(tabs, here, more);
    TokBitsAppend(tabs, here, more);
    assert (TokBits(tabs, here) + TokBits(tabs, more)) + rest == TokBits(tabs, here) + (TokBits(tabs, more) + rest);
  }

  lemma {:induction false} McuBack(sc: DcScan, tabs: seq<CDerived>, ts: seq<HuffTbl>, last: seq<int>, ws: seq<int>, b: nat, rest: BitString)
    requires SameTables(sc, tabs, ts) && |last| == |sc.tbl| && |ws| == |sc.membership| && b <= |ws|
    requires TokCodable(tabs, McuTokens(sc, last, ws, b))
    ensures GoodTables(sc, ts)
    ensures DecMcu(sc, ts, last, Floors(ws), TokBits(tabs, McuTokens(sc, last, ws, b)) + rest, b) == (ws[b..], McuLast(sc, last, ws, b), rest)
    decreases |ws| - b
  {
    SameAreGood(sc, tabs, ts);
    if b == |ws| {
      McuEnd(sc, tabs, ts, last, ws, rest);
    } else {
      hide *;
      Parts(sc, tabs, ts);
      var last1 := DcLast(sc, last, ws[b], b);
      McuSplit(sc, tabs, last, ws, b, rest);
      var here, more := TokBits(tabs, DcTokens(sc, last, ws[b], b)), TokBits(tabs, McuTokens(sc, last1, ws, b + 1)) + rest;
      BlockBack(sc, tabs, ts, last, ws[b], b, more);
      DecMcuStep(sc, ts, last, Floors(ws), here + more, b, ws[b], more);
      McuBack(sc, tabs, ts, last1, ws, b + 1, rest);
      LastStep(sc, last, ws, b);
    }
  }

  lemma {:induction false} Parts(sc: DcScan, tabs: seq<CDerived>, ts: seq<HuffTbl>)
    requires SameTables(sc, tabs, ts)
    ensures ValidDc(sc) && ShapedSlots(tabs) && |ts| == NUM_HUFF_TBLS
    ensures forall b :: 0 <= b < |sc.membership| ==> sc.membership[b] < |sc.tbl| && sc.tbl[sc.membership[b]] < NUM_HUFF_TBLS
  {
  }

  lemma {:induction false} LastStep(sc: DcScan, last: seq<int>, ws: seq<int>, b: nat)
    requires ValidDc(sc) && |last| == |sc.tbl| && |ws| == |sc.membership| && b < |ws|
    ensures McuLast(sc, last, ws, b) == McuLast(sc, DcLast(sc, last, ws[b], b), ws, b + 1)
    ensures [ws[b]] + ws[b + 1..] == ws[b..]
  {
  }

  lemma {:induction false} McuEnd(sc: DcScan, tabs: seq<CDerived>, ts: seq<HuffTbl>, last: seq<int>, ws: seq<int>, rest: BitString)
    requires SameTables(sc, tabs, ts) && GoodTables(sc, ts) && |last| == |sc.tbl| && |ws| == |sc.membership|
    ensures var b := |ws|; TokCodable(tabs, McuTokens(sc, last, ws, b))
    ensures var b := |ws|;
            DecMcu(sc, ts, last, Floors(ws), TokBits(tabs, McuTokens(sc, last, ws, b)) + rest, b) == (ws[b..], McuLast(sc, last, ws, b), rest)
  {
    EmptyTokens(tabs);
    hide TokBits;
    var b := |ws|;
    assert McuTokens(sc, last, ws, b) == [] && ws[b..] == [];
    assert TokBits(tabs, []) + rest == rest;
  }

  lemma {:induction false} HeldBefore(tabs: seq<CDerived>, log: Log, toks: seq<Token>, ds: seq<BitString>, x: BitString)
    requires ShapedSlots(tabs) && Held(tabs, Append(log, toks), ds, x)
    ensures TokCodable(tabs, toks) && Held(tabs, log, ds, TokBits(tabs, toks) + x)
  {
    hide TokBits, TokCodable;
    var j := |log| - 1;
    var all := Append(log, toks);
    LogCodableAppend(tabs, log, toks);
    assert forall i :: 0 <= i < j ==> all[i] == log[i];
    assert all[j] == log[j] + toks;
    TokBitsAppend(tabs, log[j], toks);
    assert (TokBits(tabs, log[j]) + TokBits(tabs, toks)) + x == TokBits(tabs, log[j]) + (TokBits(tabs, toks) + x);
  }

  lemma {:induction false} HeldRestart(tabs: seq<CDerived>, log: Log, ds: seq<BitString>, x: BitString) returns (pad: BitString)
    requires ShapedSlots(tabs) && Held(tabs, log + [[]], ds, x)
    ensures Held(tabs, log, ds, pad) && |log| < |ds| && ds[|log|] == x
  {
    hide TokBits, TokCodable;
    var j := |log| - 1;
    LogCodableAppend(tabs, log, []);
    EmptyTokens(tabs);
    assert forall i :: 0 <= i <= j ==> (log + [[]])[i] == log[i];
    assert (log + [[]])[j + 1] == [];
    assert TokBits(tabs, (log + [[]])[j]) <= ds[j];
    pad := ds[j][|TokBits(tabs, log[j])|..];
  }

  lemma {:induction false} DecRunUnfold(sc: DcScan, ts: seq<HuffTbl>, mcus: seq<seq<int>>, ds: seq<BitString>)
    requires GoodTables(sc, ts) && ValidValues(sc, mcus) && mcus != []
    ensures var n := |mcus| - 1;
            var (values, s) := DecRun(sc, ts, KnownDc(mcus[..n]), ds);
            var s1 := DecRestarted(sc, ds, s);
            var (ws, last, cur) := DecMcu(sc, ts, s1.last, Floors(mcus[n]), s1.cur, 0);
            var togo := if sc.restart > 0 && s1.togo > 0 then s1.togo - 1 else s1.togo;
            DecRun(sc, ts, KnownDc(mcus), ds) == (values + [ws], DecState(s1.i, cur, last, togo))
  {
    hide DecMcu, GoodTables, DecRestarted;
    assert KnownDc(mcus)[..|mcus| - 1] == KnownDc(mcus[..|mcus| - 1]);
  }

  /** A decoder in step before a restart is in step after it. */
  lemma {:induction false} DcRestartInStep(sc: DcScan, tabs: seq<CDerived>, s0: DcState, ds: seq<BitString>, cur: BitString) returns (cur0: BitString)
    requires ShapedSlots(tabs) && Held(tabs, DcRestarted(sc, s0).log, ds, cur)
    ensures Held(tabs, s0.log, ds, cur0)
    ensures var s1 := DcRestarted(sc, s0);
            DecRestarted(sc, ds, DecState(|s0.log| - 1, cur0, s0.last, s0.togo)) == DecState(|s1.log| - 1, cur, s1.last, s1.togo)
  {
    hide Held;
    cur0 := cur;
    if sc.restart > 0 && s0.togo == 0 {
      cur0 := HeldRestart(tabs, s0.log, ds, cur);
    }
  }

  lemma {:induction false} StepParts(sc: DcScan, s0: DcState, ws: seq<int>)
    requires ValidDc(sc) && |s0.last| == |sc.tbl| && |ws| == |sc.membership|
    ensures var s, s1 := DcStep(sc, s0, ws), DcRestarted(sc, s0);
            && |s1.last| == |sc.tbl| && s.log == Append(s1.log, McuTokens(sc, s1.last, ws, 0)) && s.last == McuLast(sc, s1.last, ws, 0)
            && |s.log| == |s1.log| && s.togo == if sc.restart > 0 && s1.togo > 0 then s1.togo - 1 else s1.togo
  {
  }

  lemma {:induction false} RunDcUnfold(sc: DcScan, mcus: seq<seq<int>>)
    requires ValidDc(sc) && ValidValues(sc, mcus) && mcus != []
    ensures var n := |mcus| - 1;
            RunDc(sc, mcus) == DcStep(sc, RunDc(sc, mcus[..n]), mcus[n])
  {
  }

  lemma {:induction false} NothingDecoded(sc: DcScan, tabs: seq<CDerived>, ts: seq<HuffTbl>, mcus: seq<seq<int>>, ds: seq<BitString>, x: BitString)
    requires GoodTables(sc, ts) && ShapedSlots(tabs) && mcus == [] && Held(tabs, RunDc(sc, mcus).log, ds, x)
    ensures var s := RunDc(sc, mcus);
            DecRun(sc, ts, KnownDc(mcus), ds) == (mcus, DecState(|s.log| - 1, x, s.last, s.togo))
  {
    EmptyTokens(tabs);
    hide GoodTables, TokBits;
    assert DcStart(sc).log[0] == [];
    assert ds[0] == TokBits(tabs, []) + x == x;
    assert KnownDc([]) == [];
  }

  /** Holding the log of a run means holding that of all its MCUs but one, with the bits of
      that one left over. */
  lemma {:induction false} RunHolds(sc: DcScan, tabs: seq<CDerived>, mcus: seq<seq<int>>, ds: seq<BitString>, x: BitString)
      returns (cur0: BitString)
    requires ShapedSlots(tabs) && ValidDc(sc) && ValidValues(sc, mcus) && mcus != [] && Held(tabs, RunDc(sc, mcus).log, ds, x)
    ensures var n := |mcus| - 1; ValidValues(sc, mcus[..n]) && Held(tabs, RunDc(sc, mcus[..n]).log, ds, cur0)
    ensures var n := |mcus| - 1; var s0 := RunDc(sc, mcus[..n]); var s1 := DcRestarted(sc, s0);
            && |mcus[n]| == |sc.membership| && |s1.last| == |sc.tbl| && TokCodable(tabs, McuTokens(sc, s1.last, mcus[n], 0))
            && DecRestarted(sc, ds, DecState(|s0.log| - 1, cur0, s0.last, s0.togo))
            == DecState(|s1.log| - 1, TokBits(tabs, McuTokens(sc, s1.last, mcus[n], 0)) + x, s1.last, s1.togo)
  {
    hide *;
    var n := |mcus| - 1;
    ValuesFront(sc, mcus);
    RunDcUnfold(sc, mcus);
    var s0 := RunDc(sc, mcus[..n]);
    StepParts(sc, s0, mcus[n]);
    var s1 := DcRestarted(sc, s0);
    var toks := McuTokens(sc, s1.last, mcus[n], 0);
    HeldBefore(tabs, s1.log, toks, ds, x);
    cur0 := DcRestartInStep(sc, tabs, s0, ds, TokBits(tabs, toks) + x);
  }

  /** The decoder follows the encoder through every MCU and restart of the scan. */
  lemma {:induction false} DcRunDecodes(sc: DcScan, tabs: seq<CDerived>, ts: seq<HuffTbl>, mcus: seq<seq<int>>, ds: seq<BitString>, x: BitString)
    requires SameTables(sc, tabs, ts) && ValidValues(sc, mcus) && Held(tabs, RunDc(sc, mcus).log, ds, x)
    ensures GoodTables(sc, ts)
    ensures var s := RunDc(sc, mcus);
            DecRun(sc, ts, KnownDc(mcus), ds) == (mcus, DecState(|s.log| - 1, x, s.last, s.togo))
    decreases |mcus|
  {
    hide *;
    SameAreGood(sc, tabs, ts);
    Parts(sc, tabs, ts);
    if mcus == [] {
      NothingDecoded(sc, tabs, ts, mcus, ds, x);
    } else {
      var n := |mcus| - 1;
      var cur0 := RunHolds(sc, tabs, mcus, ds, x);
      var s0 := RunDc(sc, mcus[..n]);
      DcRunDecodes(sc, tabs, ts, mcus[..n], ds, cur0);
      var s1 := DcRestarted(sc, s0);
      McuBack(sc, tabs, ts, s1.last, mcus[n], 0, x);
      RunDcUnfold(sc, mcus);
      StepParts(sc, s0, mcus[n]);
      WholeMcu(mcus[n]);
      var cur := TokBits(tabs, McuTokens(sc, s1.last, mcus[n], 0)) + x;
      NextDecoded(sc, ts, mcus, ds, DecState(|s0.log| - 1, cur0, s0.last, s0.togo), DecState(|s1.log| - 1, cur, s1.last, s1.togo),
                  McuLast(sc, s1.last, mcus[n], 0), x);
    }
  }

  lemma {:induction false} WholeMcu(ws: seq<int>)
    ensures ws[0..] == ws
  {
  }

  /** One more MCU. */
  lemma {:induction false} NextDecoded(sc: DcScan, ts: seq<HuffTbl>, mcus: seq<seq<int>>, ds: seq<BitString>, d0: DecState, d1: DecState,
      last: seq<int>, x: BitString)
    requires GoodTables(sc, ts) && ValidValues(sc, mcus) && mcus != [] && |d1.last| == |sc.tbl| && ValidValues(sc, mcus[..|mcus| - 1])
    requires var n := |mcus| - 1; DecRun(sc, ts, KnownDc(mcus[..n]), ds) == (mcus[..n], d0) && DecRestarted(sc, ds, d0) == d1
    requires var n := |mcus| - 1; DecMcu(sc, ts, d1.last, Floors(mcus[n]), d1.cur, 0) == (mcus[n], last, x)
    ensures var togo := if sc.restart > 0 && d1.togo > 0 then d1.togo - 1 else d1.togo;
            DecRun(sc, ts, KnownDc(mcus), ds) == (mcus, DecState(d1.i, x, last, togo))
  {
    hide *;
    DecRunUnfold(sc, ts, mcus, ds);
    ValuesFront(sc, mcus);
  }

  lemma {:induction false} ValuesFront(sc: DcScan, mcus: seq<seq<int>>)
    requires ValidValues(sc, mcus) && mcus != []
    ensures var n := |mcus| - 1;
            ValidValues(sc, mcus[..n]) && |mcus[n]| == |sc.membership| && mcus[n][0..] == mcus[n] && mcus[..n] + [mcus[n]] == mcus
  {
  }

  /** Decoding the bytes of a DC scan, first or refinement, closed by any marker that is not
      a restart, gives every value back; all segments are used and only padding is left. */
  lemma {:induction false} DcScanLossless(sc: DcScan, tabs: seq<CDerived>, ts: seq<HuffTbl>, mcus: seq<seq<int>>,
      data: seq<UInt8>, m: UInt8, rest: seq<UInt8>)
    requires SameTables(sc, tabs, ts) && ValidValues(sc, mcus) && LogCodable(tabs, RunDc(sc, mcus).log)
    requires m != 0 && m != 0xFF && !(RST0 <= m < RST0 + 8)
    requires data == ScanBytes(tabs, RunDc(sc, mcus).log) + [0xFF, m] + rest
    ensures GoodTables(sc, ts)
    ensures var (values, d) := DecRun(sc, ts, KnownDc(mcus), SegmentsOf(data, 0));
            values == mcus && d.i == |SegmentsOf(data, 0)| - 1 && |d.cur| <= 7
  {
    SameAreGood(sc, tabs, ts);
    assert ShapedSlots(tabs);
    hide TokBits, TokCodable, SegmentsOf, SameTables, GoodTables, DecRun, RunDc, ShapedSlots, Held, LogCodable, ValidDc;
    var log := RunDc(sc, mcus).log;
    var ds := SegmentsOf(data, 0);
    var pad := LogHeld(tabs, log, data, m, rest);
    DcRunDecodes(sc, tabs, ts, mcus, ds, pad);
  }

  // ----- successive scans

  function ShiftAll(mcus: seq<seq<int>>, al: nat): (r: seq<seq<int>>)
    ensures |r| == |mcus| && forall i :: 0 <= i < |mcus| ==> r[i] == ShiftEach(mcus[i], al)
  {
    seq(|mcus|, i requires 0 <= i < |mcus| => ShiftEach(mcus[i], al))
  }

  function ShiftEach(vs: seq<int>, al: nat): (r: seq<int>)
    ensures |r| == |vs| && forall b :: 0 <= b < |vs| ==> r[b] == Shift(vs[b], al)
  {
    seq(|vs|, b requires 0 <= b < |vs| => Shift(vs[b], al))
  }

  /** A refinement scan builds on exactly what the scan at one bit less gave, and at bit 0
      the values are the DC coefficients. */
  lemma {:induction false} DcSteps(values: seq<seq<int>>, al: nat)
    ensures KnownDc(ShiftAll(values, al)) == ShiftAll(values, al + 1)
    ensures ShiftAll(values, 0) == values
  {
    hide Shift;
    forall i, b | 0 <= i < |values| && 0 <= b < |values[i]|
      ensures Shift(values[i][b], al) / 2 == Shift(values[i][b], al + 1) && Shift(values[i][b], 0) == values[i][b]
    {
      ShiftStep(values[i][b], al);
      NoShift(values[i][b]);
    }
    forall i | 0 <= i < |values|
      ensures Floors(ShiftEach(values[i], al)) == ShiftEach(values[i], al + 1) && ShiftEach(values[i], 0) == values[i]
    {
    }
  }

  lemma {:induction false} NoShift(v: int)
    ensures Shift(v, 0) == v
  {
    assert Pow2(0) == 1;
  }
}
