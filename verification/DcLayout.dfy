/** What a progressive DC scan sends, said of its blocks alone: how it is cut into segments, and
    what each shifted DC value is predicted from. */
module DcLayout {
  import opened JpegLimits
  import opened Arith
  import opened Bits
  import opened BlockCoding
  import opened ScanCoding
  import opened ProgressiveTokens
  import opened ProgressiveDc

  /** Rounded down, whatever the sign. */
  lemma {:induction false} ShiftRoundsDown(v: int, al: nat)
    ensures Shift(v, al) * Pow2(al) <= v < Shift(v, al) * Pow2(al) + Pow2(al)
  {
    hide Pow2;
    var p := Pow2(al);
    assert v == v / p * p + v % p;
  }

  /** The category of the difference, then the difference, or the one's complement of its magnitude. */
  lemma {:induction false} DifferenceTokens(tbl: nat, d: int)
    ensures var s := NBits(Abs(d));
            && Abs(d) < Pow2(s) && (d != 0 ==> s > 0 && Pow2(s - 1) <= Abs(d)) && (d == 0 ==> s == 0)
            && DiffTokens(tbl, d) == [Sym(tbl, s)] + RawBits(if d >= 0 then ToBits(d, s) else ToBits(Pow2(s) - 1 + d, s))
  {
    hide RawBits;
    if d == 0 {
      assert NBits(Abs(d)) == 0 && Pow2(0) == 1 && ExtraCode(d) % Pow2(0) == 0;
    } else {
      hide ToBits, Pow2, NBits;
      ExtraBitsOf(d);
    }
  }

  /** A block's shifted DC value and the scan component it belongs to. */
  datatype Coded = Coded(comp: nat, w: int)

  function BlocksFrom(sc: DcScan, ws: seq<int>, b: nat): (r: seq<Coded>)
    requires |ws| == |sc.membership| && b <= |ws|
    ensures |r| == |ws| - b
  {
    seq(|ws| - b, i requires 0 <= i < |ws| - b => Coded(sc.membership[b + i], ws[b + i]))
  }

  /** The blocks of a run of MCUs in coding order. */
  function BlocksOf(sc: DcScan, mcus: seq<seq<int>>): seq<Coded>
    requires ValidValues(sc, mcus)
  {
    if mcus == [] then [] else BlocksOf(sc, mcus[..|mcus| - 1]) + BlocksFrom(sc, mcus[|mcus| - 1], 0)
  }

  /** The value of the latest block of component c; 0 if there is none yet. */
  function Latest(blocks: seq<Coded>, c: nat): int {
    if blocks == [] then 0
    else if blocks[|blocks| - 1].comp == c then blocks[|blocks| - 1].w
    else Latest(blocks[..|blocks| - 1], c)
  }

  lemma {:induction false} LatestIs(blocks: seq<Coded>, c: nat, i: nat)
    requires i < |blocks| && blocks[i].comp == c
    requires forall j :: i < j < |blocks| ==> blocks[j].comp != c
    ensures Latest(blocks, c) == blocks[i].w
    decreases |blocks|
  {
    if i < |blocks| - 1 {
      LatestIs(blocks[..|blocks| - 1], c, i);
    }
  }

  /** A refinement scan sends the low bit of each value; a first scan its difference from the
      latest value of the same component. */
  function TokensOf(sc: DcScan, blocks: seq<Coded>): seq<Token> {
    if blocks == [] then [] else
    var front, x := blocks[..|blocks| - 1], blocks[|blocks| - 1];
    TokensOf(sc, front) +
    if sc.refine then [Bit(x.w % 2 == 1)]
    else if x.comp < |sc.tbl| then DiffTokens(sc.tbl[x.comp], x.w - Latest(front, x.comp))
    else []
  }

  ghost predicate Predicts(sc: DcScan, last: seq<int>, blocks: seq<Coded>) {
    |last| == |sc.tbl| && (!sc.refine ==> forall c :: 0 <= c < |last| ==> last[c] == Latest(blocks, c))
  }

  lemma {:induction false} BlockLayout(sc: DcScan, last: seq<int>, ws: seq<int>, b: nat, blocks: seq<Coded>)
    requires ValidDc(sc) && |ws| == |sc.membership| && b < |ws| && Predicts(sc, last, blocks)
    ensures var next := blocks + [Coded(sc.membership[b], ws[b])];
            && Predicts(sc, DcLast(sc, last, ws[b], b), next)
            && TokensOf(sc, next) == TokensOf(sc, blocks) + DcTokens(sc, last, ws[b], b)
  {
    hide DiffTokens;
    var next := blocks + [Coded(sc.membership[b], ws[b])];
    assert next[..|blocks|] == blocks;
  }

  lemma {:induction false} McuLayout(sc: DcScan, last: seq<int>, ws: seq<int>, b: nat, blocks: seq<Coded>)
    requires ValidDc(sc) && |ws| == |sc.membership| && b <= |ws| && Predicts(sc, last, blocks)
    ensures var more := blocks + BlocksFrom(sc, ws, b);
            && Predicts(sc, McuLast(sc, last, ws, b), more)
            && TokensOf(sc, blocks) + McuTokens(sc, last, ws, b) == TokensOf(sc, more)
    decreases |ws| - b
  {
    hide DcTokens, DcLast, Predicts, TokensOf;
    if b == |ws| {
      assert blocks + BlocksFrom(sc, ws, b) == blocks;
    } else {
      var next := blocks + [Coded(sc.membership[b], ws[b])];
      BlockLayout(sc, last, ws, b, blocks);
      assert Predicts(sc, last, blocks) ==> |last| == |sc.tbl| by { PredictsAll(sc, last, blocks); }
      McuLayout(sc, DcLast(sc, last, ws[b], b), ws, b + 1, next);
      assert blocks + BlocksFrom(sc, ws, b) == next + BlocksFrom(sc, ws, b + 1);
      var h, x, y := TokensOf(sc, blocks), DcTokens(sc, last, ws[b], b), McuTokens(sc, DcLast(sc, last, ws[b], b), ws, b + 1);
      assert h + (x + y) == (h + x) + y;
    }
  }

  lemma {:induction false} PredictsAll(sc: DcScan, last: seq<int>, blocks: seq<Coded>)
    requires Predicts(sc, last, blocks)
    ensures |last| == |sc.tbl|
  {
  }

  // ----- segments

  /** Segment i holds the blocks of MCUs i * r, ..., i * r + r - 1. */
  ghost predicate SegmentIs(sc: DcScan, mcus: seq<seq<int>>, i: nat, toks: seq<Token>)
    requires ValidValues(sc, mcus)
  {
    var r := sc.restart;
    0 <= i * r <= i * r + r <= |mcus| && toks == TokensOf(sc, BlocksOf(sc, mcus[i * r..i * r + r]))
  }

  /** m whole segments, and an open one with the rest of the MCUs. */
  ghost predicate LaidOut(sc: DcScan, mcus: seq<seq<int>>, s: DcState, m: nat)
    requires ValidValues(sc, mcus)
  {
    var r := sc.restart;
    && |s.log| == m + 1 && 0 <= m * r <= |mcus|
    && (r > 0 ==> m * r < |mcus| <= m * r + r && s.togo + |mcus| == m * r + r)
    && (r == 0 ==> m == 0)
    && (forall i :: 0 <= i < m ==> SegmentIs(sc, mcus, i, s.log[i]))
    && var open := BlocksOf(sc, mcus[m * r..]);
       Predicts(sc, s.last, open) && s.log[m] == TokensOf(sc, open)
  }

  lemma {:induction false} SegmentStays(sc: DcScan, mcus: seq<seq<int>>, x: seq<int>, i: nat, toks: seq<Token>)
    requires ValidValues(sc, mcus) && |x| == |sc.membership| && SegmentIs(sc, mcus, i, toks)
    ensures ValidValues(sc, mcus + [x]) && SegmentIs(sc, mcus + [x], i, toks)
  {
    hide TokensOf, BlocksOf;
    var r := sc.restart;
    assert (mcus + [x])[i * r..i * r + r] == mcus[i * r..i * r + r];
  }

  /** One MCU after run in the open segment. */
  lemma {:induction false} StepLayout(sc: DcScan, s: DcState, run: seq<seq<int>>, ws: seq<int>)
    requires ValidDc(sc) && ValidValues(sc, run) && |ws| == |sc.membership|
    requires Predicts(sc, s.last, BlocksOf(sc, run)) && s.log[|s.log| - 1] == TokensOf(sc, BlocksOf(sc, run))
    requires |s.last| == |sc.tbl| && !(sc.restart > 0 && s.togo == 0)
    ensures var s2 := DcStep(sc, s, ws);
            && |s2.log| == |s.log| && s2.togo == (if sc.restart > 0 then s.togo - 1 else s.togo)
            && (forall i :: 0 <= i < |s.log| - 1 ==> s2.log[i] == s.log[i])
            && ValidValues(sc, run + [ws])
            && var open := BlocksOf(sc, run + [ws]);
               Predicts(sc, s2.last, open) && s2.log[|s.log| - 1] == TokensOf(sc, open)
  {
    hide TokensOf, McuTokens, McuLast, Predicts;
    assert (run + [ws])[..|run|] == run;
    McuLayout(sc, s.last, ws, 0, BlocksOf(sc, run));
  }

  lemma {:induction false} Fresh(sc: DcScan)
    ensures ValidValues(sc, []) && BlocksOf(sc, []) == [] && TokensOf(sc, []) == []
    ensures Predicts(sc, ZeroLast(|sc.tbl|), [])
  {
  }

  lemma {:induction false} FirstLaidOut(sc: DcScan, ws: seq<int>)
    requires ValidDc(sc) && |ws| == |sc.membership|
    ensures ValidValues(sc, [ws]) && LaidOut(sc, [ws], DcStep(sc, DcStart(sc), ws), 0)
  {
    hide TokensOf, McuTokens, McuLast, Predicts, DcStep, BlocksOf;
    Fresh(sc);
    StepLayout(sc, DcStart(sc), [], ws);
    assert [] + [ws] == [ws] == [ws][0..];
  }

  lemma {:induction false} NextLaidOut(sc: DcScan, mcus: seq<seq<int>>, s0: DcState, ws: seq<int>, m: nat) returns (m': nat)
    requires ValidDc(sc) && ValidValues(sc, mcus) && |ws| == |sc.membership| && |s0.last| == |sc.tbl|
    requires LaidOut(sc, mcus, s0, m)
    ensures ValidValues(sc, mcus + [ws]) && LaidOut(sc, mcus + [ws], DcStep(sc, s0, ws), m')
  {
    hide TokensOf, McuTokens, McuLast, Predicts, BlocksOf, SegmentIs, DcStep;
    var r, all := sc.restart, mcus + [ws];
    var s1 := DcRestarted(sc, s0);
    forall i | 0 <= i < m
      ensures SegmentIs(sc, all, i, s0.log[i])
    {
      SegmentStays(sc, mcus, ws, i, s0.log[i]);
    }
    if r > 0 && s0.togo == 0 {
      m' := m + 1;
      assert m * r + r == m' * r == |mcus|;
      assert mcus[m * r..m * r + r] == mcus[m * r..];
      assert SegmentIs(sc, mcus, m, s0.log[m]) by { SegmentDone(sc, mcus, m, s0.log[m]); }
      SegmentStays(sc, mcus, ws, m, s0.log[m]);
      Fresh(sc);
      RestartFirst(sc, s0, ws);
      StepLayout(sc, s1, [], ws);
      assert all[m' * r..] == [] + [ws];
      assert forall i :: 0 <= i <= m ==> s1.log[i] == s0.log[i];
    } else {
      m' := m;
      StepLayout(sc, s0, mcus[m * r..], ws);
      assert all[m * r..] == mcus[m * r..] + [ws];
    }
  }

  lemma {:induction false} SegmentDone(sc: DcScan, mcus: seq<seq<int>>, i: nat, toks: seq<Token>)
    requires ValidValues(sc, mcus) && 0 <= i * sc.restart <= i * sc.restart + sc.restart <= |mcus|
    requires var r := sc.restart; toks == TokensOf(sc, BlocksOf(sc, mcus[i * r..i * r + r]))
    ensures SegmentIs(sc, mcus, i, toks)
  {
  }

  lemma {:induction false} RestartFirst(sc: DcScan, s: DcState, ws: seq<int>)
    requires ValidDc(sc) && |s.last| == |sc.tbl| && |ws| == |sc.membership| && sc.restart > 0 && s.togo == 0
    ensures var s1 := DcRestarted(sc, s);
            && DcStep(sc, s, ws) == DcStep(sc, s1, ws) && s1.log == s.log + [[]] && s1.togo == sc.restart
            && s1.last == ZeroLast(|sc.tbl|)
  {
    hide McuTokens, McuLast;
  }

  lemma {:induction false} RunLaidOut(sc: DcScan, mcus: seq<seq<int>>) returns (m: nat)
    requires ValidDc(sc) && ValidValues(sc, mcus) && mcus != []
    ensures LaidOut(sc, mcus, RunDc(sc, mcus), m)
    decreases |mcus|
  {
    hide LaidOut, DcStep, DcStart;
    var front, ws := mcus[..|mcus| - 1], mcus[|mcus| - 1];
    assert front + [ws] == mcus;
    if front == [] {
      m := 0;
      FirstLaidOut(sc, ws);
      assert mcus == [ws];
      assert RunDc(sc, front) == DcStart(sc);
    } else {
      m := RunLaidOut(sc, front);
      m := NextLaidOut(sc, front, RunDc(sc, front), ws, m);
    }
  }

  /** The log of a whole DC scan. */
  ghost predicate SegmentsAre(sc: DcScan, mcus: seq<seq<int>>, log: Log, m: nat)
    requires ValidValues(sc, mcus)
  {
    var r := sc.restart;
    && (r == 0 ==> m == 0) && (r > 0 ==> m * r < |mcus| <= m * r + r) && 0 <= m * r <= |mcus|
    && |log| == m + 1 && (forall i :: 0 <= i < m ==> SegmentIs(sc, mcus, i, log[i]))
    && log[m] == TokensOf(sc, BlocksOf(sc, mcus[m * r..]))
  }

  lemma {:induction false} ScanLaidOut(sc: DcScan, mcus: seq<seq<int>>) returns (m: nat)
    requires ValidDc(sc) && ValidValues(sc, mcus) && mcus != []
    ensures SegmentsAre(sc, mcus, RunDc(sc, mcus).log, m)
  {
    hide RunDc, SegmentIs, TokensOf, BlocksOf;
    m := RunLaidOut(sc, mcus);
  }
}
