/** What the bytes of a sequential scan are, said of its blocks alone: how it is cut into
    segments, which marker stands between two of them, and what each DC value is predicted from. */
module ScanLayout {
  import opened JpegLimits
  import opened Bits
  import opened HuffTable
  import opened DerivedTables
  import opened Stuffing
  import opened BlockCoding
  import opened ScanCoding

  /** A block and the scan component it belongs to. */
  datatype Coded = Coded(comp: nat, block: Block)

  /** The blocks of a run of MCUs in coding order. */
  ghost function BlocksOf(sc: Scan, mcus: seq<seq<Block>>): (r: seq<Coded>)
    requires ValidScan(sc) && ValidMcus(sc, mcus)
    ensures InScan(sc, r)
  {
    if mcus == [] then [] else
    BlocksOf(sc, mcus[..|mcus| - 1]) + BlocksFrom(sc, mcus[|mcus| - 1], 0)
  }

  ghost function BlocksFrom(sc: Scan, mcu: seq<Block>, b: nat): (r: seq<Coded>)
    requires ValidScan(sc) && ValidMcu(sc, mcu) && b <= |mcu|
    ensures InScan(sc, r)
  {
    seq(|mcu| - b, i requires 0 <= i < |mcu| - b => Coded(sc.membership[b + i], mcu[b + i]))
  }

  ghost predicate InScan(sc: Scan, blocks: seq<Coded>) {
    forall i :: 0 <= i < |blocks| ==> blocks[i].comp < |sc.dcTbl|
  }

  /** The DC value of the latest block of component c; 0 if there is none yet. */
  function LatestDc(blocks: seq<Coded>, c: nat): int {
    if blocks == [] then 0
    else if blocks[|blocks| - 1].comp == c then blocks[|blocks| - 1].block[0]
    else LatestDc(blocks[..|blocks| - 1], c)
  }

  lemma {:induction false} LatestIs(blocks: seq<Coded>, c: nat, i: nat)
    requires i < |blocks| && blocks[i].comp == c
    requires forall j :: i < j < |blocks| ==> blocks[j].comp != c
    ensures LatestDc(blocks, c) == blocks[i].block[0]
    decreases |blocks|
  {
    if i < |blocks| - 1 {
      LatestIs(blocks[..|blocks| - 1], c, i);
    }
  }

  /** The blocks one after the other, each DC value coded as its difference from the latest one
      of its component. */
  ghost function BlocksBits(sc: Scan, tabs: CTables, blocks: seq<Coded>): BitString
    requires ValidScan(sc) && ShapedTables(tabs) && InScan(sc, blocks)
  {
    if blocks == [] then [] else
    var front, x := blocks[..|blocks| - 1], blocks[|blocks| - 1];
    BlocksBits(sc, tabs, front)
    + ItemsBits(tabs.dc[sc.dcTbl[x.comp]], tabs.ac[sc.acTbl[x.comp]],
                BlockItems(ZigZag(x.block, sc.order), LatestDc(front, x.comp)))
  }

  /** last holds what BlocksBits predicts from. */
  ghost predicate Predicts(sc: Scan, last: seq<int>, blocks: seq<Coded>) {
    |last| == |sc.dcTbl| && forall c :: 0 <= c < |last| ==> last[c] == LatestDc(blocks, c)
  }

  lemma {:induction false} McuLayout(sc: Scan, tabs: CTables, last: seq<int>, mcu: seq<Block>, b: nat, blocks: seq<Coded>)
    requires ValidScan(sc) && ShapedTables(tabs) && ValidMcu(sc, mcu) && b <= |mcu|
    requires InScan(sc, blocks) && Predicts(sc, last, blocks)
    ensures var more := blocks + BlocksFrom(sc, mcu, b);
            && InScan(sc, more) && Predicts(sc, LastFrom(sc, last, mcu, b), more)
            && BlocksBits(sc, tabs, blocks) + TaggedBits(sc, tabs, ItemsFrom(sc, last, mcu, b)) == BlocksBits(sc, tabs, more)
    decreases |mcu| - b
  {
    hide BlockItems, ItemsBits, ZigZag, NaturalOrder, ShortCodes, TableShaped;
    if b == |mcu| {
      assert blocks + BlocksFrom(sc, mcu, b) == blocks;
    } else {
      var c := sc.membership[b];
      var next := blocks + [Coded(c, mcu[b])];
      assert next[..|blocks|] == blocks;
      assert blocks + BlocksFrom(sc, mcu, b) == next + BlocksFrom(sc, mcu, b + 1);
      BlockLayout(sc, tabs, last, mcu, b, blocks);
      McuLayout(sc, tabs, last[c := mcu[b][0]], mcu, b + 1, next);
    }
  }

  lemma {:induction false} BlockLayout(sc: Scan, tabs: CTables, last: seq<int>, mcu: seq<Block>, b: nat, blocks: seq<Coded>)
    requires ValidScan(sc) && ShapedTables(tabs) && ValidMcu(sc, mcu) && b < |mcu|
    requires InScan(sc, blocks) && Predicts(sc, last, blocks)
    ensures var c := sc.membership[b];
            var next, last' := blocks + [Coded(c, mcu[b])], last[c := mcu[b][0]];
            && InScan(sc, next) && Predicts(sc, last', next)
            && BlocksBits(sc, tabs, blocks) + TaggedBits(sc, tabs, ItemsFrom(sc, last, mcu, b))
               == BlocksBits(sc, tabs, next) + TaggedBits(sc, tabs, ItemsFrom(sc, last', mcu, b + 1))
  {
    hide BlockItems, ItemsBits, ZigZag, NaturalOrder, ShortCodes, TableShaped, BlocksBits, TaggedBits, InScan, Predicts, LatestDc, AllCodable;
    OrderShape(sc);
    var c := sc.membership[b];
    OneBlockMore(sc, tabs, last, blocks, Coded(c, mcu[b]));
    var its := BlockItems(ZigZag(mcu[b], sc.order), last[c]);
    var rest := ItemsFrom(sc, last[c := mcu[b][0]], mcu, b + 1);
    TaggedOfBlock(sc, tabs, c, its);
    TaggedBitsAppend(sc, tabs, Tag(c, its), rest);
    var h, x, y := BlocksBits(sc, tabs, blocks), TaggedBits(sc, tabs, Tag(c, its)), TaggedBits(sc, tabs, rest);
    assert h + (x + y) == (h + x) + y;
  }

  lemma {:induction false} OneBlockMore(sc: Scan, tabs: CTables, last: seq<int>, blocks: seq<Coded>, x: Coded)
    requires ValidScan(sc) && ShapedTables(tabs) && InScan(sc, blocks) && Predicts(sc, last, blocks) && x.comp < |sc.dcTbl|
    ensures |sc.order| == DCTSIZE2 + 16 && forall k :: 0 <= k < |sc.order| ==> sc.order[k] < DCTSIZE2
    ensures |last| == |sc.dcTbl| == |sc.acTbl| && |tabs.dc| == |tabs.ac| == NUM_HUFF_TBLS
    ensures sc.dcTbl[x.comp] < NUM_HUFF_TBLS && sc.acTbl[x.comp] < NUM_HUFF_TBLS
    ensures TableShaped(tabs.dc[sc.dcTbl[x.comp]]) && TableShaped(tabs.ac[sc.acTbl[x.comp]])
    ensures var next := blocks + [x];
            && InScan(sc, next) && Predicts(sc, last[x.comp := x.block[0]], next)
            && BlocksBits(sc, tabs, next) == BlocksBits(sc, tabs, blocks)
                 + ItemsBits(tabs.dc[sc.dcTbl[x.comp]], tabs.ac[sc.acTbl[x.comp]], BlockItems(ZigZag(x.block, sc.order), last[x.comp]))
  {
    hide BlockItems, ItemsBits, ZigZag;
    OrderShape(sc);
    var next := blocks + [x];
    assert next[..|blocks|] == blocks;
  }

  lemma {:induction false} OrderShape(sc: Scan)
    requires ValidScan(sc)
    ensures |sc.order| == DCTSIZE2 + 16 && forall k :: 0 <= k < |sc.order| ==> sc.order[k] < DCTSIZE2
  {
  }

  /** One MCU without a restart before it. */
  lemma {:induction false} StepLayout(sc: Scan, tabs: CTables, st: State, mcu: seq<Block>, run: seq<seq<Block>>)
    requires ValidScan(sc) && ShapedTables(tabs) && ValidState(sc, st) && ValidMcu(sc, mcu) && ValidMcus(sc, run)
    requires !NeedsRestart(sc, st)
    requires Predicts(sc, st.last, BlocksOf(sc, run)) && st.seg == BlocksBits(sc, tabs, BlocksOf(sc, run))
    ensures ValidMcus(sc, run + [mcu])
    ensures var s, blocks := Step(sc, tabs, st, mcu), BlocksOf(sc, run + [mcu]);
            s.base == st.base && s.rst == st.rst && Predicts(sc, s.last, blocks) && s.seg == BlocksBits(sc, tabs, blocks)
  {
    hide TaggedBits, ItemsFrom, LastFrom, BlocksBits, ValidScan, ShapedTables, Predicts;
    assert (run + [mcu])[..|run|] == run;
    McuLayout(sc, tabs, st.last, mcu, 0, BlocksOf(sc, run));
  }

  lemma {:induction false} FreshLayout(sc: Scan, tabs: CTables)
    requires ValidScan(sc) && ShapedTables(tabs)
    ensures ValidMcus(sc, []) && BlocksOf(sc, []) == []
    ensures Predicts(sc, ZeroLast(|sc.dcTbl|), []) && BlocksBits(sc, tabs, []) == []
  {
  }

  /** The first m segments of a scan with restarts, r MCUs each: padded and stuffed bytes, then
      the markers RST0 to RST7 in turn. */
  ghost function SegmentsBytes(sc: Scan, tabs: CTables, mcus: seq<seq<Block>>, r: nat, m: nat): seq<UInt8>
    requires ValidScan(sc) && ShapedTables(tabs) && ValidMcus(sc, mcus) && m * r <= |mcus|
  {
    if m == 0 then [] else
    Room(m - 1, r);
    SegmentsBytes(sc, tabs, mcus, r, m - 1)
    + SegmentBytes(BlocksBits(sc, tabs, BlocksOf(sc, mcus[(m - 1) * r..m * r])))
    + [0xFF, 0xD0 + (m - 1) % 8]
  }

  lemma {:induction false} Room(m: nat, r: nat)
    ensures 0 <= m * r && m * r + r == (m + 1) * r
  {
    assert 0 <= m * r;
  }

  lemma {:induction false} SegmentsPrefix(sc: Scan, tabs: CTables, mcus: seq<seq<Block>>, x: seq<Block>, r: nat, m: nat)
    requires ValidScan(sc) && ShapedTables(tabs) && ValidMcus(sc, mcus) && ValidMcu(sc, x) && m * r <= |mcus|
    ensures ValidMcus(sc, mcus + [x])
    ensures SegmentsBytes(sc, tabs, mcus + [x], r, m) == SegmentsBytes(sc, tabs, mcus, r, m)
    decreases m
  {
    hide BlocksBits, BlocksOf, SegmentBytes, ValidScan, ShapedTables;
    if m > 0 {
      Room(m - 1, r);
      SegmentsPrefix(sc, tabs, mcus, x, r, m - 1);
      assert (mcus + [x])[(m - 1) * r..m * r] == mcus[(m - 1) * r..m * r];
    }
  }

  /** m whole segments and an unfinished one that is not empty make up these MCUs. */
  ghost predicate LaidOut(sc: Scan, tabs: CTables, s: State, mcus: seq<seq<Block>>, m: nat)
    requires ValidScan(sc) && ShapedTables(tabs) && ValidMcus(sc, mcus)
  {
    var r := sc.restart;
    && 0 < r && m * r < |mcus| <= m * r + r
    && s.rst == m % 8 && s.togo + |mcus| == m * r + r
    && s.base == SegmentsBytes(sc, tabs, mcus, r, m)
    && var open := BlocksOf(sc, mcus[m * r..]);
       Predicts(sc, s.last, open) && s.seg == BlocksBits(sc, tabs, open)
  }

  /** A scan with restart markers: every sc.restart MCUs the segment ends. */
  lemma {:induction false} RestartLayout(sc: Scan, tabs: CTables, mcus: seq<seq<Block>>) returns (m: nat)
    requires ValidScan(sc) && ShapedTables(tabs) && ValidMcus(sc, mcus) && sc.restart > 0 && mcus != []
    ensures m * sc.restart < |mcus| <= m * sc.restart + sc.restart
    ensures Final(Steps(sc, tabs, StartState(sc), mcus))
         == SegmentsBytes(sc, tabs, mcus, sc.restart, m)
            + SegmentBytes(BlocksBits(sc, tabs, BlocksOf(sc, mcus[m * sc.restart..])))
  {
    hide SegmentsBytes, BlocksBits, BlocksOf, SegmentBytes, Steps, ValidScan, ShapedTables, Predicts, ValidMcus;
    m := SegmentsLaidOut(sc, tabs, mcus);
  }

  /** The bytes of a scan in terms of its blocks. */
  ghost predicate ScanBytes(sc: Scan, tabs: CTables, mcus: seq<seq<Block>>, bytes: seq<UInt8>)
    requires ValidScan(sc) && ShapedTables(tabs) && ValidMcus(sc, mcus)
  {
    if sc.restart == 0 then bytes == SegmentBytes(BlocksBits(sc, tabs, BlocksOf(sc, mcus)))
    else mcus != [] ==> exists m: nat :: InSegments(sc, tabs, mcus, bytes, m)
  }

  ghost predicate InSegments(sc: Scan, tabs: CTables, mcus: seq<seq<Block>>, bytes: seq<UInt8>, m: nat)
    requires ValidScan(sc) && ShapedTables(tabs) && ValidMcus(sc, mcus)
  {
    && m * sc.restart < |mcus| <= m * sc.restart + sc.restart
    && bytes == SegmentsBytes(sc, tabs, mcus, sc.restart, m)
                + SegmentBytes(BlocksBits(sc, tabs, BlocksOf(sc, mcus[m * sc.restart..])))
  }

  lemma {:induction false} Layout(sc: Scan, tabs: CTables, mcus: seq<seq<Block>>)
    requires ValidScan(sc) && ShapedTables(tabs) && ValidMcus(sc, mcus)
    ensures ScanBytes(sc, tabs, mcus, Final(Steps(sc, tabs, StartState(sc), mcus)))
  {
    hide SegmentsBytes, BlocksBits, BlocksOf, SegmentBytes, Steps, Final, ValidScan, ShapedTables, ValidMcus;
    if sc.restart == 0 {
      PlainLayout(sc, tabs, mcus);
    } else if mcus != [] {
      var m := RestartLayout(sc, tabs, mcus);
      assert InSegments(sc, tabs, mcus, Final(Steps(sc, tabs, StartState(sc), mcus)), m);
    }
  }

  lemma {:induction false} SegmentsLaidOut(sc: Scan, tabs: CTables, mcus: seq<seq<Block>>) returns (m: nat)
    requires ValidScan(sc) && ShapedTables(tabs) && ValidMcus(sc, mcus) && sc.restart > 0 && mcus != []
    ensures LaidOut(sc, tabs, Steps(sc, tabs, StartState(sc), mcus), mcus, m)
    decreases |mcus|
  {
    hide SegmentsBytes, BlocksBits, BlocksOf, SegmentBytes, ValidScan, ShapedTables, Predicts, ValidMcus, LaidOut, Step;
    var front, x := mcus[..|mcus| - 1], mcus[|mcus| - 1];
    LastMcu(sc, mcus);
    if front == [] {
      m := 0;
      StartLaidOut(sc, tabs, mcus);
    } else {
      m := SegmentsLaidOut(sc, tabs, front);
      m := NextLaidOut(sc, tabs, Steps(sc, tabs, StartState(sc), front), front, x, m);
      assert front + [x] == mcus;
    }
  }

  lemma {:induction false} LastMcu(sc: Scan, mcus: seq<seq<Block>>)
    requires ValidMcus(sc, mcus) && mcus != []
    ensures ValidMcus(sc, mcus[..|mcus| - 1]) && ValidMcu(sc, mcus[|mcus| - 1])
  {
  }

  lemma {:induction false} StartLaidOut(sc: Scan, tabs: CTables, mcus: seq<seq<Block>>)
    requires ValidScan(sc) && ShapedTables(tabs) && ValidMcus(sc, mcus) && sc.restart > 0 && |mcus| == 1
    ensures LaidOut(sc, tabs, Steps(sc, tabs, StartState(sc), mcus), mcus, 0)
  {
    hide BlocksBits, BlocksOf, SegmentBytes, ValidScan, ShapedTables, Predicts, Step;
    var st := StartState(sc);
    FreshLayout(sc, tabs);
    assert mcus[..0] == [] && [] + [mcus[0]] == mcus == mcus[0..];
    assert Steps(sc, tabs, st, mcus[..0]) == st;
    StepLayout(sc, tabs, st, mcus[0], []);
    Countdown(sc, tabs, st, mcus[0]);
  }

  lemma {:induction false} Countdown(sc: Scan, tabs: CTables, st: State, mcu: seq<Block>)
    requires ValidScan(sc) && ShapedTables(tabs) && ValidState(sc, st) && ValidMcu(sc, mcu) && sc.restart > 0
    ensures Step(sc, tabs, st, mcu).togo == if st.togo == 0 then sc.restart - 1 else st.togo - 1
  {
    hide TaggedBits, ItemsFrom, LastFrom, ValidScan, ShapedTables, SegmentBytes;
  }

  lemma {:induction false} NextLaidOut(sc: Scan, tabs: CTables, st: State, front: seq<seq<Block>>, x: seq<Block>, m: nat) returns (m': nat)
    requires ValidScan(sc) && ShapedTables(tabs) && ValidMcus(sc, front) && ValidMcu(sc, x) && ValidState(sc, st)
    requires LaidOut(sc, tabs, st, front, m)
    ensures ValidMcus(sc, front + [x])
    ensures LaidOut(sc, tabs, Step(sc, tabs, st, x), front + [x], m')
  {
    hide BlocksBits, BlocksOf, SegmentBytes, ValidScan, ShapedTables, Predicts, Step, SegmentsBytes;
    if st.togo > 0 {
      m' := m;
      SameSegment(sc, tabs, st, front, x, m);
    } else {
      m' := m + 1;
      NewSegment(sc, tabs, st, front, x, m);
    }
  }

  lemma {:induction false} SameSegment(sc: Scan, tabs: CTables, st: State, front: seq<seq<Block>>, x: seq<Block>, m: nat)
    requires ValidScan(sc) && ShapedTables(tabs) && ValidMcus(sc, front) && ValidMcu(sc, x) && ValidState(sc, st)
    requires LaidOut(sc, tabs, st, front, m) && st.togo > 0
    ensures ValidMcus(sc, front + [x]) && LaidOut(sc, tabs, Step(sc, tabs, st, x), front + [x], m)
  {
    hide BlocksBits, BlocksOf, SegmentBytes, ValidScan, ShapedTables, Predicts, Step, SegmentsBytes;
    var r := sc.restart;
    Room(m, r);
    Countdown(sc, tabs, st, x);
    SegmentsPrefix(sc, tabs, front, x, r, m);
    assert (front + [x])[m * r..] == front[m * r..] + [x];
    StepLayout(sc, tabs, st, x, front[m * r..]);
  }

  lemma {:induction false} NewSegment(sc: Scan, tabs: CTables, st: State, front: seq<seq<Block>>, x: seq<Block>, m: nat)
    requires ValidScan(sc) && ShapedTables(tabs) && ValidMcus(sc, front) && ValidMcu(sc, x) && ValidState(sc, st)
    requires LaidOut(sc, tabs, st, front, m) && st.togo == 0
    ensures ValidMcus(sc, front + [x]) && LaidOut(sc, tabs, Step(sc, tabs, st, x), front + [x], m + 1)
  {
    hide BlocksBits, BlocksOf, SegmentBytes, ValidScan, ShapedTables, Predicts, Step, SegmentsBytes, Restarted;
    var r, n := sc.restart, m + 1;
    Room(m, r);
    Room(n, r);
    assert |front| == n * r;
    Countdown(sc, tabs, st, x);
    RestartStep(sc, tabs, st, x);
    FreshLayout(sc, tabs);
    StepLayout(sc, tabs, Restarted(sc, st), x, []);
    assert (front + [x])[n * r..] == [] + [x];
    assert front[m * r..] == front[m * r..n * r];
    OneMoreSegment(sc, tabs, front, r, n);
    SegmentsPrefix(sc, tabs, front, x, r, n);
  }

  lemma {:induction false} OneMoreSegment(sc: Scan, tabs: CTables, mcus: seq<seq<Block>>, r: nat, m: nat)
    requires ValidScan(sc) && ShapedTables(tabs) && ValidMcus(sc, mcus) && 0 < m && m * r <= |mcus| && 0 <= (m - 1) * r <= m * r
    ensures ValidMcus(sc, mcus[(m - 1) * r..m * r])
    ensures SegmentsBytes(sc, tabs, mcus, r, m)
         == SegmentsBytes(sc, tabs, mcus, r, m - 1)
            + SegmentBytes(BlocksBits(sc, tabs, BlocksOf(sc, mcus[(m - 1) * r..m * r])))
            + [0xFF, 0xD0 + (m - 1) % 8]
  {
    hide BlocksBits, BlocksOf, SegmentBytes, ValidScan, ShapedTables;
  }

  /** A step that begins with a restart is a step from the restarted state. */
  lemma {:induction false} RestartStep(sc: Scan, tabs: CTables, st: State, mcu: seq<Block>)
    requires ValidScan(sc) && ShapedTables(tabs) && ValidState(sc, st) && ValidMcu(sc, mcu) && NeedsRestart(sc, st)
    ensures var st1 := Restarted(sc, st);
            && ValidState(sc, st1) && !NeedsRestart(sc, st1) && Step(sc, tabs, st, mcu) == Step(sc, tabs, st1, mcu)
            && st1.base == st.base + SegmentBytes(st.seg) + [0xFF, 0xD0 + st.rst] && st1.seg == []
            && st1.last == ZeroLast(|sc.dcTbl|) && st1.rst == (st.rst + 1) % 8 && st1.togo == sc.restart
  {
    hide TaggedBits, ItemsFrom, LastFrom, ValidScan, ShapedTables, SegmentBytes;
  }

  /** A scan without restart markers is one segment. */
  lemma {:induction false} PlainLayout(sc: Scan, tabs: CTables, mcus: seq<seq<Block>>)
    requires ValidScan(sc) && ShapedTables(tabs) && ValidMcus(sc, mcus) && sc.restart == 0
    ensures Final(Steps(sc, tabs, StartState(sc), mcus)) == SegmentBytes(BlocksBits(sc, tabs, BlocksOf(sc, mcus)))
  {
    hide BlocksBits, BlocksOf, SegmentBytes, Steps, ValidScan, ShapedTables, ValidMcus;
    PlainRun(sc, tabs, mcus);
    var s := SegmentBytes(BlocksBits(sc, tabs, BlocksOf(sc, mcus)));
    assert [] + s == s;
  }

  lemma {:induction false} PlainRun(sc: Scan, tabs: CTables, mcus: seq<seq<Block>>)
    requires ValidScan(sc) && ShapedTables(tabs) && ValidMcus(sc, mcus) && sc.restart == 0
    ensures var s, blocks := Steps(sc, tabs, StartState(sc), mcus), BlocksOf(sc, mcus);
            s.base == [] && s.seg == BlocksBits(sc, tabs, blocks) && Predicts(sc, s.last, blocks)
    decreases |mcus|
  {
    hide BlocksBits, BlocksOf, SegmentBytes, ValidScan, ShapedTables, ValidMcus, Predicts, Step;
    FreshLayout(sc, tabs);
    if mcus != [] {
      var front, x := mcus[..|mcus| - 1], mcus[|mcus| - 1];
      LastMcu(sc, mcus);
      PlainRun(sc, tabs, front);
      StepLayout(sc, tabs, Steps(sc, tabs, StartState(sc), front), x, front);
      assert front + [x] == mcus;
    }
  }
}
