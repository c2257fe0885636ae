/** Sequential scans survive the trip: the bytes of the encoder decode to the
    MCUs it was given, restart markers and padding included. */
module ScanRoundTrip {
  import opened JpegLimits
  import opened Bits
  import opened HuffTable
  import opened DerivedTables
  import opened Stuffing
  import opened BlockCoding
  import opened ScanCoding
  import opened HuffDecoder
  import HuffEncoder
  import OptimizedTables

  /** Encoder and decoder hold derived tables of the same Huffman tables, and
      every coefficient is wanted. */
  ghost predicate Paired(sc: Scan, tabs: CTables, dt: DTables) {
    && ValidDTables(sc, dt) && ShapedTables(tabs)
    && (forall c :: 0 <= c < |sc.dcTbl| ==> Encodes(tabs.dc[sc.dcTbl[c]], dt.dcT[sc.dcTbl[c]]))
    && (forall c :: 0 <= c < |sc.acTbl| ==> Encodes(tabs.ac[sc.acTbl[c]], dt.acT[sc.acTbl[c]]))
    && (forall b :: 0 <= b < |sc.membership| ==> dt.dcNeeded[b] && dt.acNeeded[b])
  }

  // ----- one block

  lemma {:induction false} AgreesAll(blk: seq<Coef>, block: Block, order: seq<nat>)
    requires NaturalOrder(order) && Agrees(blk, ZigZag(block, order), order, DCTSIZE2)
    ensures blk == block
  {
    forall i | 0 <= i < DCTSIZE2
      ensures blk[i] == block[i]
    {
      assert i in order[..DCTSIZE2];
      var k :| 0 <= k < DCTSIZE2 && order[k] == i;
      assert blk[order[k]] == ZigZag(block, order)[k];
    }
  }

  lemma {:induction false} AgreesDc(order: seq<nat>, zz: seq<Coef>)
    requires NaturalOrder(order) && |zz| == DCTSIZE2
    ensures Agrees(ZeroBlock()[0 := zz[0]], zz, order, 1)
  {
    forall j | 0 < j < DCTSIZE2
      ensures order[j] != 0
    {
      assert order[0] != order[j];
    }
  }

  lemma {:induction false} BlockRoundTrip(sc: Scan, tabs: CTables, dt: DTables, u: BitString, pos: nat, b: nat, last: int, block: Block)
    requires Paired(sc, tabs, dt) && b < |sc.membership|
    requires var c := sc.membership[b];
             var dc, ac := tabs.dc[sc.dcTbl[c]], tabs.ac[sc.acTbl[c]];
             var its := BlockItems(ZigZag(block, sc.order), last);
             AllCodable(dc, ac, its) && pos <= |u| && ItemsBits(dc, ac, its) <= u[pos..]
    ensures var c := sc.membership[b];
            var dc, ac := tabs.dc[sc.dcTbl[c]], tabs.ac[sc.acTbl[c]];
            BlockAt(sc, dt, u, pos, b, last)
              == (block, block[0], pos + |ItemsBits(dc, ac, BlockItems(ZigZag(block, sc.order), last))|)
  {
    hide Encodes, DerivedFrom, LegalForDecoder, LegalCounts, Shaped, AcFrom, DcAt, ItemsBits, AllCodable, AcItems, DcItems, Agrees;
    var c := sc.membership[b];
    var dc, ac := tabs.dc[sc.dcTbl[c]], tabs.ac[sc.acTbl[c]];
    var zz := ZigZag(block, sc.order);
    var x, y := DcItems(zz[0] - last), AcItems(zz, 1, 0);
    ItemsBitsAppend(dc, ac, x, y);
    HuffEncoder.CodableParts(dc, ac, x, y);
    PrefixSplit(ItemsBits(dc, ac, x), ItemsBits(dc, ac, y), u, pos);
    DcRoundTrip(dc, ac, dt.dcT[sc.dcTbl[c]], zz[0] - last, u, pos);
    AgreesDc(sc.order, zz);
    assert ToCoef(zz[0]) == zz[0];
    var blk := AcRoundTrip(dc, ac, dt.acT[sc.acTbl[c]], zz, 1, 0, u, pos + |ItemsBits(dc, ac, x)|, sc.order, ZeroBlock()[0 := zz[0]]);
    AgreesAll(blk, block, sc.order);
  }

  // ----- one MCU

  /** After b blocks the decoder stands where the encoder's items of the
      remaining blocks begin. */
  lemma {:induction false} McuPrefix(sc: Scan, tabs: CTables, dt: DTables, u: BitString, last: seq<int>, mcu: seq<Block>, b: nat)
    requires Paired(sc, tabs, dt) && ValidMcu(sc, mcu) && |last| == |sc.dcTbl| && b <= |mcu|
    requires TaggedCodable(sc, tabs, ItemsFrom(sc, last, mcu, 0)) && TaggedBits(sc, tabs, ItemsFrom(sc, last, mcu, 0)) <= u
    ensures var (l, p) := McuState(sc, dt, u, last, b);
            var rest := ItemsFrom(sc, l, mcu, b);
            && p <= |u| && TaggedCodable(sc, tabs, rest) && TaggedBits(sc, tabs, rest) <= u[p..]
            && LastFrom(sc, l, mcu, b) == LastFrom(sc, last, mcu, 0)
            && p + |TaggedBits(sc, tabs, rest)| == |TaggedBits(sc, tabs, ItemsFrom(sc, last, mcu, 0))|
    ensures forall j :: 0 <= j < b ==> McuBlock(sc, dt, u, last, j) == mcu[j]
  {
    hide Encodes, ValidDTables, ShapedTables, TaggedBits, TaggedCodable, BlockAt, BlockItems, ItemsBits, AllCodable;
    if b == 0 {
      assert u[0..] == u;
    } else {
      McuPrefix(sc, tabs, dt, u, last, mcu, b - 1);
      var (l, p) := McuState(sc, dt, u, last, b - 1);
      BlockInMcu(sc, tabs, dt, u, p, l, mcu, b - 1);
    }
  }

  lemma {:induction false} BlockInMcu(sc: Scan, tabs: CTables, dt: DTables, u: BitString, p: nat, l: seq<int>, mcu: seq<Block>, b: nat)
    requires Paired(sc, tabs, dt) && ValidMcu(sc, mcu) && |l| == |sc.dcTbl| && b < |mcu|
    requires p <= |u| && TaggedCodable(sc, tabs, ItemsFrom(sc, l, mcu, b)) && TaggedBits(sc, tabs, ItemsFrom(sc, l, mcu, b)) <= u[p..]
    ensures var c := sc.membership[b];
            var (blk, x, p') := BlockAt(sc, dt, u, p, b, l[c]);
            var rest := ItemsFrom(sc, l[c := x], mcu, b + 1);
            && blk == mcu[b] && x == mcu[b][0] && p' <= |u|
            && TaggedCodable(sc, tabs, rest) && TaggedBits(sc, tabs, rest) <= u[p'..]
            && p' + |TaggedBits(sc, tabs, rest)| == p + |TaggedBits(sc, tabs, ItemsFrom(sc, l, mcu, b))|
  {
    hide Encodes, TaggedBits, TaggedCodable, BlockAt, BlockItems, ItemsBits, AllCodable;
    var c := sc.membership[b];
    var dc, ac := tabs.dc[sc.dcTbl[c]], tabs.ac[sc.acTbl[c]];
    var its := BlockItems(ZigZag(mcu[b], sc.order), l[c]);
    var rest := ItemsFrom(sc, l[c := mcu[b][0]], mcu, b + 1);
    TaggedOfBlock(sc, tabs, c, its);
    TaggedBitsAppend(sc, tabs, Tag(c, its), rest);
    PrefixSplit(ItemsBits(dc, ac, its), TaggedBits(sc, tabs, rest), u, p);
    BlockRoundTrip(sc, tabs, dt, u, p, b, l[c], mcu[b]);
  }

  /** An MCU's bits decode to the MCU and to the same predictions, and not one
      bit more is used. */
  lemma {:induction false} McuRoundTrip(sc: Scan, tabs: CTables, dt: DTables, u: BitString, last: seq<int>, mcu: seq<Block>)
    requires Paired(sc, tabs, dt) && ValidMcu(sc, mcu) && |last| == |sc.dcTbl|
    requires TaggedCodable(sc, tabs, ItemsFrom(sc, last, mcu, 0)) && TaggedBits(sc, tabs, ItemsFrom(sc, last, mcu, 0)) <= u
    ensures McuState(sc, dt, u, last, |mcu|) == (LastFrom(sc, last, mcu, 0), |TaggedBits(sc, tabs, ItemsFrom(sc, last, mcu, 0))|)
    ensures forall b :: 0 <= b < |mcu| ==> McuBlock(sc, dt, u, last, b) == mcu[b]
  {
    McuPrefix(sc, tabs, dt, u, last, mcu, |mcu|);
  }

  // ----- the whole scan

  /** What is still to come from a given encoder state: the rest of the current
      segment's bits, and the bytes from the next restart marker on. */
  ghost function Tail(sc: Scan, tabs: CTables, last: seq<int>, togo: nat, rst: nat, mcus: seq<seq<Block>>): (BitString, seq<UInt8>)
    requires ValidScan(sc) && ShapedTables(tabs) && ValidMcus(sc, mcus) && |last| == |sc.dcTbl| && rst < 8
    decreases |mcus|
  {
    if mcus == [] then ([], []) else
    var l1 := LastIn(sc, last, togo);
    var its := ItemsFrom(sc, l1, mcus[0], 0);
    var restarting := sc.restart > 0 && togo == 0;
    var (bits, bytes) := Tail(sc, tabs, LastFrom(sc, l1, mcus[0], 0), TogoAfter(sc, togo),
                              if restarting then (rst + 1) % 8 else rst, mcus[1..]);
    if restarting then ([], [0xFF, RST0 + rst] + SegmentBytes(TaggedBits(sc, tabs, its) + bits) + bytes)
    else (TaggedBits(sc, tabs, its) + bits, bytes)
  }

  /** The encoder's final output, seen from any of its states. */
  lemma {:induction false} FinalTail(sc: Scan, tabs: CTables, st: State, mcus: seq<seq<Block>>)
    requires ValidScan(sc) && ShapedTables(tabs) && ValidState(sc, st) && ValidMcus(sc, mcus)
    ensures var (bits, bytes) := Tail(sc, tabs, st.last, st.togo, st.rst, mcus);
            Final(Steps(sc, tabs, st, mcus)) == st.base + SegmentBytes(st.seg + bits) + bytes
    decreases |mcus|
  {
    hide TaggedBits, ItemsFrom, LastFrom, ShapedTables, ValidScan, SegmentBytes;
    if mcus == [] {
      assert st.seg + [] == st.seg && st.base + SegmentBytes(st.seg) + [] == st.base + SegmentBytes(st.seg);
    } else {
      OptimizedTables.StepsFront(sc, tabs, st, mcus);
      StepPredictions(sc, tabs, st, mcus[0]);
      var s1 := Step(sc, tabs, st, mcus[0]);
      FinalTail(sc, tabs, s1, mcus[1..]);
      var x := TaggedBits(sc, tabs, McuItems(sc, st, mcus[0]));
      var (bits, bytes) := Tail(sc, tabs, s1.last, s1.togo, s1.rst, mcus[1..]);
      if NeedsRestart(sc, st) {
        assert [] + x + bits == x + bits && st.seg + [] == st.seg;
        var a, m, y := st.base + SegmentBytes(st.seg), [0xFF, RST0 + st.rst], SegmentBytes(x + bits);
        assert (a + m) + y + bytes == a + (m + y + bytes);
      } else {
        assert (st.seg + x) + bits == st.seg + (x + bits);
      }
    }
  }

  /** The tail ends the current segment with a marker once one follows it. */
  lemma {:induction false} TailMarker(sc: Scan, tabs: CTables, last: seq<int>, togo: nat, rst: nat, mcus: seq<seq<Block>>, m: UInt8, rest: seq<UInt8>)
    requires ValidScan(sc) && ShapedTables(tabs) && ValidMcus(sc, mcus) && |last| == |sc.dcTbl| && rst < 8
    requires m != 0 && m != 0xFF
    ensures var z := Tail(sc, tabs, last, togo, rst, mcus).1 + [0xFF, m] + rest;
            |z| >= 2 && z[0] == 0xFF && z[1] != 0 && z[1] != 0xFF
    decreases |mcus|
  {
    if mcus != [] && !(sc.restart > 0 && togo == 0) {
      TailMarker(sc, tabs, LastFrom(sc, LastIn(sc, last, togo), mcus[0], 0), TogoAfter(sc, togo), rst, mcus[1..], m, rest);
    }
  }

  /** The decoder is where the encoder's remaining output says it should be. */
  ghost predicate InStep(sc: Scan, tabs: CTables, ahead: BitString, after: (UInt8, seq<UInt8>),
                         last: seq<int>, togo: nat, rst: nat, mcus: seq<seq<Block>>, m: UInt8, rest: seq<UInt8>)
    requires ValidScan(sc) && ShapedTables(tabs) && ValidMcus(sc, mcus) && |last| == |sc.dcTbl| && rst < 8
  {
    var (bits, bytes) := Tail(sc, tabs, last, togo, rst, mcus);
    && bits <= ahead && |ahead| <= |bits| + 7
    && [0xFF, after.0] + after.1 == bytes + [0xFF, m] + rest
  }

  /** Opening a segment. */
  lemma {:induction false} SegmentInStep(sc: Scan, tabs: CTables, s: seq<UInt8>, last: seq<int>, togo: nat, rst: nat,
                      mcus: seq<seq<Block>>, m: UInt8, rest: seq<UInt8>)
    requires ValidScan(sc) && ShapedTables(tabs) && ValidMcus(sc, mcus) && |last| == |sc.dcTbl| && rst < 8
    requires m != 0 && m != 0xFF
    requires var (bits, bytes) := Tail(sc, tabs, last, togo, rst, mcus); s == SegmentBytes(bits) + bytes + [0xFF, m] + rest
    ensures Closed(s) && InStep(sc, tabs, BytesBits(DataBytes(s)), AfterSegment(s), last, togo, rst, mcus, m, rest)
  {
    hide Closed, AfterSegment, BytesBits, DataBytes, SegmentBytes, Tail, ValidScan, ShapedTables, ValidMcus;
    var (bits, bytes) := Tail(sc, tabs, last, togo, rst, mcus);
    TailMarker(sc, tabs, last, togo, rst, mcus, m, rest);
    var z := bytes + [0xFF, m] + rest;
    assert z == [0xFF, z[1]] + z[2..];
    ReadSegment(bits, z[1], z[2..]);
    assert s == SegmentBytes(bits) + [0xFF, z[1]] + z[2..];
  }

  /** One decoded MCU keeps decoder and encoder in step: the blocks are the
      MCU, no zero bits were made up, and the rest still matches. */
  lemma {:induction false} InStepMcu(sc: Scan, tabs: CTables, dt: DTables, ahead: BitString, after: (UInt8, seq<UInt8>),
                      last: seq<int>, togo: nat, rst: nat, mcus: seq<seq<Block>>, m: UInt8, rest: seq<UInt8>)
    requires Paired(sc, tabs, dt) && ValidMcus(sc, mcus) && |mcus| > 0 && |last| == |sc.dcTbl| && rst < 8
    requires !(sc.restart > 0 && togo == 0)
    requires TaggedCodable(sc, tabs, ItemsFrom(sc, last, mcus[0], 0))
    requires InStep(sc, tabs, ahead, after, last, togo, rst, mcus, m, rest)
    ensures var (last', p) := McuState(sc, dt, ahead, last, |sc.membership|);
            && last' == LastFrom(sc, last, mcus[0], 0) && p <= |ahead|
            && InStep(sc, tabs, ahead[p..], after, last', TogoAfter(sc, togo), rst, mcus[1..], m, rest)
    ensures forall b :: 0 <= b < |sc.membership| ==> McuBlock(sc, dt, ahead, last, b) == mcus[0][b]
  {
    hide TaggedBits, ItemsFrom, LastFrom, TaggedCodable, McuState, McuBlock;
    var x := TaggedBits(sc, tabs, ItemsFrom(sc, last, mcus[0], 0));
    var (bits, bytes) := Tail(sc, tabs, last, togo, rst, mcus);
    var (bits', bytes') := Tail(sc, tabs, LastFrom(sc, last, mcus[0], 0), TogoAfter(sc, togo), rst, mcus[1..]);
    assert bits == x + bits' && bytes == bytes';
    PrefixSplit(x, bits', ahead, 0);
    assert ahead[0..] == ahead;
    McuRoundTrip(sc, tabs, dt, ahead, last, mcus[0]);
  }

  /** At a restart the expected marker is the next one, and the segment after
      it is in step. */
  lemma {:induction false} InStepRestart(sc: Scan, tabs: CTables, ahead: BitString, after: (UInt8, seq<UInt8>),
                          last: seq<int>, rst: nat, mcus: seq<seq<Block>>, m: UInt8, rest: seq<UInt8>)
    requires ValidScan(sc) && ShapedTables(tabs) && ValidMcus(sc, mcus) && |mcus| > 0 && |last| == |sc.dcTbl| && rst < 8
    requires sc.restart > 0 && m != 0 && m != 0xFF
    requires InStep(sc, tabs, ahead, after, last, 0, rst, mcus, m, rest)
    ensures after.0 == RST0 + rst && Closed(after.1)
    ensures InStep(sc, tabs, BytesBits(DataBytes(after.1)), AfterSegment(after.1),
                   ZeroLast(|sc.dcTbl|), sc.restart, (rst + 1) % 8, mcus, m, rest)
  {
    hide TaggedBits, ItemsFrom, LastFrom, SegmentBytes;
    var (bits, bytes) := Tail(sc, tabs, last, 0, rst, mcus);
    var (bits2, bytes2) := Tail(sc, tabs, ZeroLast(|sc.dcTbl|), sc.restart, (rst + 1) % 8, mcus);
    var a, b := [0xFF, RST0 + rst], SegmentBytes(bits2);
    assert bytes == a + b + bytes2;
    var whole := [0xFF, after.0] + after.1;
    assert whole == a + (b + bytes2 + [0xFF, m] + rest);
    assert whole[1] == RST0 + rst && whole[2..] == after.1;
    SegmentInStep(sc, tabs, after.1, ZeroLast(|sc.dcTbl|), sc.restart, (rst + 1) % 8, mcus, m, rest);
  }

  // ----- driving the decoder

  /** As many zeroed coefficient blocks as an MCU has. */
  method NewBlocks(n: nat) returns (blocks: seq<array<Coef>>)
    ensures |blocks| == n && Distinct(blocks)
    ensures forall b :: 0 <= b < n ==> fresh(blocks[b]) && blocks[b][..] == ZeroBlock()
  {
    blocks := [];
    while |blocks| < n
      invariant |blocks| <= n && Distinct(blocks)
      invariant forall b :: 0 <= b < |blocks| ==> fresh(blocks[b]) && blocks[b][..] == ZeroBlock()
    {
      var a := new Coef[DCTSIZE2](i => 0);
      assert a[..] == ZeroBlock();
      blocks := blocks + [a];
    }
  }

  method Contents(blocks: seq<array<Coef>>) returns (mcu: seq<Block>)
    requires Distinct(blocks)
    ensures |mcu| == |blocks| && forall b :: 0 <= b < |mcu| ==> mcu[b] == blocks[b][..]
  {
    mcu := [];
    while |mcu| < |blocks|
      invariant |mcu| <= |blocks| && forall b :: 0 <= b < |mcu| ==> mcu[b] == blocks[b][..]
    {
      mcu := mcu + [blocks[|mcu|][..]];
    }
  }

  /** Decoder d is in step with an encoder in state st that still has to send todo. */
  ghost predicate Following(d: HuffDecoder, tabs: CTables, st: State, todo: seq<seq<Block>>, m: UInt8, rest: seq<UInt8>)
    requires ValidScan(d.sc) && ShapedTables(tabs) && ValidState(d.sc, st) && ValidMcus(d.sc, todo)
    reads d
  {
    && d.Valid() && st.last == d.lastDc && st.rst == d.nextRestartNum && !d.insufficient && d.Ended()
    && (d.sc.restart > 0 ==> st.togo == d.restartsToGo)
    && InStep(d.sc, tabs, d.Ahead(), d.After(), st.last, st.togo, st.rst, todo, m, rest)
  }

  /** More data leaves a decoder in step. */
  method Deliver(d: HuffDecoder, more: seq<UInt8>, ghost tabs: CTables, ghost st: State, ghost todo: seq<seq<Block>>,
                 ghost m: UInt8, ghost rest: seq<UInt8>)
    requires ValidScan(d.sc) && ShapedTables(tabs) && ValidState(d.sc, st) && ValidMcus(d.sc, todo)
    requires Following(d, tabs, st, todo, m, rest) && d.data + more <= d.file
    modifies d
    ensures Following(d, tabs, st, todo, m, rest) && d.data == old(d.data) + more
  {
    hide InStep, ValidDTables, ValidScan, ShapedTables, ToBits, BytesBits, DataBytes, Closed, AfterSegment;
    d.Supply(more);
  }

  /** Between restarts a state and the state right after its restart marker come to the same. */
  lemma {:induction false} RestartedTwice(sc: Scan, tabs: CTables, st: State)
    requires ValidScan(sc) && ShapedTables(tabs) && ValidState(sc, st)
    ensures ValidState(sc, Restarted(sc, st)) && Restarted(sc, Restarted(sc, st)) == Restarted(sc, st)
  {
  }

  lemma {:induction false} SameStep(sc: Scan, tabs: CTables, st: State, s1: State, mcu: seq<Block>)
    requires ValidScan(sc) && ShapedTables(tabs) && ValidState(sc, st) && ValidState(sc, s1) && ValidMcu(sc, mcu)
    requires Restarted(sc, st) == Restarted(sc, s1)
    ensures Step(sc, tabs, st, mcu) == Step(sc, tabs, s1, mcu) && McuCodable(sc, tabs, st, mcu) == McuCodable(sc, tabs, s1, mcu)
  {
    hide ItemsFrom, LastFrom, TaggedBits, TaggedCodable;
  }

  /** Skipping data in front of a restart marker loses nothing that is to come. */
  lemma {:induction false} InStepSkipped(sc: Scan, tabs: CTables, ahead: BitString, less: BitString, after: (UInt8, seq<UInt8>),
                          last: seq<int>, rst: nat, mcus: seq<seq<Block>>, m: UInt8, rest: seq<UInt8>)
    requires ValidScan(sc) && ShapedTables(tabs) && ValidMcus(sc, mcus) && |mcus| > 0 && |last| == |sc.dcTbl| && rst < 8 && sc.restart > 0
    requires InStep(sc, tabs, ahead, after, last, 0, rst, mcus, m, rest) && |less| <= |ahead|
    ensures InStep(sc, tabs, less, after, last, 0, rst, mcus, m, rest)
  {
    hide TaggedBits, ItemsFrom, LastFrom, SegmentBytes;
  }

  /** One call of decode_mcu on a decoder in step: the next MCU; or, if its data has not all
      arrived, nothing but perhaps the restart in front of it. */
  method DecodeNext(d: HuffDecoder, ghost tabs: CTables, ghost st: State, ghost todo: seq<seq<Block>>,
                    ghost m: UInt8, ghost rest: seq<UInt8>) returns (done: bool, mcu: seq<Block>, ghost st': State)
    requires Paired(d.sc, tabs, d.dt) && ValidScan(d.sc) && ValidState(d.sc, st) && ValidMcus(d.sc, todo) && |todo| > 0
    requires m != 0 && m != 0xFF && Following(d, tabs, st, todo, m, rest) && McuCodable(d.sc, tabs, st, todo[0])
    modifies d
    ensures d.data == old(d.data)
    ensures done ==> mcu == todo[0] && st' == Step(d.sc, tabs, st, todo[0]) && Following(d, tabs, st', todo[1..], m, rest)
    ensures !done ==> ValidState(d.sc, st') && Restarted(d.sc, st') == Restarted(d.sc, st)
    ensures !done ==> Following(d, tabs, st', todo, m, rest) && d.Valid() && !d.InSight()
  {
    hide ValidDTables, ShapedTables, Encodes, DerivedFrom, LegalForDecoder, InStep, ValidScan, McuState, McuBlock, Closed, AfterSegment,
      BytesBits, DataBytes, ToBits, Tail, Distinct, ZeroBlock, TaggedBits, ItemsFrom, LastFrom, TaggedCodable, SegmentBytes;
    var sc := d.sc;
    StepPredictions(sc, tabs, st, todo[0]);
    RestartedTwice(sc, tabs, st);
    st' := Step(sc, tabs, st, todo[0]);
    ghost var u, after := d.Ahead(), d.After();
    if NeedsRestart(sc, st) {
      InStepRestart(sc, tabs, u, after, st.last, st.rst, todo, m, rest);
      InStepMcu(sc, tabs, d.dt, BytesBits(DataBytes(after.1)), AfterSegment(after.1), ZeroLast(|sc.dcTbl|), sc.restart,
                (st.rst + 1) % 8, todo, m, rest);
    } else {
      InStepMcu(sc, tabs, d.dt, u, after, st.last, st.togo, st.rst, todo, m, rest);
    }
    var blocks := NewBlocks(|sc.membership|);
    var s := d.DecodeMcu(blocks);
    done := s == Decoded;
    if done {
      mcu := Contents(blocks);
    } else {
      mcu := [];
      assert s == Suspended;
      if NeedsRestart(sc, st) && d.restartsToGo == 0 {
        st' := st;
        InStepSkipped(sc, tabs, u, d.Ahead(), after, st.last, st.rst, todo, m, rest);
      } else if NeedsRestart(sc, st) {
        st' := Restarted(sc, st);
        NothingBuffered(d.getBuffer, d.file[d.pos..]);
      } else {
        st' := st;
      }
    }
  }

  /** As many MCUs as the data delivered so far allows. */
  method DecodeSome(d: HuffDecoder, n: nat, result0: seq<seq<Block>>, ghost tabs: CTables, ghost st0: State, ghost mcus: seq<seq<Block>>,
                    ghost m: UInt8, ghost rest: seq<UInt8>) returns (result: seq<seq<Block>>, ghost st: State)
    requires Paired(d.sc, tabs, d.dt) && ValidScan(d.sc) && ValidMcus(d.sc, mcus) && n == |mcus| && m != 0 && m != 0xFF
    requires ScanCodable(d.sc, tabs, StartState(d.sc), mcus)
    requires |result0| <= n && result0 == mcus[..|result0|] && Reached(d.sc, tabs, mcus, |result0|, st0)
    requires Following(d, tabs, st0, mcus[|result0|..], m, rest)
    modifies d
    ensures d.data == old(d.data) && |result| <= n && result == mcus[..|result|] && Reached(d.sc, tabs, mcus, |result|, st)
    ensures Following(d, tabs, st, mcus[|result|..], m, rest)
    ensures |result| < n ==> !d.InSight()
  {
    hide ValidDTables, ShapedTables, InStep, Step, Steps, McuCodable, ValidScan, Following, Paired, Restarted, ScanCodable;
    result, st := result0, st0;
    PairedScan(d.sc, tabs, d.dt);
    var more := true;
    while more && |result| < n
      invariant d.data == old(d.data) && |result| <= n && result == mcus[..|result|] && Reached(d.sc, tabs, mcus, |result|, st)
      invariant ValidState(d.sc, st) && Following(d, tabs, st, mcus[|result|..], m, rest)
      invariant !more ==> d.Valid() && !d.InSight()
      decreases n - |result|, more
    {
      var i := |result|;
      ReachedNext(d.sc, tabs, mcus, i, st);
      var mcu;
      ghost var st1;
      more, mcu, st1 := DecodeNext(d, tabs, st, mcus[i..], m, rest);
      if more {
        result := result + [mcu];
      } else {
        ReachedAgain(d.sc, tabs, mcus, i, st, st1);
      }
      st := st1;
    }
  }

  /** st is the encoder's state after i MCUs, or that state with the restart marker that is due. */
  ghost predicate Reached(sc: Scan, tabs: CTables, mcus: seq<seq<Block>>, i: nat, st: State)
    requires ValidScan(sc) && ShapedTables(tabs) && ValidMcus(sc, mcus) && i <= |mcus|
  {
    ValidState(sc, StartState(sc)) && ValidState(sc, st) && Restarted(sc, st) == Restarted(sc, Steps(sc, tabs, StartState(sc), mcus[..i]))
  }

  lemma {:induction false} ReachedNext(sc: Scan, tabs: CTables, mcus: seq<seq<Block>>, i: nat, st: State)
    requires ValidScan(sc) && ShapedTables(tabs) && ValidMcus(sc, mcus) && i < |mcus| && Reached(sc, tabs, mcus, i, st)
    requires ValidState(sc, StartState(sc)) && ScanCodable(sc, tabs, StartState(sc), mcus)
    ensures McuCodable(sc, tabs, st, mcus[i]) && Reached(sc, tabs, mcus, i + 1, Step(sc, tabs, st, mcus[i]))
    ensures mcus[i..][0] == mcus[i] && mcus[i..][1..] == mcus[i + 1..] && mcus[..i] + [mcus[i]] == mcus[..i + 1]
  {
    hide ValidScan, ShapedTables, McuCodable, Step, Restarted;
    var s0 := Steps(sc, tabs, StartState(sc), mcus[..i]);
    SameStep(sc, tabs, st, s0, mcus[i]);
    assert mcus[..i + 1][..i] == mcus[..i];
  }

  lemma {:induction false} ReachedAgain(sc: Scan, tabs: CTables, mcus: seq<seq<Block>>, i: nat, st: State, st1: State)
    requires ValidScan(sc) && ShapedTables(tabs) && ValidMcus(sc, mcus) && i < |mcus| && Reached(sc, tabs, mcus, i, st)
    requires ValidState(sc, st1) && Restarted(sc, st1) == Restarted(sc, st)
    ensures Reached(sc, tabs, mcus, i, st1)
  {
  }

  /** The encoder's bytes for mcus, closed by some marker m, decode to mcus in whatever pieces
      they arrive: MCUs that do not find their data are tried again, no restart marker is
      missed, and no data has to be made up. */
  method DecodeScanInPieces(sc: Scan, dt: DTables, pieces: seq<seq<UInt8>>, n: nat, ghost tabs: CTables, ghost mcus: seq<seq<Block>>,
                            ghost m: UInt8, ghost rest: seq<UInt8>) returns (result: seq<seq<Block>>, filled: bool)
    requires Paired(sc, tabs, dt) && ValidMcus(sc, mcus) && n == |mcus| && m != 0 && m != 0xFF
    requires ScanCodable(sc, tabs, StartState(sc), mcus)
    requires Concat(pieces) == Final(Steps(sc, tabs, StartState(sc), mcus)) + [0xFF, m] + rest
    ensures result == mcus && !filled
  {
    hide ValidDTables, ShapedTables, InStep, Closed, AfterSegment, BytesBits, DataBytes, ToBits, Step, Final, McuCodable, ValidScan;
    ghost var file := Concat(pieces);
    var d := new HuffDecoder(sc, dt, file);
    result := [];
    ghost var st := StartState(sc);
    PairedScan(sc, tabs, dt);
    StartInStep(sc, tabs, file, mcus, m, rest);
    NothingBuffered(d.getBuffer, file);
    assert file[0..] == file && mcus[..0] == [] && mcus[0..] == mcus && pieces[..0] == [];
    for k := 0 to |pieces|
      invariant fresh(d) && d.sc == sc && d.dt == dt && d.file == file && d.data == Concat(pieces[..k])
      invariant |result| <= n && result == mcus[..|result|] && Reached(sc, tabs, mcus, |result|, st)
      invariant Following(d, tabs, st, mcus[|result|..], m, rest)
      invariant k > 0 && |result| < n ==> !d.InSight()
    {
      hide Following, Reached;
      assert pieces[..k + 1][..k] == pieces[..k];
      ConcatPrefix(pieces, k + 1);
      Deliver(d, pieces[k], tabs, st, mcus[|result|..], m, rest);
      result, st := DecodeSome(d, n, result, tabs, st, mcus, m, rest);
    }
    assert pieces[..|pieces|] == pieces && mcus[..n] == mcus;
    filled := d.insufficient;
  }

  /** The same with all the data at hand. */
  method DecodeScan(sc: Scan, dt: DTables, data: seq<UInt8>, ghost tabs: CTables, ghost mcus: seq<seq<Block>>, n: nat,
                    ghost m: UInt8, ghost rest: seq<UInt8>) returns (result: seq<seq<Block>>, filled: bool)
    requires Paired(sc, tabs, dt) && ValidMcus(sc, mcus) && n == |mcus| && m != 0 && m != 0xFF
    requires ScanCodable(sc, tabs, StartState(sc), mcus)
    requires data == Final(Steps(sc, tabs, StartState(sc), mcus)) + [0xFF, m] + rest
    ensures result == mcus && !filled
  {
    hide Paired, ScanCodable, Final, Steps;
    ConcatNext([], data);
    assert [] + [data] == [data] && [] + data == data;
    result, filled := DecodeScanInPieces(sc, dt, [data], n, tabs, mcus, m, rest);
  }

  lemma {:induction false} PairedScan(sc: Scan, tabs: CTables, dt: DTables)
    requires Paired(sc, tabs, dt)
    ensures ValidScan(sc) && ShapedTables(tabs)
  {
  }

  lemma {:induction false} NothingBuffered(buf: nat, data: seq<UInt8>)
    ensures ToBits(buf, 0) + BytesBits(DataBytes(data)) == BytesBits(DataBytes(data[0..]))
  {
    assert data[0..] == data;
  }

  lemma {:induction false} StartInStep(sc: Scan, tabs: CTables, data: seq<UInt8>, mcus: seq<seq<Block>>, m: UInt8, rest: seq<UInt8>)
    requires ValidScan(sc) && ShapedTables(tabs) && ValidMcus(sc, mcus) && m != 0 && m != 0xFF
    requires data == Final(Steps(sc, tabs, StartState(sc), mcus)) + [0xFF, m] + rest
    ensures Closed(data[0..]) && data[0..] == data && mcus[0..] == mcus
    ensures InStep(sc, tabs, BytesBits(DataBytes(data[0..])), AfterSegment(data[0..]), ZeroLast(|sc.dcTbl|), sc.restart, 0, mcus, m, rest)
  {
    hide Tail, SegmentBytes, Closed, AfterSegment;
    var st := StartState(sc);
    FinalTail(sc, tabs, st, mcus);
    var (bits, bytes) := Tail(sc, tabs, st.last, st.togo, st.rst, mcus);
    assert [] + SegmentBytes([] + bits) + bytes == SegmentBytes(bits) + bytes by { assert [] + bits == bits; }
    assert data[0..] == data;
    SegmentInStep(sc, tabs, data, ZeroLast(|sc.dcTbl|), sc.restart, 0, mcus, m, rest);
  }
}
