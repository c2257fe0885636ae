/** A sequential Huffman scan as a whole: which symbols each MCU sends, the
    restart bookkeeping, and the byte stream a scan becomes. */
module ScanCoding {
  import opened JpegLimits
  import opened Bits
  import opened HuffTable
  import opened DerivedTables
  import opened Stuffing
  import opened BlockCoding

  const RST0 := 0xD0

  /** What entropy coding knows of the scan. membership maps the blocks of an
      MCU to scan components; dcTbl and acTbl are their table numbers. */
  datatype Scan = Scan(membership: seq<nat>, dcTbl: seq<nat>, acTbl: seq<nat>, restart: nat, order: seq<nat>)

  ghost predicate ValidScan(sc: Scan) {
    && NaturalOrder(sc.order)
    && |sc.dcTbl| == |sc.acTbl|
    && (forall b :: 0 <= b < |sc.membership| ==> sc.membership[b] < |sc.dcTbl|)
    && (forall c :: 0 <= c < |sc.dcTbl| ==> sc.dcTbl[c] < NUM_HUFF_TBLS && sc.acTbl[c] < NUM_HUFF_TBLS)
  }

  type Block = b: seq<Coef> | |b| == DCTSIZE2 witness seq(DCTSIZE2, i => 0)

  /** One MCU: its blocks in coding order. */
  ghost predicate ValidMcu(sc: Scan, mcu: seq<Block>) {
    |mcu| == |sc.membership|
  }

  // ----- symbols of an MCU

  /** An item and the scan component it belongs to. */
  datatype Tagged = Tagged(comp: nat, item: Item)

  function Tag(comp: nat, its: seq<Item>): (t: seq<Tagged>)
    ensures |t| == |its| && forall i :: 0 <= i < |its| ==> t[i] == Tagged(comp, its[i])
  {
    if its == [] then [] else [Tagged(comp, its[0])] + Tag(comp, its[1..])
  }

  ghost predicate TaggedOk(sc: Scan, its: seq<Tagged>)
    requires ValidScan(sc)
  {
    forall i :: 0 <= i < |its| ==> its[i].comp < |sc.dcTbl|
  }

  /** The items of blocks b, b+1, ... with the DC predictions last. */
  ghost function ItemsFrom(sc: Scan, last: seq<int>, mcu: seq<Block>, b: nat): (its: seq<Tagged>)
    requires ValidScan(sc) && ValidMcu(sc, mcu) && |last| == |sc.dcTbl| && b <= |mcu|
    ensures TaggedOk(sc, its)
    decreases |mcu| - b
  {
    if b == |mcu| then [] else
    var c := sc.membership[b];
    Tag(c, BlockItems(ZigZag(mcu[b], sc.order), last[c])) + ItemsFrom(sc, last[c := mcu[b][0]], mcu, b + 1)
  }

  /** The DC predictions after blocks b, b+1, ... */
  ghost function LastFrom(sc: Scan, last: seq<int>, mcu: seq<Block>, b: nat): (r: seq<int>)
    requires ValidScan(sc) && ValidMcu(sc, mcu) && |last| == |sc.dcTbl| && b <= |mcu|
    ensures |r| == |last|
    decreases |mcu| - b
  {
    if b == |mcu| then last else
    LastFrom(sc, last[sc.membership[b] := mcu[b][0]], mcu, b + 1)
  }

  // ----- with code tables

  /** The derived tables in their slots. */
  datatype CTables = CTables(dc: seq<CDerived>, ac: seq<CDerived>)

  ghost predicate ShapedTables(tabs: CTables) {
    && |tabs.dc| == |tabs.ac| == NUM_HUFF_TBLS
    && (forall i :: 0 <= i < NUM_HUFF_TBLS ==> ShortCodes(tabs.dc[i]) && ShortCodes(tabs.ac[i]))
  }

  predicate ShortCodes(c: CDerived) {
    TableShaped(c) && forall s :: 0 <= s < 256 ==> c.ehufsi[s] <= MAXBITS
  }

  ghost function TaggedBits(sc: Scan, tabs: CTables, its: seq<Tagged>): BitString
    requires ValidScan(sc) && ShapedTables(tabs) && TaggedOk(sc, its)
  {
    if its == [] then [] else
    var c := its[0].comp;
    ItemBits(tabs.dc[sc.dcTbl[c]], tabs.ac[sc.acTbl[c]], its[0].item) + TaggedBits(sc, tabs, its[1..])
  }

  ghost predicate TaggedCodable(sc: Scan, tabs: CTables, its: seq<Tagged>)
    requires ValidScan(sc) && ShapedTables(tabs) && TaggedOk(sc, its)
  {
    forall i :: 0 <= i < |its| ==>
      Codable(tabs.dc[sc.dcTbl[its[i].comp]], tabs.ac[sc.acTbl[its[i].comp]], its[i].item)
  }

  lemma {:induction false} TaggedOfBlock(sc: Scan, tabs: CTables, c: nat, its: seq<Item>)
    requires ValidScan(sc) && ShapedTables(tabs) && c < |sc.dcTbl|
    ensures TaggedOk(sc, Tag(c, its))
    ensures TaggedBits(sc, tabs, Tag(c, its)) == ItemsBits(tabs.dc[sc.dcTbl[c]], tabs.ac[sc.acTbl[c]], its)
    ensures TaggedCodable(sc, tabs, Tag(c, its)) <==> AllCodable(tabs.dc[sc.dcTbl[c]], tabs.ac[sc.acTbl[c]], its)
  {
    if its != [] {
      TaggedOfBlock(sc, tabs, c, its[1..]);
      assert Tag(c, its)[1..] == Tag(c, its[1..]);
    }
    var t := Tag(c, its);
    assert forall i :: 0 <= i < |its| ==> t[i].item == its[i] && t[i].comp == c;
  }

  lemma {:induction false} TaggedBitsAppend(sc: Scan, tabs: CTables, a: seq<Tagged>, b: seq<Tagged>)
    requires ValidScan(sc) && ShapedTables(tabs) && TaggedOk(sc, a) && TaggedOk(sc, b)
    ensures TaggedOk(sc, a + b)
    ensures TaggedBits(sc, tabs, a + b) == TaggedBits(sc, tabs, a) + TaggedBits(sc, tabs, b)
    ensures TaggedCodable(sc, tabs, a + b) <==> TaggedCodable(sc, tabs, a) && TaggedCodable(sc, tabs, b)
  {
    CodableTogether(sc, tabs, a, b);
    hide ItemBits, Codable, TaggedCodable, NaturalOrder, ShortCodes;
    if a == [] {
      assert a + b == b;
    } else {
      assert (a + b)[1..] == a[1..] + b && (a + b)[0] == a[0];
      TaggedBitsAppend(sc, tabs, a[1..], b);
    }
  }

  lemma {:induction false} CodableTogether(sc: Scan, tabs: CTables, a: seq<Tagged>, b: seq<Tagged>)
    requires ValidScan(sc) && ShapedTables(tabs) && TaggedOk(sc, a) && TaggedOk(sc, b)
    ensures TaggedOk(sc, a + b)
    ensures TaggedCodable(sc, tabs, a + b) <==> TaggedCodable(sc, tabs, a) && TaggedCodable(sc, tabs, b)
  {
    hide Codable, NaturalOrder, ShortCodes;
    assert forall i :: 0 <= i < |a| ==> (a + b)[i] == a[i];
    assert forall i :: 0 <= i < |b| ==> (a + b)[|a| + i] == b[i];
  }

  // ----- the state of a scan in progress

  /** base holds finished segments with their restart markers, seg the bits of
      the current one; last, togo and rst are the saved encoder fields. */
  datatype State = State(base: seq<UInt8>, seg: BitString, last: seq<int>, togo: nat, rst: nat)

  ghost predicate ValidState(sc: Scan, st: State) {
    && |st.last| == |sc.dcTbl| && st.rst < 8
    && (sc.restart > 0 ==> st.togo <= sc.restart)
  }

  function ZeroLast(n: nat): (z: seq<int>)
    ensures |z| == n
  {
    seq(n, i => 0)
  }

  function StartState(sc: Scan): State {
    State([], [], ZeroLast(|sc.dcTbl|), sc.restart, 0)
  }

  predicate NeedsRestart(sc: Scan, st: State) {
    sc.restart > 0 && st.togo == 0
  }

  /** A restart marker first when the interval is used up. */
  function Restarted(sc: Scan, st: State): State
    requires st.rst < 8
  {
    if NeedsRestart(sc, st)
    then State(st.base + SegmentBytes(st.seg) + [0xFF, RST0 + st.rst], [], ZeroLast(|sc.dcTbl|),
               sc.restart, (st.rst + 1) % 8)
    else st
  }

  lemma {:induction false} StepPredictions(sc: Scan, tabs: CTables, st: State, mcu: seq<Block>)
    requires ValidScan(sc) && ShapedTables(tabs) && ValidState(sc, st) && ValidMcu(sc, mcu)
    ensures McuItems(sc, st, mcu) == ItemsFrom(sc, LastIn(sc, st.last, st.togo), mcu, 0)
    ensures Step(sc, tabs, st, mcu).last == LastFrom(sc, LastIn(sc, st.last, st.togo), mcu, 0)
    ensures Step(sc, tabs, st, mcu).togo == TogoAfter(sc, st.togo)
  {
  }

  /** The predictions an MCU starts from. */
  function LastIn(sc: Scan, last: seq<int>, togo: nat): (r: seq<int>)
    requires |last| == |sc.dcTbl|
    ensures |r| == |last|
  {
    if sc.restart > 0 && togo == 0 then ZeroLast(|last|) else last
  }

  function TogoAfter(sc: Scan, togo: nat): nat {
    if sc.restart == 0 then togo else if togo == 0 then sc.restart - 1 else togo - 1
  }

  /** The items of a run of MCUs; no code tables are involved. */
  ghost function ScanItems(sc: Scan, last: seq<int>, togo: nat, mcus: seq<seq<Block>>): (its: seq<Tagged>)
    requires ValidScan(sc) && ValidMcus(sc, mcus) && |last| == |sc.dcTbl|
    ensures TaggedOk(sc, its)
    decreases mcus
  {
    if mcus == [] then [] else
    var l1 := LastIn(sc, last, togo);
    ItemsFrom(sc, l1, mcus[0], 0) + ScanItems(sc, LastFrom(sc, l1, mcus[0], 0), TogoAfter(sc, togo), mcus[1..])
  }

  ghost function McuItems(sc: Scan, st: State, mcu: seq<Block>): (its: seq<Tagged>)
    requires ValidScan(sc) && ValidState(sc, st) && ValidMcu(sc, mcu)
    ensures TaggedOk(sc, its)
  {
    ItemsFrom(sc, Restarted(sc, st).last, mcu, 0)
  }

  ghost predicate McuCodable(sc: Scan, tabs: CTables, st: State, mcu: seq<Block>)
    requires ValidScan(sc) && ShapedTables(tabs) && ValidState(sc, st) && ValidMcu(sc, mcu)
  {
    TaggedCodable(sc, tabs, McuItems(sc, st, mcu))
  }

  ghost function Step(sc: Scan, tabs: CTables, st: State, mcu: seq<Block>): (r: State)
    requires ValidScan(sc) && ShapedTables(tabs) && ValidState(sc, st) && ValidMcu(sc, mcu)
    ensures ValidState(sc, r)
  {
    var s1 := Restarted(sc, st);
    State(s1.base, s1.seg + TaggedBits(sc, tabs, McuItems(sc, st, mcu)), LastFrom(sc, s1.last, mcu, 0),
          if sc.restart > 0 then s1.togo - 1 else s1.togo, s1.rst)
  }

  ghost predicate ValidMcus(sc: Scan, mcus: seq<seq<Block>>) {
    forall i :: 0 <= i < |mcus| ==> ValidMcu(sc, mcus[i])
  }

  ghost function Steps(sc: Scan, tabs: CTables, st: State, mcus: seq<seq<Block>>): (r: State)
    requires ValidScan(sc) && ShapedTables(tabs) && ValidState(sc, st) && ValidMcus(sc, mcus)
    ensures ValidState(sc, r)
  {
    if mcus == [] then st else
    Step(sc, tabs, Steps(sc, tabs, st, mcus[..|mcus| - 1]), mcus[|mcus| - 1])
  }

  /** The bytes of the scan once the encoder has flushed. */
  function Final(st: State): seq<UInt8> {
    st.base + SegmentBytes(st.seg)
  }

  /** No MCU of the scan makes the encoder give up. */
  ghost predicate ScanCodable(sc: Scan, tabs: CTables, st: State, mcus: seq<seq<Block>>)
    requires ValidScan(sc) && ShapedTables(tabs) && ValidState(sc, st) && ValidMcus(sc, mcus)
  {
    forall i :: 0 <= i < |mcus| ==> McuCodable(sc, tabs, Steps(sc, tabs, st, mcus[..i]), mcus[i])
  }
}
