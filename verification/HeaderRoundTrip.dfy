/** Header segments as jcmarker.c writes them, and the proof that jdmarker.c's
    parsing gives them back. */
module HeaderRoundTrip {
  import opened JpegLimits
  import opened HuffTable
  import opened Stuffing
  import opened BlockCoding
  import opened MarkerSegments

  datatype Segment =
    | Soi
    | Dqt(slot: nat, q: seq<UInt16>)
    | Dht(isAc: bool, slot: nat, t: HuffTbl)
    | Dri(v: UInt16)
    | Sof(code: UInt8, f: Frame)
    | Sos(sh: ScanHeader)

  predicate Wide(q: seq<UInt16>) {
    exists k :: 0 <= k < |q| && q[k] > 255
  }

  /** What the segment needs of the parameters read before it, and of itself. */
  ghost predicate Legal(seg: Segment, ci: Cinfo) {
    match seg
    case Soi => !ci.soi
    case Dqt(slot, q) => slot < NUM_QUANT_TBLS && |q| == DCTSIZE2
    case Dht(_, slot, t) => slot < NUM_HUFF_TBLS && Shaped(t) && Upto(t.bits, MAXBITS) <= 256
    case Dri(_) => true
    case Sof(code, f) =>
      && f.Frame? && !f.arith && ci.frame == NoFrame && f.height > 0 && f.width > 0 && 0 < |f.comps| < 256
      && (if f.progressive then code == M_SOF2 else code == M_SOF0 || code == M_SOF1)
    case Sos(sh) =>
      && sh.ScanHeader? && 1 <= |sh.comps| <= MAX_COMPS_IN_SCAN
      && forall i :: 0 <= i < |sh.comps| ==> KnownId(ci.frame, sh.comps[i].id)
  }

  function Symbols(t: HuffTbl): seq<UInt8>
    requires Shaped(t)
  {
    var n := Upto(t.bits, MAXBITS);
    if n <= 256 then t.huffval[..n] else []
  }

  function Apply(seg: Segment, ci: Cinfo): Cinfo {
    match seg
    case Soi => ci.(soi := true, restart := 0)
    case Dqt(slot, q) => ci.(quant := ci.quant[slot := q])
    case Dht(isAc, slot, t) =>
      if !Shaped(t) then ci else
      var t' := StoredTable(t.bits[1..], Symbols(t));
      if isAc then ci.(ac := ci.ac[slot := t']) else ci.(dc := ci.dc[slot := t'])
    case Dri(v) => ci.(restart := v)
    case Sof(_, f) => ci.(frame := f)
    case Sos(sh) => ci.(scan := sh)
  }

  function Two16(v: int): (b: seq<UInt8>)
    ensures |b| == 2
  {
    [v / 256 % 256, v % 256]
  }

  /** Table entries in zigzag order, the first n of them. */
  function QuantBytes(q: seq<UInt16>, order: seq<nat>, wide: bool, n: nat): (b: seq<UInt8>)
    requires |q| == DCTSIZE2 && Usable(order) && n <= DCTSIZE2
    ensures |b| == if wide then 2 * n else n
  {
    if n == 0 then [] else
    QuantBytes(q, order, wide, n - 1) + if wide then Two16(q[order[n - 1]]) else [q[order[n - 1]] % 256]
  }

  function CompBytes(cs: seq<FrameComp>): (b: seq<UInt8>)
    ensures |b| == 3 * |cs|
  {
    if cs == [] then [] else
    var c := cs[|cs| - 1];
    CompBytes(cs[..|cs| - 1]) + [c.id, 16 * c.h + c.v, c.tq]
  }

  function ScanCompBytes(cs: seq<ScanComp>): (b: seq<UInt8>)
    ensures |b| == 2 * |cs|
  {
    if cs == [] then [] else
    var c := cs[|cs| - 1];
    ScanCompBytes(cs[..|cs| - 1]) + [c.id, 16 * c.td + c.ta]
  }

  function Code(seg: Segment): UInt8 {
    match seg
    case Soi => M_SOI
    case Dqt(_, _) => M_DQT
    case Dht(_, _, _) => M_DHT
    case Dri(_) => M_DRI
    case Sof(code, _) => code
    case Sos(_) => M_SOS
  }

  /** The parameters of a segment, with their length field. */
  function Body(seg: Segment, order: seq<nat>): seq<UInt8>
    requires Usable(order)
  {
    match seg
    case Soi => []
    case Dqt(slot, q) =>
      if |q| != DCTSIZE2 || slot >= NUM_QUANT_TBLS then [] else
      Two16(if Wide(q) then 2 * DCTSIZE2 + 3 else DCTSIZE2 + 3) + [slot + if Wide(q) then 16 else 0]
      + QuantBytes(q, order, Wide(q), DCTSIZE2)
    case Dht(isAc, slot, t) =>
      if !Shaped(t) || slot >= NUM_HUFF_TBLS then [] else
      Two16(Upto(t.bits, MAXBITS) + 19) + [slot + if isAc then 16 else 0] + t.bits[1..] + Symbols(t)
    case Dri(v) => Two16(4) + Two16(v)
    case Sof(_, f) =>
      if f == NoFrame || |f.comps| >= 256 then [] else
      Two16(3 * |f.comps| + 8) + [f.precision] + Two16(f.height) + Two16(f.width) + [|f.comps|] + CompBytes(f.comps)
    case Sos(sh) =>
      if sh == NoScan || |sh.comps| >= 256 then [] else
      Two16(2 * |sh.comps| + 6) + [|sh.comps|] + ScanCompBytes(sh.comps) + [sh.Ss, sh.Se, 16 * sh.Ah + sh.Al]
  }

  // ----- each segment parses back

  /** data has b at position pos. */
  ghost predicate At(data: seq<UInt8>, pos: nat, b: seq<UInt8>) {
    pos + |b| <= |data| && data[pos..pos + |b|] == b
  }

  lemma {:induction false} AtSplit(data: seq<UInt8>, pos: nat, a: seq<UInt8>, b: seq<UInt8>)
    requires At(data, pos, a + b)
    ensures At(data, pos, a) && At(data, pos + |a|, b)
  {
    assert data[pos..pos + |a|] == (a + b)[..|a|];
    assert data[pos + |a|..pos + |a| + |b|] == (a + b)[|a|..];
  }

  lemma {:induction false} AtByte(data: seq<UInt8>, pos: nat, b: UInt8)
    requires At(data, pos, [b])
    ensures pos < |data| && data[pos] == b
  {
    assert data[pos..pos + 1][0] == b;
  }

  lemma {:induction false} AtTwo(data: seq<UInt8>, pos: nat, v: UInt16)
    requires At(data, pos, Two16(v))
    ensures pos + 2 <= |data| && Two(data, pos) == v
  {
    assert data[pos..pos + 2][0] == data[pos] && data[pos..pos + 2][1] == data[pos + 1];
  }

  lemma {:induction false} EntryBack(data: seq<UInt8>, pos: nat, wide: bool, n: nat, v: UInt16)
    requires At(data, pos + (if wide then 2 * n else n), if wide then Two16(v) else [v % 256]) && (!wide ==> v <= 255)
    ensures pos + (if wide then 2 * n + 2 else n + 1) <= |data| && QuantEntry(data, pos, wide, n) == v
  {
    if wide {
      AtTwo(data, pos + 2 * n, v);
    } else {
      AtByte(data, pos + n, v % 256);
    }
  }

  lemma {:induction false} QuantBack(data: seq<UInt8>, pos: nat, q: seq<UInt16>, order: seq<nat>, wide: bool, n: nat)
    requires NaturalOrder(order) && |q| == DCTSIZE2 && n <= DCTSIZE2 && (wide || forall k :: 0 <= k < DCTSIZE2 ==> q[k] <= 255)
    requires At(data, pos, QuantBytes(q, order, wide, n))
    ensures var r := QuantFill(data, pos, wide, order, n, ZeroQuant());
            forall k :: 0 <= k < n ==> r[order[k]] == q[order[k]]
  {
    if n > 0 {
      var v := q[order[n - 1]];
      var last: seq<UInt8> := if wide then Two16(v) else [v % 256];
      AtSplit(data, pos, QuantBytes(q, order, wide, n - 1), last);
      QuantBack(data, pos, q, order, wide, n - 1);
      hide At, QuantBytes, QuantEntry, Two16;
      EntryBack(data, pos, wide, n - 1, v);
    }
  }

  /** Every entry of the table is some zigzag position's. */
  lemma {:induction false} QuantAll(order: seq<nat>, q: seq<UInt16>, r: seq<UInt16>)
    requires NaturalOrder(order) && |q| == |r| == DCTSIZE2
    requires forall k :: 0 <= k < DCTSIZE2 ==> r[order[k]] == q[order[k]]
    ensures r == q
  {
    forall i | 0 <= i < DCTSIZE2
      ensures r[i] == q[i]
    {
      assert i in order[..DCTSIZE2];
      var k :| 0 <= k < DCTSIZE2 && order[k] == i;
    }
  }

  lemma {:induction false} DqtBack(data: seq<UInt8>, pos: nat, slot: nat, q: seq<UInt16>, order: seq<nat>, ci: Cinfo)
    requires NaturalOrder(order) && Legal(Dqt(slot, q), ci) && At(data, pos, Body(Dqt(slot, q), order))
    ensures ParseDqt(data, pos, order, ci) == Done(pos + |Body(Dqt(slot, q), order)|, Apply(Dqt(slot, q), ci))
  {
    var wide := Wide(q);
    var len := if wide then 2 * DCTSIZE2 + 3 else DCTSIZE2 + 3;
    var head: seq<UInt8> := [slot + if wide then 16 else 0];
    AtSplit(data, pos, Two16(len) + head, QuantBytes(q, order, wide, DCTSIZE2));
    AtSplit(data, pos, Two16(len), head);
    AtTwo(data, pos, len);
    AtByte(data, pos + 2, head[0]);
    QuantBack(data, pos + 3, q, order, wide, DCTSIZE2);
    hide QuantFill, NaturalOrder, QuantBytes, Wide, ParseQuants, At;
    var r := QuantFill(data, pos + 3, wide, order, DCTSIZE2, ZeroQuant());
    QuantAll(order, q, r);
    OneQuant(data, pos + 2, len - 2, order, ci, slot, wide);
  }

  /** A DQT segment with a single table. */
  lemma {:induction false} OneQuant(data: seq<UInt8>, pos: nat, length: int, order: seq<nat>, ci: Cinfo, slot: nat, wide: bool)
    requires Usable(order) && slot < NUM_QUANT_TBLS && length == (if wide then 2 * DCTSIZE2 + 1 else DCTSIZE2 + 1)
    requires pos + length <= |data| && data[pos] == slot + if wide then 16 else 0
    ensures ParseQuants(data, pos, length, order, ci)
         == Done(pos + length, ci.(quant := ci.quant[slot := QuantFill(data, pos + 1, wide, order, DCTSIZE2, ZeroQuant())]))
  {
    hide QuantFill;
    assert (data[pos] / 16 != 0) == wide && data[pos] % 16 == slot;
    var ci' := ci.(quant := ci.quant[slot := QuantFill(data, pos + 1, wide, order, DCTSIZE2, ZeroQuant())]);
    assert ParseQuants(data, pos + length, 0, order, ci') == Done(pos + length, ci');
  }

  /** A DHT segment with a single table. */
  lemma {:induction false} OneTable(data: seq<UInt8>, pos: nat, length: int, ci: Cinfo, slot: nat, isAc: bool, counts: seq<UInt8>, vals: seq<UInt8>)
    requires slot < NUM_HUFF_TBLS && |counts| == MAXBITS && |vals| == Upto([0] + counts, MAXBITS) <= 256
    requires length == 17 + |vals| && pos + length <= |data| && data[pos] == slot + if isAc then 16 else 0
    requires data[pos + 1..pos + 17] == counts && data[pos + 17..pos + 17 + |vals|] == vals
    ensures var t := StoredTable(counts, vals);
            var ci' := if isAc then ci.(ac := ci.ac[slot := t]) else ci.(dc := ci.dc[slot := t]);
            ParseTables(data, pos, length, ci) == Done(pos + length, ci')
  {
    hide Upto, StoredTable;
    assert data[pos] / 16 % 2 == (if isAc then 1 else 0);
    var t := StoredTable(counts, vals);
    var ci' := if isAc then ci.(ac := ci.ac[slot := t]) else ci.(dc := ci.dc[slot := t]);
    assert ParseTables(data, pos + length, 0, ci') == Done(pos + length, ci');
  }

  /** Where the parts of a DHT segment are. */
  lemma {:induction false} DhtParts(data: seq<UInt8>, pos: nat, isAc: bool, slot: nat, t: HuffTbl, order: seq<nat>)
    requires Usable(order) && slot < NUM_HUFF_TBLS && Shaped(t) && Upto(t.bits, MAXBITS) <= 256
    requires At(data, pos, Body(Dht(isAc, slot, t), order))
    ensures var n := Upto(t.bits, MAXBITS);
            && |Body(Dht(isAc, slot, t), order)| == n + 19 && pos + 19 + n <= |data|
            && Two(data, pos) == n + 19 && data[pos + 2] == slot + (if isAc then 16 else 0)
            && data[pos + 3..pos + 19] == t.bits[1..] && data[pos + 19..pos + 19 + n] == Symbols(t)
  {
    hide Kraft, Upto;
    var n := Upto(t.bits, MAXBITS);
    var head: seq<UInt8> := [slot + if isAc then 16 else 0];
    var counts, vals := t.bits[1..], Symbols(t);
    AtSplit(data, pos, Two16(n + 19) + head + counts, vals);
    AtSplit(data, pos, Two16(n + 19) + head, counts);
    AtSplit(data, pos, Two16(n + 19), head);
    AtTwo(data, pos, n + 19);
    AtByte(data, pos + 2, head[0]);
  }

  lemma {:induction false} DhtBack(data: seq<UInt8>, pos: nat, isAc: bool, slot: nat, t: HuffTbl, order: seq<nat>, ci: Cinfo)
    requires Usable(order) && Legal(Dht(isAc, slot, t), ci) && At(data, pos, Body(Dht(isAc, slot, t), order))
    ensures ParseDht(data, pos, ci) == Done(pos + |Body(Dht(isAc, slot, t), order)|, Apply(Dht(isAc, slot, t), ci))
  {
    DhtParts(data, pos, isAc, slot, t, order);
    var counts := t.bits[1..];
    KraftPrefix([0] + counts, t.bits, MAXBITS);
    hide Kraft, Upto, ParseTables, At, Body, StoredTable;
    OneTable(data, pos + 2, Upto(t.bits, MAXBITS) + 17, ci, slot, isAc, counts, Symbols(t));
  }

  lemma {:induction false} CompsBack(data: seq<UInt8>, pos: nat, cs: seq<FrameComp>)
    requires At(data, pos, CompBytes(cs))
    ensures FrameComps(data, pos, |cs|) == cs
  {
    if cs != [] {
      var n := |cs| - 1;
      var c := cs[n];
      AtSplit(data, pos, CompBytes(cs[..n]), [c.id, 16 * c.h + c.v, c.tq]);
      CompsBack(data, pos, cs[..n]);
      var p := pos + 3 * n;
      assert data[p..p + 3][0] == data[p] && data[p..p + 3][1] == data[p + 1] && data[p..p + 3][2] == data[p + 2];
      assert (16 * c.h + c.v) / 16 == c.h && (16 * c.h + c.v) % 16 == c.v;
    }
  }

  lemma {:induction false} SofBack(data: seq<UInt8>, pos: nat, code: UInt8, f: Frame, order: seq<nat>, ci: Cinfo)
    requires Usable(order) && Legal(Sof(code, f), ci) && At(data, pos, Body(Sof(code, f), order))
    ensures ParseSof(data, pos, f.progressive, false, ci) == Done(pos + |Body(Sof(code, f), order)|, Apply(Sof(code, f), ci))
  {
    var n := |f.comps|;
    var a, b, c, d := Two16(3 * n + 8), [f.precision], Two16(f.height), Two16(f.width);
    var e: seq<UInt8> := [n];
    AtSplit(data, pos, a + b + c + d + e, CompBytes(f.comps));
    AtSplit(data, pos, a + b + c + d, e);
    AtSplit(data, pos, a + b + c, d);
    AtSplit(data, pos, a + b, c);
    AtSplit(data, pos, a, b);
    AtTwo(data, pos, 3 * n + 8);
    AtByte(data, pos + 2, f.precision);
    AtTwo(data, pos + 3, f.height);
    AtTwo(data, pos + 5, f.width);
    AtByte(data, pos + 7, n);
    CompsBack(data, pos + 8, f.comps);
  }

  lemma {:induction false} ScanCompsAt(data: seq<UInt8>, pos: nat, cs: seq<ScanComp>, i: nat)
    requires At(data, pos, ScanCompBytes(cs)) && i < |cs|
    ensures pos + 2 * i + 2 <= |data|
    ensures data[pos + 2 * i] == cs[i].id && data[pos + 2 * i + 1] / 16 == cs[i].td && data[pos + 2 * i + 1] % 16 == cs[i].ta
  {
    var n := |cs| - 1;
    var c := cs[n];
    AtSplit(data, pos, ScanCompBytes(cs[..n]), [c.id, 16 * c.td + c.ta]);
    if i < n {
      ScanCompsAt(data, pos, cs[..n], i);
    } else {
      var p := pos + 2 * n;
      assert data[p..p + 2][0] == data[p] && data[p..p + 2][1] == data[p + 1];
      assert (16 * c.td + c.ta) / 16 == c.td && (16 * c.td + c.ta) % 16 == c.ta;
    }
  }

  lemma {:induction false} ScanCompsBack(data: seq<UInt8>, pos: nat, cs: seq<ScanComp>, i: nat, f: Frame)
    requires At(data, pos, ScanCompBytes(cs)) && i <= |cs|
    requires forall j :: 0 <= j < |cs| ==> KnownId(f, cs[j].id)
    ensures ScanComps(data, pos + 2 * i, i, |cs|, f, cs[..i]) == CompsDone(cs)
    decreases |cs| - i
  {
    if i < |cs| {
      ScanCompsAt(data, pos, cs, i);
      ScanCompsBack(data, pos, cs, i + 1, f);
      assert cs[..i + 1] == cs[..i] + [cs[i]];
    } else {
      assert cs[..i] == cs;
    }
  }

  lemma {:induction false} SosBack(data: seq<UInt8>, pos: nat, sh: ScanHeader, order: seq<nat>, ci: Cinfo)
    requires Usable(order) && Legal(Sos(sh), ci) && At(data, pos, Body(Sos(sh), order))
    ensures ParseSos(data, pos, ci) == Done(pos + |Body(Sos(sh), order)|, Apply(Sos(sh), ci))
  {
    var n := |sh.comps|;
    assert KnownId(ci.frame, sh.comps[0].id);
    var a, d := Two16(2 * n + 6), [sh.Ss, sh.Se, 16 * sh.Ah + sh.Al];
    var b: seq<UInt8> := [n];
    AtSplit(data, pos, a + b + ScanCompBytes(sh.comps), d);
    AtSplit(data, pos, a + b, ScanCompBytes(sh.comps));
    AtSplit(data, pos, a, b);
    AtTwo(data, pos, 2 * n + 6);
    AtByte(data, pos + 2, n);
    ScanCompsBack(data, pos + 3, sh.comps, 0, ci.frame);
    assert sh.comps[..0] == [];
    var p := pos + 3 + 2 * n;
    assert data[p..p + 3][0] == data[p] && data[p..p + 3][1] == data[p + 1] && data[p..p + 3][2] == data[p + 2];
    assert (16 * sh.Ah + sh.Al) / 16 == sh.Ah && (16 * sh.Ah + sh.Al) % 16 == sh.Al;
  }

  lemma {:induction false} DriBack(data: seq<UInt8>, pos: nat, v: UInt16, order: seq<nat>, ci: Cinfo)
    requires Usable(order) && At(data, pos, Body(Dri(v), order))
    ensures ParseDri(data, pos, ci) == Done(pos + |Body(Dri(v), order)|, Apply(Dri(v), ci))
  {
    AtSplit(data, pos, Two16(4), Two16(v));
    AtTwo(data, pos, 4);
    AtTwo(data, pos + 2, v);
  }

  /** Reading any legal segment consumes exactly its bytes and sets exactly what it carries. */
  lemma {:induction false} SegmentBack(data: seq<UInt8>, pos: nat, seg: Segment, order: seq<nat>, ci: Cinfo)
    requires NaturalOrder(order) && Legal(seg, ci) && At(data, pos, Body(seg, order))
    ensures ParseSegment(Code(seg), data, pos, order, ci) == Done(pos + |Body(seg, order)|, Apply(seg, ci))
  {
    assert Usable(order);
    hide ParseDqt, ParseDht, ParseSof, ParseSos, ParseDri, Body, NaturalOrder, Usable;
    match seg
    case Soi => assert |Body(seg, order)| == 0 by { NoBody(order); }
    case Dqt(slot, q) => DqtBack(data, pos, slot, q, order, ci);
    case Dht(isAc, slot, t) => DhtBack(data, pos, isAc, slot, t, order, ci);
    case Dri(v) => DriBack(data, pos, v, order, ci);
    case Sof(code, f) => SofBack(data, pos, code, f, order, ci);
    case Sos(sh) => SosBack(data, pos, sh, order, ci);
  }

  lemma {:induction false} NoBody(order: seq<nat>)
    requires Usable(order)
    ensures Body(Soi, order) == []
  {
  }

  // ----- a segment in its place in the file

  function Bytes(seg: Segment, order: seq<nat>): seq<UInt8>
    requires Usable(order)
  {
    [0xFF, Code(seg)] + Body(seg, order)
  }

  lemma {:induction false} MarkerAt(data: seq<UInt8>, pos: nat, m: UInt8)
    requires At(data, pos, [0xFF, m]) && m != 0 && m != 0xFF
    ensures data[pos] == 0xFF && data[pos + 1] == m
    ensures Closed(data[pos..]) && AfterSegment(data[pos..]) == (m, data[pos + 2..])
  {
    var rest := data[pos + 2..];
    assert data[pos..] == [0xFF, m] + rest by {
      assert data[pos..] == data[pos..pos + 2] + rest;
    }
    NextMarkerUnit(m, rest);
    assert data[pos..][0] == 0xFF && data[pos..][1] == m;
  }

  lemma {:induction false} ReadAt(data: seq<UInt8>, pos: nat, m: UInt8, order: seq<nat>, ci: Cinfo)
    requires Usable(order) && At(data, pos, [0xFF, m]) && m != 0 && m != 0xFF && ci.soi == (m != M_SOI)
    ensures ReadMarkers(data, pos, order, ci) == AfterMarker(m, data, pos + 2, order, ci)
  {
    hide AfterMarker, Closed, AfterSegment, Usable;
    MarkerAt(data, pos, m);
    assert |data| - |data[pos + 2..]| == pos + 2;
  }

  lemma {:induction false} AfterAt(m: UInt8, data: seq<UInt8>, pos: nat, order: seq<nat>, ci: Cinfo, q: nat, ci': Cinfo)
    requires Usable(order) && pos <= |data| && m != M_EOI && ParseSegment(m, data, pos, order, ci) == Done(q, ci')
    ensures q <= |data|
    ensures AfterMarker(m, data, pos, order, ci) == if m == M_SOS then ReachedSos(q, ci') else ReadMarkers(data, q, order, ci')
  {
    hide ParseSegment, ReadMarkers, Usable;
  }

  lemma {:induction false} CodeFacts(seg: Segment, order: seq<nat>, ci: Cinfo)
    requires Legal(seg, ci) && (seg.Soi? || ci.soi) && NaturalOrder(order)
    ensures Code(seg) != 0 && Code(seg) != 0xFF && Code(seg) != M_EOI && Usable(order)
    ensures ci.soi == (Code(seg) != M_SOI) && (Code(seg) == M_SOS <==> seg.Sos?)
  {
  }

  /** A decoder that meets a legal segment goes on exactly after it, knowing exactly what it
      carries besides what it knew; a scan header is where it stops. */
  lemma {:induction false} SegmentStep(data: seq<UInt8>, pos: nat, seg: Segment, order: seq<nat>, ci: Cinfo)
    requires NaturalOrder(order) && Legal(seg, ci) && At(data, pos, Bytes(seg, order)) && (seg.Soi? || ci.soi)
    ensures var end := pos + |Bytes(seg, order)|;
            var r := if seg.Sos? then ReachedSos(end, Apply(seg, ci)) else ReadMarkers(data, end, order, Apply(seg, ci));
            end <= |data| && ReadMarkers(data, pos, order, ci) == r
  {
    hide *;
    CodeFacts(seg, order, ci);
    assert |Bytes(seg, order)| == 2 + |Body(seg, order)| && At(data, pos, [0xFF, Code(seg)]) && At(data, pos + 2, Body(seg, order)) && pos + 2 <= |data| by {
      BytesParts(data, pos, seg, order);
    }
    SegmentBack(data, pos + 2, seg, order, ci);
    ReadAt(data, pos, Code(seg), order, ci);
    AfterAt(Code(seg), data, pos + 2, order, ci, pos + 2 + |Body(seg, order)|, Apply(seg, ci));
  }

  lemma {:induction false} BytesParts(data: seq<UInt8>, pos: nat, seg: Segment, order: seq<nat>)
    requires Usable(order) && At(data, pos, Bytes(seg, order))
    ensures |Bytes(seg, order)| == 2 + |Body(seg, order)| && pos + 2 <= |data|
    ensures At(data, pos, [0xFF, Code(seg)]) && At(data, pos + 2, Body(seg, order))
  {
    hide Body;
    AtSplit(data, pos, [0xFF, Code(seg)], Body(seg, order));
  }
}
