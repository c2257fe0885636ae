/** The marker writer of jcmarker.c. Beside the bytes it keeps, as ghost state, what a
    decoder that has read them knows; the writer's sent flags never get ahead of it. */
module MarkerWriter {
  import opened JpegLimits
  import opened HuffTable
  import opened BlockCoding
  import opened MarkerSegments
  import opened HeaderRoundTrip

  /** The fields of jpeg_component_info that go into headers. */
  datatype Component = Component(id: UInt8, h: Nibble, v: Nibble, tq: nat, td: nat, ta: nat)

  function Stored(t: HuffTbl): HuffTbl
    requires Shaped(t)
  {
    StoredTable(t.bits[1..], Symbols(t))
  }

  /** Nothing that a Huffman code depends on is lost on the way through a DHT segment. */
  lemma {:induction false} StoredIsSame(t: HuffTbl)
    requires Shaped(t) && Upto(t.bits, MAXBITS) <= 256
    ensures var u, n := Stored(t), Upto(t.bits, MAXBITS);
            u.bits[1..] == t.bits[1..] && u.huffval[..n] == t.huffval[..n] && Upto(u.bits, MAXBITS) == n
  {
    var u, n := Stored(t), Upto(t.bits, MAXBITS);
    KraftPrefix(u.bits, t.bits, MAXBITS);
    hide Upto;
    assert u.bits == [0] + t.bits[1..];
    assert u.huffval == t.huffval[..n] + seq(256 - n, i => 0);
  }

  lemma {:induction false} ApplyDht(isAc: bool, slot: nat, t: HuffTbl, ci: Cinfo)
    requires Shaped(t)
    ensures Apply(Dht(isAc, slot, t), ci)
         == if isAc then ci.(ac := ci.ac[slot := Stored(t)]) else ci.(dc := ci.dc[slot := Stored(t)])
  {
  }

  // ----- what the bytes mean to a decoder

  /** A decoder at the end of out0 knowing ci0 comes, whatever follows, to the end of out1 knowing ci1. */
  ghost predicate Leads(order: seq<nat>, out0: seq<UInt8>, ci0: Cinfo, out1: seq<UInt8>, ci1: Cinfo)
    requires Usable(order)
  {
    && out0 <= out1
    && forall file :: out1 <= file ==> ReadMarkers(file, |out0|, order, ci0) == ReadMarkers(file, |out1|, order, ci1)
  }

  /** The same, ending in front of scan data. */
  ghost predicate LeadsToScan(order: seq<nat>, out0: seq<UInt8>, ci0: Cinfo, out1: seq<UInt8>, ci1: Cinfo)
    requires Usable(order)
  {
    && out0 <= out1
    && forall file :: out1 <= file ==> ReadMarkers(file, |out0|, order, ci0) == ReachedSos(|out1|, ci1)
  }

  lemma {:induction false} LeadsRefl(order: seq<nat>, out0: seq<UInt8>, ci0: Cinfo)
    requires Usable(order)
    ensures Leads(order, out0, ci0, out0, ci0)
  {
  }

  lemma {:induction false} LeadsTrans(order: seq<nat>, out0: seq<UInt8>, ci0: Cinfo, out1: seq<UInt8>, ci1: Cinfo, out2: seq<UInt8>, ci2: Cinfo)
    requires Usable(order) && Leads(order, out0, ci0, out1, ci1)
    ensures Leads(order, out1, ci1, out2, ci2) ==> Leads(order, out0, ci0, out2, ci2)
    ensures LeadsToScan(order, out1, ci1, out2, ci2) ==> LeadsToScan(order, out0, ci0, out2, ci2)
  {
    hide ReadMarkers, Usable;
    forall file | out1 <= out2 <= file
      ensures ReadMarkers(file, |out0|, order, ci0) == ReadMarkers(file, |out1|, order, ci1)
    {
      assert out1 <= file;
    }
  }

  lemma {:induction false} LeadsStep(order: seq<nat>, out0: seq<UInt8>, seg: Segment, ci: Cinfo)
    requires NaturalOrder(order) && Usable(order) && Legal(seg, ci) && (seg.Soi? || ci.soi)
    ensures var out1 := out0 + Bytes(seg, order);
            if seg.Sos? then LeadsToScan(order, out0, ci, out1, Apply(seg, ci)) else Leads(order, out0, ci, out1, Apply(seg, ci))
  {
    hide ReadMarkers, Usable, NaturalOrder, Legal, Apply, Body;
    var out1 := out0 + Bytes(seg, order);
    forall file | out1 <= file
      ensures var r := if seg.Sos? then ReachedSos(|out1|, Apply(seg, ci)) else ReadMarkers(file, |out1|, order, Apply(seg, ci));
              ReadMarkers(file, |out0|, order, ci) == r
    {
      assert file[|out0|..|out1|] == out1[|out0|..] == Bytes(seg, order);
      SegmentStep(file, |out0|, seg, order, ci);
    }
  }

  ghost predicate Fit(tables: map<nat, HuffTbl>) {
    forall s :: s in tables ==> s < NUM_HUFF_TBLS && Shaped(tables[s]) && Upto(tables[s].bits, MAXBITS) <= 256
  }

  /** A decoder has every table marked as sent, as it is now. */
  ghost predicate InStep(tables: map<nat, HuffTbl>, sent: set<nat>, got: map<nat, HuffTbl>) {
    forall s :: s in sent ==> s in tables && Shaped(tables[s]) && s in got && got[s] == Stored(tables[s])
  }

  lemma {:induction false} InStepSend(tables: map<nat, HuffTbl>, sent: set<nat>, got: map<nat, HuffTbl>, slot: nat)
    requires InStep(tables, sent, got) && slot in tables && Fit(tables)
    ensures Shaped(tables[slot]) && slot < NUM_HUFF_TBLS && Upto(tables[slot].bits, MAXBITS) <= 256
    ensures InStep(tables, sent + {slot}, got[slot := Stored(tables[slot])])
  {
  }

  ghost predicate EndsWith(s: seq<UInt8>, tail: seq<UInt8>) {
    |tail| <= |s| && s[|s| - |tail|..] == tail
  }

  /** A decoder's table slot holds the writer's table. */
  ghost predicate Has(got: map<nat, HuffTbl>, tables: map<nat, HuffTbl>, slot: nat) {
    slot in tables && Shaped(tables[slot]) && slot in got && got[slot] == Stored(tables[slot])
  }

  lemma {:induction false} InStepHas(tables: map<nat, HuffTbl>, sent: set<nat>, got: map<nat, HuffTbl>)
    requires InStep(tables, sent, got)
    ensures forall s :: s in sent ==> Has(got, tables, s)
  {
  }

  lemma {:induction false} ApplySos(sh: ScanHeader, ci: Cinfo)
    ensures Apply(Sos(sh), ci) == ci.(scan := sh)
  {
  }

  class MarkerWriter {
    const order: seq<nat>
    var out: seq<UInt8>
    var quant: map<nat, seq<UInt16>>
    var quantSent: set<nat>
    var dc: map<nat, HuffTbl>
    var dcSent: set<nat>
    var ac: map<nat, HuffTbl>
    var acSent: set<nat>
    var restart: UInt16
    var lastRestart: UInt16
    var progressive: bool
    var precision: UInt8
    var height: nat
    var width: nat
    var comps: seq<Component>
    var scan: seq<nat>     // cur_comp_info, as component indices
    var Ss: UInt8
    var Se: UInt8
    var Ah: Nibble
    var Al: Nibble
    ghost var seen: Cinfo

    /** The tables are usable, and a decoder has each that is marked as sent as it is now,
        and the last DRI value. */
    ghost predicate Valid()
      reads this
    {
      && NaturalOrder(order) && Usable(order)
      && (forall s :: s in quant ==> s < NUM_QUANT_TBLS && |quant[s]| == DCTSIZE2)
      && (forall s :: s in quantSent ==> s in quant && s in seen.quant && seen.quant[s] == quant[s])
      && Fit(dc) && InStep(dc, dcSent, seen.dc)
      && Fit(ac) && InStep(ac, acSent, seen.ac)
      && lastRestart == seen.restart
    }

    /** What the frame header is to say. */
    ghost function FrameOf(): Frame
      requires height < 65536 && width < 65536
      reads `progressive, `precision, `height, `width, `comps
    {
      Frame(progressive, false, precision, height, width, FramePart(comps, |comps|))
    }

    constructor (order: seq<nat>)
      requires NaturalOrder(order)
      ensures Valid() && this.order == order && out == [] && seen == Empty && quant == map[] && dc == map[] && ac == map[]
    {
      this.order, out, quant, dc, ac := order, [], map[], map[], map[];
      quantSent, dcSent, acSent, restart, lastRestart := {}, {}, {}, 0, 0;
      progressive, precision, height, width, comps := false, 8, 0, 0, [];
      scan, Ss, Se, Ah, Al := [], 0, 63, 0, 0;
      seen := Empty;
    }

    // ----- basic output routines

    method EmitByte(val: int)
      modifies `out
      ensures out == old(out) + [val % 256]
    {
      out := out + [val % 256];
    }

    method EmitMarker(mark: UInt8)
      modifies `out
      ensures out == old(out) + [0xFF, mark]
    {
      EmitByte(0xFF);
      EmitByte(mark);
    }

    method Emit2Bytes(value: int)
      modifies `out
      ensures out == old(out) + Two16(value)
    {
      EmitByte(value / 256);
      EmitByte(value);
    }

    // ----- tables

    /** Replace a Huffman table, as jpeg_gen_optimal_table does: the new one is still to be sent. */
    method SetHuffTable(isAc: bool, slot: nat, t: HuffTbl)
      requires Valid() && slot < NUM_HUFF_TBLS && Shaped(t) && Upto(t.bits, MAXBITS) <= 256
      modifies `dc, `dcSent, `ac, `acSent
      ensures Valid()
      ensures if isAc then ac == old(ac)[slot := t] && acSent == old(acSent) - {slot} && dc == old(dc) && dcSent == old(dcSent)
              else dc == old(dc)[slot := t] && dcSent == old(dcSent) - {slot} && ac == old(ac) && acSent == old(acSent)
    {
      if isAc {
        ac, acSent := ac[slot := t], acSent - {slot};
      } else {
        dc, dcSent := dc[slot := t], dcSent - {slot};
      }
    }

    /** Send a quantization table unless that has been done; prec says whether it needs 16 bits. */
    method EmitDqt(index: nat) returns (ok: bool, prec: bool)
      requires Valid() && seen.soi
      modifies `out, `quantSent, `seen
      ensures Valid() && seen == old(seen).(quant := seen.quant)
      ensures ok == (index in quant)
      ensures ok ==> prec == Wide(quant[index]) && quantSent == old(quantSent) + {index}
      ensures ok ==> out == old(out) + if index in old(quantSent) then [] else Bytes(Dqt(index, quant[index]), order)
      ensures !ok ==> out == old(out) && quantSent == old(quantSent)
      ensures Leads(order, old(out), old(seen), out, seen)
    {
      hide NaturalOrder, Usable, Upto, ReadMarkers, Stored;
      LeadsRefl(order, out, seen);
      prec := false;
      if index !in quant {
        return false, prec;
      }
      var q := quant[index];
      var i := 0;
      while i < DCTSIZE2
        invariant 0 <= i <= DCTSIZE2 && prec == Wide(q[..i])
        modifies {}
      {
        if q[i] > 255 {
          prec := true;
          assert q[..i + 1][i] > 255;
        }
        WideStep(q, i);
        i := i + 1;
      }
      assert q[..DCTSIZE2] == q;
      if index !in quantSent {
        EmitQuant(index, q, prec);
        LeadsStep(order, old(out), Dqt(index, q), seen);
        seen := Apply(Dqt(index, q), seen);
        quantSent := quantSent + {index};
      }
      ok := true;
    }

    /** The bytes of a DQT marker. */
    method EmitQuant(index: nat, q: seq<UInt16>, prec: bool)
      requires Usable(order) && index < NUM_QUANT_TBLS && |q| == DCTSIZE2 && prec == Wide(q)
      modifies `out
      ensures out == old(out) + Bytes(Dqt(index, q), order)
    {
      hide Usable, Wide, QuantBytes, Two16;
      EmitMarker(M_DQT);
      Emit2Bytes(if prec then DCTSIZE2 * 2 + 1 + 2 else DCTSIZE2 + 1 + 2);
      EmitByte(index + if prec then 16 else 0);
      EmitEntries(q, prec);
    }

    /** The entries in zigzag order. */
    method EmitEntries(q: seq<UInt16>, prec: bool)
      requires Usable(order) && |q| == DCTSIZE2
      modifies `out
      ensures out == old(out) + QuantBytes(q, order, prec, DCTSIZE2)
    {
      var i: nat := 0;
      while i < DCTSIZE2
        invariant i <= DCTSIZE2 && out == old(out) + QuantBytes(q, order, prec, i)
      {
        var qval := q[order[i]];
        if prec {
          EmitByte(qval / 256);
        }
        EmitByte(qval % 256);
        i := i + 1;
      }
    }

    /** Send a Huffman table unless that has been done. */
    method EmitDht(index: nat, isAc: bool) returns (ok: bool)
      requires Valid() && seen.soi
      modifies `out, `dcSent, `acSent, `seen
      ensures Valid() && seen == old(seen).(dc := seen.dc, ac := seen.ac)
      ensures ok == (index in if isAc then ac else dc)
      ensures ok ==> if isAc then acSent == old(acSent) + {index} && dcSent == old(dcSent)
                     else dcSent == old(dcSent) + {index} && acSent == old(acSent)
      ensures !ok ==> dcSent == old(dcSent) && acSent == old(acSent)
      ensures Leads(order, old(out), old(seen), out, seen)
    {
      hide NaturalOrder, Usable, Upto, ReadMarkers, Leads, Apply, Bytes, Stored, InStep, Fit;
      LeadsRefl(order, out, seen);
      if index !in (if isAc then ac else dc) {
        return false;
      }
      if isAc {
        InStepSend(ac, acSent, seen.ac, index);
      } else {
        InStepSend(dc, dcSent, seen.dc, index);
      }
      var t := if isAc then ac[index] else dc[index];
      if index !in (if isAc then acSent else dcSent) {
        EmitTable(index, isAc, t);
        LeadsStep(order, old(out), Dht(isAc, index, t), seen);
        ApplyDht(isAc, index, t, seen);
        seen := Apply(Dht(isAc, index, t), seen);
        if isAc {
          acSent := acSent + {index};
        } else {
          dcSent := dcSent + {index};
        }
      } else {
        assert dcSent + {index} == dcSent || acSent + {index} == acSent;
      }
      ok := true;
    }

    /** The bytes of a DHT marker. */
    method EmitTable(index: nat, isAc: bool, t: HuffTbl)
      requires Usable(order) && index < NUM_HUFF_TBLS && Shaped(t) && Upto(t.bits, MAXBITS) <= 256
      modifies `out
      ensures out == old(out) + Bytes(Dht(isAc, index, t), order)
    {
      hide Usable, Bytes, Body;
      EmitMarker(M_DHT);
      var length: nat, i: nat := 0, 1;
      while i <= 16
        invariant 1 <= i <= 17 && length == Upto(t.bits, i - 1)
        modifies {}
      {
        length := length + t.bits[i];
        i := i + 1;
      }
      hide Upto;
      Emit2Bytes(length + 2 + 1 + 16);
      EmitByte(index + if isAc then 16 else 0);
      EmitRange(t.bits, 1, 17);
      EmitRange(t.huffval, 0, length);
      DhtBytes(isAc, index, t, order);
    }

    /** Emit entries lo to hi - 1 of a table. */
    method EmitRange(s: seq<UInt8>, lo: nat, hi: nat)
      requires lo <= hi <= |s|
      modifies `out
      ensures out == old(out) + s[lo..hi]
    {
      var i := lo;
      while i < hi
        invariant lo <= i <= hi && out == old(out) + s[lo..i]
      {
        EmitByte(s[i]);
        i := i + 1;
      }
    }

    // ----- DRI, SOF, SOS

    method EmitDri()
      requires Usable(order)
      modifies `out
      ensures out == old(out) + Bytes(Dri(restart), order)
    {
      EmitMarker(M_DRI);
      Emit2Bytes(4);
      Emit2Bytes(restart);
    }

    method EmitSof(code: UInt8) returns (ok: bool)
      requires Usable(order) && |comps| < 256
      modifies `out
      ensures ok == (height <= 65535 && width <= 65535)
      ensures ok ==> out == old(out) + Bytes(Sof(code, FrameOf()), order)
    {
      hide Usable, Two16, CompBytes, FramePart, Bytes;
      EmitMarker(code);
      Emit2Bytes(3 * |comps| + 2 + 5 + 1);
      if height > 65535 || width > 65535 {
        return false;
      }
      EmitByte(precision);
      Emit2Bytes(height);
      Emit2Bytes(width);
      EmitByte(|comps|);
      EmitFrameComps();
      SofBytes(code, FrameOf(), order, old(out));
      ok := true;
    }

    method EmitFrameComps()
      modifies `out
      ensures out == old(out) + CompBytes(FramePart(comps, |comps|))
    {
      var ci: nat := 0;
      while ci < |comps|
        invariant ci <= |comps| && out == old(out) + CompBytes(FramePart(comps, ci))
      {
        EmitByte(comps[ci].id);
        EmitByte(16 * comps[ci].h + comps[ci].v);
        EmitByte(comps[ci].tq);
        FrameStep(comps, ci);
        ci := ci + 1;
      }
    }

    /** Which tables the scan uses: a sequential scan both kinds, a DC refinement none. */
    predicate NeedsDc()
      reads `progressive, `Ss, `Ah
    {
      !progressive || (Ss == 0 && Ah == 0)
    }

    predicate NeedsAc()
      reads `progressive, `Ss
    {
      !progressive || Ss != 0
    }

    /** The scan's components and table selectors are such as the rest of the compressor chooses them. */
    predicate ScanReady()
      reads `comps, `scan
    {
      1 <= |scan| <= MAX_COMPS_IN_SCAN && forall k :: 0 <= k < |scan| ==> scan[k] < |comps|
    }

    /** The components in the scan. */
    function Chosen(): (cs: seq<Component>)
      requires ScanReady()
      reads `comps, `scan
      ensures |cs| == |scan|
    {
      Pick(comps, scan)
    }

    /** What the scan header is to say. */
    ghost function ScanOf(): ScanHeader
      requires ScanReady()
      reads `comps, `scan, `progressive, `Ss, `Ah, `Se, `Al
    {
      ScanHeader(ScanPart(Chosen(), NeedsDc(), NeedsAc()), Ss, Se, Ah, Al)
    }

    method EmitSos()
      requires Usable(order) && ScanReady() && SelectorsFit(Chosen(), NeedsDc(), NeedsAc())
      modifies `out
      ensures out == old(out) + Bytes(Sos(ScanOf()), order)
    {
      hide Usable, Two16, ScanCompBytes, ScanPart, SelectorsFit, Pick, Bytes;
      EmitMarker(M_SOS);
      Emit2Bytes(2 * |scan| + 2 + 1 + 3);
      EmitByte(|scan|);
      EmitScanComps(Pick(comps, scan));
      EmitByte(Ss);
      EmitByte(Se);
      EmitByte(16 * Ah + Al);
      SosBytes(ScanOf(), order, old(out));
    }

    /** The loop over cur_comp_info. */
    method EmitScanComps(cs: seq<Component>)
      requires SelectorsFit(cs, NeedsDc(), NeedsAc())
      modifies `out
      ensures out == old(out) + ScanCompBytes(ScanPart(cs, NeedsDc(), NeedsAc()))
    {
      ghost var useDc, useAc := NeedsDc(), NeedsAc();
      hide ScanCompBytes, ScanPart, NeedsDc, NeedsAc;
      NoScanComps(cs, useDc, useAc);
      var i: nat := 0;
      while i < |cs|
        invariant i <= |cs| && out == old(out) + ScanCompBytes(ScanPart(cs[..i], useDc, useAc))
      {
        ScanStep(cs, useDc, useAc, i);
        EmitScanComp(cs[i]);
        i := i + 1;
      }
      WholePrefix(cs);
    }

    method EmitScanComp(c: Component)
      requires (NeedsDc() ==> c.td < NUM_HUFF_TBLS) && (NeedsAc() ==> c.ta < NUM_HUFF_TBLS)
      modifies `out
      ensures var td, ta := if NeedsDc() then c.td else 0, if NeedsAc() then c.ta else 0;
              out == old(out) + [c.id, (16 * td + ta) % 256]
    {
      EmitByte(c.id);
      var td, ta := c.td, c.ta;
      if progressive {
        if Ss == 0 {
          ta := 0;
          if Ah != 0 {
            td := 0;
          }
        } else {
          td := 0;
        }
      }
      EmitByte(16 * td + ta);
    }

    // ----- headers

    method WriteFileHeader()
      requires Valid() && !seen.soi
      modifies `out, `lastRestart, `seen
      ensures Valid() && seen == old(seen).(soi := true, restart := 0)
      ensures Leads(order, old(out), old(seen), out, seen)
    {
      hide NaturalOrder, Usable, ReadMarkers, Fit, InStep, Leads;
      EmitMarker(M_SOI);
      lastRestart := 0;
      LeadsStep(order, out[..|out| - 2], Soi, seen);
      NoBody(order);
      assert Bytes(Soi, order) == [0xFF, M_SOI];
      seen := Apply(Soi, seen);
    }

    predicate QuantsHere()
      reads `comps, `quant
    {
      forall k :: 0 <= k < |comps| ==> comps[k].tq in quant
    }

    /** A baseline frame (section B.2.2 of ITU-T T.81): sequential, 8 bits per sample, two
        Huffman tables of each kind, 8-bit quantization tables. */
    predicate Baseline()
      requires QuantsHere()
      reads `progressive, `precision, `comps, `quant
    {
      && !progressive && precision == 8
      && forall k :: 0 <= k < |comps| ==> comps[k].td <= 1 && comps[k].ta <= 1 && !Wide(quant[comps[k].tq])
    }

    ghost function FrameCode(): UInt8
      requires QuantsHere()
      reads `progressive, `precision, `comps, `quant
    {
      if progressive then M_SOF2 else if Baseline() then M_SOF0 else M_SOF1
    }

    /** Send the quantization tables of all components; prec says whether one needs 16 bits. */
    method EmitQuants() returns (ok: bool, prec: bool)
      requires Valid() && seen.soi
      modifies `out, `quantSent, `seen
      ensures Valid() && seen == old(seen).(quant := seen.quant) && Leads(order, old(out), old(seen), out, seen)
      ensures ok == QuantsHere()
      ensures ok ==> prec == exists k :: 0 <= k < |comps| && Wide(quant[comps[k].tq])
      ensures ok ==> forall k :: 0 <= k < |comps| ==> comps[k].tq in quantSent
    {
      hide NaturalOrder, Usable, ReadMarkers, Leads, Wide, Bytes, Fit, InStep;
      LeadsRefl(order, out, seen);
      prec := false;
      var ci := 0;
      while ci < |comps|
        invariant 0 <= ci <= |comps| && Valid() && seen == old(seen).(quant := seen.quant)
        invariant Leads(order, old(out), old(seen), out, seen)
        invariant forall k :: 0 <= k < ci ==> comps[k].tq in quantSent
        invariant prec == exists k :: 0 <= k < ci && Wide(quant[comps[k].tq])
      {
        ghost var out1, seen1 := out, seen;
        var here, wide := EmitDqt(comps[ci].tq);
        if !here {
          LeadsTrans(order, old(out), old(seen), out1, seen1, out, seen);
          return false, prec;
        }
        LeadsTrans(order, old(out), old(seen), out1, seen1, out, seen);
        prec := prec || wide;
        ci := ci + 1;
      }
      ok := true;
    }

    /** Write DQT and SOF. */
    method WriteFrameHeader() returns (ok: bool)
      requires Valid() && seen.soi && seen.frame == NoFrame
      requires 0 < |comps| < 256 && height > 0 && width > 0
      modifies `out, `quantSent, `seen
      ensures Valid()
      ensures ok == (QuantsHere() && height <= 65535 && width <= 65535)
      ensures ok ==> Leads(order, old(out), old(seen), out, seen)
      ensures ok ==> seen == old(seen).(quant := seen.quant, frame := FrameOf())
      ensures ok ==> forall k :: 0 <= k < |comps| ==> comps[k].tq in seen.quant && seen.quant[comps[k].tq] == quant[comps[k].tq]
      ensures ok ==> EndsWith(out, Bytes(Sof(FrameCode(), FrameOf()), order))
    {
      hide NaturalOrder, Usable, ReadMarkers, Leads, Wide, Fit, InStep, Bytes;
      var prec;
      ok, prec := EmitQuants();
      if !ok {
        return;
      }
      var isBaseline: bool;
      if progressive || precision != 8 {
        isBaseline := false;
      } else {
        isBaseline := true;
        var ci := 0;
        while ci < |comps|
          invariant 0 <= ci <= |comps|
          invariant isBaseline == forall k :: 0 <= k < ci ==> comps[k].td <= 1 && comps[k].ta <= 1
          modifies {}
        {
          if comps[ci].td > 1 || comps[ci].ta > 1 {
            isBaseline := false;
          }
          ci := ci + 1;
        }
        if prec && isBaseline {
          isBaseline := false;
        }
      }
      ghost var out1, seen1 := out, seen;
      var code: UInt8 := if progressive then M_SOF2 else if isBaseline then M_SOF0 else M_SOF1;
      assert code == FrameCode();
      ok := EmitSof(code);
      if ok {
        LeadsStep(order, out1, Sof(code, FrameOf()), seen);
        LeadsTrans(order, old(out), old(seen), out1, seen, out, Apply(Sof(code, FrameOf()), seen));
        seen := Apply(Sof(code, FrameOf()), seen);
      }
    }

    /** SOF2 for a progressive frame; of the others SOF0 for those that any baseline decoder reads,
        and SOF1 for the rest. */
    lemma {:induction false} FrameCodeIs()
      requires QuantsHere()
      ensures progressive ==> FrameCode() == 0xC2
      ensures !progressive ==>
                var baseline := precision == 8 && forall k :: 0 <= k < |comps| ==>
                      comps[k].td <= 1 && comps[k].ta <= 1 && forall x :: x in quant[comps[k].tq] ==> x <= 255;
                FrameCode() == if baseline then 0xC0 else 0xC1
    {
      forall k | 0 <= k < |comps|
        ensures !Wide(quant[comps[k].tq]) <==> forall x :: x in quant[comps[k].tq] ==> x <= 255
      {
        var q := quant[comps[k].tq];
        if Wide(q) {
          var i :| 0 <= i < |q| && q[i] > 255;
          assert q[i] in q;
        }
      }
    }

    predicate TablesHere()
      requires ScanReady()
      reads `comps, `scan, `dc, `ac, `progressive, `Ss, `Ah
    {
      forall k :: 0 <= k < |scan| ==> (NeedsDc() ==> Chosen()[k].td in dc) && (NeedsAc() ==> Chosen()[k].ta in ac)
    }

    /** Send the Huffman tables of one component that the scan needs. */
    method EmitTablesFor(c: Component) returns (ok: bool)
      requires Valid() && seen.soi
      modifies `out, `dcSent, `acSent, `seen
      ensures Valid() && seen == old(seen).(dc := seen.dc, ac := seen.ac) && Leads(order, old(out), old(seen), out, seen)
      ensures ok == ((NeedsDc() ==> c.td in dc) && (NeedsAc() ==> c.ta in ac))
      ensures old(dcSent) <= dcSent && old(acSent) <= acSent
      ensures ok ==> (NeedsDc() ==> c.td in dcSent) && (NeedsAc() ==> c.ta in acSent)
    {
      hide NaturalOrder, Usable, ReadMarkers, Leads, Fit, InStep;
      LeadsRefl(order, out, seen);
      ok := true;
      if progressive {
        if Ss == 0 {
          if Ah == 0 {
            ok := EmitDht(c.td, false);
          }
        } else {
          ok := EmitDht(c.ta, true);
        }
      } else {
        ok := EmitDht(c.td, false);
        if ok {
          ghost var out1, seen1 := out, seen;
          ok := EmitDht(c.ta, true);
          LeadsTrans(order, old(out), old(seen), out1, seen1, out, seen);
        }
      }
    }

    method EmitTables() returns (ok: bool)
      requires Valid() && seen.soi && ScanReady()
      modifies `out, `dcSent, `acSent, `seen
      ensures Valid() && seen == old(seen).(dc := seen.dc, ac := seen.ac) && Leads(order, old(out), old(seen), out, seen)
      ensures ok == TablesHere()
      ensures ok ==> forall k :: 0 <= k < |scan| ==> (NeedsDc() ==> Chosen()[k].td in dcSent) && (NeedsAc() ==> Chosen()[k].ta in acSent)
    {
      hide NaturalOrder, Usable, ReadMarkers, Leads, Fit, InStep, NeedsDc, NeedsAc;
      LeadsRefl(order, out, seen);
      var i := 0;
      while i < |scan|
        invariant 0 <= i <= |scan| && Valid() && seen == old(seen).(dc := seen.dc, ac := seen.ac)
        invariant Leads(order, old(out), old(seen), out, seen)
        invariant forall k :: 0 <= k < i ==> (NeedsDc() ==> Chosen()[k].td in dcSent) && (NeedsAc() ==> Chosen()[k].ta in acSent)
        invariant forall k :: 0 <= k < i ==> (NeedsDc() ==> Chosen()[k].td in dc) && (NeedsAc() ==> Chosen()[k].ta in ac)
      {
        ghost var out1, seen1 := out, seen;
        ok := EmitTablesFor(comps[scan[i]]);
        LeadsTrans(order, old(out), old(seen), out1, seen1, out, seen);
        assert Chosen()[i] == comps[scan[i]];
        if !ok {
          return;
        }
        i := i + 1;
      }
      ok := true;
    }

    /** Write DHT, DRI if the interval has changed, and SOS. Whatever follows, a decoder that
        was in step reads exactly these bytes and then has the scan's parameters and tables. */
    method WriteScanHeader() returns (ok: bool)
      requires Valid() && seen.soi && |comps| < 256 && height < 65536 && width < 65536 && seen.frame == FrameOf() && ScanReady()
      modifies `out, `dcSent, `acSent, `lastRestart, `seen
      ensures Valid()
      ensures ok == TablesHere()
      ensures ok ==> LeadsToScan(order, old(out), old(seen), out, seen)
      ensures ok ==> seen == old(seen).(dc := seen.dc, ac := seen.ac, restart := restart, scan := ScanOf())
      ensures ok ==> forall k :: 0 <= k < |scan| ==> (NeedsDc() ==> Has(seen.dc, dc, Chosen()[k].td)) && (NeedsAc() ==> Has(seen.ac, ac, Chosen()[k].ta))
    {
      hide NaturalOrder, Usable, ReadMarkers, Leads, LeadsToScan, Fit, InStep, NeedsDc, NeedsAc, Bytes, Apply, ScanOf, Legal, Has, Body;
      ok := EmitTables();
      if !ok {
        return;
      }
      ghost var out1, seen1 := out, seen;
      SendDri();
      LeadsTrans(order, old(out), old(seen), out1, seen1, out, seen);
      ghost var out2, seen2 := out, seen;
      ScanFits();
      EmitSos();
      ScanLegal();
      LeadsStep(order, out2, Sos(ScanOf()), seen);
      LeadsTrans(order, old(out), old(seen), out2, seen2, out, Apply(Sos(ScanOf()), seen));
      ApplySos(ScanOf(), seen);
      seen := Apply(Sos(ScanOf()), seen);
      InStepHas(dc, dcSent, seen.dc);
      InStepHas(ac, acSent, seen.ac);
    }

    method SendDri()
      requires Valid() && seen.soi
      modifies `out, `lastRestart, `seen
      ensures Valid() && seen == old(seen).(restart := restart) && lastRestart == restart
      ensures out == old(out) + if restart == old(lastRestart) then [] else Bytes(Dri(restart), order)
      ensures Leads(order, old(out), old(seen), out, seen)
    {
      hide NaturalOrder, Usable, ReadMarkers, Leads, Fit, InStep, Bytes;
      LeadsRefl(order, out, seen);
      if restart != lastRestart {
        EmitDri();
        LeadsStep(order, old(out), Dri(restart), seen);
        seen := Apply(Dri(restart), seen);
        lastRestart := restart;
      }
    }

    lemma {:induction false} ScanFits()
      requires ScanReady() && TablesHere() && Fit(dc) && Fit(ac)
      ensures SelectorsFit(Chosen(), NeedsDc(), NeedsAc())
    {
      var cs := Chosen();
      forall k | 0 <= k < |cs|
        ensures (NeedsDc() ==> cs[k].td < NUM_HUFF_TBLS) && (NeedsAc() ==> cs[k].ta < NUM_HUFF_TBLS)
      {
        assert (NeedsDc() ==> Chosen()[k].td in dc) && (NeedsAc() ==> Chosen()[k].ta in ac);
      }
    }

    lemma {:induction false} ScanLegal()
      requires ScanReady() && height < 65536 && width < 65536 && seen.frame == FrameOf()
      ensures Legal(Sos(ScanOf()), seen)
    {
      var sh := ScanOf();
      forall i | 0 <= i < |sh.comps|
        ensures KnownId(seen.frame, sh.comps[i].id)
      {
        FramePartAt(comps, |comps|, scan[i]);
        assert seen.frame.comps[scan[i]].id == sh.comps[i].id;
      }
    }

    /** The header of a file with its first scan, as start of compression and the first pass write it. */
    method WriteHeaders() returns (ok: bool)
      requires Valid() && !seen.soi && seen.frame == NoFrame && 0 < |comps| < 256 && height > 0 && width > 0 && ScanReady()
      modifies `out, `quantSent, `dcSent, `acSent, `lastRestart, `seen
      ensures Valid()
      ensures ok == (QuantsHere() && TablesHere() && height <= 65535 && width <= 65535)
      ensures ok ==> LeadsToScan(order, old(out), old(seen), out, seen)
      ensures ok ==> seen.restart == restart && seen.frame == FrameOf() && seen.scan == ScanOf()
      ensures ok ==> forall k :: 0 <= k < |comps| ==> comps[k].tq in seen.quant && seen.quant[comps[k].tq] == quant[comps[k].tq]
      ensures ok ==> forall k :: 0 <= k < |scan| ==> (NeedsDc() ==> Has(seen.dc, dc, Chosen()[k].td)) && (NeedsAc() ==> Has(seen.ac, ac, Chosen()[k].ta))
    {
      hide NaturalOrder, Usable, ReadMarkers, Leads, LeadsToScan, Fit, InStep, NeedsDc, NeedsAc, Bytes, ScanOf, FrameCode, Has;
      WriteFileHeader();
      ghost var out1, seen1 := out, seen;
      ok := WriteFrameHeader();
      if !ok {
        return;
      }
      LeadsTrans(order, old(out), old(seen), out1, seen1, out, seen);
      ghost var out2, seen2 := out, seen;
      ok := WriteScanHeader();
      LeadsTrans(order, old(out), old(seen), out2, seen2, out, seen);
    }
  }

  lemma {:induction false} DhtBytes(isAc: bool, slot: nat, t: HuffTbl, order: seq<nat>)
    requires Usable(order) && slot < NUM_HUFF_TBLS && Shaped(t) && Upto(t.bits, MAXBITS) <= 256
    ensures var n := Upto(t.bits, MAXBITS);
            var head := [0xFF, M_DHT] + Two16(n + 19) + [slot + if isAc then 16 else 0];
            Bytes(Dht(isAc, slot, t), order) == head + t.bits[1..17] + t.huffval[0..n]
  {
    hide Upto;
    assert t.bits[1..17] == t.bits[1..];
  }

  lemma {:induction false} WideStep(q: seq<UInt16>, i: nat)
    requires i < |q|
    ensures Wide(q[..i + 1]) == (Wide(q[..i]) || q[i] > 255)
  {
    assert q[..i + 1] == q[..i] + [q[i]];
    if Wide(q[..i]) {
      var k :| 0 <= k < i && q[..i][k] > 255;
      assert q[..i + 1][k] > 255;
    }
    if q[i] > 255 {
      assert q[..i + 1][i] > 255;
    }
    if Wide(q[..i + 1]) {
      var k :| 0 <= k < |q[..i + 1]| && q[..i + 1][k] > 255;
      assert k < i ==> q[..i][k] > 255;
    }
  }

  /** The first n components as a frame header lists them. */
  function FramePart(comps: seq<Component>, n: nat): (cs: seq<FrameComp>)
    requires n <= |comps|
    ensures |cs| == n
  {
    if n == 0 then [] else
    var c := comps[n - 1];
    FramePart(comps, n - 1) + [FrameComp(c.id, c.h, c.v, c.tq % 256)]
  }

  lemma {:induction false} FrameStep(comps: seq<Component>, n: nat)
    requires n < |comps|
    ensures var c := comps[n];
            CompBytes(FramePart(comps, n + 1)) == CompBytes(FramePart(comps, n)) + [c.id, 16 * c.h + c.v, c.tq % 256]
  {
    assert FramePart(comps, n + 1)[..n] == FramePart(comps, n);
  }

  /** Components as a scan header lists them; a table that is not used is called 0. */
  function ScanPart(cs: seq<Component>, useDc: bool, useAc: bool): (r: seq<ScanComp>)
    ensures |r| == |cs|
    ensures forall k :: 0 <= k < |cs| ==> r[k].id == cs[k].id
  {
    if cs == [] then [] else
    var n := |cs| - 1;
    var c := cs[n];
    ScanPart(cs[..n], useDc, useAc) + [ScanComp(c.id, if useDc then c.td % 16 else 0, if useAc then c.ta % 16 else 0)]
  }

  predicate SelectorsFit(cs: seq<Component>, useDc: bool, useAc: bool) {
    forall k :: 0 <= k < |cs| ==> (useDc ==> cs[k].td < NUM_HUFF_TBLS) && (useAc ==> cs[k].ta < NUM_HUFF_TBLS)
  }

  lemma {:induction false} ScanStep(cs: seq<Component>, useDc: bool, useAc: bool, n: nat)
    requires n < |cs| && SelectorsFit(cs, useDc, useAc)
    ensures var c := cs[n];
            var td, ta := if useDc then c.td else 0, if useAc then c.ta else 0;
            var before := ScanCompBytes(ScanPart(cs[..n], useDc, useAc));
            td < 4 && ta < 4 && ScanCompBytes(ScanPart(cs[..n + 1], useDc, useAc)) == before + [c.id, 16 * td + ta]
  {
    var c := cs[n];
    var part, last := ScanPart(cs[..n], useDc, useAc), ScanComp(c.id, if useDc then c.td % 16 else 0, if useAc then c.ta % 16 else 0);
    assert cs[..n + 1][..n] == cs[..n];
    assert ScanPart(cs[..n + 1], useDc, useAc) == part + [last];
    hide ScanPart;
    assert (part + [last])[..n] == part;
  }

  function Pick(comps: seq<Component>, scan: seq<nat>): (cs: seq<Component>)
    requires forall k :: 0 <= k < |scan| ==> scan[k] < |comps|
    ensures |cs| == |scan| && forall k :: 0 <= k < |scan| ==> cs[k] == comps[scan[k]]
  {
    seq(|scan|, k requires 0 <= k < |scan| => comps[scan[k]])
  }

  lemma {:induction false} WholePrefix<T>(s: seq<T>)
    ensures s[..|s|] == s
  {
  }

  lemma {:induction false} NoScanComps(cs: seq<Component>, useDc: bool, useAc: bool)
    ensures ScanCompBytes(ScanPart(cs[..0], useDc, useAc)) == []
  {
  }

  lemma {:induction false} SofBytes(code: UInt8, f: Frame, order: seq<nat>, out: seq<UInt8>)
    requires Usable(order) && f.Frame? && |f.comps| < 256
    ensures var n := |f.comps|;
            var head := out + [0xFF, code] + Two16(3 * n + 8) + [f.precision] + Two16(f.height) + Two16(f.width) + [n];
            head + CompBytes(f.comps) == out + Bytes(Sof(code, f), order)
  {
    hide Two16, CompBytes;
  }

  lemma {:induction false} SosBytes(sh: ScanHeader, order: seq<nat>, out: seq<UInt8>)
    requires Usable(order) && sh.ScanHeader? && |sh.comps| <= MAX_COMPS_IN_SCAN
    ensures var n := |sh.comps|;
            var head := out + [0xFF, M_SOS] + Two16(2 * n + 6) + [n] + ScanCompBytes(sh.comps);
            head + [sh.Ss] + [sh.Se] + [16 * sh.Ah + sh.Al] == out + Bytes(Sos(sh), order)
  {
    hide Two16, ScanCompBytes;
  }

  lemma {:induction false} FramePartAt(comps: seq<Component>, n: nat, k: nat)
    requires k < n <= |comps|
    ensures FramePart(comps, n)[k].id == comps[k].id
  {
    if k < n - 1 {
      FramePartAt(comps, n - 1, k);
    }
  }
}
