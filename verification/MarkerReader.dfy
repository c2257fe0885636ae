/** The marker reader of jdmarker.c at work on a source that may run dry at any byte:
    its routines restart a segment from the beginning, and nobody can tell. */
module MarkerReader {
  import opened JpegLimits
  import opened HuffTable
  import opened Stuffing
  import opened BlockCoding
  import opened MarkerSegments

  /** How a segment routine ends: TRUE, FALSE, or ERREXIT. */
  datatype Status = Ok | MustSuspend | Error

  /** How read_markers ends. */
  datatype Reached = AtSos | AtEoi | Suspension | Fatal

  // ----- a segment that is read again overwrites what its first reading left behind

  ghost predicate Agree<V>(m: map<nat, V>, m': map<nat, V>, s: nat) {
    (s in m <==> s in m') && (s in m ==> m[s] == m'[s])
  }

  lemma {:induction false} AgreeAll<V>(m: map<nat, V>, m': map<nat, V>)
    requires forall s: nat :: Agree(m, m', s)
    ensures m == m'
  {
    forall s: nat
      ensures s in m.Keys <==> s in m'.Keys
    {
      assert Agree(m, m', s);
    }
    assert m.Keys == m'.Keys;
    forall s | s in m
      ensures m[s] == m'[s]
    {
      assert Agree(m, m', s);
    }
  }

  /** The slots a DQT segment fills. */
  ghost function QuantSlots(data: seq<UInt8>, pos: nat, length: int): set<nat>
    decreases length
  {
    if length <= 0 || pos + 1 > |data| then {} else
    var size := if data[pos] / 16 != 0 then 2 * DCTSIZE2 else DCTSIZE2;
    {data[pos] % 16} + QuantSlots(data, pos + 1 + size, length - 1 - size)
  }

  ghost predicate SameQuantsBut(ci: Cinfo, ci': Cinfo, slots: set<nat>) {
    ci' == ci.(quant := ci'.quant) && forall s: nat :: s !in slots ==> Agree(ci.quant, ci'.quant, s)
  }

  lemma {:induction false} QuantsRedo(data: seq<UInt8>, pos: nat, length: int, order: seq<nat>, ci: Cinfo, ci': Cinfo)
    requires Usable(order) && pos <= |data| && SameQuantsBut(ci, ci', QuantSlots(data, pos, length))
    ensures ParseQuants(data, pos, length, order, ci) == ParseQuants(data, pos, length, order, ci')
    decreases length
  {
    hide QuantFill;
    if length <= 0 {
      AgreeAll(ci.quant, ci'.quant);
    } else if pos + 1 <= |data| {
      var wide, slot := data[pos] / 16 != 0, data[pos] % 16;
      var size := if wide then 2 * DCTSIZE2 else DCTSIZE2;
      if slot < NUM_QUANT_TBLS && pos + 1 + size <= |data| {
        var q := QuantFill(data, pos + 1, wide, order, DCTSIZE2, ZeroQuant());
        var d, d' := ci.(quant := ci.quant[slot := q]), ci'.(quant := ci'.quant[slot := q]);
        forall s: nat | s !in QuantSlots(data, pos + 1 + size, length - 1 - size)
          ensures Agree(d.quant, d'.quant, s)
        {
          if s != slot {
            assert Agree(ci.quant, ci'.quant, s);
          }
        }
        QuantsRedo(data, pos + 1 + size, length - 1 - size, order, d, d');
      }
    }
  }

  /** The (is-AC, slot) pairs a DHT segment fills. */
  ghost function TableSlots(data: seq<UInt8>, pos: nat, length: int): set<(bool, nat)>
    decreases length
  {
    if length <= 16 || pos + 17 > |data| then {} else
    var index, n := data[pos], Upto([0] + data[pos + 1..pos + 17], MAXBITS);
    {if index / 16 % 2 == 1 then (true, index - 16) else (false, index as nat)} + TableSlots(data, pos + 17 + n, length - 17 - n)
  }

  ghost predicate SameTablesBut(ci: Cinfo, ci': Cinfo, slots: set<(bool, nat)>) {
    && ci' == ci.(dc := ci'.dc, ac := ci'.ac)
    && (forall s: nat :: (false, s) !in slots ==> Agree(ci.dc, ci'.dc, s))
    && (forall s: nat :: (true, s) !in slots ==> Agree(ci.ac, ci'.ac, s))
  }

  /** What get_dht does with one table. */
  ghost function PutTable(ci: Cinfo, isAc: bool, slot: nat, t: HuffTbl): Cinfo {
    if isAc then ci.(ac := ci.ac[slot := t]) else ci.(dc := ci.dc[slot := t])
  }

  lemma {:induction false} PutSame(ci: Cinfo, ci': Cinfo, isAc: bool, slot: nat, t: HuffTbl, slots: set<(bool, nat)>)
    requires SameTablesBut(ci, ci', {(isAc, slot)} + slots)
    ensures SameTablesBut(PutTable(ci, isAc, slot, t), PutTable(ci', isAc, slot, t), slots)
  {
    var d, d' := PutTable(ci, isAc, slot, t), PutTable(ci', isAc, slot, t);
    forall s: nat | (false, s) !in slots
      ensures Agree(d.dc, d'.dc, s)
    {
      assert isAc || s != slot ==> Agree(ci.dc, ci'.dc, s);
    }
    forall s: nat | (true, s) !in slots
      ensures Agree(d.ac, d'.ac, s)
    {
      assert !isAc || s != slot ==> Agree(ci.ac, ci'.ac, s);
    }
  }

  lemma {:induction false} TablesRedo(data: seq<UInt8>, pos: nat, length: int, ci: Cinfo, ci': Cinfo)
    requires pos <= |data| && SameTablesBut(ci, ci', TableSlots(data, pos, length))
    ensures ParseTables(data, pos, length, ci) == ParseTables(data, pos, length, ci')
    decreases length
  {
    hide Upto, StoredTable;
    if length <= 16 || pos + 17 > |data| {
      AgreeAll(ci.dc, ci'.dc);
      AgreeAll(ci.ac, ci'.ac);
    } else {
      var index, n := data[pos], Upto([0] + data[pos + 1..pos + 17], MAXBITS);
      var isAc := index / 16 % 2 == 1;
      var slot := if isAc then index - 16 else index;
      if n <= 256 && n <= length - 17 && pos + 17 + n <= |data| && slot < NUM_HUFF_TBLS {
        var t := StoredTable(data[pos + 1..pos + 17], data[pos + 17..pos + 17 + n]);
        PutSame(ci, ci', isAc, slot, t, TableSlots(data, pos + 17 + n, length - 17 - n));
        hide SameTablesBut;
        TablesRedo(data, pos + 17 + n, length - 17 - n, PutTable(ci, isAc, slot, t), PutTable(ci', isAc, slot, t));
      }
    }
  }

  /** A full table does not depend on what was in its place. */
  lemma {:induction false} FillAll(data: seq<UInt8>, pos: nat, wide: bool, order: seq<nat>, q: seq<UInt16>, q': seq<UInt16>)
    requires NaturalOrder(order) && |q| == |q'| == DCTSIZE2 && pos + (if wide then 2 * DCTSIZE2 else DCTSIZE2) <= |data|
    ensures QuantFill(data, pos, wide, order, DCTSIZE2, q) == QuantFill(data, pos, wide, order, DCTSIZE2, q')
  {
    FillPart(data, pos, wide, order, q, q', DCTSIZE2);
    hide QuantFill;
    var r, r' := QuantFill(data, pos, wide, order, DCTSIZE2, q), QuantFill(data, pos, wide, order, DCTSIZE2, q');
    forall i | 0 <= i < DCTSIZE2
      ensures r[i] == r'[i]
    {
      assert i in order[..DCTSIZE2];
      var k :| 0 <= k < DCTSIZE2 && order[k] == i;
      assert r[order[k]] == r'[order[k]];
    }
  }

  lemma {:induction false} FillPart(data: seq<UInt8>, pos: nat, wide: bool, order: seq<nat>, q: seq<UInt16>, q': seq<UInt16>, n: nat)
    requires NaturalOrder(order) && |q| == |q'| == DCTSIZE2 && n <= DCTSIZE2 && pos + (if wide then 2 * n else n) <= |data|
    ensures var r, r' := QuantFill(data, pos, wide, order, n, q), QuantFill(data, pos, wide, order, n, q');
            forall k :: 0 <= k < n ==> r[order[k]] == r'[order[k]]
  {
    if n > 0 {
      FillPart(data, pos, wide, order, q, q', n - 1);
      hide QuantEntry;
    }
  }

  // ----- finding the next marker

  /** Looking for a marker from b on is as good as from a on. */
  ghost predicate SameMarker(data: seq<UInt8>, a: nat, b: nat)
    requires a <= |data| && b <= |data|
  {
    Closed(data[a..]) == Closed(data[b..]) && (Closed(data[a..]) ==> AfterSegment(data[a..]) == AfterSegment(data[b..]))
  }

  /** Bytes a..b-1 are all FF. */
  ghost predicate AllFF(data: seq<UInt8>, a: nat, b: nat)
    requires b <= |data|
  {
    forall i :: a <= i < b ==> data[i] == 0xFF
  }

  lemma {:induction false} UnitAt(data: seq<UInt8>, a: nat, b: nat)
    requires a <= b <= |data| && AllFF(data, a, b) && (b < |data| ==> data[b] != 0xFF)
    ensures b == |data| ==> !Closed(data[a..])
    ensures a == b < |data| ==> SameMarker(data, a, b + 1)
    ensures a < b < |data| && data[b] == 0 ==> SameMarker(data, a, b + 1)
    ensures a < b < |data| && data[b] != 0 ==> Closed(data[a..]) && AfterSegment(data[a..]) == (data[b], data[b + 1..])
  {
    FFsIs(data[a..], b - a);
    hide FFs;
    if b < |data| {
      assert data[a..][b - a] == data[b] && data[a..][b + 1 - a..] == data[b + 1..];
    }
  }

  /** One turn of the loop over the tables of a DHT segment. */
  lemma {:induction false} TableStep(file: seq<UInt8>, pos: nat, length: int, ci: Cinfo)
    requires pos <= |file| && length > 16
    ensures pos + 17 > |file| ==> ParseTables(file, pos, length, ci) == Suspended
    ensures pos + 17 <= |file| ==>
              var bits := [0] + file[pos + 1..pos + 17];
              var n, index := Upto(bits, MAXBITS), file[pos];
              var isAc := index / 16 % 2 == 1;
              var slot: int := if isAc then index - 16 else index;
              && slot >= 0 && TableSlots(file, pos, length) == {(isAc, slot as nat)} + TableSlots(file, pos + 17 + n, length - 17 - n)
              && (n > 256 || n > length - 17 ==> ParseTables(file, pos, length, ci) == Bad)
              && (n <= 256 && n <= length - 17 && pos + 17 + n > |file| ==> ParseTables(file, pos, length, ci) == Suspended)
              && (n <= 256 && n <= length - 17 && pos + 17 + n <= |file| ==>
                    ParseTables(file, pos, length, ci) ==
                      if slot >= NUM_HUFF_TBLS then Bad
                      else ParseTables(file, pos + 17 + n, length - 17 - n,
                                       PutTable(ci, isAc, slot, HuffTbl(bits, file[pos + 17..pos + 17 + n] + seq(256 - n, i => 0)))))
  {
    hide Upto, Kraft;
  }

  class MarkerReader {
    const order: seq<nat>
    ghost const file: seq<UInt8>   // everything the source will ever deliver
    var data: seq<UInt8>           // what it has delivered so far
    var pos: nat                   // the restart point
    var unread: UInt8              // unread_marker; 0 if none
    var quant: map<nat, seq<UInt16>>
    var dc: map<nat, HuffTbl>
    var ac: map<nat, HuffTbl>
    var restart: UInt16
    var soi: bool
    var frame: Frame
    var scan: ScanHeader

    constructor (order: seq<nat>, ghost file: seq<UInt8>)
      requires NaturalOrder(order)
      ensures Valid() && this.order == order && this.file == file && data == []
      ensures Meaning() == MarkerSegments.ReadMarkers(file, 0, order, Empty)
    {
      this.order, this.file, data, pos, unread := order, file, [], 0, 0;
      quant, dc, ac, restart, soi, frame, scan := map[], map[], map[], 0, false, NoFrame, NoScan;
    }

    ghost predicate Valid()
      reads this
    {
      && NaturalOrder(order) && data <= file && pos <= |data|
      && (forall s :: s in quant ==> |quant[s]| == DCTSIZE2)
    }

    ghost function Info(): Cinfo
      reads this
    {
      Cinfo(quant, dc, ac, restart, soi, frame, scan)
    }

    /** What reading on will come to, given the rest of the file. */
    ghost function Meaning(): MarkersRead
      requires Valid()
      reads this
    {
      if unread == 0 then MarkerSegments.ReadMarkers(file, pos, order, Info())
      else AfterMarker(unread, file, pos, order, Info())
    }

    /** A segment routine that was to come to `was` has ended with st; `now` is what it
        would come to if it was called again from start. */
    ghost predicate Meets(st: Status, start: nat, was: Parsed, now: Parsed)
      reads this
    {
      match st
      case Ok => was == Done(pos, Info()) && start <= pos
      case MustSuspend => pos == start && now == was && (data == file ==> was == Suspended)
      case Error => was == Bad
    }

    /** INPUT_BYTE */
    method InputByte(p: nat) returns (ok: bool, v: UInt8, p': nat)
      requires Valid() && p <= |data|
      ensures ok == (p < |data|)
      ensures ok ==> v == file[p] && p' == p + 1
    {
      if p == |data| {
        return false, 0, p;
      }
      return true, data[p], p + 1;
    }

    /** INPUT_2BYTES */
    method Input2Bytes(p: nat) returns (ok: bool, v: UInt16, p': nat)
      requires Valid() && p <= |data|
      ensures ok == (p + 2 <= |data|)
      ensures ok ==> v == Two(file, p) && p' == p + 2
    {
      var hi, lo: UInt8;
      ok, hi, p' := InputByte(p);
      v := 0;
      if ok {
        ok, lo, p' := InputByte(p');
        if ok {
          v := hi as int * 256 + lo as int;
        }
      }
    }

    method GetSoi() returns (st: Status)
      requires Valid()
      modifies `restart, `soi
      ensures Valid()
      ensures var was := old(ParseSegment(M_SOI, file, pos, order, Info()));
              st != MustSuspend && Meets(st, pos, was, was)
    {
      if soi {
        return Error;
      }
      restart, soi := 0, true;
      st := Ok;
    }

    method GetDri() returns (st: Status)
      requires Valid()
      modifies `pos, `restart
      ensures Valid() && Meets(st, old(pos), old(ParseDri(file, pos, Info())), ParseDri(file, old(pos), Info()))
    {
      var ok, p, length, v;
      ok, length, p := Input2Bytes(pos);
      if !ok {
        return MustSuspend;
      }
      if length != 4 {
        return Error;
      }
      ok, v, p := Input2Bytes(p);
      if !ok {
        return MustSuspend;
      }
      restart, pos := v, p;
      st := Ok;
    }

    method SkipVariable() returns (st: Status)
      requires Valid()
      modifies `pos
      ensures Valid() && Meets(st, old(pos), old(ParseSkip(file, pos, Info())), ParseSkip(file, old(pos), Info()))
    {
      var ok, length, p := Input2Bytes(pos);
      if !ok {
        return MustSuspend;
      }
      if length > 2 {
        if p + (length - 2) > |data| {
          return MustSuspend;
        }
        p := p + (length - 2);
      }
      pos := p;
      st := Ok;
    }

    /** The component specifications of a frame header. */
    method GetFrameComps(p0: nat, n: UInt8) returns (ok: bool, comps: seq<FrameComp>, p: nat)
      requires Valid() && p0 <= |data|
      ensures ok == (p0 + 3 * n <= |data|)
      ensures ok ==> p == p0 + 3 * n && comps == FrameComps(file, p0, n)
    {
      comps, p := [], p0;
      var i: nat := 0;
      while i < n
        invariant i <= n && p == p0 + 3 * i <= |data|
        invariant comps == FrameComps(file, p0, i)
      {
        var id, c, tq;
        ok, id, p := InputByte(p);
        if ok {
          ok, c, p := InputByte(p);
        }
        if ok {
          ok, tq, p := InputByte(p);
        }
        if !ok {
          return;
        }
        comps := comps + [FrameComp(id, c / 16, c % 16, tq)];
        i := i + 1;
      }
      ok := true;
    }

    method GetSof(progressive: bool, arith: bool) returns (st: Status)
      requires Valid()
      modifies `pos, `frame
      ensures Valid()
      ensures Meets(st, old(pos), old(ParseSof(file, pos, progressive, arith, Info())), ParseSof(file, old(pos), progressive, arith, Info()))
    {
      hide NaturalOrder, FrameComps;
      var ok, p, length, precision, height, width, n;
      ok, length, p := Input2Bytes(pos);
      if ok {
        ok, precision, p := InputByte(p);
      }
      if ok {
        ok, height, p := Input2Bytes(p);
      }
      if ok {
        ok, width, p := Input2Bytes(p);
      }
      if ok {
        ok, n, p := InputByte(p);
      }
      if !ok {
        return MustSuspend;
      }
      if frame != NoFrame || height == 0 || width == 0 || n == 0 || length as int - 8 != n as int * 3 {
        return Error;
      }
      var comps;
      ok, comps, p := GetFrameComps(p, n);
      if !ok {
        return MustSuspend;
      }
      frame, pos := Frame(progressive, arith, precision, height, width, comps), p;
      st := Ok;
    }

    /** The search for a component of the frame. */
    method FindId(id: UInt8) returns (found: bool)
      requires frame.Frame?
      ensures found == KnownId(frame, id)
    {
      var ci := 0;
      while ci < |frame.comps|
        invariant 0 <= ci <= |frame.comps|
        invariant forall k :: 0 <= k < ci ==> frame.comps[k].id != id
      {
        if id == frame.comps[ci].id {
          return true;
        }
        ci := ci + 1;
      }
      found := false;
    }

    /** The component specifications of a scan header. */
    method GetScanComps(p0: nat, n: UInt8) returns (st: Status, comps: seq<ScanComp>, p: nat)
      requires Valid() && p0 <= |data| && frame.Frame?
      ensures st == Ok ==> p == p0 + 2 * n <= |data| && ScanComps(file, p0, 0, n, frame, []) == CompsDone(comps)
      ensures st == MustSuspend ==> (data == file ==> ScanComps(file, p0, 0, n, frame, []) == CompsSuspended)
      ensures st == Error ==> ScanComps(file, p0, 0, n, frame, []) == CompsBad
    {
      comps, p := [], p0;
      var i := 0;
      while i < n
        invariant 0 <= i <= n && p == p0 + 2 * i <= |data|
        invariant ScanComps(file, p, i, n, frame, comps) == ScanComps(file, p0, 0, n, frame, [])
      {
        var ok, cc, c;
        ok, cc, p := InputByte(p);
        if ok {
          ok, c, p := InputByte(p);
        }
        if !ok {
          return MustSuspend, comps, p;
        }
        var found := FindId(cc);
        if !found {
          return Error, comps, p;
        }
        comps := comps + [ScanComp(cc, c / 16, c % 16)];
        i := i + 1;
      }
      st := Ok;
    }

    method GetSos() returns (st: Status)
      requires Valid()
      modifies `pos, `scan
      ensures Valid() && Meets(st, old(pos), old(ParseSos(file, pos, Info())), ParseSos(file, old(pos), Info()))
    {
      hide ScanComps, NaturalOrder;
      if frame == NoFrame {
        return Error;
      }
      var ok, p, length, n;
      ok, length, p := Input2Bytes(pos);
      if ok {
        ok, n, p := InputByte(p);
      }
      if !ok {
        return MustSuspend;
      }
      if length != n as int * 2 + 6 || n < 1 || n > MAX_COMPS_IN_SCAN {
        return Error;
      }
      var comps;
      st, comps, p := GetScanComps(p, n);
      if st != Ok {
        return;
      }
      var ss, se, a;
      ok, ss, p := InputByte(p);
      if ok {
        ok, se, p := InputByte(p);
      }
      if ok {
        ok, a, p := InputByte(p);
      }
      if !ok {
        return MustSuspend;
      }
      scan, pos := ScanHeader(comps, ss, se, a / 16, a % 16), p;
    }

    // ----- get_dqt

    /** One table's entries, stored in natural order as they come. */
    method GetQuant(p0: nat, wide: bool, slot: nat) returns (ok: bool, p: nat)
      requires Valid() && p0 <= |data| && slot in quant
      modifies `quant
      ensures Valid() && forall s: nat :: s != slot ==> Agree(old(quant), quant, s)
      ensures ok == (p0 + (if wide then 2 * DCTSIZE2 else DCTSIZE2) <= |data|)
      ensures ok ==> p == p0 + if wide then 2 * DCTSIZE2 else DCTSIZE2
      ensures ok ==> quant == old(quant)[slot := QuantFill(file, p0, wide, order, DCTSIZE2, ZeroQuant())]
    {
      ghost var q0 := quant[slot];
      var i: nat := 0;
      p := p0;
      while i < DCTSIZE2
        invariant i <= DCTSIZE2 && p == p0 + (if wide then 2 * i else i) <= |data|
        invariant quant == old(quant)[slot := QuantFill(file, p0, wide, order, i, q0)]
      {
        var v;
        if wide {
          ok, v, p := Input2Bytes(p);
        } else {
          ok, v, p := InputByte(p);
        }
        if !ok {
          return;
        }
        quant := quant[slot := quant[slot][order[i] := v]];
        i := i + 1;
      }
      ok := true;
      hide QuantFill, NaturalOrder;
      FillAll(file, p0, wide, order, q0, ZeroQuant());
    }

    /** One table of a DQT segment with length bytes to go. */
    method GetOneQuant(p0: nat, length: int) returns (st: Status, p: nat, left: int)
      requires Valid() && p0 <= |data| && length > 0
      modifies `quant
      ensures Valid() && SameQuantsBut(old(Info()), Info(), QuantSlots(file, p0, length))
      ensures st == Ok ==> p0 <= p <= |data| && left < length && QuantSlots(file, p, left) <= QuantSlots(file, p0, length)
      ensures st == Ok ==> old(ParseQuants(file, p0, length, order, Info())) == ParseQuants(file, p, left, order, Info())
      ensures st == MustSuspend && data == file ==> old(ParseQuants(file, p0, length, order, Info())) == Suspended
      ensures st == Error ==> old(ParseQuants(file, p0, length, order, Info())) == Bad
    {
      assert Usable(order);
      hide NaturalOrder, QuantFill;
      p, left := p0, length;
      var ok, n;
      ok, n, p := InputByte(p);
      if !ok {
        return MustSuspend, p, left;
      }
      var wide, slot := n / 16 != 0, n % 16;
      if slot >= NUM_QUANT_TBLS {
        return Error, p, left;
      }
      ghost var before := quant;
      if slot !in quant {
        quant := quant[slot := ZeroQuant()];
      }
      ghost var mid := quant;
      ok, p := GetQuant(p, wide, slot);
      forall s: nat | s != slot
        ensures Agree(before, quant, s)
      {
        assert Agree(mid, quant, s);
      }
      if !ok {
        return MustSuspend, p, left;
      }
      ghost var q := QuantFill(file, p0 + 1, wide, order, DCTSIZE2, ZeroQuant());
      assert quant == before[slot := q];
      left := length - (DCTSIZE2 + 1);
      if wide {
        left := left - DCTSIZE2;
      }
      st := Ok;
    }

    method GetDqt() returns (st: Status)
      requires Valid()
      modifies `pos, `quant
      ensures Valid()
      ensures Meets(st, old(pos), old(ParseDqt(file, pos, order, Info())), ParseDqt(file, old(pos), order, Info()))
    {
      assert Usable(order);
      hide NaturalOrder, QuantFill, ParseQuants, QuantSlots, SameQuantsBut;
      var ok, p, length: int;
      ok, length, p := Input2Bytes(pos);
      if !ok {
        return MustSuspend;
      }
      length := length - 2;
      ghost var start, len0, c0 := p, length, Info();
      ghost var slots := QuantSlots(file, start, len0);
      SameQuantsRefl(c0, slots);
      while length > 0
        invariant Valid() && pos == old(pos) && start <= p <= |data|
        invariant ParseQuants(file, p, length, order, Info()) == ParseQuants(file, start, len0, order, c0)
        invariant SameQuantsBut(c0, Info(), slots) && QuantSlots(file, p, length) <= slots
        decreases length
      {
        ghost var c, part := Info(), QuantSlots(file, p, length);
        st, p, length := GetOneQuant(p, length);
        SameQuantsTrans(c0, c, Info(), slots, part);
        if st != Ok {
          QuantsRedo(file, start, len0, order, c0, Info());
          return;
        }
      }
      QuantsEnd(file, p, length, order, Info());
      if length != 0 {
        return Error;
      }
      pos := p;
      st := Ok;
    }

    // ----- get_dht

    method GetCounts(p0: nat) returns (ok: bool, bits: seq<UInt8>, count: nat, p: nat)
      requires Valid() && p0 <= |data|
      ensures ok == (p0 + 16 <= |data|)
      ensures ok ==> p == p0 + 16 && bits == [0] + file[p0..p0 + 16] && count == Upto(bits, MAXBITS)
    {
      bits, count, p := [0], 0, p0;
      var i: nat := 1;
      while i <= 16
        invariant 1 <= i <= 17 && p == p0 + i - 1 <= |data|
        invariant bits == [0] + file[p0..p] && count == Upto(bits, i - 1)
      {
        var v;
        ok, v, p := InputByte(p);
        if !ok {
          return;
        }
        KraftPrefix(bits, bits + [v], i - 1);
        bits := bits + [v];
        count := count + v;
        i := i + 1;
      }
      ok := true;
    }

    method GetSymbols(p0: nat, count: nat) returns (ok: bool, huffval: seq<UInt8>, p: nat)
      requires Valid() && p0 <= |data| && count <= 256
      ensures ok == (p0 + count <= |data|)
      ensures ok ==> p == p0 + count && huffval == file[p0..p0 + count] + seq(256 - count, i => 0)
    {
      huffval, p := seq(256, i => 0), p0;
      var i: nat := 0;
      while i < count
        invariant i <= count && p == p0 + i <= |data|
        invariant huffval == file[p0..p0 + i] + seq(256 - i, i => 0)
      {
        var v;
        ok, v, p := InputByte(p);
        if !ok {
          return;
        }
        huffval := huffval[i := v];
        i := i + 1;
      }
      ok := true;
    }

    /** One table of a DHT segment with length bytes to go. */
    method GetOneTable(p0: nat, length: int) returns (st: Status, p: nat, left: int)
      requires Valid() && p0 <= |data| && length > 16
      modifies `dc, `ac
      ensures Valid() && SameTablesBut(old(Info()), Info(), TableSlots(file, p0, length))
      ensures st == Ok ==> p0 <= p <= |data| && left < length && TableSlots(file, p, left) <= TableSlots(file, p0, length)
      ensures st == Ok ==> old(ParseTables(file, p0, length, Info())) == ParseTables(file, p, left, Info())
      ensures st == MustSuspend && data == file ==> old(ParseTables(file, p0, length, Info())) == Suspended
      ensures st == Error ==> old(ParseTables(file, p0, length, Info())) == Bad
    {
      hide NaturalOrder, Upto, ParseTables, TableSlots;
      TableStep(file, p0, length, Info());
      p, left := p0, length;
      var ok, index, bits, count, huffval;
      ok, index, p := InputByte(p);
      if ok {
        ok, bits, count, p := GetCounts(p);
      }
      if !ok {
        return MustSuspend, p, left;
      }
      left := left - (1 + 16);
      if count > 256 || count > left {
        return Error, p, left;
      }
      ok, huffval, p := GetSymbols(p, count);
      if !ok {
        return MustSuspend, p, left;
      }
      left := left - count;
      var t := HuffTbl(bits, huffval);
      if index / 16 % 2 == 1 {
        if index - 16 >= NUM_HUFF_TBLS {
          return Error, p, left;
        }
        ac := ac[index - 16 := t];
      } else {
        if index >= NUM_HUFF_TBLS {
          return Error, p, left;
        }
        dc := dc[index := t];
      }
      st := Ok;
    }

    method GetDht() returns (st: Status)
      requires Valid()
      modifies `pos, `dc, `ac
      ensures Valid() && Meets(st, old(pos), old(ParseDht(file, pos, Info())), ParseDht(file, old(pos), Info()))
    {
      hide NaturalOrder, ParseTables, TableSlots, SameTablesBut;
      var ok, p, length: int;
      ok, length, p := Input2Bytes(pos);
      if !ok {
        return MustSuspend;
      }
      length := length - 2;
      ghost var start, len0, c0 := p, length, Info();
      ghost var slots := TableSlots(file, start, len0);
      SameTablesRefl(c0, slots);
      while length > 16
        invariant Valid() && pos == old(pos) && start <= p <= |data|
        invariant ParseTables(file, p, length, Info()) == ParseTables(file, start, len0, c0)
        invariant SameTablesBut(c0, Info(), slots) && TableSlots(file, p, length) <= slots
        decreases length
      {
        ghost var c, part := Info(), TableSlots(file, p, length);
        st, p, length := GetOneTable(p, length);
        SameTablesTrans(c0, c, Info(), slots, part);
        if st != Ok {
          TablesRedo(file, start, len0, c0, Info());
          return;
        }
      }
      TablesEnd(file, p, length, Info());
      if length != 0 {
        return Error;
      }
      pos := p;
      st := Ok;
    }

    // ----- next_marker, first_marker, read_markers

    method FirstMarker() returns (st: Status)
      requires Valid() && unread == 0 && !soi
      modifies `pos, `unread
      ensures Valid()
      ensures st == Ok ==> unread != 0 && pos > old(pos)
      ensures st != Error ==> Meaning() == old(Meaning())
      ensures st == MustSuspend ==> unread == 0 && (data == file ==> Meaning() == NeedMore)
      ensures st == Error ==> old(Meaning()) == Failed
    {
      hide NaturalOrder, AfterMarker;
      var ok, c, c2, p;
      ok, c, p := InputByte(pos);
      if ok {
        ok, c2, p := InputByte(p);
      }
      if !ok {
        return MustSuspend;
      }
      if c != 0xFF || c2 != M_SOI {
        return Error;
      }
      unread, pos := c2, p;
      st := Ok;
    }

    method NextMarker() returns (found: bool)
      requires Valid() && unread == 0
      modifies `pos, `unread
      ensures Valid() && old(pos) <= pos
      ensures found ==> unread != 0 && Closed(file[old(pos)..]) && AfterSegment(file[old(pos)..]) == (unread, file[pos..])
      ensures !found ==> unread == 0 && SameMarker(file, old(pos), pos) && (data == file ==> !Closed(file[pos..]))
    {
      hide NaturalOrder, Closed, AfterSegment;
      var ok, c, p;
      while true
        invariant Valid() && unread == 0 && old(pos) <= pos && SameMarker(file, old(pos), pos)
        decreases |data| - pos
      {
        ok, c, p := InputByte(pos);
        if !ok {
          SourceEmpty();
          return false;
        }
        while c != 0xFF
          invariant Valid() && unread == 0 && old(pos) <= pos && SameMarker(file, old(pos), pos)
          invariant p == pos + 1 <= |data| && c == file[pos]
          decreases |data| - p
        {
          UnitAt(file, pos, pos);
          pos := p;
          ok, c, p := InputByte(pos);
          if !ok {
            SourceEmpty();
            return false;
          }
        }
        while c == 0xFF
          invariant pos < p <= |data| && c == file[p - 1] && AllFF(file, pos, p - 1) && (p == pos + 1 ==> c == 0xFF)
          modifies {}
          decreases |data| - p, c == 0xFF
        {
          ok, c, p := InputByte(p);
          if !ok {
            if data == file {
              UnitAt(file, pos, |file|);
            }
            return false;
          }
        }
        UnitAt(file, pos, p - 1);
        if c != 0 {
          break;
        }
        pos := p;
      }
      unread, pos := c, p;
      found := true;
    }

    /** The switch of read_markers. */
    method ProcessMarker() returns (st: Status)
      requires Valid() && unread != M_EOI
      modifies `pos, `quant, `dc, `ac, `restart, `soi, `frame, `scan
      ensures Valid()
      ensures var was := old(ParseSegment(unread, file, pos, order, Info()));
              Meets(st, old(pos), was, ParseSegment(unread, file, old(pos), order, Info()))
    {
      hide NaturalOrder, ParseDht, ParseDqt, ParseSof, ParseSos, ParseDri, ParseSkip;
      if unread == M_SOI {
        st := GetSoi();
      } else if unread == M_SOF0 || unread == M_SOF1 {
        st := GetSof(false, false);
      } else if unread == M_SOF2 {
        st := GetSof(true, false);
      } else if unread == M_SOF9 {
        st := GetSof(false, true);
      } else if unread == M_SOF10 {
        st := GetSof(true, true);
      } else if unread == M_SOS {
        st := GetSos();
      } else if unread == M_DHT {
        st := GetDht();
      } else if unread == M_DQT {
        st := GetDqt();
      } else if unread == M_DRI {
        st := GetDri();
      } else if M_APP0 <= unread <= M_APP15 || unread == M_COM || unread == M_DNL || unread == M_DAC {
        st := SkipVariable();
      } else if M_RST0 <= unread <= M_RST7 || unread == M_TEM {
        st := Ok;
      } else {
        st := Error;
      }
    }

    method FetchMarker() returns (st: Status)
      requires Valid() && unread == 0
      modifies `pos, `unread
      ensures Valid()
      ensures st == Ok ==> unread != 0 && pos > old(pos)
      ensures st != Error ==> Meaning() == old(Meaning())
      ensures st == MustSuspend ==> unread == 0 && (data == file ==> Meaning() == NeedMore)
      ensures st == Error ==> old(Meaning()) == Failed
    {
      if !soi {
        st := FirstMarker();
      } else {
        hide NaturalOrder, AfterMarker, Closed, AfterSegment;
        var found := NextMarker();
        st := if found then Ok else MustSuspend;
      }
    }

    /** Read on to SOS or EOI. A suspension changes nothing about where this leads. */
    method ReadMarkers() returns (r: Reached)
      requires Valid()
      modifies `pos, `unread, `quant, `dc, `ac, `restart, `soi, `frame, `scan
      ensures Valid()
      ensures r == Suspension ==> Meaning() == old(Meaning()) && (data == file ==> Meaning() == NeedMore)
      ensures r == AtSos ==> old(Meaning()) == ReachedSos(pos, Info()) && unread == 0
      ensures r == AtEoi ==> old(Meaning()) == ReachedEoi(pos, Info()) && unread == 0
      ensures r == Fatal ==> old(Meaning()) == Failed
    {
      hide NaturalOrder, ParseSegment, MarkerSegments.ReadMarkers;
      var st;
      while true
        invariant Valid() && Meaning() == old(Meaning())
        decreases |data| - pos + if unread == 0 then 0 else 1
      {
        if unread == 0 {
          st := FetchMarker();
          if st != Ok {
            return if st == Error then Fatal else Suspension;
          }
        }
        if unread == M_EOI {
          unread := 0;
          return AtEoi;
        }
        st := ProcessMarker();
        if st != Ok {
          return if st == Error then Fatal else Suspension;
        }
        if unread == M_SOS {
          unread := 0;
          return AtSos;
        }
        unread := 0;
      }
    }

    /** The source comes by more of the file. */
    method Supply(more: seq<UInt8>)
      requires Valid() && data + more <= file
      modifies `data
      ensures Valid() && data == old(data) + more && Meaning() == old(Meaning())
    {
      data := data + more;
    }

    lemma {:induction false} SourceEmpty()
      requires Valid() && pos == |data|
      ensures data == file ==> !Closed(file[pos..])
    {
      if data == file {
        UnitAt(file, pos, pos);
      }
    }
  }

  /** However the file is cut into pieces, reading it piece by piece comes to what
      reading the whole file at once comes to. */
  method ReadInPieces(order: seq<nat>, pieces: seq<seq<UInt8>>) returns (r: Reached, reader: MarkerReader)
    requires NaturalOrder(order)
    ensures fresh(reader) && reader.Valid()
    ensures var whole := MarkerSegments.ReadMarkers(Concat(pieces), 0, order, Empty);
            match r
            case AtSos => whole == ReachedSos(reader.pos, reader.Info())
            case AtEoi => whole == ReachedEoi(reader.pos, reader.Info())
            case Fatal => whole == Failed
            case Suspension => whole == NeedMore
  {
    assert Usable(order);
    hide NaturalOrder, MarkerSegments.ReadMarkers, AfterMarker;
    ghost var file := Concat(pieces);
    reader := new MarkerReader(order, file);
    ghost var whole := MarkerSegments.ReadMarkers(file, 0, order, Empty);
    var k := 0;
    r := Suspension;
    while k < |pieces| && r == Suspension
      invariant 0 <= k <= |pieces| && fresh(reader) && reader.Valid() && reader.order == order && reader.file == file
      invariant r == Suspension ==> reader.data == Concat(pieces[..k]) && reader.Meaning() == whole
      invariant r == Suspension && k > 0 && reader.data == file ==> whole == NeedMore
      invariant r == AtSos ==> whole == ReachedSos(reader.pos, reader.Info())
      invariant r == AtEoi ==> whole == ReachedEoi(reader.pos, reader.Info())
      invariant r == Fatal ==> whole == Failed
    {
      assert pieces[..k + 1][..k] == pieces[..k];
      ConcatPrefix(pieces, k + 1);
      reader.Supply(pieces[k]);
      k := k + 1;
      r := reader.ReadMarkers();
    }
    assert pieces[..|pieces|] == pieces;
    if pieces == [] {
      EmptyFile(order);
    }
  }

  lemma {:induction false} EmptyFile(order: seq<nat>)
    requires Usable(order)
    ensures MarkerSegments.ReadMarkers([], 0, order, Empty) == NeedMore
  {
  }

  lemma {:induction false} TablesEnd(data: seq<UInt8>, pos: nat, length: int, ci: Cinfo)
    requires pos <= |data| && length <= 16
    ensures ParseTables(data, pos, length, ci) == if length != 0 then Bad else Done(pos, ci)
  {
  }

  lemma {:induction false} SameTablesRefl(a: Cinfo, slots: set<(bool, nat)>)
    ensures SameTablesBut(a, a, slots)
  {
  }

  lemma {:induction false} SameTablesTrans(a: Cinfo, b: Cinfo, c: Cinfo, slots: set<(bool, nat)>, part: set<(bool, nat)>)
    requires SameTablesBut(a, b, slots) && SameTablesBut(b, c, part) && part <= slots
    ensures SameTablesBut(a, c, slots)
  {
    forall s: nat | (false, s) !in slots
      ensures Agree(a.dc, c.dc, s)
    {
      assert Agree(a.dc, b.dc, s) && Agree(b.dc, c.dc, s);
    }
    forall s: nat | (true, s) !in slots
      ensures Agree(a.ac, c.ac, s)
    {
      assert Agree(a.ac, b.ac, s) && Agree(b.ac, c.ac, s);
    }
  }

  lemma {:induction false} QuantsEnd(data: seq<UInt8>, pos: nat, length: int, order: seq<nat>, ci: Cinfo)
    requires Usable(order) && pos <= |data| && length <= 0
    ensures ParseQuants(data, pos, length, order, ci) == if length != 0 then Bad else Done(pos, ci)
  {
  }

  lemma {:induction false} SameQuantsRefl(a: Cinfo, slots: set<nat>)
    ensures SameQuantsBut(a, a, slots)
  {
  }

  lemma {:induction false} SameQuantsTrans(a: Cinfo, b: Cinfo, c: Cinfo, slots: set<nat>, part: set<nat>)
    requires SameQuantsBut(a, b, slots) && SameQuantsBut(b, c, part) && part <= slots
    ensures SameQuantsBut(a, c, slots)
  {
    forall s: nat | s !in slots
      ensures Agree(a.quant, c.quant, s)
    {
      assert Agree(a.quant, b.quant, s) && Agree(b.quant, c.quant, s);
    }
  }
}
