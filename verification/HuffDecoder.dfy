/** jdhuff.c: decoding MCUs from the source, with suspension, restart markers
    and the zero fill of a segment that ends too early. */
module HuffDecoder {
  import opened JpegLimits
  import opened Arith
  import opened Bits
  import opened HuffTable
  import opened DerivedTables
  import opened Stuffing
  import opened Registers
  import opened BlockCoding
  import opened ScanCoding
  import opened BitReader

  /** The decoder's tables in their slots, and which blocks of an MCU are
      wanted (dc_needed, ac_needed). */
  datatype DTables = DTables(dc: seq<DDerived>, ac: seq<DDerived>, dcT: seq<HuffTbl>, acT: seq<HuffTbl>,
                             dcNeeded: seq<bool>, acNeeded: seq<bool>)

  ghost predicate ValidDTables(sc: Scan, dt: DTables) {
    && ValidScan(sc)
    && |dt.dc| == |dt.ac| == |dt.dcT| == |dt.acT| == NUM_HUFF_TBLS
    && |dt.dcNeeded| == |dt.acNeeded| == |sc.membership|
    && (forall c :: 0 <= c < |sc.dcTbl| ==> DerivedFrom(dt.dc[sc.dcTbl[c]], dt.dcT[sc.dcTbl[c]]))
    && (forall c :: 0 <= c < |sc.dcTbl| ==> LegalForDecoder(dt.dcT[sc.dcTbl[c]], true))
    && (forall c :: 0 <= c < |sc.acTbl| ==> DerivedFrom(dt.ac[sc.acTbl[c]], dt.acT[sc.acTbl[c]]))
  }

  // ----- what an MCU decodes to

  /** Block b from position pos: its coefficients, the new prediction and the
      position after it. */
  ghost function BlockAt(sc: Scan, dt: DTables, u: BitString, pos: nat, b: nat, last: int): (r: (seq<Coef>, int, nat))
    requires ValidDTables(sc, dt) && b < |sc.membership|
    ensures |r.0| == DCTSIZE2
  {
    var c := sc.membership[b];
    var (diff, p) := DcAt(dt.dcT[sc.dcTbl[c]], u, pos);
    var zero := seq(DCTSIZE2, i => 0);
    var last' := if dt.dcNeeded[b] then last + diff else last;
    var blk := if dt.dcNeeded[b] then zero[0 := ToCoef(last')] else zero;
    var (blk', p') := AcFrom(dt.acT[sc.acTbl[c]], u, p, 1, blk, sc.order, dt.acNeeded[b]);
    (blk', last', p')
  }

  /** Predictions and position after the first b blocks. */
  ghost function McuState(sc: Scan, dt: DTables, u: BitString, last: seq<int>, b: nat): (r: (seq<int>, nat))
    requires ValidDTables(sc, dt) && b <= |sc.membership| && |last| == |sc.dcTbl|
    ensures |r.0| == |last|
  {
    if b == 0 then (last, 0) else
    var (l, p) := McuState(sc, dt, u, last, b - 1);
    var c := sc.membership[b - 1];
    var (_, x, p') := BlockAt(sc, dt, u, p, b - 1, l[c]);
    (l[c := x], p')
  }

  ghost function McuBlock(sc: Scan, dt: DTables, u: BitString, last: seq<int>, b: nat): (blk: seq<Coef>)
    requires ValidDTables(sc, dt) && b < |sc.membership| && |last| == |sc.dcTbl|
    ensures |blk| == DCTSIZE2
  {
    var (l, p) := McuState(sc, dt, u, last, b);
    BlockAt(sc, dt, u, p, b, l[sc.membership[b]]).0
  }

  // ----- decoding one block

  /** HUFF_EXTEND with its two tables. */
  function HuffExtend(x: nat, s: nat): int
    requires 1 <= s <= 15
  {
    var extendTest := [0, 0x0001, 0x0002, 0x0004, 0x0008, 0x0010, 0x0020, 0x0040, 0x0080,
                       0x0100, 0x0200, 0x0400, 0x0800, 0x1000, 0x2000, 0x4000];
    var extendOffset := [0, -2 + 1, -4 + 1, -8 + 1, -16 + 1, -32 + 1, -64 + 1, -128 + 1, -256 + 1,
                         -512 + 1, -1024 + 1, -2048 + 1, -4096 + 1, -8192 + 1, -16384 + 1, -32768 + 1];
    if x < extendTest[s] then x + extendOffset[s] else x
  }

  /** The tables hold what figure F.12 asks for. */
  lemma {:induction false} HuffExtendIsExtend(x: nat, s: nat)
    requires 1 <= s <= 15
    ensures HuffExtend(x, s) == Extend(x, s)
  {
    assert Pow2(0) == 1 && Pow2(4) == 16 && Pow2(8) == 256;
    assert Pow2(1) == 2 && Pow2(2) == 4 && Pow2(3) == 8 && Pow2(5) == 32 && Pow2(6) == 64 && Pow2(7) == 128;
    Pow2Add(8, 1);
    Pow2Add(8, 2);
    Pow2Add(8, 3);
    Pow2Add(8, 4);
    Pow2Add(8, 5);
    Pow2Add(8, 6);
    Pow2Add(8, 7);
  }

  lemma {:induction false} SymRange(t: HuffTbl, u: BitString, pos: nat)
    requires Shaped(t) && LegalCounts(t.bits)
    ensures SymAt(t, u, pos).0 < 256
    ensures LegalForDecoder(t, true) ==> SymAt(t, u, pos).0 <= 15
  {
    SymFromTable(t, Pad(u, pos, MAXBITS + 1), 1);
  }

  lemma {:induction false} SymFromTable(t: HuffTbl, bs: BitString, l: nat)
    requires Shaped(t) && LegalCounts(t.bits) && 1 <= l <= MAXBITS + 1
    requires l - 1 <= |bs| && Beyond(t.bits, bs, l - 1)
    ensures Decode(t, bs, l).Symbol? ==> Decode(t, bs, l).sym < 256
    ensures Decode(t, bs, l).Symbol? && LegalForDecoder(t, true) ==> Decode(t, bs, l).sym <= 15
    decreases MAXBITS + 1 - l
  {
    if l <= MAXBITS && l <= |bs| {
      if Beyond(t.bits, bs, l) {
        SymFromTable(t, bs, l + 1);
      } else {
        MatchIndex(t.bits, bs, l);
        UptoMono(t.bits, l, MAXBITS);
      }
    }
  }

  method DecodeDc(r: BitReader, d: DDerived, ghost t: HuffTbl) returns (ok: bool, diff: int)
    requires r.Valid() && DerivedFrom(d, t) && LegalForDecoder(t, true)
    modifies r
    ensures !ok ==> !r.here
    ensures ok ==> r.Valid() && (diff, r.at) == DcAt(t, r.stream, old(r.at))
  {
    hide BitReader.Valid, SymAt, BitsAt, LegalForDecoder, Extend, HuffExtend;
    ghost var u := r.stream;
    SymRange(t, u, r.at);
    var s, x;
    ok, s := r.HuffDecode(d, d.pub);
    diff := 0;
    if ok && s != 0 {
      ok, x := r.FetchBits(s);
      HuffExtendIsExtend(x, s);
      diff := HuffExtend(x, s);
    }
  }

  method DecodeAc(r: BitReader, d: DDerived, ghost t: HuffTbl, block: array<Coef>, order: seq<nat>, needed: bool) returns (ok: bool)
    requires r.Valid() && DerivedFrom(d, t) && NaturalOrder(order) && block.Length == DCTSIZE2
    modifies r, block
    ensures !ok ==> !r.here
    ensures ok ==> r.Valid() && (block[..], r.at) == AcFrom(t, r.stream, old(r.at), 1, old(block[..]), order, needed)
  {
    hide BitReader.Valid, SymAt, BitsAt, Extend, HuffExtend;
    ghost var u := r.stream;
    ghost var want := AcFrom(t, u, r.at, 1, block[..], order, needed);
    var k := 1;
    while k < DCTSIZE2
      invariant r.Valid() && 1 <= k
      invariant AcFrom(t, u, r.at, k, block[..], order, needed) == want
      decreases DCTSIZE2 - k
    {
      SymRange(t, u, r.at);
      var s, x;
      ghost var blk0 := block[..];
      ok, s := r.HuffDecode(d, d.pub);
      if !ok { return; }
      var run := s / 16;
      s := s % 16;
      if s != 0 {
        k := k + run;
        ok, x := r.FetchBits(s);
        if !ok { return; }
        if needed {
          HuffExtendIsExtend(x, s);
          block[order[k]] := ToCoef(HuffExtend(x, s));
          assert block[..] == blk0[order[k] := ToCoef(HuffExtend(x, s))];
        }
      } else {
        if run != 15 {
          ok := true;
          return;
        }
        k := k + 15;
      }
      k := k + 1;
    }
    ok := true;
  }

  // ----- decoding MCUs

  ghost predicate Distinct(blocks: seq<array<Coef>>) {
    && (forall b :: 0 <= b < |blocks| ==> blocks[b].Length == DCTSIZE2)
    && (forall a, b :: 0 <= a < b < |blocks| ==> blocks[a] != blocks[b])
  }

  function ZeroBlock(): (z: seq<Coef>)
    ensures |z| == DCTSIZE2
  {
    seq(DCTSIZE2, i => 0)
  }

  lemma {:induction false} BlockTables(sc: Scan, dt: DTables, b: nat)
    requires ValidDTables(sc, dt) && b < |sc.membership|
    ensures NaturalOrder(sc.order) && sc.membership[b] < |sc.dcTbl| == |sc.acTbl|
    ensures |dt.dc| == |dt.ac| == |dt.dcT| == |dt.acT| == NUM_HUFF_TBLS && |dt.dcNeeded| == |dt.acNeeded| == |sc.membership|
    ensures var c := sc.membership[b];
            && sc.dcTbl[c] < NUM_HUFF_TBLS && sc.acTbl[c] < NUM_HUFF_TBLS
            && DerivedFrom(dt.dc[sc.dcTbl[c]], dt.dcT[sc.dcTbl[c]]) && LegalForDecoder(dt.dcT[sc.dcTbl[c]], true)
            && DerivedFrom(dt.ac[sc.acTbl[c]], dt.acT[sc.acTbl[c]])
  {
  }

  /** Decode one block into its zeroed place. */
  method DecodeOneBlock(r: BitReader, sc: Scan, dt: DTables, b: nat, last0: int, block: array<Coef>) returns (ok: bool, last: int)
    requires r.Valid() && ValidDTables(sc, dt) && b < |sc.membership|
    requires block.Length == DCTSIZE2 && block[..] == ZeroBlock()
    modifies r, block
    ensures !ok ==> !r.here
    ensures ok ==> r.Valid() && (block[..], last, r.at) == BlockAt(sc, dt, r.stream, old(r.at), b, last0)
    // the difference read from the stream is added to the prediction
    ensures ok && dt.dcNeeded[b] ==>
              last == last0 + DcAt(dt.dcT[sc.dcTbl[sc.membership[b]]], r.stream, old(r.at)).0 && block[0] == ToCoef(last)
    ensures ok && !dt.dcNeeded[b] ==> last == last0 && block[0] == 0
  {
    hide BitReader.Valid, DcAt, AcFrom, DerivedFrom, LegalForDecoder, ValidDTables;
    BlockTables(sc, dt, b);
    var c := sc.membership[b];
    last := last0;
    var diff;
    ok, diff := DecodeDc(r, dt.dc[sc.dcTbl[c]], dt.dcT[sc.dcTbl[c]]);
    if !ok { return; }
    if dt.dcNeeded[b] {
      last := last + diff;
      block[0] := ToCoef(last);
      assert block[..] == ZeroBlock()[0 := ToCoef(last)];
    }
    AcKeepsDc(dt.acT[sc.acTbl[c]], r.stream, r.at, 1, block[..], sc.order, dt.acNeeded[b]);
    ok := DecodeAc(r, dt.ac[sc.acTbl[c]], dt.acT[sc.acTbl[c]], block, sc.order, dt.acNeeded[b]);
  }

  method DecodeBlocks(r: BitReader, sc: Scan, dt: DTables, last0: seq<int>, blocks: seq<array<Coef>>) returns (ok: bool, last: seq<int>)
    requires r.Valid() && r.at == 0 && ValidDTables(sc, dt) && |last0| == |sc.dcTbl|
    requires |blocks| == |sc.membership| && Distinct(blocks)
    requires forall b :: 0 <= b < |blocks| ==> blocks[b][..] == ZeroBlock()
    modifies r, blocks
    ensures !ok ==> !r.here
    ensures ok ==> r.Valid() && (last, r.at) == McuState(sc, dt, r.stream, last0, |blocks|)
    ensures ok ==> forall b :: 0 <= b < |blocks| ==> blocks[b][..] == McuBlock(sc, dt, r.stream, last0, b)
  {
    hide BitReader.Valid, BlockAt, ValidDTables, ZeroBlock;
    ghost var u := r.stream;
    last := last0;
    var blkn := 0;
    while blkn < |sc.membership|
      invariant 0 <= blkn <= |blocks| && r.Valid()
      invariant (last, r.at) == McuState(sc, dt, u, last0, blkn)
      invariant forall b :: 0 <= b < blkn ==> blocks[b][..] == McuBlock(sc, dt, u, last0, b)
      invariant forall b :: blkn <= b < |blocks| ==> blocks[b][..] == ZeroBlock()
    {
      BlockTables(sc, dt, blkn);
      var c := sc.membership[blkn];
      var x;
      ok, x := DecodeOneBlock(r, sc, dt, blkn, last[c], blocks[blkn]);
      if !ok { return; }
      last := last[c := x];
      blkn := blkn + 1;
    }
    ok := true;
  }

  datatype DStatus = Decoded | Suspended | WrongMarker

  class HuffDecoder {
    const sc: Scan
    const dt: DTables
    ghost const file: seq<UInt8>  // everything the source will deliver, however it is cut
    var data: seq<UInt8>      // what it has delivered so far
    var pos: nat              // src->next_input_byte
    var getBuffer: nat        // bitstate
    var bitsLeft: nat
    var marker: UInt8         // unread_marker
    var insufficient: bool    // insufficient_data
    var lastDc: seq<int>      // saved.last_dc_val
    var restartsToGo: nat
    var nextRestartNum: nat   // marker->next_restart_num

    ghost predicate Valid()
      reads this
    {
      && ValidDTables(sc, dt) && |lastDc| == |sc.dcTbl|
      && pos <= |data| && data <= file
      && getBuffer < W32 && bitsLeft <= 32 && marker != 0xFF && nextRestartNum < 8
    }

    /** The bits of the current segment that are still to come. */
    ghost function Ahead(): BitString
      requires pos <= |file|
      reads this
    {
      ToBits(getBuffer, bitsLeft) + if marker == 0 then BytesBits(DataBytes(file[pos..])) else []
    }

    /** A marker ends the segment. */
    ghost predicate Ended()
      requires pos <= |file|
      reads this
    {
      marker != 0 || Closed(file[pos..])
    }

    /** That marker, and the bytes after it. */
    ghost function After(): (UInt8, seq<UInt8>)
      requires pos <= |file| && Ended()
      reads this
    {
      if marker != 0 then (marker, file[pos..]) else AfterSegment(file[pos..])
    }

    /** The marker has been delivered. */
    ghost predicate InSight()
      requires pos <= |data|
      reads this
    {
      marker != 0 || Closed(data[pos..])
    }

    /** start_pass_huff_decoder, before anything has arrived. */
    constructor (sc: Scan, dt: DTables, ghost file: seq<UInt8>)
      requires ValidDTables(sc, dt)
      ensures Valid() && this.sc == sc && this.dt == dt && this.file == file && data == [] && pos == 0 && marker == 0
      ensures bitsLeft == 0 && !insufficient && lastDc == ZeroLast(|sc.dcTbl|)
      ensures restartsToGo == sc.restart && nextRestartNum == 0
    {
      this.sc, this.dt, this.file := sc, dt, file;
      data, pos, getBuffer, bitsLeft, marker, insufficient := [], 0, 0, 0, 0, false;
      lastDc, restartsToGo, nextRestartNum := ZeroLast(|sc.dcTbl|), sc.restart, 0;
    }

    /** More input arrives. */
    method Supply(more: seq<UInt8>)
      requires Valid() && data + more <= file
      modifies `data
      ensures Valid() && data == old(data) + more
      ensures old(InSight()) ==> InSight()
    {
      hide ValidDTables;
      SightStays(data, data + more, pos);
      data := data + more;
    }

    /** next_marker: skip to the next marker; give up where the input ends,
        having dropped the data before that point for good. */
    method NextMarker() returns (ok: bool)
      requires Valid() && marker == 0
      modifies `pos, `marker
      ensures Valid()
      ensures ok <==> old(InSight())
      ensures Ended() == old(Ended()) && (Ended() ==> After() == old(After()))
      ensures ok ==> marker != 0
      ensures !ok ==> marker == 0 && !InSight() && Skipped(file, old(pos), pos)
    {
      hide ValidDTables, ToBits, NextUnit, FFs, BytesBits;
      SkipNothing(file, pos);
      while true
        invariant Valid() && marker == 0
        invariant Ended() == old(Ended()) && (Ended() ==> After() == old(After()))
        invariant InSight() == old(InSight()) && Skipped(file, old(pos), pos)
        decreases |data| - pos
      {
        UnitStep(data[pos..]);
        UnitOfMore(data, file, pos);
        UnitStep(file[pos..]);
        ghost var s, t := data[pos..], file[pos..];
        var u, p := ReadUnit(data, pos);
        if u.Starved? {
          return false;
        }
        assert s[u.n..] == data[p..] && t[u.n..] == file[p..];
        if u.Data? { SkipUnit(file, old(pos), pos, p); }
        pos := p;
        if u.Marker? {
          marker := u.code;
          return true;
        }
      }
    }

    /** process_restart, for the marker that is due; a different marker is
        left to the source manager. A suspension may have skipped data, but
        the marker is still ahead. */
    method ProcessRestart() returns (st: DStatus)
      requires Valid()
      modifies this
      ensures Valid() && data == old(data)
      ensures st == Suspended <==> !old(InSight())
      ensures st == Suspended ==> unchanged(`lastDc, `restartsToGo, `nextRestartNum, `insufficient) && StillAhead(old(Ahead()), old(Ended()), if old(Ended()) then old(After()) else (0, []))
      ensures st != Suspended ==> old(Ended()) && (st == Decoded <==> old(After().0 == RST0 + nextRestartNum))
      ensures st == Decoded ==> RestartDone(old(After().1), old(nextRestartNum))
    {
      hide ValidDTables, BytesBits, DataBytes, ToBits, Skipped, AfterSegment, Closed;
      ghost var pos0 := pos;
      SightIsEnd(data, file, pos);
      bitsLeft := 0;
      if marker == 0 {
        var ok := NextMarker();
        if !ok {
          SkippedShorter(file, pos0, pos, old(getBuffer), old(bitsLeft), getBuffer);
          return Suspended;
        }
      }
      if marker != RST0 + nextRestartNum {
        return WrongMarker;
      }
      marker := 0;
      nextRestartNum := (nextRestartNum + 1) % 8;
      lastDc := ZeroLast(|sc.dcTbl|);
      restartsToGo := sc.restart;
      insufficient := false;
      st := Decoded;
    }

    /** decode_mcu between restarts. Fill bits are used only beyond the end of
        the segment, never because data has not arrived yet. */
    method DecodeData(blocks: seq<array<Coef>>) returns (st: DStatus)
      requires Valid() && |blocks| == |sc.membership| && Distinct(blocks)
      requires forall b :: 0 <= b < |blocks| ==> blocks[b][..] == ZeroBlock()
      modifies this, blocks
      ensures Valid() && data == old(data)
      ensures st == Suspended || st == Decoded
      ensures st == Suspended ==> unchanged(this) && !InSight()
      ensures st == Decoded ==>
                DecodedFrom(blocks, old(Ahead()), old(lastDc), old(insufficient), old(Ended()), if old(Ended()) then old(After()) else (0, []))
      ensures st == Decoded && !old(InSight()) && !old(insufficient) ==> !insufficient
      ensures st == Decoded ==> restartsToGo == if old(restartsToGo) == 0 then 0xFFFF_FFFF else old(restartsToGo) - 1
      ensures nextRestartNum == old(nextRestartNum)
    {
      hide ValidDTables, McuState, McuBlock, ZeroBlock, BytesBits, ToBits, DataBytes, Closed, AfterSegment, Reading, Pad;
      if !insufficient {
        var r := new BitReader(data, file, pos, getBuffer, bitsLeft, marker);
        var ok, last := DecodeBlocks(r, sc, dt, lastDc, blocks);
        if !ok {
          return Suspended;
        }
        ReaderAhead(r);
        pos, getBuffer, bitsLeft, marker := r.pos, r.getBuffer, r.bitsLeft, r.marker;
        insufficient, lastDc := r.insufficient, last;
      }
      restartsToGo := if restartsToGo == 0 then 0xFFFF_FFFF else restartsToGo - 1;
      st := Decoded;
    }

    method DecodeMcu(blocks: seq<array<Coef>>) returns (st: DStatus)
      requires Valid() && |blocks| == |sc.membership| && Distinct(blocks)
      requires forall b :: 0 <= b < |blocks| ==> blocks[b][..] == ZeroBlock()
      modifies this, blocks
      ensures Valid() && data == old(data)
      // between restarts only data that has not arrived causes a suspension, and nothing changes;
      ensures st == Suspended && !(sc.restart > 0 && old(restartsToGo) == 0) ==> unchanged(this) && !InSight()
      // at a restart either the marker is still to be found, ...
      ensures st == Suspended && sc.restart > 0 && old(restartsToGo) == 0 && restartsToGo == 0 ==>
                && !old(InSight()) && unchanged(`lastDc, `nextRestartNum, `insufficient)
                && StillAhead(old(Ahead()), old(Ended()), if old(Ended()) then old(After()) else (0, []))
      // ... or it has been processed, and the data behind it is what is missing.
      ensures st == Suspended && sc.restart > 0 && old(restartsToGo) == 0 && restartsToGo != 0 ==>
                && old(Ended()) && old(After().0 == RST0 + nextRestartNum) && !InSight()
                && RestartDone(old(After().1), old(nextRestartNum))
      ensures st == WrongMarker ==> sc.restart > 0 && old(restartsToGo) == 0 && old(Ended() && After().0 != RST0 + nextRestartNum)
      ensures st == Decoded && !(sc.restart > 0 && old(restartsToGo) == 0) ==>
                DecodedFrom(blocks, old(Ahead()), old(lastDc), old(insufficient), old(Ended()), if old(Ended()) then old(After()) else (0, []))
      ensures st == Decoded && !old(InSight()) && !old(insufficient) ==> !insufficient
      ensures st == Decoded && sc.restart > 0 && old(restartsToGo) == 0 ==>
                && old(Ended() && After().0 == RST0 + nextRestartNum)
                && var rest := old(After().1);
                   DecodedFrom(blocks, BytesBits(DataBytes(rest)), ZeroLast(|sc.dcTbl|), false, Closed(rest),
                               if Closed(rest) then AfterSegment(rest) else (0, []))
      ensures st == Decoded && sc.restart > 0 && old(restartsToGo) == 0 ==>
                nextRestartNum == (old(nextRestartNum) + 1) % 8 && restartsToGo == sc.restart - 1
      ensures st == Decoded && !(sc.restart > 0 && old(restartsToGo) == 0) ==>
                nextRestartNum == old(nextRestartNum) && (old(restartsToGo) > 0 ==> restartsToGo == old(restartsToGo) - 1)
    {
      hide ValidDTables, McuState, McuBlock, ZeroBlock, BytesBits, DataBytes, Closed, AfterSegment;
      if sc.restart > 0 && restartsToGo == 0 {
        st := ProcessRestart();
        if st != Decoded {
          return;
        }
        assert Ahead() == BytesBits(DataBytes(file[pos..]));
      }
      st := DecodeData(blocks);
    }

    /** A call that has not found the restart marker leaves no more bits in front
        of it, and it is the same one. */
    ghost predicate StillAhead(u: BitString, ended: bool, after: (UInt8, seq<UInt8>))
      requires Valid()
      reads this
    {
      marker == 0 && !InSight() && |Ahead()| <= |u| && Ended() == ended && (ended ==> After() == after)
    }

    /** State right after a restart marker with these bytes behind it. */
    ghost predicate RestartDone(rest: seq<UInt8>, rst: nat)
      requires pos <= |file|
      reads this
    {
      && marker == 0 && bitsLeft == 0 && file[pos..] == rest && !insufficient
      && lastDc == ZeroLast(|sc.dcTbl|) && restartsToGo == sc.restart && nextRestartNum == (rst + 1) % 8
    }

    /** The blocks and the new state are what segment bits u decode to. */
    ghost predicate DecodedFrom(blocks: seq<array<Coef>>, u: BitString, last0: seq<int>, starved: bool,
                                ended: bool, after: (UInt8, seq<UInt8>))
      requires Valid() && |blocks| == |sc.membership| && |last0| == |sc.dcTbl|
      reads this, blocks
    {
      && Ended() == ended && (ended ==> After() == after)
      && (starved ==> insufficient && lastDc == last0 && forall b :: 0 <= b < |blocks| ==> blocks[b][..] == ZeroBlock())
      && (!starved ==>
            var (last, p) := McuState(sc, dt, u, last0, |blocks|);
            && lastDc == last && (insufficient <==> p > |u|) && (p <= |u| ==> Ahead() == u[p..])
            && forall b :: 0 <= b < |blocks| ==> blocks[b][..] == McuBlock(sc, dt, u, last0, b))
    }
  }

  // ----- what more data does not change

  lemma {:induction false} SightStays(a: seq<UInt8>, b: seq<UInt8>, p: nat)
    requires p <= |a| && a <= b
    ensures Closed(a[p..]) ==> Closed(b[p..])
    decreases |a| - p
  {
    hide FFs, NextUnit, DataBytes, AfterSegment, Closed, BytesBits;
    UnitStep(a[p..]);
    UnitStep(b[p..]);
    UnitOfMore(a, b, p);
    var u := NextUnit(a[p..]);
    if u.Data? {
      assert a[p..][u.n..] == a[p + u.n..] && b[p..][u.n..] == b[p + u.n..];
      SightStays(a, b, p + u.n);
    }
  }

  lemma {:induction false} SightIsEnd(data: seq<UInt8>, file: seq<UInt8>, p: nat)
    requires p <= |data| && data <= file
    ensures Closed(data[p..]) ==> Closed(file[p..])
  {
    SightStays(data, file, p);
  }

  /** Between p and q there are only data bytes. */
  ghost predicate Skipped(file: seq<UInt8>, p: nat, q: nat) {
    p <= q <= |file| && |BytesBits(DataBytes(file[q..]))| <= |BytesBits(DataBytes(file[p..]))|
  }

  lemma {:induction false} SkipNothing(file: seq<UInt8>, p: nat)
    requires p <= |file|
    ensures Skipped(file, p, p)
  {
  }

  lemma {:induction false} SkipUnit(file: seq<UInt8>, p: nat, q: nat, r: nat)
    requires Skipped(file, p, q) && NextUnit(file[q..]).Data? && r == q + NextUnit(file[q..]).n
    ensures Skipped(file, p, r)
  {
    hide NextUnit, FFs;
    UnitStep(file[q..]);
    assert file[q..][NextUnit(file[q..]).n..] == file[r..];
    var d := DataBytes(file[q..]);
    assert d[1..] == DataBytes(file[r..]);
    assert BytesBits(d) == ToBits(d[0], 8) + BytesBits(d[1..]);
  }

  lemma {:induction false} SkippedShorter(file: seq<UInt8>, p: nat, q: nat, buf0: nat, left0: nat, buf: nat)
    requires Skipped(file, p, q)
    ensures |ToBits(buf, 0) + BytesBits(DataBytes(file[q..]))| <= |ToBits(buf0, left0) + BytesBits(DataBytes(file[p..]))|
  {
  }

  /** What a reader's fields mean to the next MCU. */
  lemma {:induction false} ReaderAhead(r: BitReader)
    requires r.Valid()
    ensures r.marker == 0 ==> r.at <= |r.stream| && ToBits(r.getBuffer, r.bitsLeft) + BytesBits(DataBytes(r.file[r.pos..])) == r.stream[r.at..]
    ensures r.marker != 0 && r.at <= |r.stream| ==> ToBits(r.getBuffer, r.bitsLeft) + [] == r.stream[r.at..]
    ensures r.closed == (r.marker != 0 || Closed(r.file[r.pos..]))
    ensures r.closed ==> r.after == if r.marker != 0 then (r.marker, r.file[r.pos..]) else AfterSegment(r.file[r.pos..])
    ensures r.here == (r.marker != 0 || Closed(r.data[r.pos..]))
    ensures r.insufficient <==> r.at > |r.stream|
  {
    hide ToBits, BytesBits, DataBytes, Closed, AfterSegment;
    var bs := ToBits(r.getBuffer, r.bitsLeft);
    if r.marker == 0 {
      PadInside(r.stream, r.at, r.bitsLeft);
      assert r.stream[r.at..] == r.stream[r.at..r.at + r.bitsLeft] + r.stream[r.at + r.bitsLeft..];
    } else if r.at <= |r.stream| {
      PadInside(r.stream, r.at, r.bitsLeft);
    }
  }

  lemma {:induction false} PadInside(u: BitString, at: nat, n: nat)
    requires at + n <= |u|
    ensures Pad(u, at, n) == u[at..at + n]
  {
  }
}
