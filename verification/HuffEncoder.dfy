/** jchuff.c: encoding MCUs to the destination, with suspension, and the
    statistics pass over the same data. */
module HuffEncoder {
  import opened JpegLimits
  import opened Arith
  import opened Bits
  import opened HuffTable
  import opened DerivedTables
  import opened Stuffing
  import opened Registers
  import opened BlockCoding
  import opened ScanCoding
  import opened BitWriter

  /** nbits = 0; while (temp) { nbits++; temp >>= 1; } */
  method CountBits(n: nat) returns (nbits: nat)
    ensures nbits == NBits(n)
  {
    nbits := 0;
    var temp := n;
    while temp != 0
      invariant nbits + NBits(temp) == NBits(n)
    {
      nbits := nbits + 1;
      temp := temp / 2;
    }
  }

  // ----- one block

  /** Hand item i of all to the bit writer. */
  method Send(w: Writer, code: int, size: nat, dc: CDerived, ac: CDerived,
              ghost seg0: BitString, ghost all: seq<Item>, ghost i: nat) returns (st: Status)
    requires w.Valid() && TableShaped(dc) && TableShaped(ac) && i < |all| && size <= 16
    requires w.seg == seg0 + ItemsBits(dc, ac, all[..i])
    requires size > 0 ==> ToBits(code % Pow2(size), size) == ItemBits(dc, ac, all[i])
    modifies w
    ensures w.base == old(w.base)
    ensures st == Failed <==> size == 0
    ensures st == Done ==> w.Valid() && w.seg == seg0 + ItemsBits(dc, ac, all[..i + 1])
    ensures st == Suspended ==> w.Full(w.base + Sent(seg0 + ItemsBits(dc, ac, all)))
  {
    hide Sent, ItemBits, ToBits, Pow2;
    st := w.EmitBits(code, size);
    if size > 0 {
      ItemsNext(dc, ac, all, i);
      var x, y := ItemsBits(dc, ac, all[..i + 1]), ItemsBits(dc, ac, all[i + 1..]);
      assert (seg0 + x) + y == seg0 + (x + y);
      SentGrows(seg0 + x, y);
      assert seg0 + ItemsBits(dc, ac, all[..i]) + ItemBits(dc, ac, all[i]) == seg0 + x;
    }
  }

  lemma {:induction false} ItemsNext(dc: CDerived, ac: CDerived, all: seq<Item>, i: nat)
    requires TableShaped(dc) && TableShaped(ac) && i < |all|
    ensures ItemsBits(dc, ac, all[..i + 1]) == ItemsBits(dc, ac, all[..i]) + ItemBits(dc, ac, all[i])
    ensures ItemsBits(dc, ac, all) == ItemsBits(dc, ac, all[..i + 1]) + ItemsBits(dc, ac, all[i + 1..])
  {
    hide ItemBits;
    assert all[..i + 1] == all[..i] + [all[i]];
    ItemsBitsAppend(dc, ac, all[..i], [all[i]]);
    assert ItemsBits(dc, ac, [all[i]]) == ItemBits(dc, ac, all[i]) + ItemsBits(dc, ac, []);
    assert all == all[..i + 1] + all[i + 1..];
    ItemsBitsAppend(dc, ac, all[..i + 1], all[i + 1..]);
  }

  method EncodeDc(w: Writer, diff: int, dc: CDerived, ac: CDerived, ghost all: seq<Item>) returns (st: Status)
    requires w.Valid() && ShortCodes(dc) && ShortCodes(ac)
    requires DcItems(diff) <= all
    modifies w
    ensures w.base == old(w.base)
    ensures st == Done ==> w.Valid() && AllCodable(dc, ac, DcItems(diff))
    ensures st == Done ==> w.seg == old(w.seg) + ItemsBits(dc, ac, all[..|DcItems(diff)|])
    ensures st == Failed ==> !AllCodable(dc, ac, DcItems(diff))
    ensures st == Suspended ==> w.Full(w.base + Sent(old(w.seg) + ItemsBits(dc, ac, all)))
  {
    hide Sent, ToBits, Pow2;
    ghost var seg0, its := w.seg, DcItems(diff);
    assert forall i :: 0 <= i < |its| ==> all[i] == its[i];
    assert w.seg == seg0 + ItemsBits(dc, ac, all[..0]);
    var temp, temp2 := diff, diff;
    if temp < 0 {
      temp := -temp;
      temp2 := temp2 - 1;
    }
    var nbits := CountBits(temp);
    if nbits > MAX_COEF_BITS + 1 {
      assert !Codable(dc, ac, its[0]);
      return Failed;
    }
    DcCodes(dc, ac, nbits);
    st := Send(w, dc.ehufco[nbits], dc.ehufsi[nbits], dc, ac, seg0, all, 0);
    if st != Done {
      assert st == Failed ==> !Codable(dc, ac, its[0]);
      return;
    }
    assert nbits == 0 ==> diff == 0;
    if nbits != 0 {
      assert its[1] == Extra(diff, nbits);
      st := Send(w, temp2, nbits, dc, ac, seg0, all, 1);
    }
  }

  /** A code that is no longer than its size says loses nothing to the mask. */
  lemma {:induction false} DcCodes(dc: CDerived, ac: CDerived, s: nat)
    requires TableShaped(dc) && TableShaped(ac) && s < 256
    ensures dc.ehufsi[s] > 0 ==> ToBits(dc.ehufco[s] % Pow2(dc.ehufsi[s]), dc.ehufsi[s]) == CodeBits(dc, s)
    ensures ac.ehufsi[s] > 0 ==> ToBits(ac.ehufco[s] % Pow2(ac.ehufsi[s]), ac.ehufsi[s]) == CodeBits(ac, s)
  {
    ToBitsMod(dc.ehufco[s], dc.ehufsi[s]);
    ToBitsMod(ac.ehufco[s], ac.ehufsi[s]);
  }

  lemma {:induction false} SomeBits(n: nat)
    ensures n > 0 ==> NBits(n) > 0
  {
  }

  /** The nonzero coefficient zz[k] after r zeros: any ZRLs, its symbol and
      its extra bits. */
  method EncodeCoefficient(w: Writer, temp: Coef, r0: nat, dc: CDerived, ac: CDerived, ghost zz: seq<Coef>, ghost k: nat,
                           ghost seg0: BitString, ghost all: seq<Item>, ghost n: nat, ghost i0: nat)
    returns (st: Status, ghost i: nat)
    requires w.Valid() && ShortCodes(dc) && ShortCodes(ac)
    requires k < |zz| && zz[k] == temp != 0
    requires n <= i0 <= |all| && all[i0..] == AcItems(zz, k, r0)
    requires AllCodable(dc, ac, all[n..i0]) && w.seg == seg0 + ItemsBits(dc, ac, all[..i0])
    modifies w
    ensures w.base == old(w.base)
    ensures st == Done ==> n <= i <= |all| && all[i..] == AcItems(zz, k + 1, 0)
    ensures st == Done ==> w.Valid() && AllCodable(dc, ac, all[n..i]) && w.seg == seg0 + ItemsBits(dc, ac, all[..i])
    ensures st == Failed ==> !AllCodable(dc, ac, all[n..])
    ensures st == Suspended ==> w.Full(w.base + Sent(seg0 + ItemsBits(dc, ac, all)))
  {
    hide Sent, ToBits, Pow2, ItemsBits, ItemBits, CodeBits, Codable, AllCodable, Writer.Valid, NBits;
    i := i0;
    var r := r0;
    while r > 15
      invariant 0 <= r
      invariant n <= i <= |all| && all[i..] == AcItems(zz, k, r)
      invariant AllCodable(dc, ac, all[n..i])
      invariant w.Valid() && w.base == old(w.base) && w.seg == seg0 + ItemsBits(dc, ac, all[..i])
    {
      st := SendAc(w, 15, 0, dc, ac, seg0, all, n, i);
      if st != Done { return; }
      assert all[i + 1..] == all[i..][1..];
      i := i + 1;
      r := r - 16;
    }
    var temp2: int := temp;
    var mag: int := temp;
    if mag < 0 {
      mag := -mag;
      temp2 := temp2 - 1;
    }
    var nbits := CountBits(mag);
    SomeBits(mag);
    assert all[i] == all[i..][0] && all[i + 1] == all[i..][1];
    TooLarge(dc, ac, r, nbits);
    if nbits > MAX_COEF_BITS {
      NotCodable(dc, ac, all, n, i);
      st := Failed;
      return;
    }
    st := SendAc(w, r, nbits, dc, ac, seg0, all, n, i);
    if st != Done { return; }
    assert nbits > 0;
    ExtraBits(dc, ac, temp, nbits);
    st := Send(w, temp2, nbits, dc, ac, seg0, all, i + 1);
    if st != Done { return; }
    CodableMore(dc, ac, all, n, i + 1);
    assert all[i + 2..] == all[i..][2..];
    i := i + 2;
  }

  method EncodeAc(w: Writer, block: seq<Coef>, order: seq<nat>, dc: CDerived, ac: CDerived,
                  ghost all: seq<Item>, ghost n: nat, ghost seg0: BitString) returns (st: Status)
    requires w.Valid() && ShortCodes(dc) && ShortCodes(ac) && |block| == DCTSIZE2 && NaturalOrder(order)
    requires n <= |all| && all[n..] == AcItems(ZigZag(block, order), 1, 0)
    requires w.seg == seg0 + ItemsBits(dc, ac, all[..n])
    modifies w
    ensures w.base == old(w.base)
    ensures st == Done ==> w.Valid() && AllCodable(dc, ac, all[n..])
    ensures st == Done ==> w.seg == seg0 + ItemsBits(dc, ac, all)
    ensures st == Failed ==> !AllCodable(dc, ac, all[n..])
    ensures st == Suspended ==> w.Full(w.base + Sent(seg0 + ItemsBits(dc, ac, all)))
  {
    hide Sent, ToBits, Pow2, ItemsBits, ItemBits, CodeBits;
    ghost var zz := ZigZag(block, order);
    ghost var i := n;       // items sent so far
    var r, k := 0, 1;
    while k < DCTSIZE2
      invariant 1 <= k <= DCTSIZE2 && 0 <= r
      invariant n <= i <= |all| && all[i..] == AcItems(zz, k, r)
      invariant AllCodable(dc, ac, all[n..i])
      invariant w.Valid() && w.base == old(w.base) && w.seg == seg0 + ItemsBits(dc, ac, all[..i])
    {
      var temp := block[order[k]];
      assert temp == zz[k];
      if temp == 0 {
        r := r + 1;
      } else {
        st, i := EncodeCoefficient(w, temp, r, dc, ac, zz, k, seg0, all, n, i);
        if st != Done { return; }
        r := 0;
      }
      k := k + 1;
    }
    if r > 0 {
      assert all[i] == all[i..][0];
      st := SendAc(w, 0, 0, dc, ac, seg0, all, n, i);
      if st != Done { return; }
      assert all[i + 1..] == all[i..][1..];
      i := i + 1;
    }
    assert all[..i] == all && all[n..i] == all[n..];
    st := Done;
  }

  lemma {:induction false} ExtraBits(dc: CDerived, ac: CDerived, v: int, n: nat)
    requires TableShaped(dc) && TableShaped(ac)
    ensures ItemBits(dc, ac, Extra(v, n)) == ToBits(ExtraCode(v) % Pow2(n), n)
    ensures Codable(dc, ac, Extra(v, n))
  {
  }

  lemma {:induction false} TooLarge(dc: CDerived, ac: CDerived, r: nat, n: nat)
    requires TableShaped(dc) && TableShaped(ac)
    ensures n > MAX_COEF_BITS ==> !Codable(dc, ac, Ac(r, n))
  {
  }

  lemma {:induction false} NotCodable(dc: CDerived, ac: CDerived, all: seq<Item>, n: nat, i: nat)
    requires TableShaped(dc) && TableShaped(ac) && n <= i < |all| && !Codable(dc, ac, all[i])
    ensures !AllCodable(dc, ac, all[n..])
  {
    assert all[n..][i - n] == all[i];
  }

  lemma {:induction false} CodableMore(dc: CDerived, ac: CDerived, all: seq<Item>, n: nat, i: nat)
    requires TableShaped(dc) && TableShaped(ac) && n <= i < |all| && Codable(dc, ac, all[i])
    requires AllCodable(dc, ac, all[n..i])
    ensures AllCodable(dc, ac, all[n..i + 1])
  {
    assert all[n..i + 1] == all[n..i] + [all[i]];
  }

  /** Emit the Huffman code of an AC symbol that is item i of all. */
  method SendAc(w: Writer, run: nat, size: nat, dc: CDerived, ac: CDerived, ghost seg0: BitString,
                ghost all: seq<Item>, ghost n: nat, ghost i: nat) returns (st: Status)
    requires w.Valid() && ShortCodes(dc) && ShortCodes(ac) && run <= 15 && size <= MAX_COEF_BITS
    requires n <= i < |all| && all[i] == Ac(run, size)
    requires AllCodable(dc, ac, all[n..i])
    requires w.seg == seg0 + ItemsBits(dc, ac, all[..i])
    modifies w
    ensures w.base == old(w.base)
    ensures st == Done ==> w.Valid() && w.seg == seg0 + ItemsBits(dc, ac, all[..i + 1])
    ensures st == Done ==> AllCodable(dc, ac, all[n..i + 1])
    ensures st == Failed ==> !AllCodable(dc, ac, all[n..])
    ensures st == Suspended ==> w.Full(w.base + Sent(seg0 + ItemsBits(dc, ac, all)))
  {
    hide Sent, ToBits, Pow2, ItemsBits, CodeBits;
    var s := 16 * run + size;
    DcCodes(dc, ac, s);
    st := Send(w, ac.ehufco[s], ac.ehufsi[s], dc, ac, seg0, all, i);
    if st == Failed {
      NotCodable(dc, ac, all, n, i);
    } else if st == Done {
      CodableMore(dc, ac, all, n, i);
    }
  }

  method EncodeOneBlock(w: Writer, block: seq<Coef>, last: int, order: seq<nat>, dc: CDerived, ac: CDerived) returns (st: Status)
    requires w.Valid() && ShortCodes(dc) && ShortCodes(ac) && |block| == DCTSIZE2 && NaturalOrder(order)
    modifies w
    ensures w.base == old(w.base)
    ensures var its := BlockItems(ZigZag(block, order), last);
            && (st == Done ==> w.Valid() && w.seg == old(w.seg) + ItemsBits(dc, ac, its) && AllCodable(dc, ac, its))
            && (st == Failed ==> !AllCodable(dc, ac, its))
            && (st == Suspended ==> w.Full(w.base + Sent(old(w.seg) + ItemsBits(dc, ac, its))))
    // the block begins with its DC difference: the code of the category, then the bits
    ensures st == Done && block[0] == last ==> old(w.seg) + CodeBits(dc, 0) <= w.seg
    ensures st == Done && block[0] > last ==>
              var d := block[0] - last; var s := NBits(d);
              s <= MAX_COEF_BITS + 1 && old(w.seg) + CodeBits(dc, s) + ToBits(d, s) <= w.seg
    ensures st == Done && block[0] < last ==>
              var d := last - block[0]; var s := NBits(d);
              && s <= MAX_COEF_BITS + 1 && d < Pow2(s)
              && old(w.seg) + CodeBits(dc, s) + ToBits(Pow2(s) - 1 - d, s) <= w.seg
  {
    hide Sent, ItemsBits, Codable, DcItems, AcItems, CodeBits, ToBits, Pow2, NBits, ZigZag, AllCodable;
    ghost var seg0 := w.seg;
    ghost var its := BlockItems(ZigZag(block, order), last);
    ghost var a, b := DcItems(block[0] - last), AcItems(ZigZag(block, order), 1, 0);
    ZigZagFirst(block, order);
    assert its == a + b && its[..|a|] == a && its[|a|..] == b;
    st := EncodeDc(w, block[0] - last, dc, ac, its);
    if st == Done {
      st := EncodeAc(w, block, order, dc, ac, its, |a|, seg0);
    }
    CodableParts(dc, ac, a, b);
    if st == Done {
      DifferenceBits(dc, ac, block[0] - last);
      ItemsBitsAppend(dc, ac, a, b);
      StartsWith(seg0, ItemsBits(dc, ac, a), ItemsBits(dc, ac, b), w.seg);
    }
  }

  lemma {:induction false} ZigZagFirst(block: seq<Coef>, order: seq<nat>)
    requires |block| == DCTSIZE2 && NaturalOrder(order)
    ensures ZigZag(block, order)[0] == block[0]
  {
  }

  lemma {:induction false} StartsWith(s: BitString, a: BitString, b: BitString, w: BitString)
    requires w == s + (a + b)
    ensures s + a <= w
    ensures forall x: BitString, y: BitString :: a == x + y ==> s + x + y <= w
  {
    assert w == (s + a) + b;
    forall x: BitString, y: BitString | a == x + y
      ensures s + x + y <= w
    {
      assert s + x + y == s + a;
    }
  }

  lemma {:induction false} CodableParts(dc: CDerived, ac: CDerived, a: seq<Item>, b: seq<Item>)
    requires TableShaped(dc) && TableShaped(ac)
    ensures AllCodable(dc, ac, a + b) <==> AllCodable(dc, ac, a) && AllCodable(dc, ac, b)
  {
    hide Codable;
    assert forall i :: 0 <= i < |a| ==> (a + b)[i] == a[i];
    assert forall i :: 0 <= i < |b| ==> (a + b)[|a| + i] == b[i];
  }

  // ----- MCUs

  /** Flush, then write the marker. */
  method EmitRestart(w: Writer, num: nat) returns (st: Status)
    requires w.Valid() && num < 8
    modifies w
    ensures st != Failed
    ensures st == Done ==> w.Valid() && w.base == old(w.base + SegmentBytes(w.seg)) + [0xFF, RST0 + num] && w.seg == []
    ensures st == Suspended ==> w.Full(old(w.base + SegmentBytes(w.seg)) + [0xFF, RST0 + num])
  {
    hide Sent, SegmentBytes, Holds, Remainder;
    st := w.FlushBits();
    if st != Done { return; }
    EmptySent();
    EmptyHolds();
    assert w.out == w.base;
    var ok := w.EmitByte(0xFF);
    if !ok {
      return Suspended;
    }
    ok := w.EmitByte(RST0 + num);
    if !ok {
      return Suspended;
    }
    w.base := w.out;
    st := Done;
  }

  /** From block b on, with predictions last, an MCU of these bits still has
      to send what follows sent; codable and end are its outcome. */
  ghost predicate Remaining(sc: Scan, tabs: CTables, last: seq<int>, mcu: seq<Block>, b: nat, sent: BitString,
                            bits: BitString, codable: bool, end: seq<int>)
    requires ValidScan(sc) && ShapedTables(tabs) && ValidMcu(sc, mcu) && b <= |mcu| && |last| == |sc.dcTbl|
  {
    && bits == sent + TaggedBits(sc, tabs, ItemsFrom(sc, last, mcu, b))
    && (codable <==> TaggedCodable(sc, tabs, ItemsFrom(sc, last, mcu, b)))
    && end == LastFrom(sc, last, mcu, b)
  }

  ghost function BlockTables(sc: Scan, tabs: CTables, b: nat): (t: (CDerived, CDerived))
    requires ValidScan(sc) && ShapedTables(tabs) && b < |sc.membership|
    ensures ShortCodes(t.0) && ShortCodes(t.1) && TableShaped(t.0) && TableShaped(t.1)
  {
    (tabs.dc[sc.dcTbl[sc.membership[b]]], tabs.ac[sc.acTbl[sc.membership[b]]])
  }

  lemma {:induction false} RemainingBlock(sc: Scan, tabs: CTables, last: seq<int>, mcu: seq<Block>, b: nat, sent: BitString,
                       bits: BitString, codable: bool, end: seq<int>)
    requires ValidScan(sc) && ShapedTables(tabs) && ValidMcu(sc, mcu) && b < |mcu| && |last| == |sc.dcTbl|
    requires Remaining(sc, tabs, last, mcu, b, sent, bits, codable, end)
    ensures var c := sc.membership[b];
            var (dc, ac) := BlockTables(sc, tabs, b);
            var its := BlockItems(ZigZag(mcu[b], sc.order), last[c]);
            && (!AllCodable(dc, ac, its) ==> !codable)
            && (sent + ItemsBits(dc, ac, its) <= bits)
            && (AllCodable(dc, ac, its) ==>
                  Remaining(sc, tabs, last[c := mcu[b][0]], mcu, b + 1, sent + ItemsBits(dc, ac, its), bits, codable, end))
  {
    hide BlockItems, TaggedCodable, TaggedBits, AllCodable, ItemsBits;
    var c := sc.membership[b];
    var (dc, ac) := BlockTables(sc, tabs, b);
    var its := BlockItems(ZigZag(mcu[b], sc.order), last[c]);
    var rest := ItemsFrom(sc, last[c := mcu[b][0]], mcu, b + 1);
    TaggedOfBlock(sc, tabs, c, its);
    TaggedBitsAppend(sc, tabs, Tag(c, its), rest);
    assert ItemsFrom(sc, last, mcu, b) == Tag(c, its) + rest;
    var x, y := ItemsBits(dc, ac, its), TaggedBits(sc, tabs, rest);
    assert sent + (x + y) == (sent + x) + y;
  }

  lemma {:induction false} RemainingEnds(sc: Scan, tabs: CTables, last: seq<int>, mcu: seq<Block>)
    requires ValidScan(sc) && ShapedTables(tabs) && ValidMcu(sc, mcu) && |last| == |sc.dcTbl|
    ensures var its := ItemsFrom(sc, last, mcu, 0);
            Remaining(sc, tabs, last, mcu, 0, [], TaggedBits(sc, tabs, its), TaggedCodable(sc, tabs, its), LastFrom(sc, last, mcu, 0))
    ensures ItemsFrom(sc, last, mcu, |mcu|) == [] && TaggedBits(sc, tabs, []) == []
    ensures LastFrom(sc, last, mcu, |mcu|) == last && TaggedCodable(sc, tabs, [])
  {
    var x := TaggedBits(sc, tabs, ItemsFrom(sc, last, mcu, 0));
    assert x == [] + x;
  }

  lemma {:induction false} RemainingDone(sc: Scan, tabs: CTables, last: seq<int>, mcu: seq<Block>, sent: BitString,
                      bits: BitString, codable: bool, end: seq<int>)
    requires ValidScan(sc) && ShapedTables(tabs) && ValidMcu(sc, mcu) && |last| == |sc.dcTbl|
    requires Remaining(sc, tabs, last, mcu, |mcu|, sent, bits, codable, end)
    ensures bits == sent && codable && end == last
  {
    RemainingEnds(sc, tabs, last, mcu);
  }

  lemma {:induction false} BlockFacts(sc: Scan, tabs: CTables, b: nat)
    requires ValidScan(sc) && ShapedTables(tabs) && b < |sc.membership|
    ensures NaturalOrder(sc.order) && sc.membership[b] < |sc.dcTbl| == |sc.acTbl|
    ensures |tabs.dc| == |tabs.ac| == NUM_HUFF_TBLS
    ensures sc.dcTbl[sc.membership[b]] < NUM_HUFF_TBLS && sc.acTbl[sc.membership[b]] < NUM_HUFF_TBLS
    ensures BlockTables(sc, tabs, b) == (tabs.dc[sc.dcTbl[sc.membership[b]]], tabs.ac[sc.acTbl[sc.membership[b]]])
  {
  }

  lemma {:induction false} SentPrefix(seg: BitString, part: BitString, all: BitString)
    requires part <= all
    ensures |Sent(seg + part)| <= |Sent(seg + all)|
  {
    assert seg + all == (seg + part) + all[|part|..];
    SentGrows(seg + part, all[|part|..]);
  }

  /** The data blocks of one MCU. */
  method EncodeBlocks(w: Writer, sc: Scan, tabs: CTables, last0: seq<int>, mcu: seq<Block>) returns (st: Status, last: seq<int>)
    requires w.Valid() && ValidScan(sc) && ShapedTables(tabs) && ValidMcu(sc, mcu) && |last0| == |sc.dcTbl|
    modifies w
    ensures w.base == old(w.base)
    ensures var its := ItemsFrom(sc, last0, mcu, 0);
            && (st == Done ==> w.Valid() && w.seg == old(w.seg) + TaggedBits(sc, tabs, its))
            && (st == Done ==> TaggedCodable(sc, tabs, its) && last == LastFrom(sc, last0, mcu, 0))
            && (st == Failed ==> !TaggedCodable(sc, tabs, its))
            && (st == Suspended ==> w.Full(w.base + Sent(old(w.seg) + TaggedBits(sc, tabs, its))))
  {
    hide Sent, Writer.Valid, ItemsFrom, LastFrom, TaggedBits, TaggedCodable, ItemsBits, AllCodable, BlockItems, ValidScan,
      ShapedTables, BlockTables, Remaining, ZigZag, ShortCodes, TableShaped, NaturalOrder, NBits, ToBits, Pow2, CodeBits;
    last := last0;
    ghost var seg0, sent := w.seg, [];
    ghost var its := ItemsFrom(sc, last0, mcu, 0);
    ghost var all, codable, end := TaggedBits(sc, tabs, its), TaggedCodable(sc, tabs, its), LastFrom(sc, last0, mcu, 0);
    RemainingEnds(sc, tabs, last0, mcu);
    var blkn := 0;
    while blkn < |sc.membership|
      invariant 0 <= blkn <= |mcu| && |last| == |sc.dcTbl|
      invariant w.Valid() && w.base == old(w.base) && w.seg == seg0 + sent
      invariant Remaining(sc, tabs, last, mcu, blkn, sent, all, codable, end)
    {
      BlockFacts(sc, tabs, blkn);
      var ci := sc.membership[blkn];
      var dc, ac := tabs.dc[sc.dcTbl[ci]], tabs.ac[sc.acTbl[ci]];
      RemainingBlock(sc, tabs, last, mcu, blkn, sent, all, codable, end);
      ghost var bits := ItemsBits(dc, ac, BlockItems(ZigZag(mcu[blkn], sc.order), last[ci]));
      st := EncodeOneBlock(w, mcu[blkn], last[ci], sc.order, dc, ac);
      assert seg0 + sent + bits == seg0 + (sent + bits);
      if st != Done {
        SentPrefix(seg0, sent + bits, all);
        return;
      }
      sent := sent + bits;
      last := last[ci := mcu[blkn][0]];
      blkn := blkn + 1;
    }
    RemainingDone(sc, tabs, last, mcu, sent, all, codable, end);
    st := Done;
  }

  /** The restart marker, if due, and the data blocks, on the working state. */
  method WriteMcu(w: Writer, sc: Scan, tabs: CTables, ghost s0: State, lastDc: seq<int>, togo: nat, rst: nat, mcu: seq<Block>)
    returns (st: Status, last: seq<int>)
    requires w.Valid() && ValidScan(sc) && ShapedTables(tabs) && ValidMcu(sc, mcu) && ValidState(sc, s0)
    requires s0 == State(w.base, w.seg, lastDc, togo, rst)
    modifies w
    ensures var s := Step(sc, tabs, s0, mcu);
            && (st == Done ==> w.Valid() && w.base == s.base && w.seg == s.seg && last == s.last)
            && (st == Done ==> McuCodable(sc, tabs, s0, mcu))
            && (st == Failed ==> !McuCodable(sc, tabs, s0, mcu))
            && (st == Suspended ==> w.Full(s.base + Sent(s.seg)))
  {
    hide Sent, Writer.Valid, ItemsFrom, LastFrom, TaggedBits, TaggedCodable, ShapedTables, ValidScan, SegmentBytes;
    last := lastDc;
    if sc.restart > 0 && togo == 0 {
      st := EmitRestart(w, rst);
      if st != Done {
        return;
      }
      last := ZeroLast(|sc.dcTbl|);
    }
    st, last := EncodeBlocks(w, sc, tabs, last, mcu);
  }

  /** What has left an encoder in this state. */
  function SentBytes(st: State): seq<UInt8> {
    st.base + Sent(st.seg)
  }

  /** The fields of an encoder fit the state of its scan. */
  ghost predicate Coherent(sc: Scan, tabs: CTables, st: State, out: seq<UInt8>, putBuffer: nat, putBits: nat) {
    && ValidScan(sc) && ShapedTables(tabs) && ValidState(sc, st)
    && out == SentBytes(st)
    && putBits < 8 && |Remainder(st.seg)| == putBits && Holds(putBuffer, Remainder(st.seg))
  }

  lemma {:induction false} StartsCoherent(sc: Scan, tabs: CTables)
    requires ValidScan(sc) && ShapedTables(tabs)
    ensures Coherent(sc, tabs, StartState(sc), [], 0, 0)
  {
    hide ValidScan, ShapedTables, Sent, Holds, Remainder;
    EmptySent();
    EmptyHolds();
  }

  lemma {:induction false} CoherentParts(sc: Scan, tabs: CTables, st: State, out: seq<UInt8>, putBuffer: nat, putBits: nat)
    requires Coherent(sc, tabs, st, out, putBuffer, putBits)
    ensures ValidScan(sc) && ShapedTables(tabs) && ValidState(sc, st) && out == SentBytes(st) == st.base + Sent(st.seg)
    ensures putBits < 8 && |Remainder(st.seg)| == putBits && Holds(putBuffer, Remainder(st.seg))
  {
  }

  lemma {:induction false} StepCounters(sc: Scan, tabs: CTables, st: State, mcu: seq<Block>)
    requires ValidScan(sc) && ShapedTables(tabs) && ValidState(sc, st) && ValidMcu(sc, mcu)
    ensures var s, due := Step(sc, tabs, st, mcu), sc.restart > 0 && st.togo == 0;
            && s.togo == (if sc.restart == 0 then st.togo else if due then sc.restart - 1 else st.togo - 1)
            && s.rst == if due then (st.rst + 1) % 8 else st.rst
  {
    hide ItemsFrom, LastFrom, TaggedBits, SegmentBytes;
  }

  lemma {:induction false} FullIs(st: State)
    ensures st.base + Sent(st.seg) == SentBytes(st)
  {
  }

  lemma {:induction false} WriterCoherent(w: Writer, sc: Scan, tabs: CTables, st: State)
    requires w.Valid() && ValidScan(sc) && ShapedTables(tabs) && ValidState(sc, st) && w.base == st.base && w.seg == st.seg
    ensures Coherent(sc, tabs, st, w.out, w.putBuffer, w.putBits) && w.free > 0
    ensures !w.canDump ==> w.free + |w.out| == w.limit
  {
  }

  class HuffEncoder {
    const sc: Scan
    const tabs: CTables          // dc_derived_tbls, ac_derived_tbls
    const bufSize: nat           // size of a buffer that empty_output_buffer supplies
    var canDump: bool            // whether it succeeds
    var out: seq<UInt8>          // bytes handed to the destination
    var free: nat                // dest->free_in_buffer
    var putBuffer: nat           // saved.put_buffer
    var putBits: nat             // saved.put_bits
    var lastDc: seq<int>         // saved.last_dc_val
    var restartsToGo: nat
    var nextRestartNum: nat
    ghost var base: seq<UInt8>
    ghost var seg: BitString

    ghost predicate Valid()
      reads this
    {
      Coherent(sc, tabs, St(), out, putBuffer, putBits) && free > 0 && bufSize > 0
    }

    ghost function St(): State
      reads this
    {
      State(base, seg, lastDc, restartsToGo, nextRestartNum)
    }

    /** start_pass_huff, without statistics gathering. */
    constructor (sc: Scan, tabs: CTables, canDump: bool, bufSize: nat, free: nat)
      requires ValidScan(sc) && ShapedTables(tabs) && free > 0 && bufSize > 0
      ensures Valid() && St() == StartState(sc)
      ensures this.sc == sc && this.tabs == tabs && this.canDump == canDump && this.free == free && out == []
    {
      this.sc, this.tabs, this.canDump, this.bufSize, this.free := sc, tabs, canDump, bufSize, free;
      out, putBuffer, putBits := [], 0, 0;
      lastDc := ZeroLast(|sc.dcTbl|);
      restartsToGo, nextRestartNum := sc.restart, 0;
      base, seg := [], [];
      new;
      hide Coherent, ValidScan, ShapedTables;
      StartsCoherent(sc, tabs);
    }

    /** Between two calls the application has stored what is in the buffer and
        offers an empty one, from now on perhaps with another policy. */
    method NewBuffer(room: nat, dump: bool)
      requires Valid() && room > 0
      modifies `free, `canDump
      ensures Valid() && free == room && canDump == dump && St() == old(St())
    {
      hide Coherent;
      free, canDump := room, dump;
    }

    /** The bytes that must have left the working state once mcu is coded. */
    ghost function BytesAfter(mcu: seq<Block>): seq<UInt8>
      requires Valid() && ValidMcu(sc, mcu)
      reads this
    {
      SentBytes(Step(sc, tabs, St(), mcu))
    }

    method EncodeMcu(mcu: seq<Block>) returns (st: Status)
      requires Valid() && ValidMcu(sc, mcu)
      modifies this
      ensures st == Done ==> Valid() && St() == Step(sc, tabs, old(St()), mcu) && out == old(BytesAfter(mcu))
      ensures canDump == old(canDump)
      ensures st == Done && !canDump ==> free + |out| == old(free + |out|)
      ensures st != Done ==> unchanged(this)
      ensures st == Failed ==> !old(McuCodable(sc, tabs, St(), mcu))
      ensures old(McuCodable(sc, tabs, St(), mcu)) ==>
                (st == Done <==> old(canDump) || |old(BytesAfter(mcu))| < old(free + |out|))
      ensures st == Done ==> old(McuCodable(sc, tabs, St(), mcu))
    {
      hide Sent, SentBytes, Holds, Remainder, ShapedTables, ValidScan, McuCodable, TaggedBits, LastFrom, McuItems, SegmentBytes, ValidMcu,
        Coherent, Writer.Valid, Step, Restarted;
      CoherentParts(sc, tabs, St(), out, putBuffer, putBits);
      ghost var goal := Step(sc, tabs, St(), mcu);
      FullIs(goal);
      StepCounters(sc, tabs, St(), mcu);
      var w := new Writer(out, free, putBuffer, putBits, canDump, bufSize, base, seg);
      var last;
      st, last := WriteMcu(w, sc, tabs, St(), lastDc, restartsToGo, nextRestartNum, mcu);
      if st != Done {
        return;
      }
      WriterCoherent(w, sc, tabs, goal);
      CoherentParts(sc, tabs, goal, w.out, w.putBuffer, w.putBits);
      out, free, putBuffer, putBits, lastDc := w.out, w.free, w.putBuffer, w.putBits, last;
      base, seg := w.base, w.seg;
      CountMcu();
      assert St() == goal;
    }

    /** Update restart-interval state. */
    method CountMcu()
      modifies `restartsToGo, `nextRestartNum
      ensures var due := sc.restart > 0 && old(restartsToGo) == 0;
              && restartsToGo == (if sc.restart == 0 then old(restartsToGo) else if due then sc.restart - 1 else old(restartsToGo) - 1)
              && nextRestartNum == if due then (old(nextRestartNum) + 1) % 8 else old(nextRestartNum)
    {
      if sc.restart > 0 {
        if restartsToGo == 0 {
          restartsToGo := sc.restart;
          nextRestartNum := (nextRestartNum + 1) % 8;
        }
        restartsToGo := restartsToGo - 1;
      }
    }

    /** finish_pass_huff: flush the last byte; a refusal here is an error. */
    method FinishPass() returns (st: Status)
      requires Valid()
      modifies this
      ensures st == Done ==> out == old(Final(St()))
      ensures st == Done <==> old(canDump) || |old(Final(St()))| < old(free + |out|)
      ensures st == Done || st == Failed
    {
      hide Sent, Holds, Remainder, SegmentBytes;
      var w := new Writer(out, free, putBuffer, putBits, canDump, bufSize, base, seg);
      st := w.FlushBits();
      if st != Done {
        return Failed;
      }
      EmptySent();
      out, free, putBuffer, putBits := w.out, w.free, w.putBuffer, w.putBits;
    }
  }
}
