/** The statistics pass of jchuff.c (encode_mcu_gather), and why the tables
    made from its counts never leave the output pass without a code. */
module HuffGather {
  import opened JpegLimits
  import opened BlockCoding
  import opened ScanCoding
  import opened HuffEncoder

  // ----- counting items

  function CountDc(its: seq<Item>, s: nat): nat {
    if its == [] then 0 else (if its[0] == Dc(s) then 1 else 0) + CountDc(its[1..], s)
  }

  predicate IsAc(it: Item, s: nat) {
    it.Ac? && 16 * it.run + it.size == s
  }

  function CountAc(its: seq<Item>, s: nat): nat {
    if its == [] then 0 else (if IsAc(its[0], s) then 1 else 0) + CountAc(its[1..], s)
  }

  predicate InRange(it: Item) {
    match it
    case Dc(s) => s <= MAX_COEF_BITS + 1
    case Ac(r, s) => r <= 15 && s <= MAX_COEF_BITS
    case Extra(_, _) => true
  }

  predicate AllInRange(its: seq<Item>) {
    forall i :: 0 <= i < |its| ==> InRange(its[i])
  }

  /** counts1 is counts0 plus the occurrences in its. */
  ghost predicate CountedDc(counts0: seq<nat>, counts1: seq<nat>, its: seq<Item>) {
    && |counts0| == |counts1| == NSYMS
    && (forall s :: 0 <= s < NSYMS ==> counts1[s] == counts0[s] + CountDc(its, s))
  }

  ghost predicate CountedAc(counts0: seq<nat>, counts1: seq<nat>, its: seq<Item>) {
    && |counts0| == |counts1| == NSYMS
    && (forall s :: 0 <= s < NSYMS ==> counts1[s] == counts0[s] + CountAc(its, s))
  }

  lemma {:induction false} CountAppend(a: seq<Item>, b: seq<Item>, s: nat)
    ensures CountDc(a + b, s) == CountDc(a, s) + CountDc(b, s)
    ensures CountAc(a + b, s) == CountAc(a, s) + CountAc(b, s)
  {
    if a == [] {
      assert a + b == b;
    } else {
      CountAppend(a[1..], b, s);
      assert (a + b)[1..] == a[1..] + b;
    }
  }

  lemma {:induction false} NoDcInAc(zz: seq<int>, k: nat, r: nat, s: nat)
    requires k <= |zz|
    ensures CountDc(AcItems(zz, k, r), s) == 0
    decreases |zz| - k, r
  {
    hide NBits;
    if k < |zz| {
      var its := AcItems(zz, k, r);
      if zz[k] == 0 {
        NoDcInAc(zz, k + 1, r + 1, s);
      } else if r > 15 {
        NoDcInAc(zz, k, r - 16, s);
        assert its[1..] == AcItems(zz, k, r - 16);
      } else {
        NoDcInAc(zz, k + 1, 0, s);
        assert its[1..][1..] == AcItems(zz, k + 1, 0);
      }
    }
  }

  lemma {:induction false} CountEnd(zz: seq<int>, r: nat, s: nat)
    ensures CountAc(AcItems(zz, |zz|, r), s) == if r > 0 && s == 0 then 1 else 0
  {
    if r > 0 {
      var its := AcItems(zz, |zz|, r);
      assert its == [Ac(0, 0)] && its[1..] == [];
    }
  }

  lemma {:induction false} CountRun(zz: seq<int>, k: nat, r: nat, s: nat)
    requires k < |zz| && zz[k] != 0 && r > 15
    ensures CountAc(AcItems(zz, k, r), s) == CountAc(AcItems(zz, k, r - 16), s) + if s == 0xF0 then 1 else 0
  {
    hide NBits;
    var its := AcItems(zz, k, r);
    assert its[0] == Ac(15, 0) && its[1..] == AcItems(zz, k, r - 16);
  }

  lemma {:induction false} CountCoefficient(zz: seq<int>, k: nat, r: nat, s: nat)
    requires k < |zz| && zz[k] != 0 && r <= 15
    ensures CountAc(AcItems(zz, k, r), s)
         == CountAc(AcItems(zz, k + 1, 0), s) + if s == 16 * r + Category(zz[k]) then 1 else 0
  {
    hide Category;
    var its, rest := AcItems(zz, k, r), AcItems(zz, k + 1, 0);
    assert its == [Ac(r, Category(zz[k])), Extra(zz[k], Category(zz[k]))] + rest;
    assert its[1..][1..] == rest && its[1..][0].Extra?;
  }

  lemma {:induction false} AcRange(zz: seq<int>, k: nat, r: nat)
    requires k <= |zz|
    ensures AllInRange(AcItems(zz, k, r)) <==> forall j :: k <= j < |zz| ==> Category(zz[j]) <= MAX_COEF_BITS
    decreases |zz| - k, r
  {
    if k < |zz| {
      var its := AcItems(zz, k, r);
      if zz[k] == 0 {
        AcRange(zz, k + 1, r + 1);
      } else if r > 15 {
        AcRange(zz, k, r - 16);
        assert its == [its[0]] + AcItems(zz, k, r - 16);
        RangeSplit([its[0]], AcItems(zz, k, r - 16));
      } else {
        AcRange(zz, k + 1, 0);
        assert its == [its[0], its[1]] + AcItems(zz, k + 1, 0);
        RangeSplit([its[0], its[1]], AcItems(zz, k + 1, 0));
      }
    }
  }

  lemma {:induction false} RangeSplit(a: seq<Item>, b: seq<Item>)
    ensures AllInRange(a + b) <==> AllInRange(a) && AllInRange(b)
  {
    assert forall i :: 0 <= i < |a| ==> (a + b)[i] == a[i];
    assert forall i :: 0 <= i < |b| ==> (a + b)[|a| + i] == b[i];
  }

  function Bump(counts: seq<nat>, s: nat): seq<nat>
    requires s < |counts|
  {
    counts[s := counts[s] + 1]
  }

  lemma {:induction false} SkipZero(zz: seq<int>, k: nat, r: nat)
    requires k < |zz| && zz[k] == 0
    ensures AcItems(zz, k, r) == AcItems(zz, k + 1, r + 1) && Category(zz[k]) == 0
  {
  }

  /** counts, plus what is still to come from position k on, make total. */
  ghost predicate OnCourse(counts: seq<nat>, zz: seq<int>, k: nat, r: nat, total: seq<nat>)
    requires k <= |zz|
  {
    && |counts| == |total| == NSYMS
    && (forall s :: 0 <= s < NSYMS ==> counts[s] + CountAc(AcItems(zz, k, r), s) == total[s])
  }

  method CountRuns(counts0: seq<nat>, r0: nat, ghost zz: seq<int>, ghost k: nat, ghost total: seq<nat>)
    returns (counts: seq<nat>, r: nat)
    requires k < |zz| && zz[k] != 0 && OnCourse(counts0, zz, k, r0, total)
    ensures r <= 15 && OnCourse(counts, zz, k, r, total)
  {
    hide CountAc, AcItems;
    counts, r := counts0, r0;
    while r > 15
      invariant OnCourse(counts, zz, k, r, total)
    {
      forall s | 0 <= s < NSYMS { CountRun(zz, k, r, s); }
      counts := Bump(counts, 0xF0);
      r := r - 16;
    }
  }

  method HtestAc(block: seq<Coef>, order: seq<nat>, counts0: seq<nat>) returns (ok: bool, counts: seq<nat>)
    requires |block| == DCTSIZE2 && NaturalOrder(order) && |counts0| == NSYMS
    ensures ok <==> AllInRange(AcItems(ZigZag(block, order), 1, 0))
    ensures ok ==> CountedAc(counts0, counts, AcItems(ZigZag(block, order), 1, 0))
  {
    hide CountAc, AcItems, NBits, AllInRange;
    ghost var zz := ZigZag(block, order);
    AcRange(zz, 1, 0);
    counts := counts0;
    ghost var total: seq<nat> := seq(NSYMS, s requires 0 <= s < NSYMS => counts0[s] + CountAc(AcItems(zz, 1, 0), s));
    var r, k := 0, 1;
    while k < DCTSIZE2
      invariant 1 <= k <= DCTSIZE2 && 0 <= r
      invariant forall j :: 1 <= j < k ==> Category(zz[j]) <= MAX_COEF_BITS
      invariant OnCourse(counts, zz, k, r, total)
    {
      var temp: int := block[order[k]];
      assert temp == zz[k];
      if temp == 0 {
        SkipZero(zz, k, r);
        r := r + 1;
      } else {
        counts, r := CountRuns(counts, r, zz, k, total);
        if temp < 0 {
          temp := -temp;
        }
        var nbits := CountBits(temp);
        if nbits > MAX_COEF_BITS {
          ok := false;
          return;
        }
        forall s | 0 <= s < NSYMS { CountCoefficient(zz, k, r, s); }
        counts := Bump(counts, 16 * r + nbits);
        r := 0;
      }
      k := k + 1;
    }
    forall s | 0 <= s < NSYMS { CountEnd(zz, r, s); }
    if r > 0 {
      counts := Bump(counts, 0);
    }
    ok := true;
  }

  method HtestOneBlock(block: seq<Coef>, last: int, order: seq<nat>, dc0: seq<nat>, ac0: seq<nat>)
    returns (ok: bool, dc: seq<nat>, ac: seq<nat>)
    requires |block| == DCTSIZE2 && NaturalOrder(order) && |dc0| == |ac0| == NSYMS
    ensures var its := BlockItems(ZigZag(block, order), last);
            && (ok <==> AllInRange(its))
            && (ok ==> CountedDc(dc0, dc, its) && CountedAc(ac0, ac, its))
    // the DC counters change in one place, the category of the difference
    ensures ok ==> var s := NBits(Abs(block[0] - last)); s < NSYMS && dc == dc0[s := dc0[s] + 1]
  {
    hide NBits, AcItems, CountDc, CountAc;
    ghost var a, b := DcItems(block[0] - last), AcItems(ZigZag(block, order), 1, 0);
    RangeSplit(a, b);
    dc, ac := dc0, ac0;
    var temp := block[0] - last;
    if temp < 0 {
      temp := -temp;
    }
    var nbits := CountBits(temp);
    if nbits > MAX_COEF_BITS + 1 {
      assert !InRange(a[0]);
      ok := false;
      return;
    }
    assert AllInRange(a);
    dc := Bump(dc, nbits);
    ok, ac := HtestAc(block, order, ac0);
    forall s | 0 <= s < NSYMS
      ensures CountDc(a + b, s) == if s == nbits then 1 else 0
      ensures CountAc(a + b, s) == CountAc(b, s)
    {
      CountAppend(a, b, s);
      NoDcInAc(ZigZag(block, order), 1, 0, s);
      DcItemsCounts(block[0] - last, s);
    }
  }

  lemma {:induction false} DcItemsCounts(diff: int, s: nat)
    ensures CountDc(DcItems(diff), s) == if s == Category(diff) then 1 else 0
    ensures CountAc(DcItems(diff), s) == 0
  {
    var its := DcItems(diff);
    assert its[0] == Dc(Category(diff));
    if diff == 0 {
      assert its[1..] == [];
    } else {
      var x := [Extra(diff, Category(diff))];
      assert its[1..] == x && x[1..] == [];
      assert CountDc(x, s) == 0 && CountAc(x, s) == 0;
    }
  }

  // ----- the scan

  function TallyDc(sc: Scan, its: seq<Tagged>, tbl: nat, s: nat): nat
    requires forall i :: 0 <= i < |its| ==> its[i].comp < |sc.dcTbl|
  {
    if its == [] then 0 else
    (if its[0].item == Dc(s) && sc.dcTbl[its[0].comp] == tbl then 1 else 0) + TallyDc(sc, its[1..], tbl, s)
  }

  function TallyAc(sc: Scan, its: seq<Tagged>, tbl: nat, s: nat): nat
    requires forall i :: 0 <= i < |its| ==> its[i].comp < |sc.acTbl|
  {
    if its == [] then 0 else
    (if IsAc(its[0].item, s) && sc.acTbl[its[0].comp] == tbl then 1 else 0) + TallyAc(sc, its[1..], tbl, s)
  }

  lemma {:induction false} TallyAppend(sc: Scan, a: seq<Tagged>, b: seq<Tagged>, tbl: nat, s: nat)
    requires ValidScan(sc) && TaggedOk(sc, a) && TaggedOk(sc, b)
    ensures TaggedOk(sc, a + b)
    ensures TallyDc(sc, a + b, tbl, s) == TallyDc(sc, a, tbl, s) + TallyDc(sc, b, tbl, s)
    ensures TallyAc(sc, a + b, tbl, s) == TallyAc(sc, a, tbl, s) + TallyAc(sc, b, tbl, s)
  {
    if a == [] {
      assert a + b == b;
    } else {
      TallyAppend(sc, a[1..], b, tbl, s);
      assert (a + b)[1..] == a[1..] + b;
    }
  }

  lemma {:induction false} TallyTag(sc: Scan, c: nat, its: seq<Item>, tbl: nat, s: nat)
    requires ValidScan(sc) && c < |sc.dcTbl|
    ensures TaggedOk(sc, Tag(c, its))
    ensures TallyDc(sc, Tag(c, its), tbl, s) == if sc.dcTbl[c] == tbl then CountDc(its, s) else 0
    ensures TallyAc(sc, Tag(c, its), tbl, s) == if sc.acTbl[c] == tbl then CountAc(its, s) else 0
  {
    if its != [] {
      TallyTag(sc, c, its[1..], tbl, s);
      assert Tag(c, its)[1..] == Tag(c, its[1..]);
    }
  }

  ghost predicate TaggedInRange(its: seq<Tagged>) {
    forall i :: 0 <= i < |its| ==> InRange(its[i].item)
  }

  lemma {:induction false} RangeTagged(c: nat, its: seq<Item>, rest: seq<Tagged>)
    ensures TaggedInRange([])
    ensures TaggedInRange(Tag(c, its) + rest) <==> AllInRange(its) && TaggedInRange(rest)
  {
    var t := Tag(c, its) + rest;
    assert forall i :: 0 <= i < |its| ==> t[i].item == its[i];
    assert forall i :: 0 <= i < |rest| ==> t[|its| + i] == rest[i];
  }

  /** Both sets of counters hold the tallies of its. */
  ghost predicate Tallied(sc: Scan, dc: seq<seq<nat>>, ac: seq<seq<nat>>, its: seq<Tagged>)
    requires ValidScan(sc) && TaggedOk(sc, its)
  {
    && |dc| == |ac| == NUM_HUFF_TBLS
    && (forall t :: 0 <= t < NUM_HUFF_TBLS ==> |dc[t]| == |ac[t]| == NSYMS)
    && (forall t, s :: 0 <= t < NUM_HUFF_TBLS && 0 <= s < NSYMS ==> dc[t][s] == TallyDc(sc, its, t, s))
    && (forall t, s :: 0 <= t < NUM_HUFF_TBLS && 0 <= s < NSYMS ==> ac[t][s] == TallyAc(sc, its, t, s))
  }

  lemma {:induction false} TalliedBlock(sc: Scan, dc: seq<seq<nat>>, ac: seq<seq<nat>>, seen: seq<Tagged>, c: nat, its: seq<Item>,
                     dc1: seq<nat>, ac1: seq<nat>)
    requires ValidScan(sc) && TaggedOk(sc, seen) && Tallied(sc, dc, ac, seen) && c < |sc.dcTbl|
    requires CountedDc(dc[sc.dcTbl[c]], dc1, its) && CountedAc(ac[sc.acTbl[c]], ac1, its)
    ensures TaggedOk(sc, seen + Tag(c, its))
    ensures Tallied(sc, dc[sc.dcTbl[c] := dc1], ac[sc.acTbl[c] := ac1], seen + Tag(c, its))
  {
    forall t, s | 0 <= t < NUM_HUFF_TBLS && 0 <= s < NSYMS
      ensures dc[sc.dcTbl[c] := dc1][t][s] == TallyDc(sc, seen + Tag(c, its), t, s)
      ensures ac[sc.acTbl[c] := ac1][t][s] == TallyAc(sc, seen + Tag(c, its), t, s)
    {
      TallyTag(sc, c, its, t, s);
      TallyAppend(sc, seen, Tag(c, its), t, s);
    }
  }

  class HuffGatherer {
    const sc: Scan
    var dcCounts: seq<seq<nat>>   // dc_count_ptrs
    var acCounts: seq<seq<nat>>   // ac_count_ptrs
    var lastDc: seq<int>          // saved.last_dc_val
    var restartsToGo: nat
    ghost var seen: seq<Tagged>   // every item counted so far

    ghost predicate Valid()
      reads this
    {
      && ValidScan(sc) && TaggedOk(sc, seen) && |lastDc| == |sc.dcTbl|
      && Tallied(sc, dcCounts, acCounts, seen)
    }

    constructor (sc: Scan)
      requires ValidScan(sc)
      ensures Valid() && this.sc == sc && seen == [] && lastDc == ZeroLast(|sc.dcTbl|) && restartsToGo == sc.restart
    {
      this.sc := sc;
      dcCounts := seq(NUM_HUFF_TBLS, i => seq(NSYMS, j => 0));
      acCounts := seq(NUM_HUFF_TBLS, i => seq(NSYMS, j => 0));
      lastDc, restartsToGo := ZeroLast(|sc.dcTbl|), sc.restart;
      seen := [];
    }

    /** The counters grow by exactly the symbols that encoding the same MCU
        from the same predictions would send. */
    method EncodeMcuGather(mcu: seq<Block>) returns (ok: bool)
      requires Valid() && ValidMcu(sc, mcu)
      modifies this
      ensures var its := ItemsFrom(sc, LastIn(sc, old(lastDc), old(restartsToGo)), mcu, 0);
              && (ok <==> TaggedInRange(its))
              && (ok ==> Valid() && seen == old(seen) + its)
      ensures ok ==> lastDc == LastFrom(sc, LastIn(sc, old(lastDc), old(restartsToGo)), mcu, 0)
      ensures ok ==> restartsToGo == TogoAfter(sc, old(restartsToGo))
    {
      hide Tallied, NaturalOrder, TallyDc, TallyAc, CountedDc, CountedAc, BlockItems, Tag, TaggedInRange, AllInRange, ZigZag;
      if sc.restart > 0 {
        if restartsToGo == 0 {
          lastDc := ZeroLast(|sc.dcTbl|);
          restartsToGo := sc.restart;
        }
        restartsToGo := restartsToGo - 1;
      }
      ghost var last1 := lastDc;
      ghost var all, end := ItemsFrom(sc, last1, mcu, 0), LastFrom(sc, last1, mcu, 0);
      assert last1 == LastIn(sc, old(lastDc), old(restartsToGo));
      assert old(seen) + [] == old(seen);
      ghost var done := [];
      assert all == done + all;
      RangeTagged(0, [], []);
      var blkn := 0;
      while blkn < |sc.membership|
        invariant 0 <= blkn <= |mcu| && Valid()
        invariant seen == old(seen) + done && all == done + ItemsFrom(sc, lastDc, mcu, blkn)
        invariant TaggedInRange(all) <==> TaggedInRange(ItemsFrom(sc, lastDc, mcu, blkn))
        invariant end == LastFrom(sc, lastDc, mcu, blkn)
        invariant restartsToGo == TogoAfter(sc, old(restartsToGo))
      {
        GatherFacts(sc, dcCounts, acCounts, seen, blkn);
        var ci := sc.membership[blkn];
        ghost var its := BlockItems(ZigZag(mcu[blkn], sc.order), lastDc[ci]);
        ghost var rest := ItemsFrom(sc, lastDc[ci := mcu[blkn][0]], mcu, blkn + 1);
        RangeTagged(ci, its, rest);
        var dc, ac;
        ok, dc, ac := HtestOneBlock(mcu[blkn], lastDc[ci], sc.order, dcCounts[sc.dcTbl[ci]], acCounts[sc.acTbl[ci]]);
        if !ok {
          return;
        }
        TalliedBlock(sc, dcCounts, acCounts, seen, ci, its, dc, ac);
        dcCounts := dcCounts[sc.dcTbl[ci] := dc];
        acCounts := acCounts[sc.acTbl[ci] := ac];
        assert (old(seen) + done) + Tag(ci, its) == old(seen) + (done + Tag(ci, its));
        assert done + (Tag(ci, its) + rest) == (done + Tag(ci, its)) + rest;
        seen := seen + Tag(ci, its);
        done := done + Tag(ci, its);
        lastDc := lastDc[ci := mcu[blkn][0]];
        blkn := blkn + 1;
      }
      assert done + [] == done;
      ok := true;
    }
  }

  lemma {:induction false} GatherFacts(sc: Scan, dc: seq<seq<nat>>, ac: seq<seq<nat>>, seen: seq<Tagged>, b: nat)
    requires ValidScan(sc) && TaggedOk(sc, seen) && Tallied(sc, dc, ac, seen) && b < |sc.membership|
    ensures |dc| == |ac| == NUM_HUFF_TBLS && NaturalOrder(sc.order)
    ensures |dc[sc.dcTbl[sc.membership[b]]]| == |ac[sc.acTbl[sc.membership[b]]]| == NSYMS
  {
  }
}
