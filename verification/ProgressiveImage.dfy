/** A whole progressive image: decoding the scans of an accepted script one after
    the other, each by the procedures of section G.2 of ITU-T T.81, brings every
    coefficient to the precision the script promises, and in the end whole. */
module ProgressiveImage {
  import opened JpegLimits
  import opened Arith
  import opened HuffTable
  import opened DerivedTables
  import opened BlockCoding
  import opened ScanCoding
  import opened ProgressiveTokens
  import opened ProgressiveBlock
  import opened ProgressiveBlockRoundTrip
  import opened ProgressiveScan
  import opened ProgressiveRoundTrip
  import opened ProgressiveDc
  import opened ScanScript
  import PhuffEncoder
  import AcScanPasses
  import SimpleProgression

  /** Block i of component c. */
  datatype Place = Place(c: nat, i: nat)

  /** The blocks of an image. Dummy blocks at the edges are among them, but only those in
      actual count. */
  type Image = map<Place, Block>

  /** How a scan is coded: restart interval and tables, and which blocks it has in which order. */
  datatype Coding = DcCoding(dc: DcScan, dcTabs: seq<CDerived>, ts: seq<HuffTbl>, mcus: seq<seq<Place>>)
                  | AcCoding(ac: AcScan, acTabs: seq<CDerived>, t: HuffTbl, places: seq<Place>)

  /** What a decoder holds: 64 values of every block, in zigzag order. */
  type Store = map<Place, seq<int>>

  function Flat<T>(xs: seq<seq<T>>): seq<T> {
    if xs == [] then [] else Flat(xs[..|xs| - 1]) + xs[|xs| - 1]
  }

  predicate Distinct(places: seq<Place>) {
    forall j, k :: 0 <= j < k < |places| ==> places[j] != places[k]
  }

  /** The places are blocks of the scan's components, each at most once, and no actual one is missing. */
  ghost predicate Complete(info: ScanInfo, img: Image, actual: set<Place>, places: seq<Place>) {
    && Distinct(places)
    && (forall j :: 0 <= j < |places| ==> places[j] in img && places[j].c in info.comps)
    && (forall p :: p in actual && p.c in info.comps ==> p in places)
  }

  /** The coding carries out an entry of the script. */
  ghost predicate Carries(info: ScanInfo, cd: Coding, img: Image, actual: set<Place>) {
    if info.Ss == 0 then
      && cd.DcCoding? && SameTables(cd.dc, cd.dcTabs, cd.ts)
      && cd.dc.refine == (info.Ah > 0) && cd.dc.al == info.Al
      && (forall i :: 0 <= i < |cd.mcus| ==> |cd.mcus[i]| == |cd.dc.membership|)
      && Complete(info, img, actual, Flat(cd.mcus))
    else
      && cd.AcCoding? && Good(cd.ac, cd.acTabs, cd.t)
      && cd.ac.ss == info.Ss && cd.ac.se == info.Se && info.Al >= 0
      && Complete(info, img, actual, cd.places) && (forall j :: 0 <= j < |cd.places| ==> cd.places[j] in actual)
  }

  // ----- what the encoder sends

  function DcAll(img: Image, mcus: seq<seq<Place>>): (vs: seq<seq<int>>)
    requires forall i, b :: 0 <= i < |mcus| && 0 <= b < |mcus[i]| ==> mcus[i][b] in img
    ensures |vs| == |mcus| && forall i :: 0 <= i < |mcus| ==> vs[i] == DcMcu(img, mcus[i])
  {
    seq(|mcus|, i requires 0 <= i < |mcus| => DcMcu(img, mcus[i]))
  }

  function DcMcu(img: Image, mcu: seq<Place>): (vs: seq<int>)
    requires forall b :: 0 <= b < |mcu| ==> mcu[b] in img
    ensures |vs| == |mcu| && forall b :: 0 <= b < |mcu| ==> vs[b] == img[mcu[b]][0]
  {
    seq(|mcu|, b requires 0 <= b < |mcu| => img[mcu[b]][0])
  }

  function BlocksAt(img: Image, places: seq<Place>): (bs: seq<Block>)
    requires forall j :: 0 <= j < |places| ==> places[j] in img
    ensures |bs| == |places| && forall j :: 0 <= j < |places| ==> bs[j] == img[places[j]]
  {
    seq(|places|, j requires 0 <= j < |places| => img[places[j]])
  }

  /** data starts with the bytes of this scan, and a marker other than a restart follows. */
  ghost predicate Sends(info: ScanInfo, cd: Coding, img: Image, actual: set<Place>, order: seq<nat>, data: seq<UInt8>)
    requires Carries(info, cd, img, actual) && NaturalOrder(order)
  {
    exists m: UInt8, rest: seq<UInt8> :: SendsWith(info, cd, img, actual, order, data, m, rest)
  }

  ghost predicate SendsWith(info: ScanInfo, cd: Coding, img: Image, actual: set<Place>, order: seq<nat>, data: seq<UInt8>, m: UInt8, rest: seq<UInt8>)
    requires Carries(info, cd, img, actual) && NaturalOrder(order)
  {
    && m != 0 && m != 0xFF && !(RST0 <= m < RST0 + 8)
    && if info.Ss == 0 then
         var log := DcLog(cd, img);
         LogCodable(cd.dcTabs, log) && data == ScanBytes(cd.dcTabs, log) + [0xFF, m] + rest
       else
         var jobs := ScanJobs(info, cd, img, order);
         && ValidJobs(cd.ac, jobs) && LogCodable(cd.acTabs, FinalLog(cd.ac, jobs))
         && data == ScanBytes(cd.acTabs, FinalLog(cd.ac, jobs)) + [0xFF, m] + rest
  }

  /** The blocks of an AC scan as its encoder sees them. */
  function ScanJobs(info: ScanInfo, cd: Coding, img: Image, order: seq<nat>): (jobs: seq<Job>)
    requires cd.AcCoding? && info.Al >= 0 && (forall j :: 0 <= j < |cd.places| ==> cd.places[j] in img)
    requires |order| == DCTSIZE2 + 16 && forall k :: 0 <= k < |order| ==> order[k] < DCTSIZE2
    ensures |jobs| == |cd.places| && forall j :: 0 <= j < |jobs| ==> |jobs[j].w| == |jobs[j].kn| == DCTSIZE2
    ensures forall j :: 0 <= j < |jobs| ==> jobs[j] == PhuffEncoder.BlockJob(img[cd.places[j]], order, info.Al, info.Ah > 0)
  {
    AcScanPasses.JobsOf(BlocksAt(img, cd.places), order, info.Al, info.Ah > 0)
  }

  ghost function DcLog(cd: Coding, img: Image): Log
    requires cd.DcCoding? && ValidDc(cd.dc) && (forall i :: 0 <= i < |cd.mcus| ==> |cd.mcus[i]| == |cd.dc.membership|)
    requires forall j :: 0 <= j < |Flat(cd.mcus)| ==> Flat(cd.mcus)[j] in img
  {
    FlatIn(cd.mcus, img.Keys);
    RunDc(cd.dc, ShiftAll(DcAll(img, cd.mcus), cd.dc.al)).log
  }

  // ----- the decoder

  /** Put the band ss..se of blks into the store. */
  function PutAll(dec: Store, places: seq<Place>, blks: seq<seq<int>>, ss: nat, se: nat): (r: Store)
    requires |places| == |blks| && ss <= se < DCTSIZE2 && forall j :: 0 <= j < |blks| ==> |blks[j]| > se
    requires forall p :: p in dec ==> |dec[p]| == DCTSIZE2
    requires forall j :: 0 <= j < |places| ==> places[j] in dec
    ensures r.Keys == dec.Keys && forall p :: p in r ==> |r[p]| == DCTSIZE2
  {
    if places == [] then dec else
    var n := |places| - 1;
    var before := PutAll(dec, places[..n], blks[..n], ss, se);
    before[places[n] := Merge(before[places[n]], blks[n], ss, se)]
  }

  function Merge(v: seq<int>, w: seq<int>, ss: nat, se: nat): (r: seq<int>)
    requires |v| == DCTSIZE2 && se < |w|
    ensures |r| == DCTSIZE2 && forall k :: 0 <= k < DCTSIZE2 ==> r[k] == if ss <= k <= se then w[k] else v[k]
  {
    seq(DCTSIZE2, k requires 0 <= k < DCTSIZE2 => if ss <= k <= se then w[k] else v[k])
  }

  lemma {:induction false} PutAllAt(dec: Store, places: seq<Place>, blks: seq<seq<int>>, ss: nat, se: nat, p: Place)
    requires |places| == |blks| && ss <= se < DCTSIZE2 && forall j :: 0 <= j < |blks| ==> |blks[j]| > se
    requires forall p :: p in dec ==> |dec[p]| == DCTSIZE2
    requires forall j :: 0 <= j < |places| ==> places[j] in dec
    requires Distinct(places) && p in dec
    ensures p !in places ==> PutAll(dec, places, blks, ss, se)[p] == dec[p]
    ensures forall j :: 0 <= j < |places| && places[j] == p ==> PutAll(dec, places, blks, ss, se)[p] == Merge(dec[p], blks[j], ss, se)
  {
    if places != [] {
      var n := |places| - 1;
      PutAllAt(dec, places[..n], blks[..n], ss, se, p);
      if places[n] == p {
        assert p !in places[..n];
      }
    }
  }

  /** The coefficients of the band, and nothing of the others. */
  function Band(v: seq<int>, ss: nat, se: nat): (r: seq<int>)
    requires |v| == DCTSIZE2
    ensures |r| == DCTSIZE2 && forall k :: 0 <= k < DCTSIZE2 ==> r[k] == if ss <= k <= se then v[k] else 0
  {
    seq(DCTSIZE2, k requires 0 <= k < DCTSIZE2 => if ss <= k <= se then v[k] else 0)
  }

  function KnownBands(dec: Store, places: seq<Place>, ss: nat, se: nat): (kn: seq<seq<int>>)
    requires forall p :: p in dec ==> |dec[p]| == DCTSIZE2
    requires forall j :: 0 <= j < |places| ==> places[j] in dec
    ensures |kn| == |places| && forall j :: 0 <= j < |places| ==> kn[j] == Band(dec[places[j]], ss, se)
  {
    seq(|places|, j requires 0 <= j < |places| => Band(dec[places[j]], ss, se))
  }

  function KnownDcs(dec: Store, mcus: seq<seq<Place>>): (kn: seq<seq<int>>)
    requires forall p :: p in dec ==> |dec[p]| == DCTSIZE2
    requires forall i, b :: 0 <= i < |mcus| && 0 <= b < |mcus[i]| ==> mcus[i][b] in dec
    ensures |kn| == |mcus| && forall i :: 0 <= i < |mcus| ==> |kn[i]| == |mcus[i]| && forall b :: 0 <= b < |mcus[i]| ==> kn[i][b] == dec[mcus[i][b]][0]
  {
    seq(|mcus|, i requires 0 <= i < |mcus| => seq(|mcus[i]|, b requires 0 <= b < |mcus[i]| => dec[mcus[i][b]][0]))
  }

  function Singles(vs: seq<int>): (r: seq<seq<int>>)
    ensures |r| == |vs| && forall j :: 0 <= j < |vs| ==> r[j] == [vs[j]]
  {
    seq(|vs|, j requires 0 <= j < |vs| => [vs[j]])
  }

  /** Section G.2 over one scan. */
  ghost function DecodeScan(dec: Store, info: ScanInfo, cd: Coding, data: seq<UInt8>): (r: Store)
    requires forall p :: p in dec ==> |dec[p]| == DCTSIZE2
    requires Decodable(info, cd, dec.Keys)
    ensures r.Keys == dec.Keys && forall p :: p in r ==> |r[p]| == DCTSIZE2
  {
    if info.Ss == 0 then
      var places := Flat(cd.mcus);
      var values := DecodedDc(dec, cd, data);
      PutAll(dec, places, Singles(values), 0, 0)
    else
      var (blks, _) := DRun(cd.ac, cd.t, KnownBands(dec, cd.places, cd.ac.ss, cd.ac.se), SegmentsOf(data, 0));
      DRunSized(cd.ac, cd.t, KnownBands(dec, cd.places, cd.ac.ss, cd.ac.se), SegmentsOf(data, 0));
      PutAll(dec, cd.places, blks, cd.ac.ss, cd.ac.se)
  }

  /** A decoder can follow: legal tables, and blocks that it has. */
  ghost predicate Decodable(info: ScanInfo, cd: Coding, keys: set<Place>) {
    if info.Ss == 0 then
      && cd.DcCoding? && GoodTables(cd.dc, cd.ts)
      && (forall i :: 0 <= i < |cd.mcus| ==> |cd.mcus[i]| == |cd.dc.membership|)
      && (forall j :: 0 <= j < |Flat(cd.mcus)| ==> Flat(cd.mcus)[j] in keys)
    else
      && cd.AcCoding? && ValidBand(cd.ac) && Shaped(cd.t) && LegalCounts(cd.t.bits)
      && (forall j :: 0 <= j < |cd.places| ==> cd.places[j] in keys)
  }

  ghost function DecodedDc(dec: Store, cd: Coding, data: seq<UInt8>): (vs: seq<int>)
    requires forall p :: p in dec ==> |dec[p]| == DCTSIZE2
    requires cd.DcCoding? && GoodTables(cd.dc, cd.ts) && (forall i :: 0 <= i < |cd.mcus| ==> |cd.mcus[i]| == |cd.dc.membership|)
    requires forall j :: 0 <= j < |Flat(cd.mcus)| ==> Flat(cd.mcus)[j] in dec
    ensures |vs| == |Flat(cd.mcus)|
  {
    FlatIn(cd.mcus, dec.Keys);
    var known := KnownDcs(dec, cd.mcus);
    var values := DecRun(cd.dc, cd.ts, known, SegmentsOf(data, 0)).0;
    DecRunSized(cd.dc, cd.ts, known, SegmentsOf(data, 0));
    FlatLength(cd.mcus, values);
    Flat(values)
  }

  lemma {:induction false} DRunSized(sc: AcScan, t: HuffTbl, known: seq<seq<int>>, ds: seq<seq<bool>>)
    requires ValidBand(sc) && Shaped(t) && LegalCounts(t.bits) && forall i :: 0 <= i < |known| ==> |known[i]| == DCTSIZE2
    ensures forall i :: 0 <= i < |known| ==> |DRun(sc, t, known, ds).0[i]| == DCTSIZE2
  {
    hide AcBlock, LegalCounts, DRestarted;
    if known != [] {
      DRunSized(sc, t, known[..|known| - 1], ds);
    }
  }

  lemma {:induction false} DecRunSized(sc: DcScan, ts: seq<HuffTbl>, known: seq<seq<int>>, ds: seq<seq<bool>>)
    requires GoodTables(sc, ts) && ValidValues(sc, known)
    ensures forall i :: 0 <= i < |known| ==> |DecRun(sc, ts, known, ds).0[i]| == |sc.membership|
  {
    hide DecMcu, GoodTables, DecRestarted;
    if known != [] {
      DecRunSized(sc, ts, known[..|known| - 1], ds);
    }
  }

  lemma {:induction false} FlatIn(mcus: seq<seq<Place>>, keys: set<Place>)
    requires forall j :: 0 <= j < |Flat(mcus)| ==> Flat(mcus)[j] in keys
    ensures forall i, b :: 0 <= i < |mcus| && 0 <= b < |mcus[i]| ==> mcus[i][b] in keys
  {
    if mcus != [] {
      var n := |mcus| - 1;
      var f := Flat(mcus[..n]);
      forall j | 0 <= j < |f| ensures f[j] in keys { assert Flat(mcus)[j] == f[j]; }
      forall b | 0 <= b < |mcus[n]| ensures mcus[n][b] in keys { assert Flat(mcus)[|f| + b] == mcus[n][b]; }
      FlatIn(mcus[..n], keys);
      assert forall i :: 0 <= i < n ==> mcus[..n][i] == mcus[i];
    }
  }

  lemma {:induction false} FlatLength<S, T>(xs: seq<seq<S>>, ys: seq<seq<T>>)
    requires |xs| == |ys| && forall i :: 0 <= i < |xs| ==> |xs[i]| == |ys[i]|
    ensures |Flat(xs)| == |Flat(ys)|
  {
    if xs != [] {
      FlatLength(xs[..|xs| - 1], ys[..|ys| - 1]);
    }
  }

  /** Where position j of the flattened MCUs comes from. */
  lemma {:induction false} FlatAt<S, T>(xs: seq<seq<S>>, ys: seq<seq<T>>, j: nat) returns (i: nat, b: nat)
    requires |xs| == |ys| && (forall i :: 0 <= i < |xs| ==> |xs[i]| == |ys[i]|) && j < |Flat(xs)|
    ensures |Flat(ys)| == |Flat(xs)| && i < |xs| && b < |xs[i]| && Flat(xs)[j] == xs[i][b] && Flat(ys)[j] == ys[i][b]
  {
    var n := |xs| - 1;
    FlatLength(xs[..n], ys[..n]);
    var f := |Flat(xs[..n])|;
    if j < f {
      i, b := FlatAt(xs[..n], ys[..n], j);
    } else {
      i, b := n, j - f;
    }
  }

  // ----- what is known only matters where it is right

  /** The block decoded with other knowledge uses the same bits, and is the same unless it refines. */
  lemma {:induction false} McuKnown(sc: DcScan, ts: seq<HuffTbl>, last: seq<int>, k1: seq<int>, k2: seq<int>, bits: seq<bool>, b: nat)
    requires GoodTables(sc, ts) && |last| == |sc.tbl| && |k1| == |k2| == |sc.membership| && b <= |k1|
    ensures var (w1, l1, r1) := DecMcu(sc, ts, last, k1, bits, b); var (w2, l2, r2) := DecMcu(sc, ts, last, k2, bits, b);
            l1 == l2 && r1 == r2 && forall j :: 0 <= j < |w1| && (!sc.refine || k1[b + j] == k2[b + j]) ==> w1[j] == w2[j]
    decreases |k1| - b
  {
    hide NextSym, Take, Extend, LegalCounts;
    if b < |k1| {
      var c := sc.membership[b];
      var (x1, rest1) := DecBlock(sc, ts[sc.tbl[c]], last[c], k1[b], bits);
      var (x2, rest2) := DecBlock(sc, ts[sc.tbl[c]], last[c], k2[b], bits);
      assert rest1 == rest2 && DcLast(sc, last, x1, b) == DcLast(sc, last, x2, b);
      McuKnown(sc, ts, DcLast(sc, last, x1, b), k1, k2, rest1, b + 1);
    }
  }

  lemma {:induction false} RunKnown(sc: DcScan, ts: seq<HuffTbl>, k1: seq<seq<int>>, k2: seq<seq<int>>, ds: seq<seq<bool>>)
    requires GoodTables(sc, ts) && ValidValues(sc, k1) && ValidValues(sc, k2) && |k1| == |k2|
    ensures DecRun(sc, ts, k1, ds).1 == DecRun(sc, ts, k2, ds).1
    ensures SameWhereKnown(sc, k1, k2, DecRun(sc, ts, k1, ds).0, DecRun(sc, ts, k2, ds).0)
  {
    hide DecMcu, GoodTables, SameWhereKnown;
    if k1 == [] {
      NothingKnown(sc);
    } else {
      var n := |k1| - 1;
      RunKnown(sc, ts, k1[..n], k2[..n], ds);
      var s1 := DecRestarted(sc, ds, DecRun(sc, ts, k1[..n], ds).1);
      McuKnown(sc, ts, s1.last, k1[n], k2[n], s1.cur, 0);
      var w1, w2 := DecMcu(sc, ts, s1.last, k1[n], s1.cur, 0).0, DecMcu(sc, ts, s1.last, k2[n], s1.cur, 0).0;
      SameNext(sc, k1, k2, DecRun(sc, ts, k1[..n], ds).0, DecRun(sc, ts, k2[..n], ds).0, w1, w2);
    }
  }

  /** Two runs over the same bits give the same values wherever the same was known. */
  ghost predicate SameWhereKnown(sc: DcScan, k1: seq<seq<int>>, k2: seq<seq<int>>, v1: seq<seq<int>>, v2: seq<seq<int>>) {
    && |k1| == |k2| == |v1| == |v2|
    && (forall i :: 0 <= i < |k1| ==> |k1[i]| == |k2[i]| == |v1[i]| == |v2[i]| == |sc.membership|)
    && (forall i, b :: 0 <= i < |k1| && 0 <= b < |sc.membership| && (!sc.refine || k1[i][b] == k2[i][b]) ==> v1[i][b] == v2[i][b])
  }

  lemma {:induction false} NothingKnown(sc: DcScan)
    ensures SameWhereKnown(sc, [], [], [], [])
  {
  }

  lemma {:induction false} SameNext(sc: DcScan, k1: seq<seq<int>>, k2: seq<seq<int>>, v1: seq<seq<int>>, v2: seq<seq<int>>, w1: seq<int>, w2: seq<int>)
    requires |k1| == |k2| && k1 != [] && SameWhereKnown(sc, k1[..|k1| - 1], k2[..|k2| - 1], v1, v2)
    requires var n := |k1| - 1;
             && |k1[n]| == |k2[n]| == |w1| == |w2| == |sc.membership|
             && (forall j :: 0 <= j < |w1| && (!sc.refine || k1[n][0 + j] == k2[n][0 + j]) ==> w1[j] == w2[j])
    ensures SameWhereKnown(sc, k1, k2, v1 + [w1], v2 + [w2])
  {
    var n := |k1| - 1;
    forall i | 0 <= i < n
      ensures k1[i] == k1[..n][i] && k2[i] == k2[..n][i] && (v1 + [w1])[i] == v1[i] && (v2 + [w2])[i] == v2[i]
    {
    }
    forall b | 0 <= b < |sc.membership| && (!sc.refine || k1[n][b] == k2[n][b])
      ensures w1[b] == w2[b]
    {
      assert k1[n][0 + b] == k2[n][0 + b] || !sc.refine;
    }
  }

  // ----- only the band matters

  /** What a block sends depends on its band alone. */
  lemma {:induction false} PieceOfBand(tbl: nat, w: seq<int>, kn: seq<int>, w': seq<int>, kn': seq<int>, ss: nat, se: nat, k: nat, eob: nat, r: nat, br: seq<bool>)
    requires |w| == |kn| == |w'| == |kn'| && se < |w| && ss <= k
    requires forall j :: ss <= j <= se ==> w[j] == w'[j] && kn[j] == kn'[j]
    ensures BlockFrom(tbl, w, kn, k, se, eob, r, br) == BlockFrom(tbl, w', kn', k, se, eob, r, br)
    decreases se + 1 - k, r
  {
    hide NewCoef, Zrl;
    if k > se {
    } else if w[k] == 0 {
      PieceOfBand(tbl, w, kn, w', kn', ss, se, k + 1, eob, r + 1, br);
    } else if r > 15 && k <= eob {
      PieceOfBand(tbl, w, kn, w', kn', ss, se, k, eob, r - 16, []);
    } else if kn[k] != 0 {
      PieceOfBand(tbl, w, kn, w', kn', ss, se, k + 1, eob, r, br + [CorrectionBit(w[k])]);
    } else {
      PieceOfBand(tbl, w, kn, w', kn', ss, se, k + 1, eob, 0, []);
    }
  }

  lemma {:induction false} LastNewOfBand(w: seq<int>, kn: seq<int>, w': seq<int>, kn': seq<int>, ss: nat, k: nat)
    requires |w| == |kn| == |w'| == |kn'| && k <= |w|
    requires forall j :: ss <= j < k ==> w[j] == w'[j] && kn[j] == kn'[j]
    ensures LastNew(w, kn, ss, k) == LastNew(w', kn', ss, k)
  {
    if k > ss {
      LastNewOfBand(w, kn, w', kn', ss, k - 1);
    }
  }

  function BandJob(jb: Job, ss: nat, se: nat): (r: Job)
    requires |jb.w| == |jb.kn| == DCTSIZE2
    ensures |r.w| == |r.kn| == DCTSIZE2
  {
    Job(Band(jb.w, ss, se), Band(jb.kn, ss, se))
  }

  function BandJobs(jobs: seq<Job>, ss: nat, se: nat): (r: seq<Job>)
    requires forall j :: 0 <= j < |jobs| ==> |jobs[j].w| == |jobs[j].kn| == DCTSIZE2
    ensures |r| == |jobs| && forall j :: 0 <= j < |jobs| ==> r[j] == BandJob(jobs[j], ss, se)
  {
    seq(|jobs|, j requires 0 <= j < |jobs| => BandJob(jobs[j], ss, se))
  }

  lemma {:induction false} BandJobSame(sc: AcScan, jb: Job)
    requires ValidBand(sc) && |jb.w| == |jb.kn| == DCTSIZE2
    ensures JobPiece(sc, BandJob(jb, sc.ss, sc.se)) == JobPiece(sc, jb)
    ensures ValidJob(sc, jb) ==> ValidJob(sc, BandJob(jb, sc.ss, sc.se))
  {
    var b := BandJob(jb, sc.ss, sc.se);
    LastNewOfBand(b.w, b.kn, jb.w, jb.kn, sc.ss, sc.se + 1);
    PieceOfBand(sc.tbl, b.w, b.kn, jb.w, jb.kn, sc.ss, sc.se, sc.ss, LastNew(jb.w, jb.kn, sc.ss, sc.se + 1), 0, []);
    AcScanPasses.PieceIs(sc, b);
    AcScanPasses.PieceIs(sc, jb);
  }

  lemma {:induction false} BandJobsSame(sc: AcScan, jobs: seq<Job>)
    requires ValidBand(sc) && forall j :: 0 <= j < |jobs| ==> |jobs[j].w| == |jobs[j].kn| == DCTSIZE2
    ensures RunScan(sc, BandJobs(jobs, sc.ss, sc.se)) == RunScan(sc, jobs)
    ensures FinalLog(sc, BandJobs(jobs, sc.ss, sc.se)) == FinalLog(sc, jobs)
    ensures ValidJobs(sc, jobs) ==> ValidJobs(sc, BandJobs(jobs, sc.ss, sc.se))
  {
    hide JobPiece, ScanStep, BandJob, ValidJob, Flushed;
    if jobs != [] {
      var n := |jobs| - 1;
      BandJobsSame(sc, jobs[..n]);
      BandJobSame(sc, jobs[n]);
      assert BandJobs(jobs, sc.ss, sc.se)[..n] == BandJobs(jobs[..n], sc.ss, sc.se);
      if ValidJobs(sc, jobs) {
        forall j | 0 <= j < |jobs| { BandJobSame(sc, jobs[j]); }
      }
    }
  }

  // ----- one scan

  /** What is known of coefficient k with value v down to bit last. */
  function AtBit(v: int, k: nat, last: int): int {
    if last < 0 then 0 else if k == 0 then Shift(v, last) else Point(v, last)
  }

  /** After s scans the store holds every coefficient of the image at the precision that the
      script has reached. */
  ghost predicate Faithful(dec: Store, img: Image, actual: set<Place>, order: seq<nat>, scans: seq<ScanInfo>, s: nat)
    requires s <= |scans| && NaturalOrder(order)
  {
    && dec.Keys == img.Keys && actual <= img.Keys && (forall p :: p in dec ==> |dec[p]| == DCTSIZE2)
    && (forall p, k :: p in actual && 0 <= k < DCTSIZE2 ==> dec[p][k] == AtBit(img[p][order[k]], k, LastAl(scans, s, p.c, k)))
  }

  lemma {:induction false} CarriesDecodable(info: ScanInfo, cd: Coding, img: Image, actual: set<Place>)
    requires Carries(info, cd, img, actual)
    ensures Decodable(info, cd, img.Keys)
  {
    hide Encodes, LegalCounts, Distinct;
    if info.Ss == 0 {
      SameAreGood(cd.dc, cd.dcTabs, cd.ts);
    } else {
      TableLegal(cd.ac, cd.acTabs, cd.t);
    }
  }

  /** The scan of a coefficient takes up where the store has it. */
  lemma {:induction false} KnownBefore(n: nat, scans: seq<ScanInfo>, s: nat, c: nat, k: nat, v: int)
    requires LegalProgressive(n, scans) && s < |scans| && Covers(scans[s], c, k)
    ensures scans[s].Al >= 0 && LastAl(scans, s + 1, c, k) == scans[s].Al
    ensures AtBit(v, k, LastAl(scans, s, c, k)) == if scans[s].Ah > 0 then AtBit(v, k, scans[s].Al + 1) else 0
  {
    hide GoodComponents, Fits, Shift, Point;
    assert GoodBand(scans[s]);
    RefinementsAddOneBit(n, scans, s, c, k);
    NeverSent(scans, s, c, k);
  }

  /** A block's job, cut down to the band, at position k. */
  lemma {:induction false} JobAt(block: Block, order: seq<nat>, al: nat, refine: bool, ss: nat, se: nat, k: nat)
    requires NaturalOrder(order) && 0 < ss && k < DCTSIZE2
    ensures var jb := BandJob(PhuffEncoder.BlockJob(block, order, al, refine), ss, se);
            && (ss <= k <= se ==> jb.w[k] == AtBit(block[order[k]], k, al))
            && jb.kn[k] == if ss <= k <= se && refine then AtBit(block[order[k]], k, al + 1) else 0
  {
    PointStep(block[order[k]], al);
    hide Point, Half;
  }

  /** Before an AC scan the store has in its band exactly what the encoder takes as known. */
  lemma {:induction false} BandsKnown(n: nat, scans: seq<ScanInfo>, s: nat, cd: Coding, img: Image, actual: set<Place>, order: seq<nat>, dec: Store)
    requires LegalProgressive(n, scans) && s < |scans| && scans[s].Ss > 0 && NaturalOrder(order)
    requires Carries(scans[s], cd, img, actual) && Faithful(dec, img, actual, order, scans, s)
    ensures KnownBands(dec, cd.places, cd.ac.ss, cd.ac.se) == KnownOf(BandJobs(ScanJobs(scans[s], cd, img, order), cd.ac.ss, cd.ac.se))
  {
    hide *;
    OrderIs(order);
    FaithfulIs(dec, img, actual, order, scans, s);
    CarriesAc(scans[s], cd, img, actual);
    var bj := BandJobs(ScanJobs(scans[s], cd, img, order), cd.ac.ss, cd.ac.se);
    forall j | 0 <= j < |cd.places|
      ensures Band(dec[cd.places[j]], cd.ac.ss, cd.ac.se) == bj[j].kn
    {
      BandKnown(n, scans, s, cd, img, actual, order, dec, j);
    }
  }

  lemma {:induction false} BandKnown(n: nat, scans: seq<ScanInfo>, s: nat, cd: Coding, img: Image, actual: set<Place>, order: seq<nat>, dec: Store, j: nat)
    requires LegalProgressive(n, scans) && s < |scans| && scans[s].Ss > 0 && NaturalOrder(order)
    requires Carries(scans[s], cd, img, actual) && Faithful(dec, img, actual, order, scans, s) && cd.AcCoding? && j < |cd.places|
    ensures cd.places[j] in dec && |dec[cd.places[j]]| == DCTSIZE2
    ensures Band(dec[cd.places[j]], cd.ac.ss, cd.ac.se) == BandJobs(ScanJobs(scans[s], cd, img, order), cd.ac.ss, cd.ac.se)[j].kn
  {
    hide *;
    OrderIs(order);
    FaithfulIs(dec, img, actual, order, scans, s);
    CarriesAc(scans[s], cd, img, actual);
    var p, bj := cd.places[j], BandJobs(ScanJobs(scans[s], cd, img, order), cd.ac.ss, cd.ac.se);
    forall k | 0 <= k < DCTSIZE2
      ensures Band(dec[p], cd.ac.ss, cd.ac.se)[k] == bj[j].kn[k]
    {
      JobAt(img[p], order, scans[s].Al, scans[s].Ah > 0, cd.ac.ss, cd.ac.se, k);
      if cd.ac.ss <= k <= cd.ac.se {
        KnownInStore(n, scans, s, cd, img, actual, order, dec, j, k);
      }
    }
  }

  lemma {:induction false} CarriesAc(info: ScanInfo, cd: Coding, img: Image, actual: set<Place>)
    requires Carries(info, cd, img, actual) && info.Ss > 0
    ensures cd.AcCoding? && ValidBand(cd.ac) && cd.ac.ss == info.Ss && cd.ac.se == info.Se && info.Al >= 0
    ensures 0 < info.Ss <= info.Se < DCTSIZE2
    ensures forall j :: 0 <= j < |cd.places| ==> cd.places[j] in img && cd.places[j] in actual && cd.places[j].c in info.comps
  {
  }

  lemma {:induction false} KnownInStore(n: nat, scans: seq<ScanInfo>, s: nat, cd: Coding, img: Image, actual: set<Place>, order: seq<nat>,
                             dec: Store, j: nat, k: nat)
    requires LegalProgressive(n, scans) && s < |scans| && scans[s].Ss > 0 && NaturalOrder(order)
    requires Carries(scans[s], cd, img, actual) && Faithful(dec, img, actual, order, scans, s)
    requires cd.AcCoding? && j < |cd.places| && scans[s].Ss <= k <= scans[s].Se && k < DCTSIZE2
    ensures cd.places[j] in dec && cd.places[j] in img && |dec[cd.places[j]]| == DCTSIZE2 && order[k] < DCTSIZE2 && scans[s].Al >= 0
    ensures dec[cd.places[j]][k]
         == if scans[s].Ah > 0 then AtBit(img[cd.places[j]][order[k]], k, scans[s].Al + 1) else 0
  {
    OrderIs(order);
    CarriesAc(scans[s], cd, img, actual);
    hide LegalProgressive, LastAl, Carries, AtBit, NaturalOrder;
    var p := cd.places[j];
    KnownBefore(n, scans, s, p.c, k, img[p][order[k]]);
  }

  lemma {:induction false} AcScanStep(n: nat, scans: seq<ScanInfo>, s: nat, cd: Coding, img: Image, actual: set<Place>, order: seq<nat>,
                           dec: Store, data: seq<UInt8>)
    requires LegalProgressive(n, scans) && s < |scans| && scans[s].Ss > 0 && NaturalOrder(order)
    requires Carries(scans[s], cd, img, actual) && Sends(scans[s], cd, img, actual, order, data) && Faithful(dec, img, actual, order, scans, s)
    ensures Decodable(scans[s], cd, dec.Keys) && Faithful(DecodeScan(dec, scans[s], cd, data), img, actual, order, scans, s + 1)
  {
    CarriesDecodable(scans[s], cd, img, actual);
    var blks := AcBlocks(n, scans, s, cd, img, actual, order, dec, data);
    var dec' := DecodeScan(dec, scans[s], cd, data);
    assert dec' == PutAll(dec, cd.places, blks, cd.ac.ss, cd.ac.se);
    hide LegalProgressive, LastAl, Good, AtBit, DecodeScan, PutAll, Sends, SegmentsOf, DRun, Carries, Decodable, NaturalOrder, Faithful;
    OrderIs(order);
    FaithfulIs(dec, img, actual, order, scans, s);
    forall p, k | p in actual && 0 <= k < DCTSIZE2
      ensures dec'[p][k] == AtBit(img[p][order[k]], k, LastAl(scans, s + 1, p.c, k))
    {
      PlaceAfterAc(n, scans, s, cd, img, actual, order, dec, blks, p, k);
    }
    IsFaithful(dec', img, actual, order, scans, s + 1);
  }

  lemma {:induction false} OrderIs(order: seq<nat>)
    requires NaturalOrder(order)
    ensures |order| == DCTSIZE2 + 16 && order[0] == 0 && forall k :: 0 <= k < |order| ==> order[k] < DCTSIZE2
  {
  }

  lemma {:induction false} FaithfulIs(dec: Store, img: Image, actual: set<Place>, order: seq<nat>, scans: seq<ScanInfo>, s: nat)
    requires s <= |scans| && NaturalOrder(order) && Faithful(dec, img, actual, order, scans, s)
    ensures dec.Keys == img.Keys && actual <= img.Keys && forall p :: p in dec ==> |dec[p]| == DCTSIZE2
  {
  }

  lemma {:induction false} IsFaithful(dec: Store, img: Image, actual: set<Place>, order: seq<nat>, scans: seq<ScanInfo>, s: nat)
    requires s <= |scans| && NaturalOrder(order)
    requires dec.Keys == img.Keys && actual <= img.Keys && forall p :: p in dec ==> |dec[p]| == DCTSIZE2
    requires forall p, k :: p in actual && 0 <= k < DCTSIZE2 ==> dec[p][k] == AtBit(img[p][order[k]], k, LastAl(scans, s, p.c, k))
    ensures Faithful(dec, img, actual, order, scans, s)
  {
  }

  /** One coefficient after an AC scan. */
  lemma {:induction false} PlaceAfterAc(n: nat, scans: seq<ScanInfo>, s: nat, cd: Coding, img: Image, actual: set<Place>, order: seq<nat>,
                             dec: Store, blks: seq<seq<int>>, p: Place, k: nat)
    requires LegalProgressive(n, scans) && s < |scans| && scans[s].Ss > 0 && NaturalOrder(order)
    requires Carries(scans[s], cd, img, actual) && Faithful(dec, img, actual, order, scans, s)
    requires |blks| == |cd.places| && (forall j :: 0 <= j < |blks| ==> |blks[j]| == DCTSIZE2)
    requires scans[s].Al >= 0
    requires forall j, k :: 0 <= j < |blks| && cd.ac.ss <= k <= cd.ac.se ==> blks[j][k] == AtBit(img[cd.places[j]][order[k]], k, scans[s].Al)
    requires p in actual && k < DCTSIZE2
    ensures ValidBand(cd.ac) && forall j :: 0 <= j < |cd.places| ==> cd.places[j] in dec
    ensures PutAll(dec, cd.places, blks, cd.ac.ss, cd.ac.se)[p][k] == AtBit(img[p][order[k]], k, LastAl(scans, s + 1, p.c, k))
  {
    hide LegalProgressive, LastAl, Encodes, ShapedSlots, Point, Shift, PutAll, NaturalOrder;
    OrderIs(order);
    var info := scans[s];
    PutAllAt(dec, cd.places, blks, cd.ac.ss, cd.ac.se, p);
    NextLastAl(scans, s, p.c, k);
    if p.c in info.comps {
      var j :| 0 <= j < |cd.places| && cd.places[j] == p;
      if cd.ac.ss <= k <= cd.ac.se {
        KnownBefore(n, scans, s, p.c, k, img[p][order[k]]);
      }
    } else {
      assert p !in cd.places;
    }
  }

  /** The blocks that decoding an AC scan gives. */
  lemma {:induction false} AcBlocks(n: nat, scans: seq<ScanInfo>, s: nat, cd: Coding, img: Image, actual: set<Place>, order: seq<nat>,
                         dec: Store, data: seq<UInt8>) returns (blks: seq<seq<int>>)
    requires LegalProgressive(n, scans) && s < |scans| && scans[s].Ss > 0 && NaturalOrder(order)
    requires Carries(scans[s], cd, img, actual) && Sends(scans[s], cd, img, actual, order, data) && Faithful(dec, img, actual, order, scans, s)
    ensures Decodable(scans[s], cd, dec.Keys)
    ensures blks == DRun(cd.ac, cd.t, KnownBands(dec, cd.places, cd.ac.ss, cd.ac.se), SegmentsOf(data, 0)).0
    ensures |blks| == |cd.places|
    ensures forall j :: 0 <= j < |blks| ==> |blks[j]| == DCTSIZE2
    ensures forall j, k :: 0 <= j < |blks| && cd.ac.ss <= k <= cd.ac.se ==> blks[j][k] == AtBit(img[cd.places[j]][order[k]], k, scans[s].Al)
  {
    hide *;
    CarriesDecodable(scans[s], cd, img, actual);
    BandsKnown(n, scans, s, cd, img, actual, order, dec);
    OrderIs(order);
    FaithfulIs(dec, img, actual, order, scans, s);
    CarriesAc(scans[s], cd, img, actual);
    var bj := BandJobs(ScanJobs(scans[s], cd, img, order), cd.ac.ss, cd.ac.se);
    BandBack(scans[s], cd, img, actual, order, data);
    blks := DRun(cd.ac, cd.t, KnownOf(bj), SegmentsOf(data, 0)).0;
    forall j | 0 <= j < |blks|
      ensures |blks[j]| == DCTSIZE2 && forall k :: cd.ac.ss <= k <= cd.ac.se ==> blks[j][k] == AtBit(img[cd.places[j]][order[k]], k, scans[s].Al)
    {
      RecoveredAt(cd.ac, cd.t, bj, data, j);
      BlockIs(cd.ac, img[cd.places[j]], order, scans[s].Al, scans[s].Ah > 0, bj[j], blks[j]);
    }
  }

  lemma {:induction false} RecoveredAt(sc: AcScan, t: HuffTbl, jobs: seq<Job>, data: seq<UInt8>, j: nat)
    requires ValidBand(sc) && Shaped(t) && LegalCounts(t.bits) && forall j :: 0 <= j < |jobs| ==> |jobs[j].w| == |jobs[j].kn| == DCTSIZE2
    requires AllRecovered(sc, t, jobs, data) && j < |jobs|
    ensures Recovered(sc, jobs[j], DRun(sc, t, KnownOf(jobs), SegmentsOf(data, 0)).0[j])
  {
  }

  lemma {:induction false} BlockIs(sc: AcScan, block: Block, order: seq<nat>, al: nat, refine: bool, jb: Job, blk: seq<int>)
    requires ValidBand(sc) && NaturalOrder(order) && |order| == DCTSIZE2 + 16 && (forall k :: 0 <= k < |order| ==> order[k] < DCTSIZE2)
    requires jb == BandJob(PhuffEncoder.BlockJob(block, order, al, refine), sc.ss, sc.se) && Recovered(sc, jb, blk)
    ensures |blk| == DCTSIZE2 && forall k :: sc.ss <= k <= sc.se ==> blk[k] == AtBit(block[order[k]], k, al)
  {
    hide AtBit, BandJob, PhuffEncoder.BlockJob, NaturalOrder;
    forall k | sc.ss <= k <= sc.se
      ensures blk[k] == AtBit(block[order[k]], k, al)
    {
      JobAt(block, order, al, refine, sc.ss, sc.se, k);
    }
  }

  /** The bytes of an AC scan decode to its jobs, whatever they hold outside the band. */
  lemma {:induction false} BandBack(info: ScanInfo, cd: Coding, img: Image, actual: set<Place>, order: seq<nat>, data: seq<UInt8>)
    requires info.Ss > 0 && NaturalOrder(order) && Carries(info, cd, img, actual) && Sends(info, cd, img, actual, order, data)
    ensures Shaped(cd.t) && LegalCounts(cd.t.bits)
    ensures AllRecovered(cd.ac, cd.t, BandJobs(ScanJobs(info, cd, img, order), cd.ac.ss, cd.ac.se), data)
  {
    hide Encodes, LegalCounts, DRun, SegmentsOf, FinalLog, LogCodable, ScanBytes, KnownOf, InBand, Distinct, BandJobs, Recovered,
      ScanJobs, NaturalOrder;
    OrderIs(order);
    var m: UInt8, rest: seq<UInt8> :| SendsWith(info, cd, img, actual, order, data, m, rest);
    var jobs := ScanJobs(info, cd, img, order);
    BandJobsSame(cd.ac, jobs);
    AcScanLossless(cd.ac, cd.acTabs, cd.t, BandJobs(jobs, cd.ac.ss, cd.ac.se), data, m, rest);
  }

  ghost predicate AllRecovered(sc: AcScan, t: HuffTbl, jobs: seq<Job>, data: seq<UInt8>)
    requires ValidBand(sc) && Shaped(t) && LegalCounts(t.bits) && forall j :: 0 <= j < |jobs| ==> |jobs[j].w| == |jobs[j].kn| == DCTSIZE2
  {
    forall j :: 0 <= j < |jobs| ==> Recovered(sc, jobs[j], DRun(sc, t, KnownOf(jobs), SegmentsOf(data, 0)).0[j])
  }

  // ----- one DC scan

  lemma {:induction false} CarriesDc(info: ScanInfo, cd: Coding, img: Image, actual: set<Place>)
    requires Carries(info, cd, img, actual) && info.Ss == 0
    ensures cd.DcCoding? && ValidDc(cd.dc) && cd.dc.refine == (info.Ah > 0) && cd.dc.al == info.Al
    ensures GoodTables(cd.dc, cd.ts) && SameTables(cd.dc, cd.dcTabs, cd.ts)
    ensures forall i :: 0 <= i < |cd.mcus| ==> |cd.mcus[i]| == |cd.dc.membership|
    ensures Complete(info, img, actual, Flat(cd.mcus))
    ensures forall i, b :: 0 <= i < |cd.mcus| && 0 <= b < |cd.mcus[i]| ==> cd.mcus[i][b] in img
  {
    SameAreGood(cd.dc, cd.dcTabs, cd.ts);
    hide Encodes, GoodTables, SameTables, Distinct;
    FlatIn(cd.mcus, img.Keys);
  }

  /** Decoding with the encoder's own knowledge gives the shifted DC values. */
  lemma {:induction false} DcBack(info: ScanInfo, cd: Coding, img: Image, actual: set<Place>, order: seq<nat>, data: seq<UInt8>)
    requires info.Ss == 0 && NaturalOrder(order) && Carries(info, cd, img, actual) && Sends(info, cd, img, actual, order, data)
    ensures cd.DcCoding? && GoodTables(cd.dc, cd.ts)
    ensures forall i, b :: 0 <= i < |cd.mcus| && 0 <= b < |cd.mcus[i]| ==> cd.mcus[i][b] in img
    ensures var vs := ShiftAll(DcAll(img, cd.mcus), cd.dc.al);
            ValidValues(cd.dc, vs) && DecRun(cd.dc, cd.ts, KnownDc(vs), SegmentsOf(data, 0)).0 == vs
  {
    CarriesDc(info, cd, img, actual);
    hide Encodes, GoodTables, SameTables, DecRun, SegmentsOf, LogCodable, ScanBytes, RunDc, Complete, NaturalOrder, Shift;
    var m: UInt8, rest: seq<UInt8> :| SendsWith(info, cd, img, actual, order, data, m, rest);
    var vs := ShiftAll(DcAll(img, cd.mcus), cd.dc.al);
    DcScanLossless(cd.dc, cd.dcTabs, cd.ts, vs, data, m, rest);
  }

  /** The value that a DC scan delivers for a block that counts. */
  lemma {:induction false} DcValueAt(n: nat, scans: seq<ScanInfo>, s: nat, cd: Coding, img: Image, actual: set<Place>, order: seq<nat>,
                          dec: Store, data: seq<UInt8>, j: nat)
    requires LegalProgressive(n, scans) && s < |scans| && scans[s].Ss == 0 && NaturalOrder(order)
    requires Carries(scans[s], cd, img, actual) && Sends(scans[s], cd, img, actual, order, data) && Faithful(dec, img, actual, order, scans, s)
    requires cd.DcCoding? && j < |Flat(cd.mcus)| && Flat(cd.mcus)[j] in actual
    ensures Decodable(scans[s], cd, dec.Keys) && (forall p :: p in dec ==> |dec[p]| == DCTSIZE2) && Flat(cd.mcus)[j] in img && scans[s].Al >= 0
    ensures DecodedDc(dec, cd, data)[j] == AtBit(img[Flat(cd.mcus)[j]][0], 0, scans[s].Al)
  {
    hide LegalProgressive, NaturalOrder, Carries, Sends, Faithful, Decodable, GoodTables, SameTables, DecRun, SegmentsOf, Flat, DecodedDc,
      AtBit, Shift, SameWhereKnown, ValidValues, Complete;
    CarriesDc(scans[s], cd, img, actual);
    CarriesDecodable(scans[s], cd, img, actual);
    FaithfulIs(dec, img, actual, order, scans, s);
    DcBack(scans[s], cd, img, actual, order, data);
    PlacesIn(scans[s], cd, img, actual);
    var i, b := DecodedAt(dec, cd, data, j);
    var known, vs, ds := KnownDcs(dec, cd.mcus), ShiftAll(DcAll(img, cd.mcus), cd.dc.al), SegmentsOf(data, 0);
    KnownSized(cd.dc, known, KnownDc(vs), cd.mcus);
    RunKnown(cd.dc, cd.ts, known, KnownDc(vs), ds);
    var p := cd.mcus[i][b];
    DcKnown(n, scans, s, cd, img, actual, order, dec, p);
    ValueIs(img[p][0], cd.dc.al);
    assert vs[i][b] == Shift(img[p][0], cd.dc.al) && KnownDc(vs)[i][b] == vs[i][b] / 2 && known[i][b] == dec[p][0];
    SameAt(cd.dc, known, KnownDc(vs), DecRun(cd.dc, cd.ts, known, ds).0, vs, i, b);
  }

  lemma {:induction false} PlacesIn(info: ScanInfo, cd: Coding, img: Image, actual: set<Place>)
    requires Carries(info, cd, img, actual) && info.Ss == 0
    ensures cd.DcCoding? && forall j :: 0 <= j < |Flat(cd.mcus)| ==> Flat(cd.mcus)[j] in img && Flat(cd.mcus)[j].c in info.comps
  {
    hide SameTables, Distinct, Flat;
  }

  lemma {:induction false} KnownSized(sc: DcScan, k1: seq<seq<int>>, k2: seq<seq<int>>, mcus: seq<seq<Place>>)
    requires |k1| == |k2| == |mcus| && forall i :: 0 <= i < |mcus| ==> |k1[i]| == |k2[i]| == |mcus[i]| == |sc.membership|
    ensures ValidValues(sc, k1) && ValidValues(sc, k2)
  {
  }

  /** Where position j of the decoded DC values comes from. */
  lemma {:induction false} DecodedAt(dec: Store, cd: Coding, data: seq<UInt8>, j: nat) returns (i: nat, b: nat)
    requires forall p :: p in dec ==> |dec[p]| == DCTSIZE2
    requires cd.DcCoding? && GoodTables(cd.dc, cd.ts) && (forall i :: 0 <= i < |cd.mcus| ==> |cd.mcus[i]| == |cd.dc.membership|)
    requires (forall j :: 0 <= j < |Flat(cd.mcus)| ==> Flat(cd.mcus)[j] in dec) && j < |Flat(cd.mcus)|
    ensures (forall i, b :: 0 <= i < |cd.mcus| && 0 <= b < |cd.mcus[i]| ==> cd.mcus[i][b] in dec) && ValidValues(cd.dc, KnownDcs(dec, cd.mcus))
    ensures i < |cd.mcus| && b < |cd.mcus[i]| && Flat(cd.mcus)[j] == cd.mcus[i][b]
    ensures var values := DecRun(cd.dc, cd.ts, KnownDcs(dec, cd.mcus), SegmentsOf(data, 0)).0;
            |values[i]| == |cd.mcus[i]| && DecodedDc(dec, cd, data)[j] == values[i][b]
  {
    FlatIn(cd.mcus, dec.Keys);
    var known, ds := KnownDcs(dec, cd.mcus), SegmentsOf(data, 0);
    hide GoodTables, DecRun, SegmentsOf, Flat;
    DecRunSized(cd.dc, cd.ts, known, ds);
    i, b := FlatAt(cd.mcus, DecRun(cd.dc, cd.ts, known, ds).0, j);
  }

  lemma {:induction false} ValueIs(v: int, al: nat)
    ensures AtBit(v, 0, al) == Shift(v, al) && AtBit(v, 0, al + 1) == Shift(v, al) / 2
  {
    ShiftStep(v, al);
  }

  lemma {:induction false} SameAt(sc: DcScan, k1: seq<seq<int>>, k2: seq<seq<int>>, v1: seq<seq<int>>, v2: seq<seq<int>>, i: nat, b: nat)
    requires SameWhereKnown(sc, k1, k2, v1, v2) && i < |k1| && b < |k1[i]|
    ensures |k2| == |v1| == |v2| == |k1| && |k2[i]| == |v1[i]| == |v2[i]| == |k1[i]|
    ensures !sc.refine || k1[i][b] == k2[i][b] ==> v1[i][b] == v2[i][b]
  {
  }

  lemma {:induction false} DcKnown(n: nat, scans: seq<ScanInfo>, s: nat, cd: Coding, img: Image, actual: set<Place>, order: seq<nat>,
                        dec: Store, p: Place)
    requires LegalProgressive(n, scans) && s < |scans| && scans[s].Ss == 0 && NaturalOrder(order)
    requires Carries(scans[s], cd, img, actual) && Faithful(dec, img, actual, order, scans, s)
    requires p in actual && p.c in scans[s].comps
    ensures p in img && p in dec && |dec[p]| == DCTSIZE2 && scans[s].Al >= 0
    ensures scans[s].Ah > 0 ==> dec[p][0] == AtBit(img[p][0], 0, scans[s].Al + 1)
  {
    OrderIs(order);
    hide LegalProgressive, LastAl, Carries, AtBit, NaturalOrder;
    BandIs(n, scans, s);
    KnownBefore(n, scans, s, p.c, 0, img[p][0]);
  }

  lemma {:induction false} BandIs(n: nat, scans: seq<ScanInfo>, s: nat)
    requires LegalProgressive(n, scans) && s < |scans|
    ensures GoodBand(scans[s])
  {
  }

  lemma {:induction false} DcScanStep(n: nat, scans: seq<ScanInfo>, s: nat, cd: Coding, img: Image, actual: set<Place>, order: seq<nat>,
                           dec: Store, data: seq<UInt8>)
    requires LegalProgressive(n, scans) && s < |scans| && scans[s].Ss == 0 && NaturalOrder(order)
    requires Carries(scans[s], cd, img, actual) && Sends(scans[s], cd, img, actual, order, data) && Faithful(dec, img, actual, order, scans, s)
    ensures Decodable(scans[s], cd, dec.Keys) && Faithful(DecodeScan(dec, scans[s], cd, data), img, actual, order, scans, s + 1)
  {
    CarriesDc(scans[s], cd, img, actual);
    CarriesDecodable(scans[s], cd, img, actual);
    FaithfulIs(dec, img, actual, order, scans, s);
    OrderIs(order);
    var dec', places, values := DecodeScan(dec, scans[s], cd, data), Flat(cd.mcus), DecodedDc(dec, cd, data);
    assert dec' == PutAll(dec, places, Singles(values), 0, 0);
    hide *;
    forall p, k | p in actual && 0 <= k < DCTSIZE2
      ensures dec'[p][k] == AtBit(img[p][order[k]], k, LastAl(scans, s + 1, p.c, k))
    {
      PlaceAfterDc(n, scans, s, cd, img, actual, order, dec, data, p, k);
    }
    IsFaithful(dec', img, actual, order, scans, s + 1);
  }

  /** One coefficient after a DC scan. */
  lemma {:induction false} PlaceAfterDc(n: nat, scans: seq<ScanInfo>, s: nat, cd: Coding, img: Image, actual: set<Place>, order: seq<nat>,
                             dec: Store, data: seq<UInt8>, p: Place, k: nat)
    requires LegalProgressive(n, scans) && s < |scans| && scans[s].Ss == 0 && NaturalOrder(order)
    requires Carries(scans[s], cd, img, actual) && Sends(scans[s], cd, img, actual, order, data) && Faithful(dec, img, actual, order, scans, s)
    requires p in actual && k < DCTSIZE2
    ensures Decodable(scans[s], cd, dec.Keys) && (forall p :: p in dec ==> |dec[p]| == DCTSIZE2) && p in dec && p in img && order[k] < DCTSIZE2
    ensures PutAll(dec, Flat(cd.mcus), Singles(DecodedDc(dec, cd, data)), 0, 0)[p][k] == AtBit(img[p][order[k]], k, LastAl(scans, s + 1, p.c, k))
  {
    CarriesDc(scans[s], cd, img, actual);
    CarriesDecodable(scans[s], cd, img, actual);
    FaithfulIs(dec, img, actual, order, scans, s);
    OrderIs(order);
    var places, values := Flat(cd.mcus), DecodedDc(dec, cd, data);
    hide LegalProgressive, LastAl, Carries, AtBit, NaturalOrder, PutAll, DecodedDc, Flat, GoodTables, SameTables, Sends, Decodable;
    PutAllAt(dec, places, Singles(values), 0, 0, p);
    NextLastAl(scans, s, p.c, k);
    BandIs(n, scans, s);
    if p.c in scans[s].comps {
      var j :| 0 <= j < |places| && places[j] == p;
      if k == 0 {
        KnownBefore(n, scans, s, p.c, 0, img[p][0]);
        DcValueAt(n, scans, s, cd, img, actual, order, dec, data, j);
      }
    } else {
      assert p !in places;
    }
  }

  // ----- the whole script

  /** Nothing is known before the first scan. */
  function Blank(img: Image): (dec: Store)
    ensures dec.Keys == img.Keys && forall p :: p in dec ==> |dec[p]| == DCTSIZE2
  {
    map p | p in img :: seq(DCTSIZE2, k => 0)
  }

  /** Each scan of the script is coded and sent. */
  ghost predicate AllSent(scans: seq<ScanInfo>, cds: seq<Coding>, datas: seq<seq<UInt8>>, img: Image, actual: set<Place>, order: seq<nat>)
    requires NaturalOrder(order)
  {
    && |cds| == |datas| == |scans|
    && (forall s :: 0 <= s < |scans| ==> Carries(scans[s], cds[s], img, actual) && Sends(scans[s], cds[s], img, actual, order, datas[s]))
  }

  ghost function DecodeScans(img: Image, scans: seq<ScanInfo>, cds: seq<Coding>, datas: seq<seq<UInt8>>, s: nat): (r: Store)
    requires |cds| == |datas| == |scans| && s <= |scans|
    requires forall i :: 0 <= i < |scans| ==> Decodable(scans[i], cds[i], img.Keys)
    ensures r.Keys == img.Keys && forall p :: p in r ==> |r[p]| == DCTSIZE2
  {
    if s == 0 then Blank(img) else DecodeScan(DecodeScans(img, scans, cds, datas, s - 1), scans[s - 1], cds[s - 1], datas[s - 1])
  }

  lemma {:induction false} SentDecodable(scans: seq<ScanInfo>, cds: seq<Coding>, datas: seq<seq<UInt8>>, img: Image, actual: set<Place>, order: seq<nat>)
    requires NaturalOrder(order) && AllSent(scans, cds, datas, img, actual, order)
    ensures |cds| == |datas| == |scans| && forall i :: 0 <= i < |scans| ==> Decodable(scans[i], cds[i], img.Keys)
  {
    hide Carries, Sends, Decodable;
    forall i | 0 <= i < |scans| { CarriesDecodable(scans[i], cds[i], img, actual); }
  }

  /** After any number of scans of an accepted script, every coefficient is known down to the
      bit that the script has reached for it, and those not yet sent are zero. */
  lemma {:induction false} ScansDecode(n: nat, scans: seq<ScanInfo>, cds: seq<Coding>, datas: seq<seq<UInt8>>, img: Image, actual: set<Place>,
                            order: seq<nat>, s: nat)
    requires LegalProgressive(n, scans) && NaturalOrder(order) && AllSent(scans, cds, datas, img, actual, order) && actual <= img.Keys
    requires s <= |scans|
    ensures forall i :: 0 <= i < |scans| ==> Decodable(scans[i], cds[i], img.Keys)
    ensures Faithful(DecodeScans(img, scans, cds, datas, s), img, actual, order, scans, s)
  {
    hide *;
    SentDecodable(scans, cds, datas, img, actual, order);
    DecodeScansStep(img, scans, cds, datas, s);
    if s == 0 {
      BlankFaithful(img, actual, order, scans);
    } else {
      ScansDecode(n, scans, cds, datas, img, actual, order, s - 1);
      var dec := DecodeScans(img, scans, cds, datas, s - 1);
      SentAt(n, scans, cds, datas, img, actual, order, s - 1);
      if scans[s - 1].Ss == 0 {
        DcScanStep(n, scans, s - 1, cds[s - 1], img, actual, order, dec, datas[s - 1]);
      } else {
        AcScanStep(n, scans, s - 1, cds[s - 1], img, actual, order, dec, datas[s - 1]);
      }
    }
  }

  lemma {:induction false} DecodeScansStep(img: Image, scans: seq<ScanInfo>, cds: seq<Coding>, datas: seq<seq<UInt8>>, s: nat)
    requires |cds| == |datas| == |scans| && s <= |scans|
    requires forall i :: 0 <= i < |scans| ==> Decodable(scans[i], cds[i], img.Keys)
    ensures DecodeScans(img, scans, cds, datas, s)
         == if s == 0 then Blank(img) else DecodeScan(DecodeScans(img, scans, cds, datas, s - 1), scans[s - 1], cds[s - 1], datas[s - 1])
  {
    hide Decodable, DecodeScan, Blank;
  }

  lemma {:induction false} SentAt(n: nat, scans: seq<ScanInfo>, cds: seq<Coding>, datas: seq<seq<UInt8>>, img: Image, actual: set<Place>,
                       order: seq<nat>, s: nat)
    requires LegalProgressive(n, scans) && NaturalOrder(order) && AllSent(scans, cds, datas, img, actual, order) && s < |scans|
    ensures Carries(scans[s], cds[s], img, actual) && Sends(scans[s], cds[s], img, actual, order, datas[s]) && scans[s].Ss >= 0
  {
    hide Carries, Sends, NaturalOrder;
    BandIs(n, scans, s);
  }

  lemma {:induction false} BlankFaithful(img: Image, actual: set<Place>, order: seq<nat>, scans: seq<ScanInfo>)
    requires NaturalOrder(order) && actual <= img.Keys
    ensures Faithful(Blank(img), img, actual, order, scans, 0)
  {
    hide NaturalOrder;
    OrderIs(order);
    IsFaithful(Blank(img), img, actual, order, scans, 0);
  }

  /** Once an accepted script has brought every coefficient to bit 0, decoding its scans one
      after the other has given back every coefficient of every block that counts. */
  lemma {:induction false} WholeImage(n: nat, scans: seq<ScanInfo>, cds: seq<Coding>, datas: seq<seq<UInt8>>, img: Image, actual: set<Place>,
                           order: seq<nat>)
    requires LegalProgressive(n, scans) && NaturalOrder(order) && AllSent(scans, cds, datas, img, actual, order)
    requires actual <= img.Keys && forall p :: p in actual ==> p.c < n
    requires forall c, k :: 0 <= c < n && 0 <= k < DCTSIZE2 ==> LastAl(scans, |scans|, c, k) == 0
    ensures forall i :: 0 <= i < |scans| ==> Decodable(scans[i], cds[i], img.Keys)
    ensures var dec := DecodeScans(img, scans, cds, datas, |scans|);
            forall p, k :: p in actual && 0 <= k < DCTSIZE2 ==> dec[p][k] == img[p][order[k]]
  {
    ScansDecode(n, scans, cds, datas, img, actual, order, |scans|);
    OrderIs(order);
    var dec := DecodeScans(img, scans, cds, datas, |scans|);
    hide LegalProgressive, AllSent, LastAl, DecodeScans, AtBit, NaturalOrder;
    forall p, k | p in actual && 0 <= k < DCTSIZE2
      ensures dec[p][k] == img[p][order[k]]
    {
      BitZero(img[p][order[k]], k);
    }
  }

  /** In particular for the scripts of jpeg_simple_progression. */
  lemma {:induction false} StandardScript(n: nat, ycc: bool, cds: seq<Coding>, datas: seq<seq<UInt8>>, img: Image, actual: set<Place>, order: seq<nat>)
    requires n >= 1 && NaturalOrder(order) && AllSent(SimpleProgression.Script(n, ycc), cds, datas, img, actual, order)
    requires actual <= img.Keys && forall p :: p in actual ==> p.c < n
    ensures var scans := SimpleProgression.Script(n, ycc);
            && |cds| == |datas| == |scans| && (forall i :: 0 <= i < |scans| ==> Decodable(scans[i], cds[i], img.Keys))
            && forall p, k :: p in actual && 0 <= k < DCTSIZE2 ==> DecodeScans(img, scans, cds, datas, |scans|)[p][k] == img[p][order[k]]
  {
    var scans := SimpleProgression.Script(n, ycc);
    SimpleProgression.ScriptAccepted(n, ycc);
    assert LegalProgressive(n, scans);
    hide *;
    SentDecodable(scans, cds, datas, img, actual, order);
    WholeImage(n, scans, cds, datas, img, actual, order);
  }

  lemma {:induction false} BitZero(v: int, k: nat)
    ensures AtBit(v, k, 0) == v
  {
    assert Pow2(0) == 1;
  }
}
