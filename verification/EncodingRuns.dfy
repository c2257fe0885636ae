/** The output pass of a sequential scan against any destination: buffers that are
    drained between calls, refusals in the middle of an MCU, and the calls
    repeated until everything is out. */
module EncodingRuns {
  import opened HuffTable
  import opened Stuffing
  import opened ScanCoding
  import opened BitWriter
  import opened HuffEncoder
  import opened ScanLayout

  /** The empty buffer that the application has ready for a call, and whether
      empty_output_buffer succeeds during it. */
  datatype Offer = Offer(room: nat, dump: bool)

  /** The state after the first i MCUs. */
  ghost function After(sc: Scan, tabs: CTables, mcus: seq<seq<Block>>, i: nat): (st: State)
    requires ValidScan(sc) && ShapedTables(tabs) && ValidMcus(sc, mcus) && i <= |mcus|
    ensures ValidState(sc, st)
  {
    StartIsValid(sc);
    Steps(sc, tabs, StartState(sc), mcus[..i])
  }

  lemma {:induction false} StartIsValid(sc: Scan)
    ensures ValidState(sc, StartState(sc))
  {
  }

  lemma {:induction false} AfterNext(sc: Scan, tabs: CTables, mcus: seq<seq<Block>>, i: nat)
    requires ValidScan(sc) && ShapedTables(tabs) && ValidMcus(sc, mcus) && i < |mcus|
    ensures After(sc, tabs, mcus, i + 1) == Step(sc, tabs, After(sc, tabs, mcus, i), mcus[i])
  {
    hide Step, ValidScan, ShapedTables;
    assert mcus[..i + 1][..i] == mcus[..i];
  }

  lemma {:induction false} AfterEnds(sc: Scan, tabs: CTables, mcus: seq<seq<Block>>)
    requires ValidScan(sc) && ShapedTables(tabs) && ValidMcus(sc, mcus)
    ensures After(sc, tabs, mcus, 0) == StartState(sc)
    ensures After(sc, tabs, mcus, |mcus|) == Steps(sc, tabs, StartState(sc), mcus)
  {
    assert mcus[..|mcus|] == mcus && mcus[..0] == [];
  }

  /** No MCU before the i-th makes the encoder give up. */
  ghost predicate CodableUpto(sc: Scan, tabs: CTables, mcus: seq<seq<Block>>, i: nat)
    requires ValidScan(sc) && ShapedTables(tabs) && ValidMcus(sc, mcus) && i <= |mcus|
  {
    forall k :: 0 <= k < i ==> McuCodable(sc, tabs, After(sc, tabs, mcus, k), mcus[k])
  }

  lemma {:induction false} CodableAll(sc: Scan, tabs: CTables, mcus: seq<seq<Block>>)
    requires ValidScan(sc) && ShapedTables(tabs) && ValidMcus(sc, mcus)
    ensures CodableUpto(sc, tabs, mcus, |mcus|) <==> ScanCodable(sc, tabs, StartState(sc), mcus)
  {
    hide McuCodable, ValidScan, ShapedTables;
    assert forall k :: 0 <= k < |mcus| ==> After(sc, tabs, mcus, k) == Steps(sc, tabs, StartState(sc), mcus[..k]);
  }

  /** How many bytes MCU i adds to the output. */
  ghost function Growth(sc: Scan, tabs: CTables, mcus: seq<seq<Block>>, i: nat): int
    requires ValidScan(sc) && ShapedTables(tabs) && ValidMcus(sc, mcus) && i < |mcus|
  {
    |SentBytes(After(sc, tabs, mcus, i + 1))| - |SentBytes(After(sc, tabs, mcus, i))|
  }

  /** Room for more than need bytes is enough for any MCU. */
  ghost predicate Suffices(sc: Scan, tabs: CTables, mcus: seq<seq<Block>>, need: int)
    requires ValidScan(sc) && ShapedTables(tabs) && ValidMcus(sc, mcus)
  {
    forall i :: 0 <= i < |mcus| ==> Growth(sc, tabs, mcus, i) <= need
  }

  function Productive(offers: seq<Offer>, need: int): nat {
    if offers == [] then 0 else
    Productive(offers[..|offers| - 1], need) + if offers[|offers| - 1].room > need then 1 else 0
  }

  lemma {:induction false} ProductiveNext(offers: seq<Offer>, need: int, k: nat)
    requires k < |offers|
    ensures Productive(offers[..k + 1], need) == Productive(offers[..k], need) + if offers[k].room > need then 1 else 0
  {
    assert offers[..k + 1][..k] == offers[..k];
  }

  // ----- output only grows

  lemma {:induction false} SentExtends(a: seq<bool>, b: seq<bool>)
    ensures Sent(a) <= Sent(a + b)
  {
    OctetsAppend(a, b);
    StuffAppend(Octets(a), Octets(Remainder(a) + b));
  }

  lemma {:induction false} PrefixTwice(a: seq<UInt8>, x: seq<UInt8>, y: seq<UInt8>, z: seq<UInt8>)
    requires x <= y
    ensures a + x <= a + y && a + x <= a + y + z
  {
    assert (a + y)[..|a| + |x|] == a + x && (a + y + z)[..|a| + |x|] == a + x;
  }

  lemma {:induction false} StepExtends(sc: Scan, tabs: CTables, st: State, mcu: seq<Block>)
    requires ValidScan(sc) && ShapedTables(tabs) && ValidState(sc, st) && ValidMcu(sc, mcu)
    ensures SentBytes(st) <= SentBytes(Step(sc, tabs, st, mcu))
  {
    hide ValidScan, ShapedTables, Sent, TaggedBits, McuItems, LastFrom, SegmentBytes;
    var s1, x := Restarted(sc, st), TaggedBits(sc, tabs, McuItems(sc, st, mcu));
    if NeedsRestart(sc, st) {
      FinalExtends(st);
      var m := [0xFF, RST0 + st.rst];
      assert Step(sc, tabs, st, mcu).base == Final(st) + m;
      assert SentBytes(Step(sc, tabs, st, mcu)) == Final(st) + (m + Sent(s1.seg + x));
    } else {
      SentExtends(st.seg, x);
      PrefixTwice(st.base, Sent(st.seg), Sent(st.seg + x), []);
    }
  }

  lemma {:induction false} FinalExtends(st: State)
    ensures SentBytes(st) <= Final(st)
  {
    hide Sent, SegmentBytes;
    SegmentIsSent(st.seg);
    SentExtends(st.seg, Ones(7));
    PrefixTwice(st.base, Sent(st.seg), SegmentBytes(st.seg), []);
  }

  // ----- one call

  lemma {:induction false} EncoderFacts(e: HuffEncoder)
    requires e.Valid()
    ensures ValidScan(e.sc) && ShapedTables(e.tabs) && ValidState(e.sc, e.St())
    ensures e.out == SentBytes(e.St()) && e.free > 0
  {
  }

  /** compress_data calls encode_mcu for one MCU after the other until it
      refuses; i counts those that are done. */
  method EncodeSome(e: HuffEncoder, mcus: seq<seq<Block>>, i0: nat) returns (st: Status, i: nat)
    requires e.Valid() && ValidMcus(e.sc, mcus) && i0 <= |mcus|
    requires e.St() == After(e.sc, e.tabs, mcus, i0) && CodableUpto(e.sc, e.tabs, mcus, i0)
    modifies e
    ensures e.Valid() && e.canDump == old(e.canDump) && i0 <= i <= |mcus| && old(e.out) <= e.out
    ensures e.St() == After(e.sc, e.tabs, mcus, i) && CodableUpto(e.sc, e.tabs, mcus, i)
    ensures !e.canDump ==> e.free + |e.out| == old(e.free + |e.out|)
    ensures st == Done <==> i == |mcus|
    ensures st == Failed ==> !McuCodable(e.sc, e.tabs, e.St(), mcus[i])
    ensures st == Suspended && CodableUpto(e.sc, e.tabs, mcus, i + 1) ==>
              !e.canDump && |SentBytes(After(e.sc, e.tabs, mcus, i + 1))| >= e.free + |e.out|
  {
    hide ValidScan, ShapedTables, Step, McuCodable, After, HuffEncoder.Valid, HuffEncoder.St, SentBytes;
    i := i0;
    EncoderFacts(e);
    while i < |mcus|
      invariant i0 <= i <= |mcus| && e.Valid() && e.canDump == old(e.canDump) && old(e.out) <= e.out
      invariant e.St() == After(e.sc, e.tabs, mcus, i) && CodableUpto(e.sc, e.tabs, mcus, i)
      invariant !e.canDump ==> e.free + |e.out| == old(e.free + |e.out|)
    {
      AfterNext(e.sc, e.tabs, mcus, i);
      EncoderFacts(e);
      StepExtends(e.sc, e.tabs, e.St(), mcus[i]);
      st := e.EncodeMcu(mcus[i]);
      if st != Done {
        return;
      }
      i := i + 1;
    }
    st := Done;
  }

  // ----- all calls

  /** Enough is offered for the whole scan: a destination that empties its buffer, or a
      sufficient buffer for every MCU; and the last buffer has room for the last byte. */
  ghost predicate EnoughFor(sc: Scan, tabs: CTables, mcus: seq<seq<Block>>, offers: seq<Offer>, last: Offer, need: int)
    requires ValidScan(sc) && ShapedTables(tabs) && ValidMcus(sc, mcus)
  {
    var end := After(sc, tabs, mcus, |mcus|);
    && Suffices(sc, tabs, mcus, need)
    && ((exists k :: 0 <= k < |offers| && offers[k].dump) || Productive(offers, need) >= |mcus|)
    && (last.dump || |Final(end)| - |SentBytes(end)| < last.room)
  }

  /** Whether a call that starts with MCU i0 gets as far as its offer promises. */
  ghost predicate KeptPromise(o: Offer, need: int, i0: nat, i: nat, n: nat) {
    i == n || (!o.dump && (o.room > need ==> i > i0))
  }

  /** One buffer: the calls until the encoder refuses or everything is coded. */
  method FillBuffer(e: HuffEncoder, mcus: seq<seq<Block>>, i0: nat, o: Offer, ghost need: int)
    returns (st: Status, i: nat, piece: seq<UInt8>)
    requires e.Valid() && ValidMcus(e.sc, mcus) && i0 <= |mcus| && o.room > 0
    requires e.St() == After(e.sc, e.tabs, mcus, i0) && CodableUpto(e.sc, e.tabs, mcus, i0)
    modifies e
    ensures e.Valid() && i0 <= i <= |mcus|
    ensures e.St() == After(e.sc, e.tabs, mcus, i) && CodableUpto(e.sc, e.tabs, mcus, i)
    ensures e.out == old(e.out) + piece && (o.dump || |piece| < o.room)
    ensures st == Done <==> i == |mcus|
    ensures st == Failed ==> !CodableUpto(e.sc, e.tabs, mcus, |mcus|)
    ensures Suffices(e.sc, e.tabs, mcus, need) && CodableUpto(e.sc, e.tabs, mcus, |mcus|) ==> KeptPromise(o, need, i0, i, |mcus|)
  {
    hide ValidScan, ShapedTables, McuCodable, After, HuffEncoder.Valid, HuffEncoder.St, SentBytes, ValidMcu;
    ghost var out0 := e.out;
    EncoderFacts(e);
    e.NewBuffer(o.room, o.dump);
    var n0 := |e.out|;
    st, i := EncodeSome(e, mcus, i0);
    EncoderFacts(e);
    piece := e.out[n0..];
    assert e.out == out0 + piece;
    if st == Suspended && i == i0 && Suffices(e.sc, e.tabs, mcus, need) {
      assert Growth(e.sc, e.tabs, mcus, i) <= need;
    }
  }

  /** The whole output pass, one buffer after the other. However the destination refuses, what
      has been stored is what an encoder that never suspends has sent for the MCUs done so far;
      when the pass is over it is the whole scan; and it is over as soon as enough was offered. */
  method EncodeScanInPieces(sc: Scan, tabs: CTables, mcus: seq<seq<Block>>, bufSize: nat, offers: seq<Offer>, last: Offer,
                            ghost need: int)
    returns (st: Status, pieces: seq<seq<UInt8>>, tail: seq<UInt8>, done: nat)
    requires ValidScan(sc) && ShapedTables(tabs) && ValidMcus(sc, mcus) && bufSize > 0
    requires last.room > 0 && forall k :: 0 <= k < |offers| ==> offers[k].room > 0
    ensures |pieces| <= |offers| && done <= |mcus| && CodableUpto(sc, tabs, mcus, done)
    ensures forall k :: 0 <= k < |pieces| ==> offers[k].dump || |pieces[k]| < offers[k].room
    ensures last.dump || |tail| < last.room
    ensures st == Done ==> ScanCodable(sc, tabs, StartState(sc), mcus)
    ensures st == Done ==> Concat(pieces) + tail == Final(Steps(sc, tabs, StartState(sc), mcus))
    ensures st != Done ==> Concat(pieces) == SentBytes(After(sc, tabs, mcus, done))
    ensures st == Suspended ==> done < |mcus| && |pieces| == |offers|
    ensures st == Failed ==> !ScanCodable(sc, tabs, StartState(sc), mcus) || (done == |mcus| && !last.dump)
    ensures ScanCodable(sc, tabs, StartState(sc), mcus) && EnoughFor(sc, tabs, mcus, offers, last, need) ==> st == Done
  {
    hide ValidScan, ShapedTables, McuCodable, After, HuffEncoder.Valid, HuffEncoder.St, SentBytes, ValidMcu, Suffices, CodableUpto,
      ScanCodable, Steps, Final, Productive;
    AfterEnds(sc, tabs, mcus);
    CodableAll(sc, tabs, mcus);
    var e := new HuffEncoder(sc, tabs, last.dump, bufSize, last.room);
    EncoderFacts(e);
    pieces, tail, done, st := [], [], 0, Suspended;
    CodableNone(sc, tabs, mcus);
    NothingOffered(offers, need);
    ghost var good := Suffices(sc, tabs, mcus, need) && CodableUpto(sc, tabs, mcus, |mcus|);
    for k := 0 to |offers|
      invariant fresh(e) && e.Valid() && e.sc == sc && e.tabs == tabs && done <= |mcus|
      invariant e.St() == After(sc, tabs, mcus, done) && CodableUpto(sc, tabs, mcus, done)
      invariant Concat(pieces) == e.out && |pieces| <= k
      invariant done < |mcus| ==> |pieces| == k
      invariant forall j :: 0 <= j < |pieces| ==> offers[j].dump || |pieces[j]| < offers[j].room
      invariant good && done < |mcus| ==> done >= Productive(offers[..k], need) && forall j :: 0 <= j < k ==> !offers[j].dump
    {
      if done < |mcus| {
        ProductiveNext(offers, need, k);
        var piece;
        st, done, piece := FillBuffer(e, mcus, done, offers[k], need);
        ConcatNext(pieces, piece);
        pieces := pieces + [piece];
        EncoderFacts(e);
        if st == Failed {
          return;
        }
      }
    }
    assert offers[..|offers|] == offers;
    EncoderFacts(e);
    if done < |mcus| {
      st := Suspended;
      return;
    }
    e.NewBuffer(last.room, last.dump);
    ghost var end := e.St();
    FinalExtends(end);
    var n0 := |e.out|;
    st := e.FinishPass();
    if st == Done {
      tail := e.out[n0..];
    }
  }

  lemma {:induction false} NothingOffered(offers: seq<Offer>, need: int)
    ensures Productive(offers[..0], need) == 0
  {
  }

  lemma {:induction false} CodableNone(sc: Scan, tabs: CTables, mcus: seq<seq<Block>>)
    requires ValidScan(sc) && ShapedTables(tabs) && ValidMcus(sc, mcus)
    ensures CodableUpto(sc, tabs, mcus, 0)
  {
  }

  /** There is always a size of buffer that suffices. */
  lemma {:induction false} SomeSuffices(sc: Scan, tabs: CTables, mcus: seq<seq<Block>>, n: nat) returns (need: int)
    requires ValidScan(sc) && ShapedTables(tabs) && ValidMcus(sc, mcus) && n <= |mcus|
    ensures forall i :: 0 <= i < n ==> Growth(sc, tabs, mcus, i) <= need
  {
    hide ValidScan, ShapedTables, Growth;
    if n == 0 {
      need := 0;
    } else {
      need := SomeSuffices(sc, tabs, mcus, n - 1);
      if Growth(sc, tabs, mcus, n - 1) > need {
        need := Growth(sc, tabs, mcus, n - 1);
      }
    }
  }

  lemma {:induction false} SufficesIs(sc: Scan, tabs: CTables, mcus: seq<seq<Block>>, need: int)
    requires ValidScan(sc) && ShapedTables(tabs) && ValidMcus(sc, mcus)
    requires forall i :: 0 <= i < |mcus| ==> Growth(sc, tabs, mcus, i) <= need
    ensures Suffices(sc, tabs, mcus, need)
  {
  }

  /** In particular through a destination that never refuses: it succeeds exactly when no MCU
      makes the encoder give up. */
  method EncodeScan(sc: Scan, tabs: CTables, mcus: seq<seq<Block>>, bufSize: nat) returns (ok: bool, bytes: seq<UInt8>)
    requires ValidScan(sc) && ShapedTables(tabs) && ValidMcus(sc, mcus) && bufSize > 0
    ensures ok <==> ScanCodable(sc, tabs, StartState(sc), mcus)
    ensures ok ==> bytes == Final(Steps(sc, tabs, StartState(sc), mcus)) && ScanBytes(sc, tabs, mcus, bytes)
  {
    hide *;
    Layout(sc, tabs, mcus);
    var o := Offer(bufSize, true);
    ghost var need := SomeSuffices(sc, tabs, mcus, |mcus|);
    SufficesIs(sc, tabs, mcus, need);
    OneDump(sc, tabs, mcus, o, need);
    var st, pieces, tail, done := EncodeScanInPieces(sc, tabs, mcus, bufSize, [o], o, need);
    ok, bytes := st == Done, Concat(pieces) + tail;
  }

  lemma {:induction false} OneDump(sc: Scan, tabs: CTables, mcus: seq<seq<Block>>, o: Offer, need: int)
    requires ValidScan(sc) && ShapedTables(tabs) && ValidMcus(sc, mcus) && Suffices(sc, tabs, mcus, need) && o.dump
    ensures EnoughFor(sc, tabs, mcus, [o], o, need)
  {
    hide Suffices, Final, SentBytes;
    assert [o][0].dump;
  }
}
