/** The pass machine of jcmaster.c and the finishing loop of jcapimin.c: which
    scan is worked on in which pass, and when headers are written. */
module CompressPasses {
  import opened ScanScript

  datatype PassType = MainPass | HuffOptPass | OutputPass

  /** What a pass does, with the scan parameters that are loaded at that time. */
  datatype Event = FrameHeader | ScanHeader(params: ScanInfo) | Statistics(params: ScanInfo) | Data(params: ScanInfo)

  /** Huffman coding needs no table for a DC refinement scan. */
  predicate DcRefinement(sc: ScanInfo) {
    sc.Ss == 0 && sc.Ah != 0
  }

  /** What one scan should cause. */
  function ScanEvents(scans: seq<ScanInfo>, optimize: bool, i: nat): seq<Event>
    requires i < |scans|
  {
    (if optimize && !DcRefinement(scans[i]) then [Statistics(scans[i])] else [])
    + (if i == 0 then [FrameHeader] else [])
    + [ScanHeader(scans[i]), Data(scans[i])]
  }

  function Expected(scans: seq<ScanInfo>, optimize: bool, k: nat): seq<Event>
    requires k <= |scans|
  {
    if k == 0 then [] else Expected(scans, optimize, k - 1) + ScanEvents(scans, optimize, k - 1)
  }

  class CompMaster {
    const scans: seq<ScanInfo>      // a NULL scan_info counts as one scan of everything
    const optimizeCoding: bool
    var passType: PassType
    var passNumber: nat             // passes completed
    var totalPasses: nat
    var scanNumber: nat
    var callPassStartup: bool
    var isLastPass: bool
    var params: ScanInfo            // comps_in_scan, Ss, Se, Ah, Al of cinfo
    var gather: bool                // how the entropy coder was started
    ghost var log: seq<Event>

    /** jinit_c_master_control. */
    constructor (scans: seq<ScanInfo>, optimizeCoding: bool, transcodeOnly: bool)
      requires |scans| > 0 && scans[0].Ah == 0
      ensures this.scans == scans && this.optimizeCoding == optimizeCoding && log == [] && !isLastPass && scanNumber == passNumber == 0
      ensures totalPasses == if optimizeCoding then 2 * |scans| else |scans|
      ensures passType == if !transcodeOnly then MainPass else if optimizeCoding then HuffOptPass else OutputPass
    {
      this.scans, this.optimizeCoding := scans, optimizeCoding;
      passType := if !transcodeOnly then MainPass else if optimizeCoding then HuffOptPass else OutputPass;
      scanNumber, passNumber := 0, 0;
      totalPasses := if optimizeCoding then |scans| * 2 else |scans|;
      isLastPass, callPassStartup, params, gather, log := false, false, scans[0], false, [];
    }

    /** Before the pass that follows the completed ones. */
    ghost predicate Between()
      reads this
    {
      && |scans| > 0 && scans[0].Ah == 0 && scanNumber <= |scans|
      && totalPasses == (if optimizeCoding then 2 * |scans| else |scans|)
      && (isLastPass <==> passNumber == totalPasses)
      && (if !optimizeCoding then
            passType == OutputPass && passNumber == scanNumber && log == Expected(scans, false, scanNumber)
          else if passType == OutputPass then
            && scanNumber < |scans| && passNumber == 2 * scanNumber + 1 && params == scans[scanNumber]
            && !DcRefinement(params) && log == Expected(scans, true, scanNumber) + [Statistics(params)]
          else
            passType == HuffOptPass && passNumber == 2 * scanNumber && log == Expected(scans, true, scanNumber))
    }

    method PrepareForPass()
      requires scanNumber < |scans|
      modifies this
      ensures passType != MainPass ==> !callPassStartup
      ensures scanNumber == old(scanNumber) && totalPasses == old(totalPasses)
      ensures isLastPass <==> passNumber == totalPasses - 1
      ensures old(passType) == MainPass ==>
                && params == scans[scanNumber] && gather == optimizeCoding && callPassStartup == !optimizeCoding
                && passType == MainPass && passNumber == old(passNumber) && log == old(log)
      ensures old(passType) == HuffOptPass && (scans[scanNumber].Ss != 0 || scans[scanNumber].Ah == 0) ==>
                && params == scans[scanNumber] && gather && passType == HuffOptPass && passNumber == old(passNumber) && log == old(log)
      ensures old(passType) == HuffOptPass && scans[scanNumber].Ss == 0 && scans[scanNumber].Ah != 0 ==>
                && !gather && passType == OutputPass && passNumber == old(passNumber) + 1
                && params == scans[scanNumber]
                && log == old(log) + (if scanNumber == 0 then [FrameHeader] else []) + [ScanHeader(params)]
      ensures old(passType) == OutputPass ==>
                && !gather && passType == OutputPass && passNumber == old(passNumber)
                && params == (if optimizeCoding then old(params) else scans[scanNumber])
                && log == old(log) + (if scanNumber == 0 then [FrameHeader] else []) + [ScanHeader(params)]
    {
      var output := false;
      match passType {
      case MainPass =>
        params := scans[scanNumber];
        gather := optimizeCoding;
        callPassStartup := !optimizeCoding;
      case HuffOptPass =>
        params := scans[scanNumber];
        if params.Ss != 0 || params.Ah == 0 {
          gather := true;
          callPassStartup := false;
        } else {
          passType := OutputPass;
          passNumber := passNumber + 1;
          output := true;
        }
      case OutputPass =>
        if !optimizeCoding {
          params := scans[scanNumber];
        }
        output := true;
      }
      if output {
        gather := false;
        if scanNumber == 0 {
          log := log + [FrameHeader];
        }
        log := log + [ScanHeader(params)];
        callPassStartup := false;
      }
      isLastPass := passNumber == totalPasses - 1;
    }

    /** The scanlines of the first pass; headers come before the first of them. */
    method WriteScanlines()
      modifies `callPassStartup, `log
      ensures !callPassStartup
      ensures log == old(log) + (if old(callPassStartup) then [FrameHeader, ScanHeader(params)] else [])
                  + [if gather then Statistics(params) else Data(params)]
    {
      if callPassStartup {
        callPassStartup := false;
        log := log + [FrameHeader, ScanHeader(params)];
      }
      log := log + [if gather then Statistics(params) else Data(params)];
    }

    /** The coefficient controller run over all iMCU rows of its buffer. */
    method CompressBuffered()
      modifies `log
      ensures log == old(log) + [if gather then Statistics(params) else Data(params)]
    {
      log := log + [if gather then Statistics(params) else Data(params)];
    }

    method FinishPassMaster()
      modifies `passType, `scanNumber, `passNumber
      ensures passNumber == old(passNumber) + 1
      ensures passType == if old(passType) == OutputPass && optimizeCoding then HuffOptPass else OutputPass
      ensures scanNumber == old(scanNumber) +
                (if (old(passType) == MainPass && !optimizeCoding) || old(passType) == OutputPass then 1 else 0)
    {
      match passType {
      case MainPass =>
        passType := OutputPass;
        if !optimizeCoding {
          scanNumber := scanNumber + 1;
        }
      case HuffOptPass =>
        passType := OutputPass;
      case OutputPass =>
        if optimizeCoding {
          passType := HuffOptPass;
        }
        scanNumber := scanNumber + 1;
      }
      passNumber := passNumber + 1;
    }

    /** One turn of the loop in jpeg_finish_compress. */
    method RemainingPass()
      requires Between() && !isLastPass
      modifies this
      ensures Between() && passNumber > old(passNumber) && passNumber <= totalPasses == old(totalPasses)
    {
      ghost var s := scanNumber;
      if s < |scans| {
        ExpectedNext(scans, optimizeCoding, s);
      }
      PrepareForPass();
      CompressBuffered();
      FinishPassMaster();
      if scanNumber > s {
        assert log == Expected(scans, optimizeCoding, s) + ScanEvents(scans, optimizeCoding, s);
      }
    }

    /** jpeg_finish_compress: all passes after the first, then the trailer. */
    method FinishCompress()
      requires Between()
      modifies this
      ensures log == Expected(scans, optimizeCoding, |scans|)
      ensures passNumber == totalPasses == old(totalPasses)
    {
      while !isLastPass
        invariant Between() && passNumber <= totalPasses == old(totalPasses)
        decreases totalPasses - passNumber
      {
        RemainingPass();
      }
    }
  }

  /** The statistics gathered since the last scan data before event i. */
  function StatisticsSince(log: seq<Event>, i: nat): seq<ScanInfo>
    requires i <= |log|
  {
    if i == 0 || log[i - 1].Data? then [] else
    StatisticsSince(log, i - 1) + if log[i - 1].Statistics? then [log[i - 1].params] else []
  }

  /** a is cut off at an end of scan data. */
  lemma {:induction false} StatisticsAppend(a: seq<Event>, b: seq<Event>, i: nat)
    requires i <= |a + b| && (a == [] || a[|a| - 1].Data?)
    ensures StatisticsSince(a + b, i) == if i <= |a| then StatisticsSince(a, i) else StatisticsSince(b, i - |a|)
  {
    if i > 0 {
      StatisticsAppend(a, b, i - 1);
    }
  }

  /** A scan has statistics of its own, once, unless tables are not optimised or it is a DC
      refinement; and there are no others. */
  lemma {:induction false} StatisticsWhereNeeded(scans: seq<ScanInfo>, optimize: bool, k: nat)
    requires k <= |scans|
    ensures var log := Expected(scans, optimize, k);
            && (k > 0 ==> log != [] && log[|log| - 1].Data?)
            && (forall i :: 0 <= i < |log| && log[i].Data? ==>
                  StatisticsSince(log, i) ==
                    if optimize && (log[i].params.Ss != 0 || log[i].params.Ah == 0) then [log[i].params] else [])
            && (!optimize ==> forall i :: 0 <= i < |log| ==> !log[i].Statistics?)
  {
    hide ScanEvents, StatisticsSince, Expected;
    if k == 0 {
      NoEvents(scans, optimize);
    } else {
      StatisticsWhereNeeded(scans, optimize, k - 1);
      ExpectedNext(scans, optimize, k - 1);
      NoEvents(scans, optimize);
      OwnStatistics(scans, optimize, k - 1);
      var a, b := Expected(scans, optimize, k - 1), ScanEvents(scans, optimize, k - 1);
      var log: seq<Event> := a + b;
      forall i | 0 <= i < |log| && log[i].Data?
        ensures StatisticsSince(log, i) ==
                  if optimize && (log[i].params.Ss != 0 || log[i].params.Ah == 0) then [log[i].params] else []
      {
        StatisticsAppend(a, b, i);
        if i < |a| {
          assert log[i] == a[i];
        } else {
          assert log[i] == b[i - |a|];
        }
      }
      if !optimize {
        forall i | 0 <= i < |log|
          ensures !log[i].Statistics?
        {
          if i >= |a| { assert log[i] == b[i - |a|]; }
        }
      }
    }
  }

  lemma {:induction false} NoEvents(scans: seq<ScanInfo>, optimize: bool)
    ensures Expected(scans, optimize, 0) == []
  {
  }

  lemma {:induction false} OwnStatistics(scans: seq<ScanInfo>, optimize: bool, i: nat)
    requires i < |scans|
    ensures var b := ScanEvents(scans, optimize, i);
            && |b| >= 2 && b[|b| - 1] == Data(scans[i]) && (forall j :: 0 <= j < |b| - 1 ==> !b[j].Data?)
            && StatisticsSince(b, |b| - 1) == if optimize && (scans[i].Ss != 0 || scans[i].Ah == 0) then [scans[i]] else []
    ensures !optimize ==> forall j :: 0 <= j < |ScanEvents(scans, optimize, i)| ==> !ScanEvents(scans, optimize, i)[j].Statistics?
  {
    var b := ScanEvents(scans, optimize, i);
    assert StatisticsSince(b, 0) == [];
    if |b| >= 3 { assert StatisticsSince(b, 1) == if b[0].Statistics? then [scans[i]] else []; }
    if |b| == 4 { assert StatisticsSince(b, 2) == [scans[i]]; }
  }

  lemma {:induction false} ExpectedNext(scans: seq<ScanInfo>, optimize: bool, s: nat)
    requires s < |scans|
    ensures Expected(scans, optimize, s + 1) == Expected(scans, optimize, s) + ScanEvents(scans, optimize, s)
  {
  }

  /** A whole compression, from scanlines or from coefficients: every scan of an
      accepted script is output once and in order with its own parameters, the
      frame header once and before any scan header, and statistics are
      gathered for every scan but DC refinements when tables are optimised. */
  method Compress(n: nat, scans: seq<ScanInfo>, optimizeCoding: bool, transcodeOnly: bool) returns (ghost log: seq<Event>, passes: nat)
    requires LegalScript(n, scans)
    ensures log == Expected(scans, optimizeCoding || IsProgressive(scans), |scans|)
    // a scan is preceded by statistics of its own exactly if it needs a table made for it
    ensures var optimize := optimizeCoding || IsProgressive(scans);
            && (forall i :: 0 <= i < |log| && log[i].Data? ==>
                  StatisticsSince(log, i) ==
                    if optimize && (log[i].params.Ss != 0 || log[i].params.Ah == 0) then [log[i].params] else [])
            && (!optimize ==> forall i :: 0 <= i < |log| ==> !log[i].Statistics?)
    ensures passes == if optimizeCoding || IsProgressive(scans) then 2 * |scans| else |scans|
  {
    FirstScan(n, scans);
    StatisticsWhereNeeded(scans, optimizeCoding || IsProgressive(scans), |scans|);
    var m := new CompMaster(scans, optimizeCoding || IsProgressive(scans), transcodeOnly);
    if !transcodeOnly {
      m.PrepareForPass();
      m.WriteScanlines();
      m.FinishPassMaster();
      ExpectedNext(scans, m.optimizeCoding, 0);
      assert m.log == if m.optimizeCoding then [Statistics(scans[0])] else ScanEvents(scans, false, 0);
    }
    m.FinishCompress();
    log, passes := m.log, m.passNumber;
  }

  lemma {:induction false} FirstScan(n: nat, scans: seq<ScanInfo>)
    requires LegalScript(n, scans)
    ensures |scans| > 0 && scans[0].Ah == 0
  {
    if IsProgressive(scans) {
      var c, k := scans[0].comps[0], scans[0].Ss;
      assert Fits(scans, 0) && GoodBand(scans[0]) && Covers(scans[0], c, k);
      assert LastAl(scans, 0, c, k) == -1;
    } else {
      assert scans[0].(comps := []) == ScanInfo([], 0, 63, 0, 0);
    }
  }

  // ----- what the expected events say

  /** The scans whose data is output, in order. */
  function Output(log: seq<Event>): seq<ScanInfo> {
    if log == [] then [] else
    Output(log[..|log| - 1]) + if log[|log| - 1].Data? then [log[|log| - 1].params] else []
  }

  function FrameHeaders(log: seq<Event>): nat {
    if log == [] then 0 else FrameHeaders(log[..|log| - 1]) + if log[|log| - 1].FrameHeader? then 1 else 0
  }

  lemma {:induction false} EventsAppend(a: seq<Event>, b: seq<Event>)
    ensures Output(a + b) == Output(a) + Output(b) && FrameHeaders(a + b) == FrameHeaders(a) + FrameHeaders(b)
  {
    if b == [] {
      assert a + b == a;
    } else {
      EventsAppend(a, b[..|b| - 1]);
      assert (a + b)[..|a + b| - 1] == a + b[..|b| - 1] && (a + b)[|a + b| - 1] == b[|b| - 1];
    }
  }

  /** Every scan is output once, in order, right after its own header; there is
      one frame header, and it comes before every scan header. */
  lemma {:induction false} EachScanOnce(scans: seq<ScanInfo>, optimize: bool, k: nat)
    requires k <= |scans|
    ensures var log := Expected(scans, optimize, k);
            && Output(log) == scans[..k] && FrameHeaders(log) == (if k > 0 then 1 else 0)
            && (forall i :: 0 <= i < |log| && log[i].Data? ==> i > 0 && log[i - 1] == ScanHeader(log[i].params))
            && (forall i :: 0 <= i < |log| && log[i].ScanHeader? ==> exists j :: 0 <= j < i && log[j].FrameHeader?)
  {
    if k > 0 {
      EachScanOnce(scans, optimize, k - 1);
      var before, more := Expected(scans, optimize, k - 1), ScanEvents(scans, optimize, k - 1);
      EventsAppend(before, more);
      ScanOnce(scans, optimize, k - 1);
      assert scans[..k] == scans[..k - 1] + [scans[k - 1]];
      var log := before + more;
      forall i | 0 <= i < |log| && log[i].Data?
        ensures i > 0 && log[i - 1] == ScanHeader(log[i].params)
      {
        if i >= |before| { assert more[i - |before|].Data?; }
      }
      forall i | 0 <= i < |log| && log[i].ScanHeader?
        ensures exists j :: 0 <= j < i && log[j].FrameHeader?
      {
        FrameFirst(scans, optimize, k, i);
      }
    }
  }

  lemma {:induction false} ScanOnce(scans: seq<ScanInfo>, optimize: bool, i: nat)
    requires i < |scans|
    ensures var more := ScanEvents(scans, optimize, i);
            && Output(more) == [scans[i]] && FrameHeaders(more) == (if i == 0 then 1 else 0)
            && (forall j :: 0 <= j < |more| && more[j].Data? ==> j > 0 && more[j - 1] == ScanHeader(more[j].params))
  {
    hide Output, FrameHeaders;
    var a: seq<Event> := if optimize && !DcRefinement(scans[i]) then [Statistics(scans[i])] else [];
    var b: seq<Event> := if i == 0 then [FrameHeader] else [];
    var h, d := ScanHeader(scans[i]), Data(scans[i]);
    EventsAppend(a, b);
    EventsAppend(a + b, [h, d]);
    EventsAppend([h], [d]);
    assert [h] + [d] == [h, d];
    OneEvent(Statistics(scans[i]));
    OneEvent(FrameHeader);
    OneEvent(h);
    OneEvent(d);
  }

  lemma {:induction false} OneEvent(e: Event)
    ensures Output([e]) == (if e.Data? then [e.params] else []) && FrameHeaders([e]) == (if e.FrameHeader? then 1 else 0)
    ensures Output([]) == [] && FrameHeaders([]) == 0
  {
    assert [e][..0] == [];
  }

  lemma {:induction false} FrameFirst(scans: seq<ScanInfo>, optimize: bool, k: nat, i: nat)
    requires 0 < k <= |scans| && i < |Expected(scans, optimize, k)| && Expected(scans, optimize, k)[i].ScanHeader?
    ensures exists j :: 0 <= j < i && Expected(scans, optimize, k)[j].FrameHeader?
  {
    var before := Expected(scans, optimize, k - 1);
    var log := Expected(scans, optimize, k);
    if k == 1 {
      assert log == ScanEvents(scans, optimize, 0);
      var j := if optimize && !DcRefinement(scans[0]) then 1 else 0;
      assert log[j].FrameHeader?;
    } else if i < |before| {
      assert before[i].ScanHeader?;
      FrameFirst(scans, optimize, k - 1, i);
      var j :| 0 <= j < i && before[j].FrameHeader?;
      assert log[j].FrameHeader?;
    } else {
      LastHeader(scans, optimize, k - 1);
      var h :| 0 <= h < |before| && before[h].ScanHeader?;
      FrameFirst(scans, optimize, k - 1, h);
      var j :| 0 <= j < h && before[j].FrameHeader?;
      assert log[j].FrameHeader?;
    }
  }

  lemma {:induction false} LastHeader(scans: seq<ScanInfo>, optimize: bool, k: nat)
    requires 0 < k <= |scans|
    ensures exists h :: 0 <= h < |Expected(scans, optimize, k)| && Expected(scans, optimize, k)[h].ScanHeader?
  {
    var log := Expected(scans, optimize, k);
    assert log[|log| - 2].ScanHeader?;
  }
}
