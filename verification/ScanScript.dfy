/** Scan scripts: what jcmaster.c accepts (validate_script), and the recommended
    progressive script of jcparam.c (jpeg_simple_progression). */
module ScanScript {
  import opened JpegLimits

  const MAX_AH_AL := 10

  /** jpeg_scan_info; comps holds comps_in_scan component indexes. */
  datatype ScanInfo = ScanInfo(comps: seq<int>, Ss: int, Se: int, Ah: int, Al: int)

  predicate Covers(sc: ScanInfo, c: int, k: int) {
    c in sc.comps && sc.Ss <= k <= sc.Se
  }

  /** One to four components of the image, in SOF order. */
  predicate GoodComponents(n: nat, sc: ScanInfo) {
    && 1 <= |sc.comps| <= MAX_COMPS_IN_SCAN
    && (forall j :: 0 <= j < |sc.comps| ==> 0 <= sc.comps[j] < n)
    && (forall i, j :: 0 <= i < j < |sc.comps| ==> sc.comps[i] < sc.comps[j])
  }

  /** A band of DC or of AC alone, AC for one component only. */
  predicate GoodBand(sc: ScanInfo) {
    && 0 <= sc.Ss <= sc.Se < DCTSIZE2 && 0 <= sc.Ah <= MAX_AH_AL && 0 <= sc.Al <= MAX_AH_AL
    && (sc.Ss == 0 ==> sc.Se == 0) && (sc.Ss != 0 ==> |sc.comps| == 1)
  }

  /** The bit position down to which coefficient k of component c is known
      before scan i, or -1. */
  function LastAl(scans: seq<ScanInfo>, i: nat, c: int, k: int): int
    requires i <= |scans|
  {
    if i == 0 then -1 else if Covers(scans[i - 1], c, k) then scans[i - 1].Al else LastAl(scans, i - 1, c, k)
  }

  /** Scan sc continues what is known of coefficient (c, k). */
  predicate Continues(last: int, sc: ScanInfo) {
    if last < 0 then sc.Ah == 0 else sc.Ah == last && sc.Al == sc.Ah - 1
  }

  ghost predicate Fits(scans: seq<ScanInfo>, i: nat)
    requires i < |scans|
  {
    forall c, k :: Covers(scans[i], c, k) ==>
      (scans[i].Ss != 0 ==> LastAl(scans, i, c, 0) >= 0) && Continues(LastAl(scans, i, c, k), scans[i])
  }

  ghost predicate LegalProgressive(n: nat, scans: seq<ScanInfo>) {
    && (forall i :: 0 <= i < |scans| ==> GoodComponents(n, scans[i]) && GoodBand(scans[i]) && Fits(scans, i))
    && (forall c :: 0 <= c < n ==> LastAl(scans, |scans|, c, 0) >= 0)
  }

  /** Whether component c is in one of the first i scans. */
  predicate SentBefore(scans: seq<ScanInfo>, i: nat, c: int)
    requires i <= |scans|
  {
    i > 0 && (c in scans[i - 1].comps || SentBefore(scans, i - 1, c))
  }

  ghost predicate LegalSequential(n: nat, scans: seq<ScanInfo>) {
    && (forall i :: 0 <= i < |scans| ==> GoodComponents(n, scans[i]) && scans[i].(comps := []) == ScanInfo([], 0, DCTSIZE2 - 1, 0, 0))
    && (forall i, c :: 0 <= i < |scans| && c in scans[i].comps ==> !SentBefore(scans, i, c))
    && (forall c :: 0 <= c < n ==> SentBefore(scans, |scans|, c))
  }

  predicate IsProgressive(scans: seq<ScanInfo>) {
    |scans| > 0 && (scans[0].Ss != 0 || scans[0].Se != DCTSIZE2 - 1)
  }

  ghost predicate LegalScript(n: nat, scans: seq<ScanInfo>) {
    |scans| > 0 && if IsProgressive(scans) then LegalProgressive(n, scans) else LegalSequential(n, scans)
  }

  // ----- validate_script

  method CheckComponents(n: nat, sc: ScanInfo) returns (ok: bool)
    ensures ok <==> GoodComponents(n, sc)
  {
    var ncomps := |sc.comps|;
    if ncomps <= 0 || ncomps > MAX_COMPS_IN_SCAN {
      return false;
    }
    var ci := 0;
    while ci < ncomps
      invariant 0 <= ci <= ncomps
      invariant forall j :: 0 <= j < ci ==> 0 <= sc.comps[j] < n
      invariant forall i, j :: 0 <= i < j < ci ==> sc.comps[i] < sc.comps[j]
    {
      var thisi := sc.comps[ci];
      if thisi < 0 || thisi >= n || (ci > 0 && thisi <= sc.comps[ci - 1]) {
        return false;
      }
      ci := ci + 1;
    }
    ok := true;
  }

  /** last_bitpos before scan i. */
  ghost predicate Tracks(bitpos: array2<int>, n: nat, scans: seq<ScanInfo>, i: nat)
    requires i <= |scans|
    reads bitpos
  {
    && bitpos.Length0 == n && bitpos.Length1 == DCTSIZE2
    && (forall c, k :: 0 <= c < n && 0 <= k < DCTSIZE2 ==> bitpos[c, k] == LastAl(scans, i, c, k))
  }

  /** One component of a progressive scan: check its coefficients and update them. */
  method CheckCoefficients(bitpos: array2<int>, sc: ScanInfo, c: int) returns (ok: bool)
    requires 0 <= c < bitpos.Length0 && bitpos.Length1 == DCTSIZE2 && GoodBand(sc)
    modifies bitpos
    ensures ok <==> (sc.Ss != 0 ==> old(bitpos[c, 0]) >= 0) && forall k :: sc.Ss <= k <= sc.Se ==> Continues(old(bitpos[c, k]), sc)
    ensures ok ==> forall b, k :: 0 <= b < bitpos.Length0 && 0 <= k < DCTSIZE2 ==>
              bitpos[b, k] == if b == c && sc.Ss <= k <= sc.Se then sc.Al else old(bitpos[b, k])
  {
    if sc.Ss != 0 && bitpos[c, 0] < 0 {
      return false;
    }
    var coefi := sc.Ss;
    while coefi <= sc.Se
      invariant sc.Ss <= coefi <= sc.Se + 1
      invariant forall k :: sc.Ss <= k < coefi ==> Continues(old(bitpos[c, k]), sc)
      invariant forall b, k :: 0 <= b < bitpos.Length0 && 0 <= k < DCTSIZE2 ==>
                  bitpos[b, k] == if b == c && sc.Ss <= k < coefi then sc.Al else old(bitpos[b, k])
    {
      if bitpos[c, coefi] < 0 {
        if sc.Ah != 0 {
          assert !Continues(old(bitpos[c, coefi]), sc);
          return false;
        }
      } else if sc.Ah != bitpos[c, coefi] || sc.Al != sc.Ah - 1 {
        assert !Continues(old(bitpos[c, coefi]), sc);
        return false;
      }
      bitpos[c, coefi] := sc.Al;
      coefi := coefi + 1;
    }
    ok := true;
  }

  method CheckProgressiveScan(bitpos: array2<int>, ghost n: nat, ghost scans: seq<ScanInfo>, ghost i: nat, sc: ScanInfo) returns (ok: bool)
    requires i < |scans| && sc == scans[i] && Tracks(bitpos, n, scans, i) && GoodComponents(n, sc) && GoodBand(sc)
    modifies bitpos
    ensures ok <==> Fits(scans, i)
    ensures ok ==> Tracks(bitpos, n, scans, i + 1)
  {
    hide LastAl;
    var ci := 0;
    while ci < |sc.comps|
      invariant 0 <= ci <= |sc.comps|
      invariant forall j, k :: 0 <= j < ci && sc.Ss <= k <= sc.Se ==> FitsAt(scans, i, sc.comps[j], k)
      invariant forall b, k :: 0 <= b < n && 0 <= k < DCTSIZE2 ==>
                  bitpos[b, k] == if b in sc.comps[..ci] && sc.Ss <= k <= sc.Se then sc.Al else LastAl(scans, i, b, k)
    {
      var c := sc.comps[ci];
      assert c !in sc.comps[..ci];
      ok := CheckCoefficients(bitpos, sc, c);
      if !ok {
        NotFits(scans, i, c);
        return;
      }
      assert sc.comps[..ci + 1] == sc.comps[..ci] + [c];
      ci := ci + 1;
    }
    assert sc.comps[..ci] == sc.comps;
    AllFit(scans, i);
    forall c, k | 0 <= c < n && 0 <= k < DCTSIZE2
      ensures bitpos[c, k] == LastAl(scans, i + 1, c, k)
    {
      NextLastAl(scans, i, c, k);
    }
    ok := true;
  }

  predicate FitsAt(scans: seq<ScanInfo>, i: nat, c: int, k: int)
    requires i < |scans|
  {
    (scans[i].Ss != 0 ==> LastAl(scans, i, c, 0) >= 0) && Continues(LastAl(scans, i, c, k), scans[i])
  }

  lemma {:induction false} NotFits(scans: seq<ScanInfo>, i: nat, c: int)
    requires i < |scans| && c in scans[i].comps && scans[i].Ss <= scans[i].Se
    requires (scans[i].Ss != 0 && LastAl(scans, i, c, 0) < 0) ||
             exists k :: scans[i].Ss <= k <= scans[i].Se && !Continues(LastAl(scans, i, c, k), scans[i])
    ensures !Fits(scans, i)
  {
    hide LastAl;
    if scans[i].Ss != 0 && LastAl(scans, i, c, 0) < 0 {
      assert Covers(scans[i], c, scans[i].Ss);
    } else {
      var k :| scans[i].Ss <= k <= scans[i].Se && !Continues(LastAl(scans, i, c, k), scans[i]);
      assert Covers(scans[i], c, k);
    }
  }

  lemma {:induction false} AllFit(scans: seq<ScanInfo>, i: nat)
    requires i < |scans|
    requires forall j, k :: 0 <= j < |scans[i].comps| && scans[i].Ss <= k <= scans[i].Se ==> FitsAt(scans, i, scans[i].comps[j], k)
    ensures Fits(scans, i)
  {
    hide LastAl;
    forall c, k | Covers(scans[i], c, k)
      ensures FitsAt(scans, i, c, k)
    {
      var j :| 0 <= j < |scans[i].comps| && scans[i].comps[j] == c;
    }
  }

  lemma {:induction false} NextLastAl(scans: seq<ScanInfo>, i: nat, c: int, k: int)
    requires i < |scans|
    ensures LastAl(scans, i + 1, c, k) == if Covers(scans[i], c, k) then scans[i].Al else LastAl(scans, i, c, k)
  {
  }

  method CheckProgressive(n: nat, scans: seq<ScanInfo>) returns (ok: bool)
    ensures ok <==> LegalProgressive(n, scans)
  {
    hide LastAl, Fits;
    var bitpos := new int[n, DCTSIZE2]((c, k) => -1);
    NothingSent(scans);
    var scanno := 0;
    while scanno < |scans|
      invariant 0 <= scanno <= |scans| && Tracks(bitpos, n, scans, scanno)
      invariant forall i :: 0 <= i < scanno ==> GoodComponents(n, scans[i]) && GoodBand(scans[i]) && Fits(scans, i)
    {
      var sc := scans[scanno];
      ok := CheckComponents(n, sc);
      if !ok { return; }
      if sc.Ss < 0 || sc.Ss >= DCTSIZE2 || sc.Se < sc.Ss || sc.Se >= DCTSIZE2 ||
         sc.Ah < 0 || sc.Ah > MAX_AH_AL || sc.Al < 0 || sc.Al > MAX_AH_AL {
        return false;
      }
      if sc.Ss == 0 {
        if sc.Se != 0 { return false; }
      } else if |sc.comps| != 1 {
        return false;
      }
      ok := CheckProgressiveScan(bitpos, n, scans, scanno, sc);
      if !ok { return; }
      scanno := scanno + 1;
    }
    for ci := 0 to n
      invariant Tracks(bitpos, n, scans, |scans|)
      invariant forall c :: 0 <= c < ci ==> LastAl(scans, |scans|, c, 0) >= 0
    {
      if bitpos[ci, 0] < 0 {
        return false;
      }
    }
    ok := true;
  }

  lemma {:induction false} NothingSent(scans: seq<ScanInfo>)
    ensures forall c, k :: LastAl(scans, 0, c, k) == -1
  {
  }

  method CheckSequential(n: nat, scans: seq<ScanInfo>) returns (ok: bool)
    ensures ok <==> LegalSequential(n, scans)
  {
    var sent := new bool[n](c => false);
    var scanno := 0;
    while scanno < |scans|
      invariant 0 <= scanno <= |scans| && sent.Length == n
      invariant forall c :: 0 <= c < n ==> sent[c] == SentBefore(scans, scanno, c)
      invariant forall i :: 0 <= i < scanno ==> GoodComponents(n, scans[i]) && scans[i].(comps := []) == ScanInfo([], 0, DCTSIZE2 - 1, 0, 0)
      invariant forall i, c :: 0 <= i < scanno && c in scans[i].comps ==> !SentBefore(scans, i, c)
    {
      var sc := scans[scanno];
      ok := CheckComponents(n, sc);
      if !ok { return; }
      if sc.Ss != 0 || sc.Se != DCTSIZE2 - 1 || sc.Ah != 0 || sc.Al != 0 {
        return false;
      }
      ok := MarkSent(sent, scans, scanno, sc);
      if !ok { return; }
      scanno := scanno + 1;
    }
    for ci := 0 to n
      invariant forall c :: 0 <= c < n ==> sent[c] == SentBefore(scans, |scans|, c)
      invariant forall c :: 0 <= c < ci ==> SentBefore(scans, |scans|, c)
    {
      if !sent[ci] {
        return false;
      }
    }
    ok := true;
  }

  method MarkSent(sent: array<bool>, ghost scans: seq<ScanInfo>, ghost i: nat, sc: ScanInfo) returns (ok: bool)
    requires i < |scans| && sc == scans[i] && GoodComponents(sent.Length, sc)
    requires forall c :: 0 <= c < sent.Length ==> sent[c] == SentBefore(scans, i, c)
    modifies sent
    ensures ok <==> forall c :: c in sc.comps ==> !SentBefore(scans, i, c)
    ensures ok ==> forall c :: 0 <= c < sent.Length ==> sent[c] == SentBefore(scans, i + 1, c)
  {
    hide SentBefore;
    var ci := 0;
    while ci < |sc.comps|
      invariant 0 <= ci <= |sc.comps|
      invariant forall j :: 0 <= j < ci ==> !SentBefore(scans, i, sc.comps[j])
      invariant forall c :: 0 <= c < sent.Length ==> sent[c] == (c in sc.comps[..ci] || SentBefore(scans, i, c))
    {
      var thisi := sc.comps[ci];
      assert thisi !in sc.comps[..ci];
      if sent[thisi] {
        return false;
      }
      assert sc.comps[..ci + 1] == sc.comps[..ci] + [thisi];
      sent[thisi] := true;
      ci := ci + 1;
    }
    assert sc.comps[..ci] == sc.comps;
    NextSent(scans, i);
    ok := true;
  }

  lemma {:induction false} NextSent(scans: seq<ScanInfo>, i: nat)
    requires i < |scans|
    ensures forall c :: SentBefore(scans, i + 1, c) <==> c in scans[i].comps || SentBefore(scans, i, c)
  {
  }

  method ValidateScript(n: nat, scans: seq<ScanInfo>) returns (ok: bool, progressive: bool)
    ensures ok <==> LegalScript(n, scans)
    ensures progressive == IsProgressive(scans)
  {
    progressive := false;
    if |scans| == 0 {
      return false, false;
    }
    progressive := scans[0].Ss != 0 || scans[0].Se != DCTSIZE2 - 1;
    if progressive {
      ok := CheckProgressive(n, scans);
    } else {
      ok := CheckSequential(n, scans);
    }
  }

  // ----- what an accepted progressive script does to each coefficient

  /** The scans among i..j-1 that send coefficient (c, k). */
  function Count(scans: seq<ScanInfo>, i: nat, j: nat, c: int, k: int): nat
    requires j <= |scans|
    decreases j
  {
    if j <= i then 0 else (if Covers(scans[j - 1], c, k) then 1 else 0) + Count(scans, i, j - 1, c, k)
  }

  /** A coefficient is first sent whole from some bit up (Ah = 0), and from then
      on every scan of it adds exactly the next bit down: after m more scans
      it is known down to m bits below, none skipped and none sent twice. */
  lemma {:induction false} OneBitSteps(n: nat, scans: seq<ScanInfo>, c: int, k: int, i: nat, j: nat)
    requires LegalProgressive(n, scans) && i < j <= |scans|
    requires Covers(scans[i], c, k) && Count(scans, 0, i, c, k) == 0
    ensures scans[i].Ah == 0 && LastAl(scans, j, c, k) == scans[i].Al - (Count(scans, i, j, c, k) - 1) >= 0
    decreases j
  {
    hide GoodComponents;
    assert GoodBand(scans[i]) && Fits(scans, i) && Fits(scans, j - 1) && GoodBand(scans[j - 1]);
    if j == i + 1 {
      NeverSent(scans, i, c, k);
      assert Count(scans, i, i, c, k) == 0;
    } else {
      OneBitSteps(n, scans, c, k, i, j - 1);
    }
  }

  lemma {:induction false} NeverSent(scans: seq<ScanInfo>, i: nat, c: int, k: int)
    requires i <= |scans|
    ensures LastAl(scans, i, c, k) == -1 || exists j :: 0 <= j < i && Covers(scans[j], c, k) && LastAl(scans, i, c, k) == scans[j].Al
    ensures Count(scans, 0, i, c, k) == 0 ==> LastAl(scans, i, c, k) == -1
  {
    if i > 0 {
      NeverSent(scans, i - 1, c, k);
    }
  }

  /** Every refinement refines: a scan with Ah != 0 sends, of each of its
      coefficients, the bit right below what was known. */
  lemma {:induction false} RefinementsAddOneBit(n: nat, scans: seq<ScanInfo>, i: nat, c: int, k: int)
    requires LegalProgressive(n, scans) && i < |scans| && Covers(scans[i], c, k)
    ensures scans[i].Ah != 0 <==> Count(scans, 0, i, c, k) > 0
    ensures scans[i].Ah != 0 ==> scans[i].Ah == LastAl(scans, i, c, k) == scans[i].Al + 1
  {
    hide GoodComponents;
    assert Fits(scans, i) && GoodBand(scans[i]);
    NeverSent(scans, i, c, k);
    if LastAl(scans, i, c, k) == -1 && Count(scans, 0, i, c, k) > 0 {
      SentIsKnown(n, scans, i, c, k);
    }
  }

  lemma {:induction false} SentIsKnown(n: nat, scans: seq<ScanInfo>, i: nat, c: int, k: int)
    requires LegalProgressive(n, scans) && i <= |scans| && Count(scans, 0, i, c, k) > 0
    ensures LastAl(scans, i, c, k) >= 0
  {
    hide GoodComponents;
    assert GoodBand(scans[i - 1]);
    if !Covers(scans[i - 1], c, k) {
      SentIsKnown(n, scans, i - 1, c, k);
    }
  }

  /** AC data of a component never comes before its DC data. */
  lemma {:induction false} DcComesFirst(n: nat, scans: seq<ScanInfo>, i: nat, c: int) returns (j: nat)
    requires LegalProgressive(n, scans) && i < |scans| && c in scans[i].comps && scans[i].Ss != 0
    ensures j < i && c in scans[j].comps && scans[j].Ss == 0
  {
    hide GoodComponents;
    assert GoodBand(scans[i]) && Fits(scans, i) && Covers(scans[i], c, scans[i].Ss);
    NeverSent(scans, i, c, 0);
    j :| 0 <= j < i && Covers(scans[j], c, 0);
    assert GoodBand(scans[j]);
  }
}
