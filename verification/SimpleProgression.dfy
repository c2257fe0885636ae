/** jpeg_simple_progression (jcparam.c): the recommended script fills exactly
    the space computed for it, is accepted by validate_script, and brings
    every coefficient down to its last bit. */
module SimpleProgression {
  import opened JpegLimits
  import opened ScanScript

  function Iota(n: nat): (s: seq<int>)
    ensures |s| == n && forall i :: 0 <= i < n ==> s[i] == i
  {
    if n == 0 then [] else Iota(n - 1) + [n - 1]
  }

  /** One scan for each of n components. */
  function EachComponent(n: nat, Ss: int, Se: int, Ah: int, Al: int): (s: seq<ScanInfo>)
    ensures |s| == n && forall c :: 0 <= c < n ==> s[c] == ScanInfo([c], Ss, Se, Ah, Al)
  {
    if n == 0 then [] else EachComponent(n - 1, Ss, Se, Ah, Al) + [ScanInfo([n - 1], Ss, Se, Ah, Al)]
  }

  function DcScans(n: nat, Ah: int, Al: int): (s: seq<ScanInfo>)
    ensures |s| == if n <= MAX_COMPS_IN_SCAN then 1 else n
  {
    if n <= MAX_COMPS_IN_SCAN then [ScanInfo(Iota(n), 0, 0, Ah, Al)] else EachComponent(n, 0, 0, Ah, Al)
  }

  /** For YCbCr images. */
  function ColorScript(): seq<ScanInfo> {
    DcScans(3, 0, 1) + [ScanInfo([0], 1, 5, 0, 2)] + [ScanInfo([2], 1, 63, 0, 1)] + [ScanInfo([1], 1, 63, 0, 1)]
    + [ScanInfo([0], 6, 63, 0, 2)] + [ScanInfo([0], 1, 63, 2, 1)] + DcScans(3, 1, 0)
    + [ScanInfo([2], 1, 63, 1, 0)] + [ScanInfo([1], 1, 63, 1, 0)] + [ScanInfo([0], 1, 63, 1, 0)]
  }

  /** For all other colour spaces. */
  function GeneralScript(n: nat): seq<ScanInfo> {
    DcScans(n, 0, 1) + EachComponent(n, 1, 5, 0, 2) + EachComponent(n, 6, 63, 0, 2)
    + EachComponent(n, 1, 63, 2, 1) + DcScans(n, 1, 0) + EachComponent(n, 1, 63, 1, 0)
  }

  function Script(n: nat, ycc: bool): seq<ScanInfo> {
    if n == 3 && ycc then ColorScript() else GeneralScript(n)
  }

  function ScriptLength(n: nat, ycc: bool): nat {
    if n == 3 && ycc then 10 else if n > MAX_COMPS_IN_SCAN then 6 * n else 2 + 4 * n
  }

  // ----- the code that fills the script

  method FillAScan(space: array<ScanInfo>, p: nat, ci: int, Ss: int, Se: int, Ah: int, Al: int) returns (p': nat)
    requires p < space.Length
    modifies space
    ensures p' == p + 1 && space[..p'] == old(space[..p]) + [ScanInfo([ci], Ss, Se, Ah, Al)]
  {
    space[p] := ScanInfo([ci], Ss, Se, Ah, Al);
    p' := p + 1;
  }

  method FillScans(space: array<ScanInfo>, p: nat, ncomps: nat, Ss: int, Se: int, Ah: int, Al: int) returns (p': nat)
    requires p + ncomps <= space.Length
    modifies space
    ensures p' == p + ncomps && space[..p'] == old(space[..p]) + EachComponent(ncomps, Ss, Se, Ah, Al)
  {
    p' := p;
    ghost var before := space[..p];
    for ci := 0 to ncomps
      invariant p' == p + ci && space[..p'] == before + EachComponent(ci, Ss, Se, Ah, Al)
    {
      space[p'] := ScanInfo([ci], Ss, Se, Ah, Al);
      p' := p' + 1;
    }
  }

  method FillDcScans(space: array<ScanInfo>, p: nat, ncomps: nat, Ah: int, Al: int) returns (p': nat)
    requires p + |DcScans(ncomps, Ah, Al)| <= space.Length
    modifies space
    ensures p' == p + |DcScans(ncomps, Ah, Al)| && space[..p'] == old(space[..p]) + DcScans(ncomps, Ah, Al)
  {
    if ncomps <= MAX_COMPS_IN_SCAN {
      var indexes: seq<int> := [];
      for ci := 0 to ncomps
        invariant indexes == Iota(ci)
      {
        indexes := indexes + [ci];
      }
      space[p] := ScanInfo(indexes, 0, 0, Ah, Al);
      p' := p + 1;
    } else {
      p' := FillScans(space, p, ncomps, 0, 0, Ah, Al);
    }
  }

  method FillColorScript(space: array<ScanInfo>) returns (p: nat)
    requires space.Length == 10
    modifies space
    ensures p == 10 && space[..p] == ColorScript()
  {
    hide DcScans;
    p := FillDcScans(space, 0, 3, 0, 1);
    assert space[..p] == DcScans(3, 0, 1);
    p := FillAScan(space, p, 0, 1, 5, 0, 2);
    p := FillAScan(space, p, 2, 1, 63, 0, 1);
    p := FillAScan(space, p, 1, 1, 63, 0, 1);
    p := FillAScan(space, p, 0, 6, 63, 0, 2);
    p := FillAScan(space, p, 0, 1, 63, 2, 1);
    p := FillDcScans(space, p, 3, 1, 0);
    p := FillAScan(space, p, 2, 1, 63, 1, 0);
    p := FillAScan(space, p, 1, 1, 63, 1, 0);
    p := FillAScan(space, p, 0, 1, 63, 1, 0);
  }

  method FillGeneralScript(space: array<ScanInfo>, ncomps: nat) returns (p: nat)
    requires space.Length == ScriptLength(ncomps, false)
    modifies space
    ensures p == space.Length && space[..p] == GeneralScript(ncomps)
  {
    hide DcScans, EachComponent;
    p := FillDcScans(space, 0, ncomps, 0, 1);
    assert space[..p] == DcScans(ncomps, 0, 1);
    p := FillScans(space, p, ncomps, 1, 5, 0, 2);
    p := FillScans(space, p, ncomps, 6, 63, 0, 2);
    p := FillScans(space, p, ncomps, 1, 63, 2, 1);
    p := FillDcScans(space, p, ncomps, 1, 0);
    p := FillScans(space, p, ncomps, 1, 63, 1, 0);
  }

  /** The script takes up exactly the number of scans computed beforehand. */
  method JpegSimpleProgression(ncomps: nat, ycc: bool) returns (space: array<ScanInfo>, nscans: nat)
    ensures nscans == ScriptLength(ncomps, ycc) == space.Length
    ensures space[..] == Script(ncomps, ycc)
    // YCbCr: chroma, Cr first, in one band; luma split after coefficient 5
    ensures ncomps == 3 && ycc ==> space[..] == [
              ScanInfo([0, 1, 2], 0, 0, 0, 1), ScanInfo([0], 1, 5, 0, 2), ScanInfo([2], 1, 63, 0, 1), ScanInfo([1], 1, 63, 0, 1),
              ScanInfo([0], 6, 63, 0, 2), ScanInfo([0], 1, 63, 2, 1), ScanInfo([0, 1, 2], 0, 0, 1, 0),
              ScanInfo([2], 1, 63, 1, 0), ScanInfo([1], 1, 63, 1, 0), ScanInfo([0], 1, 63, 1, 0)]
  {
    nscans := if ncomps == 3 && ycc then 10 else if ncomps > MAX_COMPS_IN_SCAN then 6 * ncomps else 2 + 4 * ncomps;
    space := new ScanInfo[nscans](i => ScanInfo([], 0, 0, 0, 0));
    var p;
    if ncomps == 3 && ycc {
      p := FillColorScript(space);
    } else {
      p := FillGeneralScript(space, ncomps);
    }
    assert space[..p] == space[..];
    ColorScans();
  }

  lemma {:induction false} ColorScans()
    ensures ColorScript() == [
              ScanInfo([0, 1, 2], 0, 0, 0, 1), ScanInfo([0], 1, 5, 0, 2), ScanInfo([2], 1, 63, 0, 1), ScanInfo([1], 1, 63, 0, 1),
              ScanInfo([0], 6, 63, 0, 2), ScanInfo([0], 1, 63, 2, 1), ScanInfo([0, 1, 2], 0, 0, 1, 0),
              ScanInfo([2], 1, 63, 1, 0), ScanInfo([1], 1, 63, 1, 0), ScanInfo([0], 1, 63, 1, 0)]
  {
    assert Iota(3) == [0, 1, 2];
    assert DcScans(3, 0, 1) == [ScanInfo([0, 1, 2], 0, 0, 0, 1)];
    assert DcScans(3, 1, 0) == [ScanInfo([0, 1, 2], 0, 0, 1, 0)];
  }

  /** From place at on, one scan of this kind for each of n components. */
  predicate OneForEach(s: seq<ScanInfo>, at: nat, n: nat, Ss: int, Se: int, Ah: int, Al: int) {
    at + n <= |s| && forall c :: 0 <= c < n ==> s[at + c] == ScanInfo([c], Ss, Se, Ah, Al)
  }

  /** A DC scan of all n components together. */
  predicate OneForAll(s: seq<ScanInfo>, at: nat, n: nat, Ah: int, Al: int) {
    && at < |s| && s[at].(comps := []) == ScanInfo([], 0, 0, Ah, Al)
    && |s[at].comps| == n && forall c :: 0 <= c < n ==> s[at].comps[c] == c
  }

  /** DC without its last bit, the low and the high AC band without two, then one bit at a time. */
  lemma {:induction false} GeneralScans(n: nat)
    ensures var s, m := GeneralScript(n), if n <= MAX_COMPS_IN_SCAN then 1 else n;
            && |s| == m + 3 * n + m + n
            && OneForEach(s, m, n, 1, 5, 0, 2) && OneForEach(s, m + n, n, 6, 63, 0, 2) && OneForEach(s, m + 2 * n, n, 1, 63, 2, 1)
            && OneForEach(s, m + 3 * n + m, n, 1, 63, 1, 0)
            && (if n <= MAX_COMPS_IN_SCAN then OneForAll(s, 0, n, 0, 1) && OneForAll(s, m + 3 * n, n, 1, 0)
                else OneForEach(s, 0, n, 0, 0, 0, 1) && OneForEach(s, m + 3 * n, n, 0, 0, 1, 0))
  {
    hide EachComponent, DcScans, OneForEach, OneForAll;
    var a := DcScans(n, 0, 1);
    var b := a + EachComponent(n, 1, 5, 0, 2);
    var c := b + EachComponent(n, 6, 63, 0, 2);
    var d := c + EachComponent(n, 1, 63, 2, 1);
    var e := d + DcScans(n, 1, 0);
    GeneralPlaces(n, a, b, c, d, e, e + EachComponent(n, 1, 63, 1, 0));
  }

  lemma {:induction false} GeneralPlaces(n: nat, a: seq<ScanInfo>, b: seq<ScanInfo>, c: seq<ScanInfo>, d: seq<ScanInfo>,
                                         e: seq<ScanInfo>, s: seq<ScanInfo>)
    requires a == DcScans(n, 0, 1) && b == a + EachComponent(n, 1, 5, 0, 2) && c == b + EachComponent(n, 6, 63, 0, 2)
    requires d == c + EachComponent(n, 1, 63, 2, 1) && e == d + DcScans(n, 1, 0) && s == e + EachComponent(n, 1, 63, 1, 0)
    ensures var m := if n <= MAX_COMPS_IN_SCAN then 1 else n;
            && |s| == m + 3 * n + m + n
            && OneForEach(s, m, n, 1, 5, 0, 2) && OneForEach(s, m + n, n, 6, 63, 0, 2) && OneForEach(s, m + 2 * n, n, 1, 63, 2, 1)
            && OneForEach(s, m + 3 * n + m, n, 1, 63, 1, 0)
            && (if n <= MAX_COMPS_IN_SCAN then OneForAll(s, 0, n, 0, 1) && OneForAll(s, m + 3 * n, n, 1, 0)
                else OneForEach(s, 0, n, 0, 0, 0, 1) && OneForEach(s, m + 3 * n, n, 0, 0, 1, 0))
  {
    hide EachComponent, DcScans, OneForEach, OneForAll;
    Longer(e, EachComponent(n, 1, 63, 1, 0), s);
    Longer(d, DcScans(n, 1, 0), s);
    Longer(c, EachComponent(n, 1, 63, 2, 1), s);
    Longer(b, EachComponent(n, 6, 63, 0, 2), s);
    Longer(a, EachComponent(n, 1, 5, 0, 2), s);
    assert [] + a == a;
    DcPlaced(n, [], 0, 1, s);
    Placed(a, n, 1, 5, 0, 2, s);
    Placed(b, n, 6, 63, 0, 2, s);
    Placed(c, n, 1, 63, 2, 1, s);
    DcPlaced(n, d, 1, 0, s);
    Placed(e, n, 1, 63, 1, 0, s);
  }

  lemma {:induction false} Longer(a: seq<ScanInfo>, b: seq<ScanInfo>, s: seq<ScanInfo>)
    requires a + b <= s
    ensures a <= s
  {
    assert a == (a + b)[..|a|];
  }

  lemma {:induction false} Placed(before: seq<ScanInfo>, n: nat, Ss: int, Se: int, Ah: int, Al: int, s: seq<ScanInfo>)
    requires before + EachComponent(n, Ss, Se, Ah, Al) <= s
    ensures OneForEach(s, |before|, n, Ss, Se, Ah, Al)
  {
    var part := before + EachComponent(n, Ss, Se, Ah, Al);
    assert forall c :: 0 <= c < n ==> s[|before| + c] == part[|before| + c] == EachComponent(n, Ss, Se, Ah, Al)[c];
  }

  lemma {:induction false} DcPlaced(n: nat, before: seq<ScanInfo>, Ah: int, Al: int, s: seq<ScanInfo>)
    requires before + DcScans(n, Ah, Al) <= s
    ensures if n <= MAX_COMPS_IN_SCAN then OneForAll(s, |before|, n, Ah, Al) else OneForEach(s, |before|, n, 0, 0, Ah, Al)
  {
    if n > MAX_COMPS_IN_SCAN {
      Placed(before, n, 0, 0, Ah, Al, s);
    } else {
      assert s[|before|] == (before + DcScans(n, Ah, Al))[|before|] == ScanInfo(Iota(n), 0, 0, Ah, Al);
    }
  }

  // ----- the script is accepted, and complete

  /** Accepted so far. */
  ghost predicate LegalSoFar(n: nat, scans: seq<ScanInfo>) {
    forall i :: 0 <= i < |scans| ==> GoodComponents(n, scans[i]) && GoodBand(scans[i]) && Fits(scans, i)
  }

  /** known[c][k] is the bit position reached for coefficient k of component c. */
  ghost predicate Reached(n: nat, scans: seq<ScanInfo>, known: seq<seq<int>>) {
    && |known| == n && (forall c :: 0 <= c < n ==> |known[c]| == DCTSIZE2)
    && (forall c, k :: 0 <= c < n && 0 <= k < DCTSIZE2 ==> known[c][k] == LastAl(scans, |scans|, c, k))
  }

  function SetBand(p: seq<int>, Ss: int, Se: int, Al: int): (q: seq<int>)
    ensures |q| == |p| && forall k :: 0 <= k < |p| ==> q[k] == if Ss <= k <= Se then Al else p[k]
  {
    seq(|p|, k requires 0 <= k < |p| => if Ss <= k <= Se then Al else p[k])
  }

  lemma {:induction false} LastAlPrefix(a: seq<ScanInfo>, b: seq<ScanInfo>, i: nat, c: int, k: int)
    requires i <= |a|
    ensures LastAl(a + b, i, c, k) == LastAl(a, i, c, k)
  {
    if i > 0 {
      LastAlPrefix(a, b, i - 1, c, k);
      assert (a + b)[i - 1] == a[i - 1];
    }
  }

  /** One more scan for a single component. */
  lemma {:induction false} OneMore(n: nat, scans: seq<ScanInfo>, known: seq<seq<int>>, sc: ScanInfo)
      returns (known': seq<seq<int>>)
    requires LegalSoFar(n, scans) && Reached(n, scans, known) && GoodComponents(n, sc) && GoodBand(sc)
    requires forall c, k :: 0 <= c < n && 0 <= k < DCTSIZE2 && Covers(sc, c, k) ==>
               (sc.Ss != 0 ==> known[c][0] >= 0) && Continues(known[c][k], sc)
    ensures LegalSoFar(n, scans + [sc]) && Reached(n, scans + [sc], known')
    ensures |known'| == n
    ensures forall c :: 0 <= c < n ==> known'[c] == if c in sc.comps then SetBand(known[c], sc.Ss, sc.Se, sc.Al) else known[c]
  {
    var m, all := |scans|, scans + [sc];
    known' := seq(n, c requires 0 <= c < n && |known| == n => if c in sc.comps then SetBand(known[c], sc.Ss, sc.Se, sc.Al) else known[c]);
    forall c, k | 0 <= c < n && 0 <= k < DCTSIZE2
      ensures known'[c][k] == LastAl(all, m + 1, c, k)
    {
      LastAlPrefix(scans, [sc], m, c, k);
    }
    forall i | 0 <= i < m + 1
      ensures GoodComponents(n, all[i]) && GoodBand(all[i]) && Fits(all, i)
    {
      forall c, k | Covers(all[i], c, k)
        ensures FitsAt(all, i, c, k)
      {
        LastAlPrefix(scans, [sc], i, c, k);
        LastAlPrefix(scans, [sc], i, c, 0);
        if i < m {
          assert Fits(scans, i) && Covers(scans[i], c, k);
        }
      }
    }
  }

  /** One more scan for component c alone. */
  lemma {:induction false} OneFor(n: nat, scans: seq<ScanInfo>, known: seq<seq<int>>, c: nat, Ss: int, Se: int, Ah: int, Al: int)
      returns (known': seq<seq<int>>)
    requires LegalSoFar(n, scans) && Reached(n, scans, known) && c < n == |known| && |known[c]| == DCTSIZE2
    requires GoodBand(ScanInfo([c], Ss, Se, Ah, Al)) && (Ss != 0 ==> known[c][0] >= 0)
    requires forall k :: Ss <= k <= Se ==> Continues(known[c][k], ScanInfo([c], Ss, Se, Ah, Al))
    ensures var all := scans + [ScanInfo([c], Ss, Se, Ah, Al)]; LegalSoFar(n, all) && Reached(n, all, known')
    ensures known' == known[c := SetBand(known[c], Ss, Se, Al)]
  {
    hide LegalSoFar, LastAl, Fits;
    known' := OneMore(n, scans, known, ScanInfo([c], Ss, Se, Ah, Al));
  }

  /** The same scan for each component, where all are alike. */
  lemma {:induction false} EachMore(n: nat, scans: seq<ScanInfo>, known: seq<seq<int>>, p: seq<int>, m: nat,
                                    Ss: int, Se: int, Ah: int, Al: int) returns (known': seq<seq<int>>)
    requires LegalSoFar(n, scans) && Reached(n, scans, known) && m <= n && |p| == DCTSIZE2
    requires |known| == n && forall c :: 0 <= c < n ==> known[c] == p
    requires GoodBand(ScanInfo([0], Ss, Se, Ah, Al)) && (Ss != 0 ==> p[0] >= 0)
    requires forall k :: Ss <= k <= Se ==> Continues(p[k], ScanInfo([0], Ss, Se, Ah, Al))
    ensures var all := scans + EachComponent(m, Ss, Se, Ah, Al); LegalSoFar(n, all) && Reached(n, all, known')
    ensures |known'| == n && forall c :: 0 <= c < n ==> known'[c] == if c < m then SetBand(p, Ss, Se, Al) else p
  {
    hide LegalSoFar, Reached, SetBand;
    if m == 0 {
      known' := known;
      assert scans + [] == scans;
    } else {
      var before := scans + EachComponent(m - 1, Ss, Se, Ah, Al);
      var k1 := EachMore(n, scans, known, p, m - 1, Ss, Se, Ah, Al);
      known' := OneFor(n, before, k1, m - 1, Ss, Se, Ah, Al);
      assert scans + EachComponent(m, Ss, Se, Ah, Al) == before + [ScanInfo([m - 1], Ss, Se, Ah, Al)];
    }
  }

  /** One interleaved DC scan. */
  lemma {:induction false} AllMore(n: nat, scans: seq<ScanInfo>, known: seq<seq<int>>, p: seq<int>, Ah: int, Al: int)
      returns (known': seq<seq<int>>)
    requires LegalSoFar(n, scans) && Reached(n, scans, known) && 1 <= n <= MAX_COMPS_IN_SCAN && |p| == DCTSIZE2
    requires |known| == n && forall c :: 0 <= c < n ==> known[c] == p
    requires GoodBand(ScanInfo([0], 0, 0, Ah, Al)) && Continues(p[0], ScanInfo([0], 0, 0, Ah, Al))
    ensures var all := scans + [ScanInfo(Iota(n), 0, 0, Ah, Al)]; LegalSoFar(n, all) && Reached(n, all, known')
    ensures |known'| == n && forall c :: 0 <= c < n ==> known'[c] == SetBand(p, 0, 0, Al)
  {
    var ids := Iota(n);
    var sc := ScanInfo(ids, 0, 0, Ah, Al);
    hide LegalSoFar, LastAl, Fits, Iota, SetBand;
    forall c, k | Covers(sc, c, k)
      ensures 0 <= c < n && k == 0
    {
      var j :| 0 <= j < |ids| && ids[j] == c;
    }
    forall c | 0 <= c < n
      ensures c in ids
    {
      assert ids[c] == c;
    }
    known' := OneMore(n, scans, known, sc);
  }

  lemma {:induction false} DcMore(n: nat, scans: seq<ScanInfo>, known: seq<seq<int>>, p: seq<int>, Ah: int, Al: int)
      returns (known': seq<seq<int>>)
    requires LegalSoFar(n, scans) && Reached(n, scans, known) && n >= 1 && |p| == DCTSIZE2
    requires |known| == n && forall c :: 0 <= c < n ==> known[c] == p
    requires GoodBand(ScanInfo([0], 0, 0, Ah, Al)) && Continues(p[0], ScanInfo([0], 0, 0, Ah, Al))
    ensures LegalSoFar(n, scans + DcScans(n, Ah, Al)) && Reached(n, scans + DcScans(n, Ah, Al), known')
    ensures |known'| == n && forall c :: 0 <= c < n ==> known'[c] == SetBand(p, 0, 0, Al)
  {
    if n <= MAX_COMPS_IN_SCAN {
      known' := AllMore(n, scans, known, p, Ah, Al);
    } else {
      known' := EachMore(n, scans, known, p, n, 0, 0, Ah, Al);
    }
  }

  function Unsent(): (p: seq<int>)
    ensures |p| == DCTSIZE2 && forall k :: 0 <= k < DCTSIZE2 ==> p[k] == -1
  {
    seq(DCTSIZE2, k => -1)
  }

  lemma {:induction false} NothingReached(n: nat) returns (known: seq<seq<int>>)
    ensures |known| == n && LegalSoFar(n, []) && Reached(n, [], known) && forall c :: 0 <= c < n ==> known[c] == Unsent()
  {
    known := seq(n, c => Unsent());
  }

  lemma {:induction false} GeneralAccepted(n: nat) returns (known: seq<seq<int>>)
    requires n >= 1
    ensures LegalSoFar(n, GeneralScript(n)) && Reached(n, GeneralScript(n), known)
    ensures forall c, k :: 0 <= c < n && 0 <= k < DCTSIZE2 ==> known[c][k] == 0
  {
    hide LegalSoFar, Reached, DcScans;
    known := NothingReached(n);
    var s: seq<ScanInfo> := [];
    var p0 := Unsent();
    known := DcMore(n, s, known, p0, 0, 1);
    s := s + DcScans(n, 0, 1);
    var p1 := SetBand(p0, 0, 0, 1);
    known := EachMore(n, s, known, p1, n, 1, 5, 0, 2);
    s := s + EachComponent(n, 1, 5, 0, 2);
    var p2 := SetBand(p1, 1, 5, 2);
    known := EachMore(n, s, known, p2, n, 6, 63, 0, 2);
    s := s + EachComponent(n, 6, 63, 0, 2);
    var p3 := SetBand(p2, 6, 63, 2);
    known := EachMore(n, s, known, p3, n, 1, 63, 2, 1);
    s := s + EachComponent(n, 1, 63, 2, 1);
    var p4 := SetBand(p3, 1, 63, 1);
    known := DcMore(n, s, known, p4, 1, 0);
    s := s + DcScans(n, 1, 0);
    var p5 := SetBand(p4, 0, 0, 0);
    known := EachMore(n, s, known, p5, n, 1, 63, 1, 0);
    s := s + EachComponent(n, 1, 63, 1, 0);
    assert [] + DcScans(n, 0, 1) == DcScans(n, 0, 1);
    assert s == GeneralScript(n);
  }

  lemma {:induction false} ColorAccepted() returns (known: seq<seq<int>>)
    ensures LegalSoFar(3, ColorScript()) && Reached(3, ColorScript(), known)
    ensures forall c, k :: 0 <= c < 3 && 0 <= k < DCTSIZE2 ==> known[c][k] == 0
  {
    hide LegalSoFar, Reached, DcScans;
    known := NothingReached(3);
    var s: seq<ScanInfo> := [];
    known := DcMore(3, s, known, Unsent(), 0, 1);
    s := s + DcScans(3, 0, 1);
    known := OneFor(3, s, known, 0, 1, 5, 0, 2);
    s := s + [ScanInfo([0], 1, 5, 0, 2)];
    known := OneFor(3, s, known, 2, 1, 63, 0, 1);
    s := s + [ScanInfo([2], 1, 63, 0, 1)];
    known := OneFor(3, s, known, 1, 1, 63, 0, 1);
    s := s + [ScanInfo([1], 1, 63, 0, 1)];
    known := OneFor(3, s, known, 0, 6, 63, 0, 2);
    s := s + [ScanInfo([0], 6, 63, 0, 2)];
    known := OneFor(3, s, known, 0, 1, 63, 2, 1);
    s := s + [ScanInfo([0], 1, 63, 2, 1)];
    var p := known[0];
    assert known[1] == p && known[2] == p;
    known := DcMore(3, s, known, p, 1, 0);
    s := s + DcScans(3, 1, 0);
    known := OneFor(3, s, known, 2, 1, 63, 1, 0);
    s := s + [ScanInfo([2], 1, 63, 1, 0)];
    known := OneFor(3, s, known, 1, 1, 63, 1, 0);
    s := s + [ScanInfo([1], 1, 63, 1, 0)];
    known := OneFor(3, s, known, 0, 1, 63, 1, 0);
    s := s + [ScanInfo([0], 1, 63, 1, 0)];
    assert [] + DcScans(3, 0, 1) == DcScans(3, 0, 1);
    assert s == ColorScript();
  }

  /** Whatever the number of components, the recommended script is accepted and
      sends every coefficient down to bit 0. */
  lemma {:induction false} ScriptAccepted(n: nat, ycc: bool)
    requires n >= 1
    ensures LegalScript(n, Script(n, ycc)) && IsProgressive(Script(n, ycc)) && |Script(n, ycc)| == ScriptLength(n, ycc)
    ensures forall c, k :: 0 <= c < n && 0 <= k < DCTSIZE2 ==> LastAl(Script(n, ycc), |Script(n, ycc)|, c, k) == 0
  {
    var s := Script(n, ycc);
    assert s[0] == DcScans(n, 0, 1)[0];
    if n == 3 && ycc {
      var known := ColorAccepted();
      assert Reached(n, s, known);
    } else {
      var known := GeneralAccepted(n);
      assert Reached(n, s, known);
    }
  }
}
