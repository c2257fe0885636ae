/** What the tokens of a progressive AC scan say, read without reference to the encoder: which
    coefficients are new and after how many zeros, which correction bits there are, and how many
    blocks end in EOB runs. And that the encoder says exactly this of every block. */
module AcLayout {
  import opened JpegLimits
  import opened Arith
  import opened Bits
  import opened BlockCoding
  import opened ProgressiveTokens
  import opened ProgressiveBlock
  import opened ProgressiveBlockRoundTrip
  import opened ProgressiveScan

  // ----- reading tokens

  /** A new coefficient: the zeros before it since the last one, and its bits. */
  datatype New = New(zeros: nat, bits: BitString)

  datatype Reading = Reading(news: seq<New>, corrections: BitString, blocks: nat)

  function Both(a: Reading, b: Reading): Reading {
    Reading(a.news + b.news, a.corrections + b.corrections, a.blocks + b.blocks)
  }

  /** The raw bits that belong to a symbol itself: the value of a new coefficient, or the low
      bits of an EOB run. Any others after it are correction bits. */
  function Own(s: nat): nat {
    if s % 16 != 0 then s % 16 else if s == 0xF0 then 0 else s / 16
  }

  /** The first n raw bits. */
  function Lead(toks: seq<Token>, n: nat): BitString {
    if n == 0 || toks == [] || toks[0].Sym? then [] else [toks[0].b] + Lead(toks[1..], n - 1)
  }

  /** What one symbol says, with the tokens after it and z zeros before it. */
  function Says(s: nat, after: seq<Token>, z: nat): Reading {
    if s % 16 != 0 then Reading([New(z + s / 16, Lead(after, s % 16))], [], 0)
    else if s == 0xF0 then Reading([], [], 0)
    else Reading([], [], Pow2(s / 16) + Value(Lead(after, s / 16)))
  }

  function ZerosNow(s: nat, z: nat): nat {
    if s == 0xF0 then z + 16 else 0
  }

  /** The tokens of a segment from here on, after z zeros and with n raw bits of the last symbol
      still to come. */
  function Read(toks: seq<Token>, z: nat, n: nat): Reading {
    if toks == [] then Reading([], [], 0) else
    match toks[0]
    case Sym(_, s) => Both(Says(s, toks[1..], z), Read(toks[1..], ZerosNow(s, z), Own(s)))
    case Bit(b) =>
      if n > 0 then Read(toks[1..], z, n - 1) else Both(Reading([], [b], 0), Read(toks[1..], z, 0))
  }

  /** The raw bits of the last symbol that toks leaves out. */
  function Missing(toks: seq<Token>, n: nat): nat {
    if toks == [] then n else
    match toks[0]
    case Sym(_, s) => Missing(toks[1..], Own(s))
    case Bit(_) => Missing(toks[1..], if n > 0 then n - 1 else 0)
  }

  function ZerosAfter(toks: seq<Token>, z: nat): nat {
    if toks == [] then z else ZerosAfter(toks[1..], if toks[0].Sym? then ZerosNow(toks[0].s, z) else z)
  }

  lemma {:induction false} LeadStays(a: seq<Token>, b: seq<Token>, n: nat)
    requires Missing(a, n) == 0
    ensures Lead(a + b, n) == Lead(a, n)
  {
    if a != [] {
      assert (a + b)[1..] == a[1..] + b;
      if n > 0 && a[0].Bit? {
        LeadStays(a[1..], b, n - 1);
      }
    }
  }

  lemma {:induction false} BothAssoc(a: Reading, b: Reading, c: Reading)
    ensures Both(a, Both(b, c)) == Both(Both(a, b), c) && Both(Reading([], [], 0), a) == a && Both(a, Reading([], [], 0)) == a
  {
  }

  lemma {:induction false} ReadAppend(a: seq<Token>, b: seq<Token>, z: nat, n: nat)
    requires Missing(a, n) == 0
    ensures Read(a + b, z, n) == Both(Read(a, z, n), Read(b, ZerosAfter(a, z), 0))
    ensures Missing(a + b, n) == Missing(b, 0) && ZerosAfter(a + b, z) == ZerosAfter(b, ZerosAfter(a, z))
    decreases |a|
  {
    hide Lead, Both;
    if a == [] {
      assert a + b == b;
      BothAssoc(Read(b, z, 0), Read(b, z, 0), Read(b, z, 0));
    } else {
      assert (a + b)[1..] == a[1..] + b && (a + b)[0] == a[0];
      match a[0] {
        case Sym(_, s) =>
          ReadAppend(a[1..], b, ZerosNow(s, z), Own(s));
          SaysStays(s, a[1..], b, z);
          BothAssoc(Says(s, a[1..], z), Read(a[1..], ZerosNow(s, z), Own(s)), Read(b, ZerosAfter(a, z), 0));
        case Bit(x) =>
          ReadAppend(a[1..], b, z, if n > 0 then n - 1 else 0);
          BothAssoc(Reading([], [x], 0), Read(a[1..], z, 0), Read(b, ZerosAfter(a, z), 0));
      }
    }
  }

  lemma {:induction false} SaysStays(s: nat, a: seq<Token>, b: seq<Token>, z: nat)
    requires Missing(a, Own(s)) == 0
    ensures Says(s, a + b, z) == Says(s, a, z)
  {
    hide Lead, Missing;
    LeadStays(a, b, Own(s));
  }

  /** A symbol, its own bits and correction bits. */
  lemma {:induction false} ReadGroup(tbl: nat, s: nat, own: BitString, br: BitString, z: nat)
    requires |own| == Own(s)
    ensures var g := [Sym(tbl, s)] + RawBits(own) + RawBits(br);
            && Missing(g, 0) == 0 && ZerosAfter(g, z) == ZerosNow(s, z)
            && Read(g, z, 0) == if s % 16 != 0 then Reading([New(z + s / 16, own)], br, 0)
                                else if s == 0xF0 then Reading([], br, 0)
                                else Reading([], br, Pow2(s / 16) + Value(own))
  {
    hide Pow2, Value;
    var g := [Sym(tbl, s)] + RawBits(own) + RawBits(br);
    var t := RawBits(own) + RawBits(br);
    assert g[1..] == t;
    ReadRaw(own, br, ZerosNow(s, z));
    assert [] + br == br;
  }

  /** Raw bits that belong to no symbol are corrections. */
  lemma {:induction false} ReadCorrections(br: BitString, z: nat)
    ensures var t := RawBits(br); Read(t, z, 0) == Reading([], br, 0) && Missing(t, 0) == 0 && ZerosAfter(t, z) == z
    decreases |br|
  {
    hide Says, Lead;
    var t := RawBits(br);
    if br != [] {
      assert t[0] == Bit(br[0]) && t[1..] == RawBits(br[1..]);
      ReadCorrections(br[1..], z);
      assert [br[0]] + br[1..] == br;
    }
  }

  lemma {:induction false} ReadRaw(own: BitString, br: BitString, z: nat)
    ensures var t := RawBits(own) + RawBits(br);
            && Read(t, z, |own|) == Reading([], br, 0) && Lead(t, |own|) == own
            && Missing(t, |own|) == 0 && ZerosAfter(t, z) == z
    decreases |own|
  {
    hide RawBits, Read, Lead, Missing, ZerosAfter;
    var t := RawBits(own) + RawBits(br);
    if own == [] {
      ReadCorrections(br, z);
      NoLead(RawBits(br));
      assert RawBits([]) == [];
      assert t == RawBits(br);
    } else {
      var t1 := RawBits(own[1..]) + RawBits(br);
      RawHead(own);
      assert t == [Bit(own[0])] + t1;
      ReadRaw(own[1..], br, z);
      ReadOwnBit(own[0], t1, z, |own| - 1);
      assert [own[0]] + own[1..] == own;
    }
  }

  lemma {:induction false} NoLead(t: seq<Token>)
    ensures Lead(t, 0) == []
  {
  }

  lemma {:induction false} RawHead(bs: BitString)
    requires bs != []
    ensures RawBits(bs) == [Bit(bs[0])] + RawBits(bs[1..])
  {
  }

  /** A raw bit that belongs to the symbol before it. */
  lemma {:induction false} ReadOwnBit(b: bool, t: seq<Token>, z: nat, n: nat)
    ensures var u := [Bit(b)] + t;
            && Read(u, z, n + 1) == Read(t, z, n) && Lead(u, n + 1) == [b] + Lead(t, n)
            && Missing(u, n + 1) == Missing(t, n) && ZerosAfter(u, z) == ZerosAfter(t, z)
  {
    var u := [Bit(b)] + t;
    assert u[0] == Bit(b) && u[1..] == t;
  }

  // ----- what a block should say

  /** Positions a..b-1 of coefficients that become nonzero in this scan. */
  function NewAt(w: seq<int>, kn: seq<int>, a: nat, b: nat): (ps: seq<nat>)
    requires b <= |w| == |kn|
    ensures forall i :: 0 <= i < |ps| ==> a <= ps[i] < b && w[ps[i]] != 0 && kn[ps[i]] == 0
    ensures forall p :: a <= p < b && w[p] != 0 && kn[p] == 0 ==> p in ps
    ensures forall i, j :: 0 <= i < j < |ps| ==> ps[i] < ps[j]
    decreases b - a
  {
    if a >= b then [] else
    var rest := NewAt(w, kn, a + 1, b);
    if w[a] != 0 && kn[a] == 0 then [a] + rest else rest
  }

  /** Positions a..b-1 of coefficients known to be nonzero before. */
  function OldAt(kn: seq<int>, a: nat, b: nat): (ps: seq<nat>)
    requires b <= |kn|
    ensures forall i :: 0 <= i < |ps| ==> a <= ps[i] < b && kn[ps[i]] != 0
    ensures forall p :: a <= p < b && kn[p] != 0 ==> p in ps
    ensures forall i, j :: 0 <= i < j < |ps| ==> ps[i] < ps[j]
    decreases b - a
  {
    if a >= b then [] else
    var rest := OldAt(kn, a + 1, b);
    if kn[a] != 0 then [a] + rest else rest
  }

  function ZerosIn(w: seq<int>, a: nat, b: nat): nat
    requires b <= |w|
    decreases b - a
  {
    if a >= b then 0 else (if w[a] == 0 then 1 else 0) + ZerosIn(w, a + 1, b)
  }

  lemma {:induction false} ZerosInNext(w: seq<int>, a: nat, b: nat)
    requires a <= b < |w|
    ensures ZerosIn(w, a, b + 1) == ZerosIn(w, a, b) + if w[b] == 0 then 1 else 0
    decreases b - a
  {
    if a < b {
      ZerosInNext(w, a + 1, b);
    }
  }

  /** n says: v after this many zeros, a negative v as the one's complement of its magnitude. */
  ghost predicate NewIs(n: New, zeros: nat, v: int) {
    var s := NBits(Abs(v));
    && n.zeros == zeros && Abs(v) < Pow2(s)
    && n.bits == if v > 0 then ToBits(v, s) else ToBits(Pow2(s) - 1 + v, s)
  }

  /** Every new coefficient in order, with the zeros since the one before it, or since from. */
  ghost predicate SaysNews(w: seq<int>, kn: seq<int>, from: nat, k: nat, b: nat, news: seq<New>)
    requires b <= |w| == |kn|
  {
    var ps := NewAt(w, kn, k, b);
    && |news| == |ps|
    && forall i :: 0 <= i < |ps| ==> NewIs(news[i], ZerosIn(w, if i == 0 then from else ps[i - 1] + 1, ps[i]), w[ps[i]])
  }

  /** For every coefficient known before, whether its magnitude is odd. */
  ghost predicate SaysCorrections(w: seq<int>, kn: seq<int>, k: nat, b: nat, bits: BitString)
    requires b <= |w| == |kn|
  {
    var ps := OldAt(kn, k, b);
    |bits| == |ps| && forall i :: 0 <= i < |ps| ==> bits[i] == (Abs(w[ps[i]]) % 2 == 1)
  }

  /** The block ends before a new coefficient in the last position. */
  predicate EndsEarly(w: seq<int>, kn: seq<int>, se: nat)
    requires se < |w| == |kn|
  {
    w[se] == 0 || kn[se] != 0
  }

  // ----- what BlockFrom says

  lemma {:induction false} NewsCons(w: seq<int>, kn: seq<int>, from: nat, k: nat, b: nat, news: seq<New>, x: New)
    requires k < b <= |w| == |kn| && w[k] != 0 && kn[k] == 0
    requires SaysNews(w, kn, k + 1, k + 1, b, news) && NewIs(x, ZerosIn(w, from, k), w[k])
    ensures SaysNews(w, kn, from, k, b, [x] + news)
  {
    hide NewIs, ZerosIn, NewAt;
    var ps, tail := NewAt(w, kn, k, b), NewAt(w, kn, k + 1, b);
    assert ps == [k] + tail by { NewAtStep(w, kn, k, b); }
    var all := [x] + news;
    forall i | 0 <= i < |ps|
      ensures NewIs(all[i], ZerosIn(w, if i == 0 then from else ps[i - 1] + 1, ps[i]), w[ps[i]])
    {
      if i > 0 {
        var j := i - 1;
        assert ps[i] == tail[j] && all[i] == news[j];
        assert ps[j] == if j == 0 then k else tail[j - 1];
        assert NewIs(news[j], ZerosIn(w, if j == 0 then k + 1 else tail[j - 1] + 1, tail[j]), w[tail[j]]);
      }
    }
  }

  lemma {:induction false} NewAtStep(w: seq<int>, kn: seq<int>, k: nat, b: nat)
    requires k < b <= |w| == |kn|
    ensures NewAt(w, kn, k, b) == (if w[k] != 0 && kn[k] == 0 then [k] else []) + NewAt(w, kn, k + 1, b)
  {
  }

  lemma {:induction false} FirstNew(v: int, n: New)
    requires v != 0 && n.bits == ToBits(ExtraCode(v) % Pow2(NBits(Abs(v))), NBits(Abs(v)))
    ensures NewIs(n, n.zeros, v)
  {
    hide NBits, ToBits, Pow2;
    ExtraBitsOf(v);
  }

  lemma {:induction false} NewsSkip(w: seq<int>, kn: seq<int>, from: nat, k: nat, b: nat, news: seq<New>)
    requires k < b <= |w| == |kn| && (w[k] == 0 || kn[k] != 0)
    requires SaysNews(w, kn, from, k + 1, b, news)
    ensures SaysNews(w, kn, from, k, b, news)
  {
    hide NewIs, ZerosIn;
    assert NewAt(w, kn, k, b) == NewAt(w, kn, k + 1, b);
  }

  lemma {:induction false} CorrectionsCons(w: seq<int>, kn: seq<int>, k: nat, b: nat, bits: BitString)
    requires k < b <= |w| == |kn| && SaysCorrections(w, kn, k + 1, b, bits)
    ensures kn[k] == 0 ==> SaysCorrections(w, kn, k, b, bits)
    ensures kn[k] != 0 ==> SaysCorrections(w, kn, k, b, [CorrectionBit(w[k])] + bits)
  {
    var ps, tail := OldAt(kn, k, b), OldAt(kn, k + 1, b);
    if kn[k] != 0 {
      assert ps == [k] + tail;
    } else {
      assert ps == tail;
    }
  }

  /** What is left of a block from position k on, read after z zeros of ZRL symbols: c holds the
      correction bits without those that were already waiting. */
  ghost predicate RestSays(w: seq<int>, kn: seq<int>, from: nat, k: nat, se: nat, p: Piece, z: nat, br: BitString, c: BitString)
    requires se < |w| == |kn|
  {
    var rd := Read(p.toks, z, 0);
    && Missing(p.toks, 0) == 0 && rd.blocks == 0
    && SaysNews(w, kn, from, k, se + 1, rd.news)
    && SaysCorrections(w, kn, k, se + 1, c) && rd.corrections + p.br == br + c
    && (z == 0 || p.toks != [] ==> ZerosAfter(p.toks, z) == 0)
  }

  lemma {:induction false} ReadPrepend(g: seq<Token>, p: Piece, z: nat)
    requires Missing(g, 0) == 0
    ensures Read(Prepend(g, p).toks, z, 0) == Both(Read(g, z, 0), Read(p.toks, ZerosAfter(g, z), 0))
    ensures Missing(Prepend(g, p).toks, 0) == Missing(p.toks, 0)
    ensures ZerosAfter(Prepend(g, p).toks, z) == ZerosAfter(p.toks, ZerosAfter(g, z))
  {
    ReadAppend(g, p.toks, z, 0);
  }

  /** ZRL: sixteen zeros, and the bits that were waiting. */
  lemma {:induction false} AfterZrl(tbl: nat, w: seq<int>, kn: seq<int>, from: nat, k: nat, se: nat, p: Piece, z: nat, br: BitString, c: BitString)
    requires se < |w| == |kn| && RestSays(w, kn, from, k, se, p, z + 16, [], c) && p.toks != []
    ensures RestSays(w, kn, from, k, se, Prepend(Zrl(tbl, br), p), z, br, c)
  {
    hide Read, Missing, ZerosAfter, SaysNews, SaysCorrections;
    var g := Zrl(tbl, br);
    assert g == [Sym(tbl, 0xF0)] + RawBits([]) + RawBits(br);
    ReadGroup(tbl, 0xF0, [], br, z);
    ReadPrepend(g, p, z);
    var rd := Read(p.toks, z + 16, 0);
    assert [] + rd.news == rd.news && [] + c == c;
    assert br + rd.corrections + p.br == br + (rd.corrections + p.br);
  }

  /** A new coefficient, and the bits that were waiting. */
  lemma {:induction false} AfterNew(tbl: nat, w: seq<int>, kn: seq<int>, from: nat, k: nat, se: nat, p: Piece, z: nat, r: nat,
                                    br: BitString, c: BitString)
    requires k <= se < |w| == |kn| && w[k] != 0 && kn[k] == 0 && r <= 15 && Category(w[k]) <= MAX_COEF_BITS
    requires z + r == ZerosIn(w, from, k)
    requires RestSays(w, kn, k + 1, k + 1, se, p, 0, [], c)
    ensures RestSays(w, kn, from, k, se, Prepend(NewCoef(tbl, r, w[k], br), p), z, br, c)
  {
    hide Read, Missing, ZerosAfter, SaysNews, SaysCorrections, NBits, ToBits, Pow2, ZerosIn;
    var s := Category(w[k]);
    var x := ToBits(ExtraCode(w[k]) % Pow2(s), s);
    CategoryPositive(w[k]);
    assert (16 * r + s) % 16 == s && (16 * r + s) / 16 == r;
    ReadGroup(tbl, 16 * r + s, x, br, z);
    ReadPrepend(NewCoef(tbl, r, w[k], br), p, z);
    var rd := Read(p.toks, 0, 0);
    FirstNew(w[k], New(ZerosIn(w, from, k), x));
    NewsCons(w, kn, from, k, se + 1, rd.news, New(ZerosIn(w, from, k), x));
    CorrectionsCons(w, kn, k, se + 1, c);
    assert [] + c == c;
    assert br + rd.corrections + p.br == br + (rd.corrections + p.br);
  }

  lemma {:induction false} BlockSays(tbl: nat, w: seq<int>, kn: seq<int>, from: nat, k: nat, se: nat, eob: nat, r: nat, br: BitString, z: nat)
      returns (c: BitString)
    requires Known(w, kn) && from <= k <= se + 1 <= DCTSIZE2 && InBand(w, kn, from, se)
    requires forall j :: k <= j <= se && w[j] != 0 && kn[j] == 0 ==> j <= eob
    requires eob != 0 ==> eob <= se && w[eob] != 0 && kn[eob] == 0
    requires k >= 1 && z + r == ZerosIn(w, from, k) && (z > 0 ==> k <= eob)
    ensures RestSays(w, kn, from, k, se, BlockFrom(tbl, w, kn, k, se, eob, r, br), z, br, c)
    ensures var p := BlockFrom(tbl, w, kn, k, se, eob, r, br);
            && (k <= eob ==> p.toks != [])
            && p.Pending() == if k > se then r > 0 || br != [] else EndsEarly(w, kn, se)
    decreases se + 1 - k, r
  {
    hide Read, Missing, ZerosAfter, SaysNews, SaysCorrections, NewCoef, Zrl, RestSays, NBits, Abs;
    if k > se {
      c := [];
      NothingLeft(w, kn, from, k, se, r, br);
    } else {
      ZerosInNext(w, from, k);
      if w[k] == 0 {
        c := BlockSays(tbl, w, kn, from, k + 1, se, eob, r + 1, br, z);
        SkipOld(w, kn, from, k, se, BlockFrom(tbl, w, kn, k, se, eob, r, br), z, br, br, c, c);
      } else if r > 15 && k <= eob {
        c := BlockSays(tbl, w, kn, from, k, se, eob, r - 16, [], z + 16);
        AfterZrl(tbl, w, kn, from, k, se, BlockFrom(tbl, w, kn, k, se, eob, r - 16, []), z, br, c);
        SomeTokens(Zrl(tbl, br), BlockFrom(tbl, w, kn, k, se, eob, r - 16, []), tbl, br, 0, 1);
      } else if kn[k] != 0 {
        var b := [CorrectionBit(w[k])];
        var d := BlockSays(tbl, w, kn, from, k + 1, se, eob, r, br + b, z);
        c := b + d;
        assert (br + b) + d == br + c;
        SkipOld(w, kn, from, k, se, BlockFrom(tbl, w, kn, k, se, eob, r, br), z, br + b, br, d, c);
      } else {
        assert ZerosIn(w, k + 1, k + 1) == 0;
        assert InBand(w, kn, k + 1, se);
        c := BlockSays(tbl, w, kn, k + 1, k + 1, se, eob, 0, [], 0);
        AfterNew(tbl, w, kn, from, k, se, BlockFrom(tbl, w, kn, k + 1, se, eob, 0, []), z, r, br, c);
        SomeTokens(NewCoef(tbl, r, w[k], br), BlockFrom(tbl, w, kn, k + 1, se, eob, 0, []), tbl, br, r, w[k]);
      }
    }
  }

  lemma {:induction false} SomeTokens(g: seq<Token>, p: Piece, tbl: nat, br: BitString, r: nat, v: int)
    requires g == Zrl(tbl, br) || g == NewCoef(tbl, r, v, br)
    ensures Prepend(g, p).toks != []
  {
    hide RawBits, ToBits, NBits;
    assert g[0].Sym?;
  }

  lemma {:induction false} NothingLeft(w: seq<int>, kn: seq<int>, from: nat, k: nat, se: nat, r: nat, br: BitString)
    requires se < |w| == |kn| && k > se
    ensures RestSays(w, kn, from, k, se, Piece([], r, br), 0, br, [])
  {
    assert br + [] == [] + br == br;
  }

  /** A zero or a known coefficient adds no symbol. */
  lemma {:induction false} SkipOld(w: seq<int>, kn: seq<int>, from: nat, k: nat, se: nat, p: Piece, z: nat,
                                   br1: BitString, br: BitString, d: BitString, c: BitString)
    requires k <= se < |w| == |kn| && (w[k] == 0 || kn[k] != 0) && (w[k] == 0 ==> kn[k] == 0)
    requires RestSays(w, kn, from, k + 1, se, p, z, br1, d)
    requires br1 + d == br + c && c == (if kn[k] != 0 then [CorrectionBit(w[k])] else []) + d
    ensures RestSays(w, kn, from, k, se, p, z, br, c)
  {
    hide Read, Missing, ZerosAfter, SaysNews, SaysCorrections;
    NewsSkip(w, kn, from, k, se + 1, Read(p.toks, z, 0).news);
    CorrectionsCons(w, kn, k, se + 1, d);
    assert [] + d == d;
  }

  // ----- what a run of blocks says

  /** What a block adds to its segment. */
  ghost predicate JobSays(sc: AcScan, jb: Job, rd: Reading)
    requires ValidBand(sc) && |jb.w| == |jb.kn| == DCTSIZE2
  {
    && SaysNews(jb.w, jb.kn, sc.ss, sc.ss, sc.se + 1, rd.news)
    && SaysCorrections(jb.w, jb.kn, sc.ss, sc.se + 1, rd.corrections)
    && rd.blocks == if EndsEarly(jb.w, jb.kn, sc.se) then 1 else 0
  }

  /** One block after the other. */
  ghost predicate RunSays(sc: AcScan, jobs: seq<Job>, rd: Reading)
    requires ValidBand(sc) && ValidJobs(sc, jobs)
    decreases |jobs|
  {
    if jobs == [] then rd == Reading([], [], 0) else
    var n := |jobs| - 1;
    exists a: Reading, b: Reading :: RunSays(sc, jobs[..n], a) && JobSays(sc, jobs[n], b) && rd == Both(a, b)
  }

  lemma {:induction false} RunSaysNext(sc: AcScan, jobs: seq<Job>, a: Reading, jb: Job, b: Reading)
    requires ValidBand(sc) && ValidJobs(sc, jobs) && ValidJob(sc, jb) && RunSays(sc, jobs, a) && JobSays(sc, jb, b)
    ensures ValidJobs(sc, jobs + [jb]) && RunSays(sc, jobs + [jb], Both(a, b))
  {
    hide JobSays, Both;
    assert (jobs + [jb])[..|jobs|] == jobs;
  }

  /** The open segment with what is still pending. */
  function Told(s: AcState): Reading {
    var rd := Read(s.log[|s.log| - 1], 0, 0);
    Reading(rd.news, rd.corrections + s.be, rd.blocks + s.eobrun)
  }

  /** The open segment ends with a whole symbol, and no zeros wait for a coefficient. */
  predicate Whole(s: AcState) {
    Missing(s.log[|s.log| - 1], 0) == 0 && ZerosAfter(s.log[|s.log| - 1], 0) == 0
  }

  lemma {:induction false} FlushSays(tbl: nat, n: nat, be: BitString)
    requires n <= MAX_EOBRUN && (be != [] ==> n > 0)
    ensures var f := Flush(tbl, n, be);
            Missing(f, 0) == 0 && ZerosAfter(f, 0) == 0 && Read(f, 0, 0) == Reading([], be, n)
  {
    hide Read, Missing, ZerosAfter, Pow2, NBits, ToBits, RawBits, Value;
    if n > 0 {
      var s, x := RunSize(n);
      RunSymbol(s);
      ValueToBits(x, s);
      ReadGroup(tbl, 16 * s, ToBits(x, s), be, 0);
      assert Flush(tbl, n, be) == [Sym(tbl, 16 * s)] + RawBits(ToBits(x, s)) + RawBits(be);
    } else {
      NothingRead();
    }
  }

  lemma {:induction false} NothingRead()
    ensures Missing([], 0) == 0 && ZerosAfter([], 0) == 0 && Read([], 0, 0) == Reading([], [], 0)
  {
  }

  lemma {:induction false} RunSymbol(s: nat)
    requires s <= 14
    ensures 16 * s % 16 == 0 && 16 * s / 16 == s && 16 * s != 0xF0 && Own(16 * s) == s && ZerosNow(16 * s, 0) == 0
  {
  }

  lemma {:induction false} AppendSays(s: AcState, toks: seq<Token>)
    requires Whole(s) && Missing(toks, 0) == 0 && ZerosAfter(toks, 0) == 0
    ensures var log := Append(s.log, toks);
            && Missing(log[|log| - 1], 0) == 0 && ZerosAfter(log[|log| - 1], 0) == 0
            && Read(log[|log| - 1], 0, 0) == Both(Read(s.log[|s.log| - 1], 0, 0), Read(toks, 0, 0))
  {
    hide Read, Missing, ZerosAfter, Both;
    ReadAppend(s.log[|s.log| - 1], toks, 0, 0);
  }

  lemma {:induction false} FlushedSays(sc: AcScan, s: AcState)
    requires Whole(s) && s.eobrun <= MAX_EOBRUN && (s.be != [] ==> s.eobrun > 0)
    ensures Whole(Flushed(sc, s)) && Told(Flushed(sc, s)) == Told(s)
    ensures var log := Flushed(sc, s).log; Read(log[|log| - 1], 0, 0) == Told(s)
  {
    hide Read, Missing, ZerosAfter, Flush;
    FlushSays(sc.tbl, s.eobrun, s.be);
    AppendSays(s, Flush(sc.tbl, s.eobrun, s.be));
    var rd := Read(s.log[|s.log| - 1], 0, 0);
    assert rd.news + [] == rd.news;
    assert rd.corrections + s.be + [] == rd.corrections + s.be;
  }

  lemma {:induction false} TokensSay(sc: AcScan, s: AcState, p: Piece)
    requires Whole(s) && Bounded(sc, s)
    requires Missing(p.toks, 0) == 0 && ZerosAfter(p.toks, 0) == 0 && Read(p.toks, 0, 0).blocks == 0
    ensures var s1, rd := AfterTokens(sc, s, p), Read(p.toks, 0, 0);
            && Whole(s1) && Told(s1) == Both(Told(s), Reading(rd.news, rd.corrections, 0))
  {
    hide Read, Missing, ZerosAfter, Flush;
    var rd := Read(p.toks, 0, 0);
    if p.toks == [] {
      assert rd == Reading([], [], 0) by { assert p.toks == []; NothingRead(); }
      BothAssoc(Told(s), rd, rd);
    } else {
      FlushSays(sc.tbl, s.eobrun, s.be);
      var f := Flush(sc.tbl, s.eobrun, s.be);
      ReadAppend(f, p.toks, 0, 0);
      AppendSays(s, f + p.toks);
      var t := Read(s.log[|s.log| - 1], 0, 0);
      assert t.news + ([] + rd.news) == t.news + rd.news;
      assert t.corrections + (s.be + rd.corrections) + [] == t.corrections + s.be + rd.corrections;
    }
  }

  /** A block in the open segment adds what JobSays. */
  lemma {:induction false} AfterBlockSays(sc: AcScan, s: AcState, jb: Job) returns (rd: Reading)
    requires ValidBand(sc) && ValidJob(sc, jb) && Whole(s) && Bounded(sc, s)
    ensures JobSays(sc, jb, rd)
    ensures var s2 := AfterBlock(sc, s, JobPiece(sc, jb)); Whole(s2) && Told(s2) == Both(Told(s), rd)
  {
    hide Read, Missing, ZerosAfter, Flush, SaysNews, SaysCorrections, BlockFrom, Whole, EndsEarly, LastNew, Flushed, InBand;
    var p := JobPiece(sc, jb);
    var c := PieceSays(sc, jb);
    var part := Read(p.toks, 0, 0);
    rd := Reading(part.news, c, if p.Pending() then 1 else 0);
    TokensSay(sc, s, p);
    var s1 := AfterTokens(sc, s, p);
    var s2 := Joined(s1, p);
    JoinedSays(s1, p);
    var t := Told(s);
    assert t.corrections + part.corrections + p.br == t.corrections + (part.corrections + p.br);
    assert Told(s2) == Both(t, rd);
    if MustFlush(s2, p) {
      FlushedSays(sc, s2);
    }
  }

  lemma {:induction false} JoinedSays(s: AcState, p: Piece)
    requires Whole(s)
    ensures Whole(Joined(s, p))
    ensures var t, u := Told(s), Told(Joined(s, p));
            u.news == t.news && u.corrections == t.corrections + p.br && u.blocks == t.blocks + if p.Pending() then 1 else 0
  {
    hide Read, Missing, ZerosAfter;
    var rd := Read(s.log[|s.log| - 1], 0, 0);
    assert rd.corrections + s.be + p.br == rd.corrections + (s.be + p.br);
    if !p.Pending() {
      assert rd.corrections + s.be + [] == rd.corrections + s.be;
    }
  }

  /** BlockSays for a whole block. */
  lemma {:induction false} PieceSays(sc: AcScan, jb: Job) returns (c: BitString)
    requires ValidBand(sc) && ValidJob(sc, jb)
    ensures var p := JobPiece(sc, jb); var rd := Read(p.toks, 0, 0);
            && Missing(p.toks, 0) == 0 && ZerosAfter(p.toks, 0) == 0 && rd.blocks == 0
            && SaysNews(jb.w, jb.kn, sc.ss, sc.ss, sc.se + 1, rd.news)
            && SaysCorrections(jb.w, jb.kn, sc.ss, sc.se + 1, c) && rd.corrections + p.br == c
            && p.Pending() == EndsEarly(jb.w, jb.kn, sc.se)
  {
    hide Read, Missing, ZerosAfter, SaysNews, SaysCorrections, BlockFrom, EndsEarly, InBand;
    var eob := LastNew(jb.w, jb.kn, sc.ss, sc.se + 1);
    c := BlockSays(sc.tbl, jb.w, jb.kn, sc.ss, sc.ss, sc.se, eob, 0, [], 0);
    assert [] + c == c;
  }

  /** One step of the scan: a restart empties what the open segment says, then the block adds to it. */
  lemma {:induction false} McuSays(sc: AcScan, s0: AcState, jb: Job) returns (rd: Reading)
    requires ValidBand(sc) && ValidJob(sc, jb) && Whole(s0) && Bounded(sc, s0)
    ensures JobSays(sc, jb, rd)
    ensures var s := ScanStep(sc, s0, JobPiece(sc, jb));
            Whole(s) && Told(s) == Both(if RestartDue(sc, s0) then Reading([], [], 0) else Told(s0), rd)
  {
    hide JobPiece, Read, InBand, AfterBlock, JobSays, Missing, ZerosAfter, Whole, Told, Bounded;
    var s1 := AcRestarted(sc, s0);
    RestartedBounded(sc, s0);
    if RestartDue(sc, s0) {
      FlushDone(sc, s0);
    }
    rd := AfterBlockSays(sc, s1, jb);
    CountedSays(sc, AfterBlock(sc, s1, JobPiece(sc, jb)));
  }

  // ----- the segments of a scan

  /** The state after these blocks: r to a segment, m segments finished. */
  ghost predicate SaidSoFar(sc: AcScan, jobs: seq<Job>, s: AcState, m: nat)
    requires ValidBand(sc) && ValidJobs(sc, jobs)
  {
    var r := sc.restart;
    && Whole(s) && |s.log| == m + 1 && 0 <= m * r <= |jobs|
    && (r > 0 ==> m * r < |jobs| <= m * r + r && s.togo + |jobs| == m * r + r)
    && (r == 0 ==> m == 0)
    && (forall i :: 0 <= i < m ==> SegmentSays(sc, jobs, i, s.log[i]))
    && ValidJobs(sc, jobs[m * r..]) && RunSays(sc, jobs[m * r..], Told(s))
  }

  /** A finished segment i says what its blocks say. */
  ghost predicate SegmentSays(sc: AcScan, jobs: seq<Job>, i: nat, toks: seq<Token>)
    requires ValidBand(sc) && ValidJobs(sc, jobs)
  {
    var r := sc.restart;
    && 0 <= i * r <= i * r + r <= |jobs|
    && ValidJobs(sc, jobs[i * r..i * r + r]) && RunSays(sc, jobs[i * r..i * r + r], Read(toks, 0, 0))
  }

  lemma {:induction false} SegmentStays(sc: AcScan, jobs: seq<Job>, jb: Job, i: nat, toks: seq<Token>)
    requires ValidBand(sc) && ValidJobs(sc, jobs) && ValidJob(sc, jb) && SegmentSays(sc, jobs, i, toks)
    ensures ValidJobs(sc, jobs + [jb]) && SegmentSays(sc, jobs + [jb], i, toks)
  {
    hide RunSays, Read, InBand;
    var r := sc.restart;
    assert (jobs + [jb])[i * r..i * r + r] == jobs[i * r..i * r + r];
  }

  lemma {:induction false} FirstSaid(sc: AcScan, jb: Job)
    requires ValidBand(sc) && ValidJob(sc, jb)
    ensures ValidJobs(sc, [jb]) && SaidSoFar(sc, [jb], ScanStep(sc, AcStart(sc), JobPiece(sc, jb)), 0)
  {
    hide JobPiece, Read, InBand, AfterBlock, JobSays, Missing, ZerosAfter;
    var s := AcStart(sc);
    StartSays(sc);
    var rd := AfterBlockSays(sc, s, jb);
    LogKept(sc, s, JobPiece(sc, jb));
    assert [] + [jb] == [jb] == [jb][0..];
    RunSaysNext(sc, [], Told(s), jb, rd);
    var s2 := AfterBlock(sc, s, JobPiece(sc, jb));
    CountedSays(sc, s2);
  }

  lemma {:induction false} StartSays(sc: AcScan)
    requires ValidBand(sc)
    ensures Whole(AcStart(sc)) && Bounded(sc, AcStart(sc)) && Told(AcStart(sc)) == Reading([], [], 0)
    ensures ValidJobs(sc, []) && RunSays(sc, [], Reading([], [], 0))
  {
  }

  lemma {:induction false} CountedSays(sc: AcScan, s: AcState)
    ensures Told(Counted(sc, s)) == Told(s) && (Whole(s) ==> Whole(Counted(sc, s)))
    ensures Counted(sc, s).log == s.log && Counted(sc, s).togo == if sc.restart > 0 && s.togo > 0 then s.togo - 1 else s.togo
  {
  }

  lemma {:induction false} LogKept(sc: AcScan, s: AcState, p: Piece)
    ensures var s2 := AfterBlock(sc, s, p);
            |s2.log| == |s.log| && s2.togo == s.togo && forall i :: 0 <= i < |s.log| - 1 ==> s2.log[i] == s.log[i]
  {
    hide Flush;
  }

  lemma {:induction false} NextSaid(sc: AcScan, jobs: seq<Job>, s0: AcState, jb: Job, m: nat) returns (m': nat)
    requires ValidBand(sc) && ValidJobs(sc, jobs) && ValidJob(sc, jb) && Bounded(sc, s0) && SaidSoFar(sc, jobs, s0, m)
    ensures ValidJobs(sc, jobs + [jb]) && SaidSoFar(sc, jobs + [jb], ScanStep(sc, s0, JobPiece(sc, jb)), m')
  {
    hide JobPiece, Read, InBand, AfterBlock, JobSays, Missing, ZerosAfter, RunSays, SegmentSays, Whole, Told, Bounded;
    var r, all, p := sc.restart, jobs + [jb], JobPiece(sc, jb);
    var s1 := AcRestarted(sc, s0);
    StepBounded(sc, s0, jb);
    RestartedBounded(sc, s0);
    LogKept(sc, s1, p);
    var s2 := AfterBlock(sc, s1, p);
    CountedSays(sc, s2);
    forall i | 0 <= i < m
      ensures SegmentSays(sc, all, i, s0.log[i])
    {
      SegmentStays(sc, jobs, jb, i, s0.log[i]);
    }
    if RestartDue(sc, s0) {
      m' := m + 1;
      FlushDone(sc, s0);
      assert m * r + r == m' * r == |jobs|;
      assert jobs[m * r..m * r + r] == jobs[m * r..];
      assert SegmentSays(sc, jobs, m, s1.log[m]) by { SegmentIs(sc, jobs, m, s1.log[m]); }
      SegmentStays(sc, jobs, jb, m, s1.log[m]);
      assert forall i :: 0 <= i < m ==> s1.log[i] == s0.log[i];
      StartSays(sc);
      var rd := AfterBlockSays(sc, s1, jb);
      RunSaysNext(sc, [], Told(s1), jb, rd);
      assert all[m' * r..] == [] + [jb];
    } else {
      m' := m;
      var rd := AfterBlockSays(sc, s1, jb);
      RunSaysNext(sc, jobs[m * r..], Told(s1), jb, rd);
      assert all[m * r..] == jobs[m * r..] + [jb];
    }
  }

  lemma {:induction false} SegmentIs(sc: AcScan, jobs: seq<Job>, i: nat, toks: seq<Token>)
    requires ValidBand(sc) && ValidJobs(sc, jobs) && 0 <= i * sc.restart <= i * sc.restart + sc.restart <= |jobs|
    requires var r := sc.restart; ValidJobs(sc, jobs[i * r..i * r + r]) && RunSays(sc, jobs[i * r..i * r + r], Read(toks, 0, 0))
    ensures SegmentSays(sc, jobs, i, toks)
  {
  }

  lemma {:induction false} RestartedBounded(sc: AcScan, s: AcState)
    requires Bounded(sc, s)
    ensures Bounded(sc, AcRestarted(sc, s))
  {
  }

  /** A restart closes the segment with everything pending, and opens an empty one. */
  lemma {:induction false} FlushDone(sc: AcScan, s: AcState)
    requires Whole(s) && Bounded(sc, s) && RestartDue(sc, s)
    ensures var s1, n := AcRestarted(sc, s), |s.log|;
            && |s1.log| == n + 1 && s1.togo == sc.restart && Whole(s1) && Told(s1) == Reading([], [], 0)
            && Read(s1.log[n - 1], 0, 0) == Told(s) && forall i :: 0 <= i < n - 1 ==> s1.log[i] == s.log[i]
  {
    hide Flush, Told;
    FlushedSays(sc, s);
    var s1 := AcRestarted(sc, s);
    assert s1.log[|s.log|] == [] && s1.be == [] && s1.eobrun == 0;
    assert Told(s1) == Reading([], [], 0) by { NothingTold(s1); }
  }

  lemma {:induction false} NothingTold(s: AcState)
    requires s.log[|s.log| - 1] == [] && s.be == [] && s.eobrun == 0
    ensures Told(s) == Reading([], [], 0)
  {
  }

  lemma {:induction false} RunSaid(sc: AcScan, jobs: seq<Job>) returns (m: nat)
    requires ValidBand(sc) && ValidJobs(sc, jobs) && jobs != []
    ensures SaidSoFar(sc, jobs, RunScan(sc, jobs), m)
    decreases |jobs|
  {
    hide SaidSoFar, ScanStep, JobPiece, InBand, Bounded, AcStart;
    var front, jb := jobs[..|jobs| - 1], jobs[|jobs| - 1];
    assert front + [jb] == jobs;
    if front == [] {
      m := 0;
      FirstSaid(sc, jb);
      assert jobs == [jb];
      assert RunScan(sc, front) == AcStart(sc);
    } else {
      m := RunSaid(sc, front);
      RunBoundedJobs(sc, front);
      m := NextSaid(sc, front, RunScan(sc, front), jb, m);
    }
  }

  lemma {:induction false} RunBoundedJobs(sc: AcScan, jobs: seq<Job>)
    requires ValidBand(sc) && ValidJobs(sc, jobs)
    ensures Bounded(sc, RunScan(sc, jobs))
  {
    RunBounded(sc, jobs);
  }

  /** The log of a whole AC scan: every sc.restart blocks a segment ends; each segment says, in
      order, the new coefficients, correction bits and early ends of its blocks, and nothing else. */
  ghost predicate SegmentsSay(sc: AcScan, jobs: seq<Job>, log: Log, m: nat)
    requires ValidBand(sc) && ValidJobs(sc, jobs)
  {
    && (sc.restart == 0 ==> m == 0)
    && (sc.restart > 0 ==> m * sc.restart < |jobs| <= m * sc.restart + sc.restart)
    && |log| == m + 1 && (forall i :: 0 <= i < m ==> SegmentSays(sc, jobs, i, log[i]))
    && 0 <= m * sc.restart <= |jobs| && ValidJobs(sc, jobs[m * sc.restart..])
    && RunSays(sc, jobs[m * sc.restart..], Read(log[m], 0, 0))
  }

  lemma {:induction false} ScanSays(sc: AcScan, jobs: seq<Job>) returns (m: nat)
    requires ValidBand(sc) && ValidJobs(sc, jobs) && jobs != []
    ensures SegmentsSay(sc, jobs, Flushed(sc, RunScan(sc, jobs)).log, m)
  {
    hide SegmentSays, RunSays, Read, InBand, RunScan, Whole, Told, Flush;
    m := RunSaid(sc, jobs);
    RunBoundedJobs(sc, jobs);
    FlushedSays(sc, RunScan(sc, jobs));
  }
}
