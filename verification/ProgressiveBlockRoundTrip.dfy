/** Decoding what an AC scan sends for one block gives the block back. */
module ProgressiveBlockRoundTrip {
  import opened JpegLimits
  import opened Arith
  import opened Bits
  import opened HuffTable
  import opened DerivedTables
  import opened BlockCoding
  import opened ProgressiveTokens
  import opened ProgressiveBlock

  lemma {:induction false} WindowSplit(w: seq<int>, kn: seq<int>, a: nat, m: nat, b: nat)
    requires a <= m <= b <= |kn| == |w|
    ensures Zeros(kn, a, b) == Zeros(kn, a, m) + Zeros(kn, m, b)
    ensures Corrections(w, kn, a, b) == Corrections(w, kn, a, m) + Corrections(w, kn, m, b)
    decreases m - a
  {
    if a < m {
      WindowSplit(w, kn, a + 1, m, b);
    }
  }

  lemma {:induction false} NthZero(kn: seq<int>, a: nat, b: nat, n: nat) returns (p: nat)
    requires b <= |kn| && n < Zeros(kn, a, b)
    ensures a <= p < b && kn[p] == 0 && Zeros(kn, a, p) == n
    decreases b - a
  {
    if kn[a] == 0 && n == 0 {
      p := a;
    } else {
      p := NthZero(kn, a + 1, b, if kn[a] == 0 then n - 1 else n);
    }
  }

  lemma {:induction false} NoCorrections(w: seq<int>, kn: seq<int>, a: nat, b: nat)
    requires b <= |kn| == |w| && forall j :: a <= j < b ==> kn[j] == 0
    ensures Corrections(w, kn, a, b) == []
    decreases b - a
  {
    if a < b {
      NoCorrections(w, kn, a + 1, b);
    }
  }

  lemma {:induction false} ZerosBound(kn: seq<int>, a: nat, b: nat)
    requires a <= b <= |kn|
    ensures Zeros(kn, a, b) <= b - a
    decreases b - a
  {
    if a < b {
      ZerosBound(kn, a + 1, b);
    }
  }

  /** New coefficients fit the magnitude categories of the standard. */
  predicate InBand(w: seq<int>, kn: seq<int>, ss: nat, se: nat)
    requires |w| == |kn| && se < |w|
  {
    forall k :: ss <= k <= se && kn[k] == 0 ==> Category(w[k]) <= MAX_COEF_BITS
  }

  /** kd..k-1 is what the encoder has passed since its last symbol. */
  ghost predicate Window(w: seq<int>, kn: seq<int>, eob: nat, kd: nat, k: nat, r: nat, br: BitString)
    requires |w| == |kn|
  {
    && kd <= k <= |w|
    && r == Zeros(kn, kd, k) && br == Corrections(w, kn, kd, k)
    && (forall j :: kd <= j < k && kn[j] == 0 ==> w[j] == 0)
    && (forall j :: kd <= j < k && kn[j] != 0 && j <= eob ==> Zeros(kn, kd, j) <= 15)
  }

  lemma {:induction false} WindowGrows(w: seq<int>, kn: seq<int>, eob: nat, kd: nat, k: nat, r: nat, br: BitString)
    requires Known(w, kn) && k < |w| && Window(w, kn, eob, kd, k, r, br)
    ensures w[k] == 0 ==> Window(w, kn, eob, kd, k + 1, r + 1, br)
    ensures w[k] != 0 && kn[k] != 0 && !(r > 15 && k <= eob) ==>
              Window(w, kn, eob, kd, k + 1, r, br + [CorrectionBit(w[k])])
  {
    WindowExtend(w, kn, kd, k);
  }

  /** After the sixteenth zero of a window that needs a ZRL nothing is known up to k. */
  lemma {:induction false} SixteenthOn(w: seq<int>, kn: seq<int>, eob: nat, kd: nat, p: nat, k: nat, r: nat, br: BitString)
    requires |w| == |kn| && k <= eob && kd <= p < k && Window(w, kn, eob, kd, k, r, br)
    requires kn[p] == 0 && Zeros(kn, kd, p) == 15
    ensures forall j :: p <= j < k ==> kn[j] == 0
  {
    forall j | p < j < k
      ensures kn[j] == 0
    {
      WindowSplit(w, kn, kd, p, j);
      assert Zeros(kn, p, j) >= 1;
    }
  }

  /** What remains of the window after it. */
  lemma {:induction false} WindowRest(w: seq<int>, kn: seq<int>, eob: nat, kd: nat, p: nat, k: nat, r: nat, br: BitString)
    requires |w| == |kn| && k <= eob && kd <= p < k && Window(w, kn, eob, kd, k, r, br) && r > 15
    requires kn[p] == 0 && Zeros(kn, kd, p) == 15
    ensures Window(w, kn, eob, p + 1, k, r - 16, []) && br == Corrections(w, kn, kd, p)
  {
    WindowSplit(w, kn, kd, p, k);
    SixteenthOn(w, kn, eob, kd, p, k, r, br);
    NoCorrections(w, kn, p, k);
    NoCorrections(w, kn, p + 1, k);
  }

  /** The decoder's way through the first 16 zeros of a window. */
  lemma {:induction false} ZrlWindow(w: seq<int>, kn: seq<int>, acc: seq<int>, ss: nat, se: nat, eob: nat, kd: nat, k: nat, r: nat, br: BitString,
                  rest: BitString) returns (p: nat, acc': seq<int>)
    requires Known(w, kn) && ss <= kd && k <= se < DCTSIZE2 && k <= eob && r > 15
    requires Window(w, kn, eob, kd, k, r, br) && Progress(w, kn, acc, ss, kd, se)
    ensures kd <= p < k && Window(w, kn, eob, p + 1, k, r - 16, [])
    ensures Progress(w, kn, acc', ss, p + 1, se)
    ensures Skip(kn, acc, kd, se, 15, br + rest) == (acc', p, rest)
  {
    p := NthZero(kn, kd, k, 15);
    WindowRest(w, kn, eob, kd, p, k, r, br);
    acc' := SkipWindow(w, kn, acc, ss, kd, p, se, 15, rest);
    assert forall j :: kd <= j < k && kn[j] == 0 ==> w[j] == 0;
  }

  lemma {:induction false} RunSize(n: nat) returns (s: nat, x: nat)
    requires 0 < n <= 0x7FFF
    ensures s == NBits(n) - 1 && s <= 14 && x == n % Pow2(s) && x < Pow2(s) && Pow2(s) + x == n
  {
    s := NBits(n) - 1;
    NBitsRange(n);
    assert Pow2(15) == 0x8000;
    if s > 14 {
      Pow2Mono(15, s);
    }
    x := n % Pow2(s);
    DivModUnique(n, Pow2(s), 1, n - Pow2(s));
  }

  /** The bits of an EOB run and the decoder's view of them. */
  lemma {:induction false} EobRunBits(tabs: seq<CDerived>, tbl: nat, t: HuffTbl, n: nat, be: BitString, tail: BitString)
    requires ShapedSlots(tabs) && tbl < |tabs| && Encodes(tabs[tbl], t)
    requires 0 < n <= 0x7FFF && TokCodable(tabs, EobRun(tbl, n, be))
    ensures var (sym, b1) := NextSym(t, TokBits(tabs, EobRun(tbl, n, be)) + tail);
            var r := sym / 16; var (x, b2) := Take(b1, r);
            sym % 16 == 0 && r < 15 && Pow2(r) + x == n && b2 == be + tail
  {
    hide Pow2, ToBits, NBits, Encodes, LegalCounts, NextSym, Take, TokBits, TokCodable;
    var s, x := RunSize(n);
    var a, b, c := [Sym(tbl, 16 * s)], RawBits(ToBits(x, s)), RawBits(be);
    assert EobRun(tbl, n, be) == a + (b + c);
    TokBitsAppend(tabs, a, b + c);
    TokBitsAppend(tabs, b, c);
    CodableHead(tabs, tbl, 16 * s);
    OneSymbol(tabs, tbl, 16 * s);
    RawTokBits(tabs, ToBits(x, s));
    RawTokBits(tabs, be);
    var bits := ToBits(x, s) + (be + tail);
    assert TokBits(tabs, EobRun(tbl, n, be)) + tail == CodeBits(tabs[tbl], 16 * s) + bits;
    NextSymBack(tabs[tbl], t, 16 * s, bits);
    TakeBack(x, s, be + tail);
  }

  lemma {:induction false} CodableHead(tabs: seq<CDerived>, tbl: nat, s: nat)
    requires TokCodable(tabs, [Sym(tbl, s)])
    ensures TokenCodable(tabs, Sym(tbl, s))
  {
    assert [Sym(tbl, s)][0] == Sym(tbl, s);
  }

  /** A run that ends a block partway: the rest of it is corrections. */
  lemma {:induction false} EndOfBlock(tabs: seq<CDerived>, tbl: nat, t: HuffTbl, w: seq<int>, kn: seq<int>, acc: seq<int>, ss: nat, se: nat,
                   eob: nat, kd: nat, r: nat, br: BitString, e: nat, tail: BitString) returns (acc': seq<int>)
    requires ShapedSlots(tabs) && tbl < |tabs| && Encodes(tabs[tbl], t)
    requires Known(w, kn) && ss <= kd <= se < DCTSIZE2 && Progress(w, kn, acc, ss, kd, se)
    requires Window(w, kn, eob, kd, se + 1, r, br)
    requires e + 1 <= 0x7FFF && TokCodable(tabs, EobRun(tbl, e + 1, br))
    ensures Progress(w, kn, acc', ss, se + 1, se)
    ensures AcBlock(t, kn, acc, kd, se, 0, TokBits(tabs, EobRun(tbl, e + 1, br)) + tail) == (acc', e, tail)
  {
    hide NextSym, Take, TokBits, EobRun, Encodes, LegalCounts, Pow2;
    EobRunBits(tabs, tbl, t, e + 1, br, tail);
    ZerosBound(kn, kd, se + 1);
    acc' := SkipWindow(w, kn, acc, ss, kd, se + 1, se, DCTSIZE2, tail);
  }

  /** The bits of a ZRL symbol with its correction bits. */
  lemma {:induction false} ZrlBits(tabs: seq<CDerived>, tbl: nat, t: HuffTbl, br: BitString, toks: seq<Token>, rest: BitString)
    requires ShapedSlots(tabs) && tbl < |tabs| && Encodes(tabs[tbl], t) && TokCodable(tabs, Zrl(tbl, br) + toks)
    ensures TokCodable(tabs, toks)
    ensures NextSym(t, TokBits(tabs, Zrl(tbl, br) + toks) + rest) == (0xF0, br + (TokBits(tabs, toks) + rest))
  {
    var a, b := [Sym(tbl, 0xF0)], RawBits(br);
    assert Zrl(tbl, br) + toks == a + (b + toks);
    TokBitsAppend(tabs, a, b + toks);
    TokBitsAppend(tabs, b, toks);
    assert TokenCodable(tabs, a[0]);
    OneSymbol(tabs, tbl, 0xF0);
    RawTokBits(tabs, br);
    var bits := br + (TokBits(tabs, toks) + rest);
    assert TokBits(tabs, Zrl(tbl, br) + toks) + rest == CodeBits(tabs[tbl], 0xF0) + bits;
    NextSymBack(tabs[tbl], t, 0xF0, bits);
  }

  lemma {:induction false} Regroup(a: BitString, b: BitString, c: BitString, d: BitString, e: BitString)
    ensures (a + (b + (c + d))) + e == a + (b + (c + (d + e)))
  {
  }

  lemma {:induction false} CategoryPositive(v: int)
    requires v != 0
    ensures Category(v) > 0
  {
  }

  /** The bits of a new coefficient with its correction bits. */
  lemma {:induction false} NewCoefBits(tabs: seq<CDerived>, tbl: nat, t: HuffTbl, r: nat, v: int, br: BitString, toks: seq<Token>, rest: BitString)
    requires ShapedSlots(tabs) && tbl < |tabs| && Encodes(tabs[tbl], t)
    requires r <= 15 && v != 0 && Category(v) <= MAX_COEF_BITS && TokCodable(tabs, NewCoef(tbl, r, v, br) + toks)
    ensures TokCodable(tabs, toks)
    ensures var s := Category(v);
            var (sym, b1) := NextSym(t, TokBits(tabs, NewCoef(tbl, r, v, br) + toks) + rest);
            var (x, b2) := Take(b1, s);
            s > 0 && sym == 16 * r + s && Extend(x, s) == v && b2 == br + (TokBits(tabs, toks) + rest)
  {
    CategoryPositive(v);
    hide Pow2, ToBits, Encodes, LegalCounts, NextSym, Take, Extend, ExtraCode, Category, TokBits, TokCodable, CodeBits;
    var s := Category(v);
    var extra := ToBits(ExtraCode(v) % Pow2(s), s);
    var a, b, c := [Sym(tbl, 16 * r + s)], RawBits(extra), RawBits(br);
    assert NewCoef(tbl, r, v, br) + toks == a + (b + (c + toks));
    TokBitsAppend(tabs, a, b + (c + toks));
    TokBitsAppend(tabs, b, c + toks);
    TokBitsAppend(tabs, c, toks);
    CodableHead(tabs, tbl, 16 * r + s);
    OneSymbol(tabs, tbl, 16 * r + s);
    RawTokBits(tabs, extra);
    RawTokBits(tabs, br);
    var more := br + (TokBits(tabs, toks) + rest);
    Regroup(CodeBits(tabs[tbl], 16 * r + s), extra, br, TokBits(tabs, toks), rest);
    NextSymBack(tabs[tbl], t, 16 * r + s, extra + more);
    TakeExtra(v, more);
  }

  lemma {:induction false} WellFormed(c: CDerived, t: HuffTbl, w: seq<int>, kn: seq<int>, acc: seq<int>, ss: nat, k: nat, se: nat)
    requires Encodes(c, t) && Known(w, kn) && Progress(w, kn, acc, ss, k, se)
    ensures Shaped(t) && LegalCounts(t.bits) && |w| == |kn| == |acc| == DCTSIZE2
  {
  }

  /** A block from position k on: from the decoder's position kd the bits of
      the remaining tokens, and of the EOB run that ends them if they leave
      anything pending, give the block and consume exactly those bits. */
  lemma {:induction false} BlockDecodes(tabs: seq<CDerived>, tbl: nat, t: HuffTbl, w: seq<int>, kn: seq<int>, acc: seq<int>,
                        ss: nat, se: nat, kd: nat, k: nat, r: nat, br: BitString, e: nat, rest: BitString, tail: BitString)
      returns (acc': seq<int>)
    requires ShapedSlots(tabs) && tbl < |tabs| && Encodes(tabs[tbl], t)
    requires 1 <= ss <= se < DCTSIZE2 && Known(w, kn) && InBand(w, kn, ss, se)
    requires ss <= kd <= k <= se + 1 && Progress(w, kn, acc, ss, kd, se)
    requires Window(w, kn, LastNew(w, kn, ss, se + 1), kd, k, r, br)
    requires var p := BlockFrom(tbl, w, kn, k, se, LastNew(w, kn, ss, se + 1), r, br);
             && TokCodable(tabs, p.toks)
             && (p.Pending() ==> e + 1 <= 0x7FFF && TokCodable(tabs, EobRun(tbl, e + 1, p.br)) &&
                                 rest == TokBits(tabs, EobRun(tbl, e + 1, p.br)) + tail)
             && (!p.Pending() ==> rest == tail)
    ensures Progress(w, kn, acc', ss, se + 1, se)
    ensures var p := BlockFrom(tbl, w, kn, k, se, LastNew(w, kn, ss, se + 1), r, br);
            AcBlock(t, kn, acc, kd, se, 0, TokBits(tabs, p.toks) + rest) == (acc', if p.Pending() then e else 0, tail)
    decreases se + 1 - k, r
  {
    hide Window, Progress, Known, InBand, Encodes, LegalCounts, NextSym, Take, TokBits, EobRun, Skip, Category, Extend,
      AcBlock, Shaped, ShapedSlots, TokCodable, Zrl, NewCoef, EncodesUpto;
    WellFormed(tabs[tbl], t, w, kn, acc, ss, kd, se);
    var eob := LastNew(w, kn, ss, se + 1);
    var p := BlockFrom(tbl, w, kn, k, se, eob, r, br);
    if k > se {
      acc' := BlockEnds(tabs, tbl, t, w, kn, acc, ss, se, kd, r, br, e, rest, tail);
    } else if w[k] == 0 {
      WindowGrows(w, kn, eob, kd, k, r, br);
      acc' := BlockDecodes(tabs, tbl, t, w, kn, acc, ss, se, kd, k + 1, r + 1, br, e, rest, tail);
    } else if r > 15 && k <= eob {
      var p1 := BlockFrom(tbl, w, kn, k, se, eob, r - 16, []);
      ZrlBits(tabs, tbl, t, br, p1.toks, rest);
      var q, a := ZrlWindow(w, kn, acc, ss, se, eob, kd, k, r, br, TokBits(tabs, p1.toks) + rest);
      acc' := BlockDecodes(tabs, tbl, t, w, kn, a, ss, se, q + 1, k, r - 16, [], e, rest, tail);
      DecodeZrl(t, kn, acc, kd, se, TokBits(tabs, p.toks) + rest);
    } else if kn[k] != 0 {
      WindowGrows(w, kn, eob, kd, k, r, br);
      acc' := BlockDecodes(tabs, tbl, t, w, kn, acc, ss, se, kd, k + 1, r, br + [CorrectionBit(w[k])], e, rest, tail);
    } else {
      var p1 := BlockFrom(tbl, w, kn, k + 1, se, eob, 0, []);
      var a := NewWindow(tabs, tbl, t, w, kn, acc, ss, se, kd, k, r, br, p1.toks, rest);
      acc' := BlockDecodes(tabs, tbl, t, w, kn, a, ss, se, k + 1, k + 1, 0, [], e, rest, tail);
    }
  }

  lemma {:induction false} BlockEnds(tabs: seq<CDerived>, tbl: nat, t: HuffTbl, w: seq<int>, kn: seq<int>, acc: seq<int>,
                  ss: nat, se: nat, kd: nat, r: nat, br: BitString, e: nat, rest: BitString, tail: BitString)
      returns (acc': seq<int>)
    requires ShapedSlots(tabs) && tbl < |tabs| && Encodes(tabs[tbl], t)
    requires 1 <= ss <= se < DCTSIZE2 && Known(w, kn)
    requires ss <= kd <= se + 1 && Progress(w, kn, acc, ss, kd, se)
    requires Window(w, kn, LastNew(w, kn, ss, se + 1), kd, se + 1, r, br)
    requires var pending := r > 0 || br != [];
             && (pending ==> e + 1 <= 0x7FFF && TokCodable(tabs, EobRun(tbl, e + 1, br)) &&
                             rest == TokBits(tabs, EobRun(tbl, e + 1, br)) + tail)
             && (!pending ==> rest == tail)
    ensures Progress(w, kn, acc', ss, se + 1, se)
    ensures AcBlock(t, kn, acc, kd, se, 0, TokBits(tabs, []) + rest) == (acc', if r > 0 || br != [] then e else 0, tail)
  {
    hide EobRun, NextSym, Take, Encodes, Skip, LastNew, Progress;
    assert TokBits(tabs, []) + rest == rest;
    if r > 0 || br != [] {
      acc' := EndOfBlock(tabs, tbl, t, w, kn, acc, ss, se, LastNew(w, kn, ss, se + 1), kd, r, br, e, tail);
    } else {
      acc' := acc;
    }
  }

  lemma {:induction false} DecodeZrl(t: HuffTbl, kn: seq<int>, acc: seq<int>, kd: nat, se: nat, bits: BitString)
    requires Shaped(t) && LegalCounts(t.bits) && |kn| == |acc| == DCTSIZE2 && kd <= se < DCTSIZE2
    requires NextSym(t, bits).0 == 0xF0
    ensures var (a, q, b) := Skip(kn, acc, kd, se, 15, NextSym(t, bits).1);
            AcBlock(t, kn, acc, kd, se, 0, bits) == AcBlock(t, kn, a, q + 1, se, 0, b)
  {
    hide NextSym, Skip;
  }

  /** A new coefficient: the decoder passes the window and places it. */
  lemma {:induction false} NewWindow(tabs: seq<CDerived>, tbl: nat, t: HuffTbl, w: seq<int>, kn: seq<int>, acc: seq<int>, ss: nat, se: nat,
                  kd: nat, k: nat, r: nat, br: BitString, toks: seq<Token>, rest: BitString) returns (acc': seq<int>)
    requires ShapedSlots(tabs) && tbl < |tabs| && Encodes(tabs[tbl], t)
    requires 1 <= ss <= se < DCTSIZE2 && Known(w, kn) && InBand(w, kn, ss, se)
    requires ss <= kd <= k <= se && w[k] != 0 && kn[k] == 0 && Progress(w, kn, acc, ss, kd, se)
    requires var eob := LastNew(w, kn, ss, se + 1); !(r > 15 && k <= eob) && Window(w, kn, eob, kd, k, r, br)
    requires TokCodable(tabs, NewCoef(tbl, r, w[k], br) + toks)
    ensures TokCodable(tabs, toks)
    ensures Progress(w, kn, acc', ss, k + 1, se) && Window(w, kn, LastNew(w, kn, ss, se + 1), k + 1, k + 1, 0, [])
    ensures AcBlock(t, kn, acc, kd, se, 0, TokBits(tabs, NewCoef(tbl, r, w[k], br) + toks) + rest)
         == AcBlock(t, kn, acc', k + 1, se, 0, TokBits(tabs, toks) + rest)
  {
    hide NextSym, Take, Encodes, LegalCounts, TokBits, NewCoef, Category, Extend, TokCodable, ShapedSlots, Shaped, Skip, Known;
    WellFormed(tabs[tbl], t, w, kn, acc, ss, kd, se);
    assert k <= LastNew(w, kn, ss, se + 1);
    NewCoefBits(tabs, tbl, t, r, w[k], br, toks, rest);
    var more := TokBits(tabs, toks) + rest;
    var a := SkipWindow(w, kn, acc, ss, kd, k, se, r, more);
    acc' := a[k := w[k]];
    DecodeNew(t, kn, acc, kd, se, TokBits(tabs, NewCoef(tbl, r, w[k], br) + toks) + rest, r, Category(w[k]));
  }

  lemma {:induction false} DecodeNew(t: HuffTbl, kn: seq<int>, acc: seq<int>, kd: nat, se: nat, bits: BitString, r: nat, s: nat)
    requires Shaped(t) && LegalCounts(t.bits) && |kn| == |acc| == DCTSIZE2 && kd <= se < DCTSIZE2
    requires r <= 15 && 0 < s <= 15 && NextSym(t, bits).0 == 16 * r + s
    ensures var (x, b2) := Take(NextSym(t, bits).1, s);
            var (a, q, b) := Skip(kn, acc, kd, se, r, b2);
            AcBlock(t, kn, acc, kd, se, 0, bits) == AcBlock(t, kn, Set(a, q, Extend(x, s)), q + 1, se, 0, b)
  {
    hide NextSym, Skip, Take, Extend;
    assert (16 * r + s) / 16 == r && (16 * r + s) % 16 == s;
  }
}
