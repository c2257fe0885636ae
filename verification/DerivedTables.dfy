/** The working tables of the encoder (jpeg_make_c_derived_tbl) and of the
    decoder (jpeg_make_d_derived_tbl), computed from a JHUFF_TBL. */
module DerivedTables {
  import opened Arith
  import opened Bits
  import opened HuffTable

  const MAXSYMS := 257
  const LOOKAHEAD := 8

  // ----- figures C.1 and C.2, common to both sides

  /** huffsize and huffcode, up to position n, in table order. */
  ghost predicate CodesUpto(bits: seq<nat>, huffsize: seq<nat>, huffcode: seq<nat>, n: nat) {
    && n <= |huffsize| && n <= |huffcode|
    && (forall p :: 0 <= p < n ==> HasLength(bits, p, huffsize[p]) && huffcode[p] == CodeAt(bits, p, huffsize[p]))
  }

  /** huffsize lists the lengths of the first n positions. */
  ghost predicate SizesUpto(bits: seq<nat>, huffsize: seq<nat>, n: nat) {
    && n <= |huffsize|
    && (forall p :: 0 <= p < n ==> HasLength(bits, p, huffsize[p]))
  }

  method MakeSizes(bits: seq<UInt8>, huffsize: array<nat>) returns (ok: bool, n: nat)
    requires |bits| == MAXBITS + 1 && huffsize.Length == MAXSYMS
    modifies huffsize
    ensures ok <==> Upto(bits, MAXBITS) <= 256
    ensures ok ==> n == Upto(bits, MAXBITS) && SizesUpto(bits, huffsize[..], n) && huffsize[n] == 0
  {
    n := 0;
    var l := 1;
    while l <= MAXBITS
      invariant 1 <= l <= MAXBITS + 1
      invariant n == Upto(bits, l - 1) <= 256
      invariant SizesUpto(bits, huffsize[..], n)
    {
      var i := bits[l];
      if n + i > 256 {
        UptoMono(bits, l, MAXBITS);
        ok := false;
        return;
      }
      while i > 0
        invariant 0 <= i <= bits[l]
        invariant n == Upto(bits, l - 1) + (bits[l] - i) <= 256
        invariant SizesUpto(bits, huffsize[..], n)
      {
        huffsize[n] := l;
        n := n + 1;
        i := i - 1;
      }
      l := l + 1;
    }
    huffsize[n] := 0;
    ok := true;
  }

  lemma {:induction false} NextSize(bits: seq<nat>, huffsize: seq<nat>, n: nat, p: nat, si: nat)
    requires 1 <= si < |bits| && SizesUpto(bits, huffsize, n)
    requires Upto(bits, si - 1) <= p < n
    ensures huffsize[p] >= si
    ensures huffsize[p] == si <==> p < Upto(bits, si)
  {
    var l := huffsize[p];
    if l < si {
      UptoMono(bits, l, si - 1);
    } else if l > si {
      UptoMono(bits, si, l - 1);
    }
  }

  lemma {:induction false} SizesZero(bits: seq<nat>, l: nat, m: nat)
    requires l <= m < |bits| && Upto(bits, l) == Upto(bits, m)
    ensures forall k :: l < k <= m ==> bits[k] == 0
  {
    forall k | l < k <= m
      ensures bits[k] == 0
    {
      UptoMono(bits, l, k - 1);
      UptoMono(bits, k, m);
    }
  }

  /** The codes in order of length, with the check that each length leaves
      its all-ones code unused. */
  method MakeCodes(bits: seq<UInt8>, huffsize: array<nat>, n: nat, huffcode: array<nat>) returns (ok: bool)
    requires |bits| == MAXBITS + 1 && huffsize.Length == huffcode.Length == MAXSYMS && huffsize != huffcode
    requires n == Upto(bits, MAXBITS) <= 256 && SizesUpto(bits, huffsize[..], n) && huffsize[n] == 0
    modifies huffcode
    ensures ok <==> LegalCounts(bits)
    ensures ok ==> CodesUpto(bits, huffsize[..], huffcode[..], n)
  {
    var code, si, p := 0, huffsize[0], 0;
    ghost var sizes := huffsize[..];
    if n > 0 {
      FirstSize(bits, sizes, n);
    }
    while huffsize[p] != 0
      invariant huffsize[..] == sizes
      invariant 0 <= p <= n
      invariant p < n ==> 1 <= si <= MAXBITS && p == Upto(bits, si - 1)
      invariant n > 0 ==> 1 <= si <= MAXBITS + 1 && code == 2 * Kraft(bits, si - 1) && p == Upto(bits, si - 1)
      invariant n > 0 ==> Kraft(bits, si - 1) < Pow2(si - 1)
      invariant CodesUpto(bits, sizes, huffcode[..], p)
      decreases MAXBITS + 1 - si
    {
      assert p < n;
      ghost var base := p;
      NextSize(bits, sizes, n, p, si);
      UptoMono(bits, si, MAXBITS);
      while huffsize[p] == si
        invariant huffsize[..] == sizes
        invariant base <= p <= Upto(bits, si) <= n
        invariant code == FirstCode(bits, si) + (p - base)
        invariant CodesUpto(bits, sizes, huffcode[..], p)
        decreases n - p
      {
        assert p < n;
        NextSize(bits, sizes, n, p, si);
        huffcode[p] := code;
        p := p + 1;
        code := code + 1;
      }
      if p < n {
        NextSize(bits, sizes, n, p, si);
      }
      assert code == Kraft(bits, si);
      if code >= Pow2(si) {
        ok := false;
        return;
      }
      code := 2 * code;
      si := si + 1;
      if p < n && si > MAXBITS {
        assert false;
      }
    }
    ok := true;
    Accepted(bits, n, si);
  }

  lemma {:induction false} FirstSize(bits: seq<nat>, sizes: seq<nat>, n: nat)
    requires SizesUpto(bits, sizes, n) && 0 < n
    ensures 1 <= sizes[0] < |bits| && Upto(bits, sizes[0] - 1) == 0 && Kraft(bits, sizes[0] - 1) == 0
  {
    UptoZero(bits, sizes[0] - 1);
  }

  lemma {:induction false} UptoZero(bits: seq<nat>, l: nat)
    requires l < |bits| && Upto(bits, l) == 0
    ensures Kraft(bits, l) == 0
  {
    if l > 0 {
      UptoZero(bits, l - 1);
    }
  }

  lemma {:induction false} Accepted(bits: seq<nat>, n: nat, si: nat)
    requires |bits| == MAXBITS + 1 && n == Upto(bits, MAXBITS) <= 256
    requires n > 0 ==> 1 <= si <= MAXBITS + 1 && n == Upto(bits, si - 1) && Kraft(bits, si - 1) < Pow2(si - 1)
    ensures LegalCounts(bits)
  {
    var top := if n > 0 then si - 1 else 0;
    assert Pow2(0) == 1;
    SizesZero(bits, top, MAXBITS);
    forall l | 1 <= l <= MAXBITS
      ensures Kraft(bits, l) < Pow2(l)
    {
      if l <= top {
        BelowFull(bits, l, top);
      } else {
        AboveFull(bits, top, l);
      }
    }
  }

  // ----- the encoder's table

  /** Code and size by symbol; size 0 marks a symbol without a code. */
  datatype CDerived = CDerived(ehufco: seq<nat>, ehufsi: seq<nat>)

  /** c gives each listed symbol the code of its table position and nothing
      to the others. */
  ghost predicate EncodesUpto(c: CDerived, t: HuffTbl, n: nat) {
    && |c.ehufco| == |c.ehufsi| == 256 && n <= |t.huffval|
    && (forall p :: 0 <= p < n ==> HasLength(t.bits, p, c.ehufsi[t.huffval[p]]) &&
                                   c.ehufco[t.huffval[p]] == CodeAt(t.bits, p, c.ehufsi[t.huffval[p]]))
    && (forall s: UInt8 :: s !in t.huffval[..n] ==> c.ehufsi[s] == 0)
  }

  ghost predicate Encodes(c: CDerived, t: HuffTbl) {
    Shaped(t) && LegalCounts(t.bits) && EncodesUpto(c, t, Upto(t.bits, MAXBITS))
  }

  function MaxSymbol(isDC: bool): nat {
    if isDC then 15 else 255
  }

  /** What jpeg_make_c_derived_tbl accepts. */
  ghost predicate LegalForEncoder(t: HuffTbl, isDC: bool) {
    && Shaped(t) && LegalCounts(t.bits)
    && var n := Upto(t.bits, MAXBITS);
    && (forall p :: 0 <= p < n ==> t.huffval[p] <= MaxSymbol(isDC))
    && (forall p, q :: 0 <= p < q < n ==> t.huffval[p] != t.huffval[q])
  }

  lemma {:induction false} EncodesNext(co: seq<nat>, si: seq<nat>, t: HuffTbl, huffsize: seq<nat>, huffcode: seq<nat>, p: nat)
    requires Shaped(t) && EncodesUpto(CDerived(co, si), t, p) && CodesUpto(t.bits, huffsize, huffcode, p + 1)
    requires p < 256 && t.huffval[p] !in t.huffval[..p]
    ensures var i := t.huffval[p]; EncodesUpto(CDerived(co[i := huffcode[p]], si[i := huffsize[p]]), t, p + 1)
  {
    var i := t.huffval[p];
    assert t.huffval[..p + 1] == t.huffval[..p] + [i];
  }

  lemma {:induction false} Coded(co: seq<nat>, si: seq<nat>, t: HuffTbl, p: nat)
    requires Shaped(t) && EncodesUpto(CDerived(co, si), t, p) && p < 256
    ensures |co| == |si| == 256
    ensures si[t.huffval[p]] != 0 <==> t.huffval[p] in t.huffval[..p]
  {
    forall q | 0 <= q < p
      ensures si[t.huffval[q]] != 0
    {
      assert HasLength(t.bits, q, si[t.huffval[q]]);
    }
  }

  method MakeCDerivedTbl(t: HuffTbl, isDC: bool) returns (ok: bool, c: CDerived)
    requires Shaped(t)
    ensures ok <==> LegalForEncoder(t, isDC)
    ensures ok ==> Encodes(c, t)
  {
    c := CDerived([], []);
    var huffsize, huffcode := new nat[MAXSYMS], new nat[MAXSYMS];
    var lastp;
    ok, lastp := MakeSizes(t.bits, huffsize);
    if !ok { return; }
    ok := MakeCodes(t.bits, huffsize, lastp, huffcode);
    if !ok { return; }
    var ehufco, ehufsi := new nat[256], new nat[256](i => 0);
    for p := 0 to lastp
      invariant CodesUpto(t.bits, huffsize[..], huffcode[..], lastp)
      invariant forall q :: 0 <= q < p ==> t.huffval[q] <= MaxSymbol(isDC)
      invariant forall q, r :: 0 <= q < r < p ==> t.huffval[q] != t.huffval[r]
      invariant EncodesUpto(CDerived(ehufco[..], ehufsi[..]), t, p)
    {
      hide EncodesUpto, Kraft, HasLength, CodeAt;
      var i := t.huffval[p];
      Coded(ehufco[..], ehufsi[..], t, p);
      if i > MaxSymbol(isDC) || ehufsi[i] != 0 {
        ok := false;
        return;
      }
      EncodesNext(ehufco[..], ehufsi[..], t, huffsize[..], huffcode[..], p);
      ehufco[i] := huffcode[p];
      ehufsi[i] := huffsize[p];
    }
    c := CDerived(ehufco[..], ehufsi[..]);
  }

  /** The bits the encoder sends for symbol s. */
  function CodeBits(c: CDerived, s: nat): BitString
    requires s < |c.ehufco| && s < |c.ehufsi|
  {
    ToBits(c.ehufco[s], c.ehufsi[s])
  }

  /** Encoder and decoder agree on every symbol that has a code. */
  lemma {:induction false} DecodeCodeBits(c: CDerived, t: HuffTbl, s: UInt8, rest: BitString)
    requires Encodes(c, t) && c.ehufsi[s] > 0
    ensures DecodeSymbol(t, CodeBits(c, s) + rest) == Symbol(s, c.ehufsi[s])
    ensures c.ehufsi[s] <= MAXBITS && c.ehufco[s] < Pow2(c.ehufsi[s])
  {
    var n := Upto(t.bits, MAXBITS);
    assert s in t.huffval[..n];
    var p :| 0 <= p < n && t.huffval[p] == s;
    DecodeWord(t, p, c.ehufsi[s], rest);
    CodeRange(t.bits, p, c.ehufsi[s]);
  }

  // ----- the decoder's table

  datatype DDerived = DDerived(pub: HuffTbl, maxcode: seq<int>, valoffset: seq<int>,
                               lookNbits: seq<nat>, lookSym: seq<nat>)

  const SENTINEL := 0xFFFFF

  ghost predicate SearchEntry(t: HuffTbl, maxcode: int, valoffset: int, l: nat)
    requires Shaped(t) && 1 <= l <= MAXBITS
  {
    if t.bits[l] > 0 then maxcode == Kraft(t.bits, l) - 1 && valoffset == Upto(t.bits, l - 1) - FirstCode(t.bits, l)
    else maxcode == -1
  }

  ghost predicate SearchTables(t: HuffTbl, maxcode: seq<int>, valoffset: seq<int>, m: nat)
    requires Shaped(t)
  {
    && |maxcode| == MAXBITS + 2 && |valoffset| == MAXBITS + 1 && m <= MAXBITS + 1
    && (forall l :: 1 <= l < m ==> SearchEntry(t, maxcode[l], valoffset[l], l))
  }

  /** The lookahead entry for the next eight bits is the symbol they start
      with, or 0 when its code is longer. */
  ghost predicate LookEntry(t: HuffTbl, nbits: nat, sym: nat, look: nat)
    requires Shaped(t) && LegalCounts(t.bits)
  {
    match DecodeSymbol(t, ToBits(look, LOOKAHEAD))
    case Symbol(s, l) => nbits == l && sym == s
    case _ => nbits == 0
  }

  ghost predicate DerivedFrom(d: DDerived, t: HuffTbl) {
    && Shaped(t) && LegalCounts(t.bits) && d.pub == t
    && |d.maxcode| == MAXBITS + 2 && |d.valoffset| == MAXBITS + 1
    && SearchTables(t, d.maxcode, d.valoffset, MAXBITS + 1)
    && d.maxcode[MAXBITS + 1] == SENTINEL
    && |d.lookNbits| == |d.lookSym| == 256
    && (forall look :: 0 <= look < 256 ==> LookEntry(t, d.lookNbits[look], d.lookSym[look], look))
  }

  /** What jpeg_make_d_derived_tbl accepts. */
  ghost predicate LegalForDecoder(t: HuffTbl, isDC: bool) {
    && Shaped(t) && LegalCounts(t.bits)
    && (isDC ==> forall p :: 0 <= p < Upto(t.bits, MAXBITS) ==> t.huffval[p] <= 15)
  }

  method MakeSearchTables(t: HuffTbl, huffsize: array<nat>, huffcode: array<nat>, ghost n: nat)
    returns (maxcode: array<int>, valoffset: array<int>)
    requires Shaped(t) && LegalCounts(t.bits) && n == Upto(t.bits, MAXBITS) <= 256
    requires huffsize.Length == huffcode.Length == MAXSYMS && CodesUpto(t.bits, huffsize[..], huffcode[..], n)
    ensures fresh(maxcode) && fresh(valoffset)
    ensures maxcode.Length == MAXBITS + 2 && valoffset.Length == MAXBITS + 1
    ensures SearchTables(t, maxcode[..], valoffset[..], MAXBITS + 1) && maxcode[MAXBITS + 1] == SENTINEL
  {
    hide CodesUpto, LegalCounts;
    maxcode, valoffset := new int[MAXBITS + 2], new int[MAXBITS + 1];
    var p: nat, l: nat := 0, 1;
    while l <= MAXBITS
      invariant 1 <= l <= MAXBITS + 1 && p == Upto(t.bits, l - 1)
      invariant fresh(maxcode) && fresh(valoffset) && maxcode != valoffset
      invariant SearchTables(t, maxcode[..], valoffset[..], l)
    {
      UptoMono(t.bits, l, MAXBITS);
      if t.bits[l] > 0 {
        PositionLength(t.bits, huffsize[..], huffcode[..], n, p, l);
        valoffset[l] := p - huffcode[p];
        p := p + t.bits[l];
        PositionLength(t.bits, huffsize[..], huffcode[..], n, p - 1, l);
        maxcode[l] := huffcode[p - 1];
      } else {
        maxcode[l] := -1;
      }
      l := l + 1;
    }
    maxcode[MAXBITS + 1] := SENTINEL;
  }

  lemma {:induction false} PositionLength(bits: seq<nat>, huffsize: seq<nat>, huffcode: seq<nat>, n: nat, p: nat, l: nat)
    requires CodesUpto(bits, huffsize, huffcode, n) && p < n && HasLength(bits, p, l)
    ensures huffsize[p] == l && huffcode[p] == CodeAt(bits, p, l)
  {
    LengthUnique(bits, p, l, huffsize[p]);
  }

  /** Eight bits that start with a given code word. */
  lemma {:induction false} LookMatch(t: HuffTbl, p: nat, l: nat, look: nat)
    requires Shaped(t) && LegalCounts(t.bits) && HasLength(t.bits, p, l) && l <= LOOKAHEAD && look < 256
    requires CodeAt(t.bits, p, l) == look / Pow2(LOOKAHEAD - l)
    ensures p < 256 && LookEntry(t, l, t.huffval[p], look)
  {
    var bs := ToBits(look, LOOKAHEAD);
    assert Pow2(8) == 256;
    ValueToBits(look, LOOKAHEAD);
    ValueTake(bs, l);
    CodeRange(t.bits, p, l);
    ToBitsValue(bs[..l]);
    assert bs == Word(t.bits, p, l) + bs[l..];
    DecodeWord(t, p, l, bs[l..]);
  }

  /** Eight bits beyond every short code. */
  lemma {:induction false} LookLong(t: HuffTbl, look: nat)
    requires Shaped(t) && LegalCounts(t.bits) && Kraft(t.bits, LOOKAHEAD) <= look < 256
    ensures DecodeSymbol(t, ToBits(look, LOOKAHEAD)).Short?
  {
    var bs := ToBits(look, LOOKAHEAD);
    assert Pow2(8) == 256;
    ValueToBits(look, LOOKAHEAD);
    assert bs[..LOOKAHEAD] == bs;
    DecodeSkip(t, bs, LOOKAHEAD + 1);
  }

  /** Every entry below end is final and the others are still 0. */
  ghost predicate Covered(t: HuffTbl, nbits: seq<nat>, syms: seq<nat>, end: nat)
    requires Shaped(t) && LegalCounts(t.bits)
  {
    && |nbits| == |syms| == 256 && end <= 256
    && (forall look :: 0 <= look < end ==> LookEntry(t, nbits[look], syms[look], look))
    && (forall look :: end <= look < 256 ==> nbits[look] == 0)
  }

  /** Enter one code under all the byte values that start with it. */
  method FillLook(t: HuffTbl, p: nat, l: nat, code: nat, lookNbits: array<nat>, lookSym: array<nat>)
    requires Shaped(t) && LegalCounts(t.bits) && HasLength(t.bits, p, l) && l <= LOOKAHEAD && p < 256
    requires code == CodeAt(t.bits, p, l)
    requires lookNbits.Length == lookSym.Length == 256 && lookNbits != lookSym
    requires Covered(t, lookNbits[..], lookSym[..], code * Pow2(LOOKAHEAD - l))
    modifies lookNbits, lookSym
    ensures Covered(t, lookNbits[..], lookSym[..], code * Pow2(LOOKAHEAD - l) + Pow2(LOOKAHEAD - l))
  {
    hide LookEntry, CodeAt, LegalCounts, HasLength;
    CoverRoom(t.bits, p, l);
    ghost var step := Pow2(LOOKAHEAD - l);
    var lookbits := code * Pow2(LOOKAHEAD - l);
    var ctr := Pow2(LOOKAHEAD - l);
    while ctr > 0
      invariant 0 <= ctr <= step && lookbits == code * step + (step - ctr) && lookbits + ctr <= 256
      invariant Covered(t, lookNbits[..], lookSym[..], lookbits)
    {
      DivModUnique(lookbits, step, code, step - ctr);
      LookMatch(t, p, l, lookbits);
      lookNbits[lookbits] := l;
      lookSym[lookbits] := t.huffval[p];
      lookbits := lookbits + 1;
      ctr := ctr - 1;
    }
  }

  /** The first byte value after those of the first i codes of length l. */
  function Edge(bits: seq<nat>, l: nat, i: nat): nat
    requires 1 <= l < |bits| && l <= LOOKAHEAD
  {
    (FirstCode(bits, l) + i) * Pow2(LOOKAHEAD - l)
  }

  lemma {:induction false} EdgeSteps(bits: seq<nat>, l: nat, i: nat)
    requires 1 <= l < |bits| && l <= LOOKAHEAD
    ensures Edge(bits, l, i + 1) == Edge(bits, l, i) + Pow2(LOOKAHEAD - l)
    ensures l < LOOKAHEAD && l + 1 < |bits| ==> Edge(bits, l, bits[l]) == Edge(bits, l + 1, 0)
    ensures l == LOOKAHEAD ==> Edge(bits, l, bits[l]) == Kraft(bits, l)
    ensures l == 1 ==> Edge(bits, l, 0) == 0
  {
    MulSucc(FirstCode(bits, l) + i, Pow2(LOOKAHEAD - l));
    if l < LOOKAHEAD {
      assert Pow2(LOOKAHEAD - l) == 2 * Pow2(LOOKAHEAD - (l + 1));
    } else {
      assert Pow2(0) == 1;
    }
  }

  method FillLength(t: HuffTbl, huffsize: array<nat>, huffcode: array<nat>, l: nat, p0: nat,
                    lookNbits: array<nat>, lookSym: array<nat>, ghost n: nat) returns (p: nat)
    requires Shaped(t) && LegalCounts(t.bits) && n == Upto(t.bits, MAXBITS) <= 256
    requires huffsize.Length == huffcode.Length == MAXSYMS && CodesUpto(t.bits, huffsize[..], huffcode[..], n)
    requires 1 <= l <= LOOKAHEAD && p0 == Upto(t.bits, l - 1)
    requires lookNbits.Length == lookSym.Length == 256 && lookNbits != lookSym
    requires {huffsize, huffcode} !! {lookNbits, lookSym}
    requires Covered(t, lookNbits[..], lookSym[..], Edge(t.bits, l, 0))
    modifies lookNbits, lookSym
    ensures p == Upto(t.bits, l)
    ensures Covered(t, lookNbits[..], lookSym[..], Edge(t.bits, l, t.bits[l]))
  {
    hide CodesUpto, Covered;
    p := p0;
    ghost var sizes, codes := huffsize[..], huffcode[..];
    UptoMono(t.bits, l, MAXBITS);
    for i := 0 to t.bits[l]
      invariant huffsize[..] == sizes && huffcode[..] == codes
      invariant p == Upto(t.bits, l - 1) + i
      invariant Covered(t, lookNbits[..], lookSym[..], Edge(t.bits, l, i))
    {
      PositionLength(t.bits, sizes, codes, n, p, l);
      EdgeSteps(t.bits, l, i);
      FillLook(t, p, l, huffcode[p], lookNbits, lookSym);
      p := p + 1;
    }
  }

  method MakeLookahead(t: HuffTbl, huffsize: array<nat>, huffcode: array<nat>, ghost n: nat)
    returns (lookNbits: array<nat>, lookSym: array<nat>)
    requires Shaped(t) && LegalCounts(t.bits) && n == Upto(t.bits, MAXBITS) <= 256
    requires huffsize.Length == huffcode.Length == MAXSYMS && CodesUpto(t.bits, huffsize[..], huffcode[..], n)
    ensures fresh(lookNbits) && fresh(lookSym) && lookNbits.Length == lookSym.Length == 256
    ensures forall look :: 0 <= look < 256 ==> LookEntry(t, lookNbits[look], lookSym[look], look)
  {
    hide CodesUpto, Edge;
    lookNbits, lookSym := new nat[256](i => 0), new nat[256];
    ghost var sizes, codes := huffsize[..], huffcode[..];
    var p: nat, l: nat := 0, 1;
    EdgeSteps(t.bits, 1, 0);
    while l <= LOOKAHEAD
      invariant 1 <= l <= LOOKAHEAD + 1 && p == Upto(t.bits, l - 1)
      invariant fresh(lookNbits) && fresh(lookSym) && lookNbits != lookSym
      invariant huffsize[..] == sizes && huffcode[..] == codes
      invariant Covered(t, lookNbits[..], lookSym[..],
                        if l <= LOOKAHEAD then Edge(t.bits, l, 0) else Kraft(t.bits, LOOKAHEAD))
    {
      p := FillLength(t, huffsize, huffcode, l, p, lookNbits, lookSym, n);
      EdgeSteps(t.bits, l, 0);
      l := l + 1;
    }
    forall look | Kraft(t.bits, LOOKAHEAD) <= look < 256
      ensures LookEntry(t, lookNbits[look], lookSym[look], look)
    {
      LookLong(t, look);
    }
  }

  lemma {:induction false} MulSucc(a: nat, b: nat)
    ensures (a + 1) * b == a * b + b
  {
  }

  lemma {:induction false} CoverRoom(bits: seq<nat>, p: nat, l: nat)
    requires LegalCounts(bits) && HasLength(bits, p, l) && l <= LOOKAHEAD
    ensures CodeAt(bits, p, l) * Pow2(LOOKAHEAD - l) + Pow2(LOOKAHEAD - l) <= 256
  {
    CodeRange(bits, p, l);
    Pow2Add(l, LOOKAHEAD - l);
    assert Pow2(8) == 256;
    MulSucc(CodeAt(bits, p, l), Pow2(LOOKAHEAD - l));
    MulMono(CodeAt(bits, p, l) + 1, Pow2(l), Pow2(LOOKAHEAD - l));
  }

  lemma {:induction false} MulMono(a: nat, b: nat, c: nat)
    requires a <= b
    ensures a * c <= b * c
  {
    assert (b - a) * c >= 0;
  }

  method MakeDDerivedTbl(t: HuffTbl, isDC: bool) returns (ok: bool, d: DDerived)
    requires Shaped(t)
    ensures ok <==> LegalForDecoder(t, isDC)
    ensures ok ==> DerivedFrom(d, t)
  {
    hide CodesUpto, SizesUpto, SearchTables, LookEntry, Kraft, Upto, Pow2;
    d := DDerived(t, [], [], [], []);
    var huffsize, huffcode := new nat[MAXSYMS], new nat[MAXSYMS];
    var numsymbols;
    ok, numsymbols := MakeSizes(t.bits, huffsize);
    if !ok { return; }
    ok := MakeCodes(t.bits, huffsize, numsymbols, huffcode);
    if !ok { return; }
    var maxcode, valoffset := MakeSearchTables(t, huffsize, huffcode, numsymbols);
    var lookNbits, lookSym := MakeLookahead(t, huffsize, huffcode, numsymbols);
    if isDC {
      for i := 0 to numsymbols
        invariant forall p :: 0 <= p < i ==> t.huffval[p] <= 15
      {
        if t.huffval[i] > 15 {
          ok := false;
          return;
        }
      }
    }
    d := DDerived(t, maxcode[..], valoffset[..], lookNbits[..], lookSym[..]);
  }
}
