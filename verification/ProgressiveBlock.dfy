/** AC scans of progressive mode, one block: what is sent (sections G.1.2.2 and
    G.1.2.3 of ITU-T T.81) and the decoding procedure of section G.2. A first
    scan is the case in which no coefficient is known yet. */
module ProgressiveBlock {
  import opened JpegLimits
  import opened Arith
  import opened Bits
  import opened HuffTable
  import opened DerivedTables
  import opened BlockCoding
  import opened ProgressiveTokens

  // ----- point transform

  /** Division by 2^al rounding towards zero. */
  function Point(c: int, al: nat): int {
    if c < 0 then -(-c / Pow2(al)) else c / Pow2(al)
  }

  /** Whatever the sign: the magnitude loses its low al bits, and the sign stays. */
  lemma {:induction false} PointTowardsZero(c: int, al: nat)
    ensures var m := Abs(Point(c, al)); m * Pow2(al) <= Abs(c) < m * Pow2(al) + Pow2(al)
    ensures (Point(c, al) > 0 ==> c > 0) && (Point(c, al) < 0 ==> c < 0)
  {
    hide Pow2;
    var p := Pow2(al);
    QuotientBounds(Abs(c), p);
    assert Point(c, al) == if c < 0 then -(Abs(c) / p) else Abs(c) / p;
  }

  lemma {:induction false} QuotientBounds(m: nat, p: nat)
    requires p > 0
    ensures 0 <= m / p && m / p * p <= m < m / p * p + p
    ensures m / p > 0 ==> m > 0
  {
    assert m == m / p * p + m % p;
  }

  /** What is known of v when its lowest bit is not. */
  function Half(v: int): int {
    if v < 0 then -(-v / 2) else v / 2
  }

  lemma {:induction false} HalfOfQuotient(m: nat, p: nat)
    requires p > 0
    ensures m / (2 * p) == m / p / 2
  {
    var q, r := m / p, m % p;
    var h, b := q / 2, q % 2;
    assert q * p == (2 * h + b) * p == h * (2 * p) + b * p by {
      assert q == 2 * h + b;
      Distribute(h, b, p);
    }
    assert b * p <= p by { if b == 0 { assert b * p == 0; } else { assert b * p == p; } }
    DivModUnique(m, 2 * p, h, b * p + r);
  }

  lemma {:induction false} Distribute(h: nat, b: nat, p: nat)
    ensures (2 * h + b) * p == h * (2 * p) + b * p
  {
  }

  lemma {:induction false} PointStep(c: int, al: nat)
    ensures Point(c, al + 1) == Half(Point(c, al))
  {
    var p := Pow2(al);
    assert Pow2(al + 1) == 2 * p;
    hide Pow2;
    HalfOfQuotient(Abs(c), p);
    assert Point(c, al) == if c < 0 then -(Abs(c) / p) else Abs(c) / p;
    assert Point(c, al + 1) == if c < 0 then -(Abs(c) / (2 * p)) else Abs(c) / (2 * p);
  }

  /** kn is a legal account of earlier scans: a value not yet known to be
      nonzero, or the value without its lowest bit. */
  ghost predicate Known(w: seq<int>, kn: seq<int>) {
    && |w| == |kn| == DCTSIZE2
    && (forall k :: 0 <= k < DCTSIZE2 ==> kn[k] == 0 || kn[k] == Half(w[k]))
  }

  function CorrectionBit(v: int): bool {
    Abs(v) % 2 == 1
  }

  /** Figure G.7: the known value, one bit better. */
  function Corrected(k: int, bit: bool): int {
    if !bit then 2 * k else if k < 0 then 2 * k - 1 else 2 * k + 1
  }

  lemma {:induction false} CorrectedBack(v: int)
    requires Half(v) != 0
    ensures Corrected(Half(v), CorrectionBit(v)) == v
    // the bit is the last one of the magnitude
    ensures CorrectionBit(v) ==> Abs(v) == 2 * Abs(Half(v)) + 1
    ensures !CorrectionBit(v) ==> Abs(v) == 2 * Abs(Half(v))
  {
  }

  /** A 1 moves the doubled known value one step away from zero, a 0 leaves it. */
  lemma {:induction false} OneStepOut(k: int, bit: bool)
    requires k != 0
    ensures Abs(Corrected(k, bit)) == 2 * Abs(k) + (if bit then 1 else 0)
    ensures Corrected(k, bit) > 0 <==> k > 0
  {
  }

  /** Bit i of what is left of the segment, continued by zeros. */
  predicate OneAt(bits: BitString, i: nat) {
    i < |bits| && bits[i]
  }

  /** How many coefficients a..b-1 are known to be nonzero. */
  function Nonzeros(kn: seq<int>, a: nat, b: nat): nat
    requires b <= |kn|
    decreases b - a
  {
    if a >= b then 0 else (if kn[a] != 0 then 1 else 0) + Nonzeros(kn, a + 1, b)
  }

  /** Skipping over positions k..k'-1: the i-th known coefficient there takes the i-th bit, and
      moves away from zero if it is 1; nothing else changes. */
  lemma {:induction false} SkipCorrects(kn: seq<int>, acc: seq<int>, k: nat, se: nat, run: nat, bits: BitString, p: nat)
    requires |kn| == |acc| == DCTSIZE2 && se < DCTSIZE2 && p < DCTSIZE2
    ensures var (acc', k', rest) := Skip(kn, acc, k, se, run, bits);
            if k <= p < k' && p <= se && kn[p] != 0 then
              && Abs(acc'[p]) == 2 * Abs(kn[p]) + (if OneAt(bits, Nonzeros(kn, k, p)) then 1 else 0)
              && (acc'[p] > 0 <==> kn[p] > 0)
            else acc'[p] == acc[p]
    decreases se + 1 - k
  {
    hide Corrected, Take;
    if k > se {
    } else if kn[k] != 0 {
      var (b, rest) := Take(bits, 1);
      TakeOne(bits);
      OneStepOut(kn[k], b == 1);
      SkipCorrects(kn, acc[k := Corrected(kn[k], b == 1)], k + 1, se, run, rest, p);
      if k < p <= se {
        var i := Nonzeros(kn, k + 1, p);
        assert OneAt(rest, i) == OneAt(bits, i + 1);
      }
    } else if run > 0 {
      SkipCorrects(kn, acc, k + 1, se, run - 1, bits, p);
    }
  }

  /** The next bit; past the end it is 0. */
  lemma {:induction false} TakeOne(bits: BitString)
    ensures var (b, rest) := Take(bits, 1);
            (b == 1 <==> OneAt(bits, 0)) && forall i: nat :: OneAt(rest, i) == OneAt(bits, i + 1)
  {
    var w := Pad(bits, 0, 1);
    assert w[..0] == [] && Value(w[..0]) == 0;
    assert w[..|w| - 1] == w[..0];
  }

  // ----- the encoder, from position k on

  /** Index of the last newly nonzero coefficient in ss..k-1, 0 if none. */
  function LastNew(w: seq<int>, kn: seq<int>, ss: nat, k: nat): (e: nat)
    requires |w| == |kn| && k <= |w|
    ensures e != 0 ==> ss <= e < k && w[e] != 0 && kn[e] == 0
    ensures forall j :: ss <= j < k && w[j] != 0 && kn[j] == 0 ==> j <= e
  {
    if k <= ss then 0
    else if w[k - 1] != 0 && kn[k - 1] == 0 then k - 1
    else LastNew(w, kn, ss, k - 1)
  }

  /** What a block sends, the zeros after its last symbol, and the correction
      bits that have to wait for the next EOB. */
  datatype Piece = Piece(toks: seq<Token>, r: nat, br: BitString) {
    predicate Pending() {
      r > 0 || br != []
    }
  }

  function Prepend(toks: seq<Token>, p: Piece): Piece {
    p.(toks := toks + p.toks)
  }

  function NewCoef(tbl: nat, r: nat, v: int, br: BitString): seq<Token> {
    var s := Category(v);
    [Sym(tbl, 16 * r + s)] + RawBits(ToBits(ExtraCode(v) % Pow2(s), s)) + RawBits(br)
  }

  function Zrl(tbl: nat, br: BitString): seq<Token> {
    [Sym(tbl, 0xF0)] + RawBits(br)
  }

  /** From position k on, after r zeros and the correction bits br; eob is the
      last newly nonzero position. Runs of 16 zeros are left to the EOB
      when nothing new follows. */
  function BlockFrom(tbl: nat, w: seq<int>, kn: seq<int>, k: nat, se: nat, eob: nat, r: nat, br: BitString): Piece
    requires |w| == |kn| && se < |w|
    decreases se + 1 - k, r
  {
    if k > se then Piece([], r, br)
    else if w[k] == 0 then BlockFrom(tbl, w, kn, k + 1, se, eob, r + 1, br)
    else if r > 15 && k <= eob then
      Prepend(Zrl(tbl, br), BlockFrom(tbl, w, kn, k, se, eob, r - 16, []))
    else if kn[k] != 0 then
      BlockFrom(tbl, w, kn, k + 1, se, eob, r, br + [CorrectionBit(w[k])])
    else
      Prepend(NewCoef(tbl, r, w[k], br), BlockFrom(tbl, w, kn, k + 1, se, eob, 0, []))
  }

  function BlockPiece(tbl: nat, w: seq<int>, kn: seq<int>, ss: nat, se: nat): Piece
    requires |w| == |kn| && se < |w|
  {
    BlockFrom(tbl, w, kn, ss, se, LastNew(w, kn, ss, se + 1), 0, [])
  }

  /** The symbol and the low bits of a run of n blocks. */
  function EobCount(tbl: nat, n: nat): seq<Token>
    requires n > 0
  {
    var s := NBits(n) - 1;
    [Sym(tbl, 16 * s)] + RawBits(ToBits(n % Pow2(s), s))
  }

  /** A run of n blocks and their correction bits. */
  function EobRun(tbl: nat, n: nat, be: BitString): seq<Token>
    requires n > 0
  {
    EobCount(tbl, n) + RawBits(be)
  }

  /** emit_eobrun: the pending run, if any. */
  function Flush(tbl: nat, eobrun: nat, be: BitString): seq<Token> {
    if eobrun == 0 then [] else EobRun(tbl, eobrun, be)
  }

  // ----- the decoder; bits is what is left of the segment, continued by zeros

  function Drop(bits: BitString, n: nat): BitString {
    if n <= |bits| then bits[n..] else []
  }

  function NextSym(t: HuffTbl, bits: BitString): (nat, BitString)
    requires Shaped(t) && LegalCounts(t.bits)
  {
    var (s, p) := SymAt(t, bits, 0);
    (s, Drop(bits, p))
  }

  function Take(bits: BitString, n: nat): (nat, BitString) {
    (BitsAt(bits, 0, n), Drop(bits, n))
  }

  function Set(acc: seq<int>, k: nat, v: int): (r: seq<int>)
    requires |acc| == DCTSIZE2
    ensures |r| == DCTSIZE2
  {
    if k < DCTSIZE2 then acc[k := v] else acc
  }

  /** Pass over known coefficients, a correction bit for each, and over run
      others; stop at the next one that is not known. */
  function Skip(kn: seq<int>, acc: seq<int>, k: nat, se: nat, run: nat, bits: BitString): (res: (seq<int>, nat, BitString))
    requires |kn| == |acc| == DCTSIZE2 && se < DCTSIZE2
    ensures |res.0| == DCTSIZE2 && res.1 >= k
    decreases se + 1 - k
  {
    if k > se then (acc, k, bits)
    else if kn[k] != 0 then
      var (b, rest) := Take(bits, 1);
      Skip(kn, acc[k := Corrected(kn[k], b == 1)], k + 1, se, run, rest)
    else if run == 0 then (acc, k, bits)
    else Skip(kn, acc, k + 1, se, run - 1, bits)
  }

  /** The block from position k on, in a run of eobrun finished blocks; gives
      the coefficients and the run that remains. */
  function AcBlock(t: HuffTbl, kn: seq<int>, acc: seq<int>, k: nat, se: nat, eobrun: nat, bits: BitString): (res: (seq<int>, nat, BitString))
    requires Shaped(t) && LegalCounts(t.bits) && |kn| == |acc| == DCTSIZE2 && se < DCTSIZE2
    ensures |res.0| == DCTSIZE2
    decreases se + 1 - k
  {
    if eobrun > 0 then
      var (a, _, rest) := Skip(kn, acc, k, se, DCTSIZE2, bits);
      (a, eobrun - 1, rest)
    else if k > se then (acc, 0, bits)
    else
      var (sym, b1) := NextSym(t, bits);
      var r, s := sym / 16, sym % 16;
      if s == 0 && r < 15 then
        var (x, b2) := Take(b1, r);
        var (a, _, rest) := Skip(kn, acc, k, se, DCTSIZE2, b2);
        (a, Pow2(r) + x - 1, rest)
      else if s == 0 then
        var (a, k1, b2) := Skip(kn, acc, k, se, 15, b1);
        AcBlock(t, kn, a, k1 + 1, se, 0, b2)
      else
        var (x, b2) := Take(b1, s);
        var (a, k1, b3) := Skip(kn, acc, k, se, r, b2);
        AcBlock(t, kn, Set(a, k1, Extend(x, s)), k1 + 1, se, 0, b3)
  }

  /** The known values with room for the next bit. */
  function Doubled(kn: seq<int>): (r: seq<int>)
    ensures |r| == |kn|
  {
    seq(|kn|, k requires 0 <= k < |kn| => 2 * kn[k])
  }

  // ----- reading back single items

  lemma {:induction false} TakeBack(x: nat, n: nat, rest: BitString)
    requires x < Pow2(n)
    ensures Take(ToBits(x, n) + rest, n) == (x, rest)
  {
    var u := ToBits(x, n) + rest;
    assert u[0..] == u && u[n..] == rest;
    PadPrefix(u, 0, ToBits(x, n), n);
    ValueToBits(x, n);
  }

  lemma {:induction false} TakeBit(b: bool, rest: BitString)
    ensures Take([b] + rest, 1) == (if b then 1 else 0, rest)
  {
    var u := [b] + rest;
    assert u[0..] == u && u[1..] == rest;
    PadPrefix(u, 0, [b], 1);
    var one := [b];
    assert one[..|one| - 1] == [];
    assert Value(one) == 2 * Value([]) + if b then 1 else 0;
    assert Pad(u, 0, 1) == one;
  }

  lemma {:induction false} TakeExtra(v: int, rest: BitString)
    requires v != 0
    ensures var s := Category(v); var (x, r) := Take(ToBits(ExtraCode(v) % Pow2(s), s) + rest, s);
            s > 0 && r == rest && Extend(x, s) == v
  {
    var s := Category(v);
    ExtendExtra(v);
    TakeBack(ExtraCode(v) % Pow2(s), s, rest);
  }

  lemma {:induction false} NextSymBack(c: CDerived, t: HuffTbl, s: UInt8, rest: BitString)
    requires Encodes(c, t) && c.ehufsi[s] > 0
    ensures NextSym(t, CodeBits(c, s) + rest) == (s, rest)
  {
    hide LegalCounts, SymAt;
    var u := CodeBits(c, s) + rest;
    assert u[0..] == u;
    SymRead(c, t, s, u, 0);
    assert u[|CodeBits(c, s)|..] == rest;
  }

  // ----- windows of coefficients without a new one

  function Zeros(kn: seq<int>, a: nat, b: nat): nat
    requires b <= |kn|
    decreases b - a
  {
    if a >= b then 0 else (if kn[a] == 0 then 1 else 0) + Zeros(kn, a + 1, b)
  }

  function Corrections(w: seq<int>, kn: seq<int>, a: nat, b: nat): BitString
    requires b <= |kn| == |w|
    decreases b - a
  {
    if a >= b then [] else (if kn[a] != 0 then [CorrectionBit(w[a])] else []) + Corrections(w, kn, a + 1, b)
  }

  lemma {:induction false} WindowExtend(w: seq<int>, kn: seq<int>, a: nat, b: nat)
    requires a <= b < |kn| == |w|
    ensures Zeros(kn, a, b + 1) == Zeros(kn, a, b) + if kn[b] == 0 then 1 else 0
    ensures Corrections(w, kn, a, b + 1) == Corrections(w, kn, a, b) + if kn[b] != 0 then [CorrectionBit(w[b])] else []
    decreases b - a
  {
    if a < b {
      WindowExtend(w, kn, a + 1, b);
    }
  }

  /** acc holds the values before k and the doubled known ones from there on. */
  ghost predicate Progress(w: seq<int>, kn: seq<int>, acc: seq<int>, ss: nat, k: nat, se: nat) {
    && |w| == |kn| == |acc| == DCTSIZE2
    && (forall j :: 0 <= j < DCTSIZE2 ==> acc[j] == if ss <= j < k && j <= se then w[j] else 2 * kn[j])
  }

  /** Decoding a window up to p, where it stops. */
  lemma {:induction false} SkipWindow(w: seq<int>, kn: seq<int>, acc: seq<int>, ss: nat, k: nat, p: nat, se: nat, run: nat, rest: BitString)
      returns (acc': seq<int>)
    requires Known(w, kn) && ss <= k <= p <= se + 1 <= DCTSIZE2 && Progress(w, kn, acc, ss, k, se)
    requires forall j :: k <= j < p && kn[j] == 0 ==> w[j] == 0
    requires Zeros(kn, k, p) <= run && (p <= se ==> kn[p] == 0 && Zeros(kn, k, p) == run)
    ensures Progress(w, kn, acc', ss, p, se)
    ensures Skip(kn, acc, k, se, run, Corrections(w, kn, k, p) + rest) == (acc', p, rest)
    decreases p - k
  {
    var bits := Corrections(w, kn, k, p) + rest;
    if k == p {
      acc' := acc;
      assert bits == rest;
    } else if kn[k] != 0 {
      var x := Corrections(w, kn, k + 1, p);
      assert bits == [CorrectionBit(w[k])] + (x + rest);
      TakeBit(CorrectionBit(w[k]), x + rest);
      CorrectedBack(w[k]);
      acc' := SkipWindow(w, kn, acc[k := w[k]], ss, k + 1, p, se, run, rest);
    } else {
      assert Corrections(w, kn, k, p) == Corrections(w, kn, k + 1, p);
      acc' := SkipWindow(w, kn, acc, ss, k + 1, p, se, run - 1, rest);
    }
  }
}
