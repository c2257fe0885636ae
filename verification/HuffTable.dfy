/** Huffman tables as the DHT marker carries them, and the canonical codes
    they stand for (section C.2 of ITU-T T.81). */
module HuffTable {
  import opened Arith
  import opened Bits

  type UInt8 = x: int | 0 <= x < 256

  /** bits[l] is the number of codes of length l (entry 0 unused); huffval
      lists the symbols in order of increasing code length. */
  datatype HuffTbl = HuffTbl(bits: seq<UInt8>, huffval: seq<UInt8>)

  const MAXBITS := 16

  /** The C arrays have fixed sizes. */
  predicate Shaped(t: HuffTbl) {
    |t.bits| == MAXBITS + 1 && |t.huffval| == 256
  }

  /** One more than the last code of length l once codes of length up to l
      are handed out in order; also the scaled Kraft sum of those lengths. */
  function Kraft(bits: seq<nat>, l: nat): nat
    requires l < |bits|
  {
    if l == 0 then 0 else 2 * Kraft(bits, l - 1) + bits[l]
  }

  /** How many symbols have a code of length at most l. */
  function Upto(bits: seq<nat>, l: nat): nat
    requires l < |bits|
  {
    if l == 0 then 0 else Upto(bits, l - 1) + bits[l]
  }

  lemma {:induction false} KraftUpdate(bits: seq<nat>, k: nat, x: nat, l: nat)
    requires 0 < k < |bits| && l < |bits|
    ensures l < k ==> Kraft(bits[k := x], l) == Kraft(bits, l)
    ensures k <= l ==> Kraft(bits[k := x], l) == Kraft(bits, l) + (x - bits[k]) * Pow2(l - k)
  {
    if l > 0 {
      KraftUpdate(bits, k, x, l - 1);
      if k < l {
        assert 2 * ((x - bits[k]) * Pow2(l - 1 - k)) == (x - bits[k]) * (2 * Pow2(l - 1 - k));
      }
    }
  }

  lemma {:induction false} UptoUpdate(bits: seq<nat>, k: nat, x: nat, l: nat)
    requires 0 < k < |bits| && l < |bits|
    ensures Upto(bits[k := x], l) == Upto(bits, l) + if k <= l then x - bits[k] else 0
  {
    if l > 0 {
      UptoUpdate(bits, k, x, l - 1);
    }
  }

  lemma {:induction false} UptoMono(bits: seq<nat>, l: nat, m: nat)
    requires l <= m < |bits|
    ensures Upto(bits, l) <= Upto(bits, m)
    ensures l < m ==> Upto(bits, l) + bits[m] <= Upto(bits, m)
  {
    if l < m {
      UptoMono(bits, l, m - 1);
    }
  }

  lemma {:induction false} KraftPrefix(a: seq<nat>, b: seq<nat>, l: nat)
    requires l < |a| && l < |b|
    requires forall k :: 0 < k <= l ==> a[k] == b[k]
    ensures Kraft(a, l) == Kraft(b, l) && Upto(a, l) == Upto(b, l)
  {
    if l > 0 {
      KraftPrefix(a, b, l - 1);
    }
  }

  /** A legal code tree that leaves the all-ones code of every length free. */
  ghost predicate LegalCounts(bits: seq<nat>) {
    && |bits| == MAXBITS + 1
    && Upto(bits, MAXBITS) <= 256
    && (forall l :: 1 <= l <= MAXBITS ==> Kraft(bits, l) < Pow2(l))
  }

  lemma {:induction false} BelowFull(bits: seq<nat>, l: nat, i: nat)
    requires l <= i < |bits| && Kraft(bits, i) < Pow2(i)
    ensures Kraft(bits, l) < Pow2(l)
  {
    if l < i {
      BelowFull(bits, l, i - 1);
    }
  }

  lemma {:induction false} AboveFull(bits: seq<nat>, i: nat, l: nat)
    requires i <= l < |bits| && Kraft(bits, i) < Pow2(i)
    requires forall k :: i < k <= l ==> bits[k] == 0
    ensures Kraft(bits, l) < Pow2(l) && Upto(bits, l) == Upto(bits, i)
  {
    if i < l {
      AboveFull(bits, i, l - 1);
    }
  }

  // ----- canonical codes

  /** The first code of length l. */
  function FirstCode(bits: seq<nat>, l: nat): nat
    requires 1 <= l < |bits|
  {
    2 * Kraft(bits, l - 1)
  }

  /** Table position p holds a code of length l. */
  predicate HasLength(bits: seq<nat>, p: nat, l: nat) {
    && 1 <= l < |bits|
    && Upto(bits, l - 1) <= p < Upto(bits, l)
  }

  /** The code at position p, among the codes of length l. */
  function CodeAt(bits: seq<nat>, p: nat, l: nat): nat
    requires HasLength(bits, p, l)
  {
    FirstCode(bits, l) + (p - Upto(bits, l - 1))
  }

  /** Section C.2: the first code is all zeros, and each later one is the one before it plus one,
      with zeros appended up to its own length. */
  lemma {:induction false} CanonicalOrder(bits: seq<nat>, p: nat, l: nat, m: nat)
    requires HasLength(bits, p, l) && HasLength(bits, p + 1, m)
    ensures l <= m && CodeAt(bits, p + 1, m) == (CodeAt(bits, p, l) + 1) * Pow2(m - l)
  {
    hide Pow2, Kraft, Upto;
    if m < l {
      UptoMono(bits, m, l - 1);
    } else if l < m {
      UptoMono(bits, l, m - 1);
      KraftGap(bits, l, m - 1);
      TwiceShifted(Kraft(bits, l), m - 1 - l);
      assert CodeAt(bits, p, l) + 1 == Kraft(bits, l) by { LastOfLength(bits, p, l); }
    } else {
      TwiceShifted(0, 0);
    }
  }

  lemma {:induction false} TwiceShifted(k: nat, n: nat)
    ensures 2 * (k * Pow2(n)) == k * Pow2(n + 1) && Pow2(0) == 1
  {
  }

  lemma {:induction false} LastOfLength(bits: seq<nat>, p: nat, l: nat)
    requires HasLength(bits, p, l) && p + 1 == Upto(bits, l)
    ensures CodeAt(bits, p, l) + 1 == Kraft(bits, l)
  {
  }

  lemma {:induction false} CanonicalStart(bits: seq<nat>, l: nat)
    requires HasLength(bits, 0, l)
    ensures CodeAt(bits, 0, l) == 0
  {
    KraftGap(bits, 0, l - 1);
  }

  /** Lengths without codes only shift the next code. */
  lemma {:induction false} KraftGap(bits: seq<nat>, l: nat, m: nat)
    requires l <= m < |bits| && Upto(bits, l) == Upto(bits, m)
    ensures Kraft(bits, m) == Kraft(bits, l) * Pow2(m - l)
    decreases m
  {
    if l < m {
      UptoMono(bits, l, m - 1);
      KraftGap(bits, l, m - 1);
      assert 2 * (Kraft(bits, l) * Pow2(m - 1 - l)) == Kraft(bits, l) * Pow2(m - l);
    }
  }

  lemma {:induction false} LengthExists(bits: seq<nat>, p: nat, m: nat) returns (l: nat)
    requires m < |bits| && p < Upto(bits, m)
    ensures l <= m && HasLength(bits, p, l)
  {
    if p < Upto(bits, m - 1) {
      l := LengthExists(bits, p, m - 1);
    } else {
      l := m;
    }
  }

  lemma {:induction false} LengthUnique(bits: seq<nat>, p: nat, l: nat, m: nat)
    requires HasLength(bits, p, l) && HasLength(bits, p, m)
    ensures l == m
  {
    if l < m {
      UptoMono(bits, l, m - 1);
    } else if m < l {
      UptoMono(bits, m, l - 1);
    }
  }

  /** The code word of position p as the bits that are sent. */
  function Word(bits: seq<nat>, p: nat, l: nat): BitString
    requires HasLength(bits, p, l)
  {
    ToBits(CodeAt(bits, p, l), l)
  }

  lemma {:induction false} CodeRange(bits: seq<nat>, p: nat, l: nat)
    requires LegalCounts(bits) && HasLength(bits, p, l)
    ensures FirstCode(bits, l) <= CodeAt(bits, p, l) < Kraft(bits, l) < Pow2(l)
    ensures Value(Word(bits, p, l)) == CodeAt(bits, p, l)
  {
    ValueToBits(CodeAt(bits, p, l), l);
  }

  /** bs is past every code of length up to l. */
  predicate Beyond(bits: seq<nat>, bs: BitString, l: nat)
    requires l < |bits| && l <= |bs|
  {
    Value(bs[..l]) >= Kraft(bits, l)
  }

  lemma {:induction false} BeyondShorter(bits: seq<nat>, bs: BitString, k: nat, l: nat)
    requires k <= l < |bits| && l <= |bs| && Beyond(bits, bs, l)
    ensures Beyond(bits, bs, k)
    decreases l
  {
    if k < l {
      assert bs[..l][..l - 1] == bs[..l - 1];
      BeyondShorter(bits, bs, k, l - 1);
    }
  }

  /** What stands at the front of a bit string. */
  datatype Decoded = Symbol(sym: nat, len: nat) | Garbage | Short

  /** Decoding one bit at a time from length l on (figure F.16 of T.81):
      the first length at which the bits fall below the next free code. */
  function Decode(t: HuffTbl, bs: BitString, l: nat): Decoded
    requires Shaped(t) && LegalCounts(t.bits) && 1 <= l <= MAXBITS + 1
    requires l - 1 <= |bs| && Beyond(t.bits, bs, l - 1)
    decreases MAXBITS + 1 - l
  {
    if |bs| < l then Short
    else if l > MAXBITS then Garbage
    else if Beyond(t.bits, bs, l) then Decode(t, bs, l + 1)
    else
      MatchIndex(t.bits, bs, l);
      Symbol(t.huffval[Value(bs[..l]) - FirstCode(t.bits, l) + Upto(t.bits, l - 1)], l)
  }

  lemma {:induction false} MatchIndex(bits: seq<nat>, bs: BitString, l: nat)
    requires LegalCounts(bits) && 1 <= l <= MAXBITS && l <= |bs|
    requires Beyond(bits, bs, l - 1) && !Beyond(bits, bs, l)
    ensures FirstCode(bits, l) <= Value(bs[..l])
    ensures Value(bs[..l]) - FirstCode(bits, l) + Upto(bits, l - 1) < Upto(bits, l) <= 256
  {
    assert bs[..l][..l - 1] == bs[..l - 1];
    UptoMono(bits, l, MAXBITS);
  }

  function DecodeSymbol(t: HuffTbl, bs: BitString): Decoded
    requires Shaped(t) && LegalCounts(t.bits)
  {
    Decode(t, bs, 1)
  }

  /** Skipping lengths known to be too short changes nothing. */
  lemma {:induction false} DecodeSkip(t: HuffTbl, bs: BitString, l: nat)
    requires Shaped(t) && LegalCounts(t.bits) && 1 <= l <= MAXBITS + 1
    requires l - 1 <= |bs| && Beyond(t.bits, bs, l - 1)
    ensures DecodeSymbol(t, bs) == Decode(t, bs, l)
  {
    if l > 1 {
      BeyondShorter(t.bits, bs, l - 2, l - 1);
      DecodeSkip(t, bs, l - 1);
    }
  }

  /** The bits of a code word decode to its symbol, whatever follows. */
  lemma {:induction false} DecodeWord(t: HuffTbl, p: nat, l: nat, rest: BitString)
    requires Shaped(t) && LegalCounts(t.bits) && HasLength(t.bits, p, l)
    ensures Upto(t.bits, l) <= 256
    ensures DecodeSymbol(t, Word(t.bits, p, l) + rest) == Symbol(t.huffval[p], l)
  {
    hide ToBits, Pow2, Kraft, Upto;
    var bs := Word(t.bits, p, l) + rest;
    CodeRange(t.bits, p, l);
    UptoMono(t.bits, l, MAXBITS);
    assert bs[..l] == Word(t.bits, p, l);
    assert bs[..l][..l - 1] == bs[..l - 1];
    assert Beyond(t.bits, bs, l - 1);
    DecodeSkip(t, bs, l);
  }

  /** Canonical codes are prefix-free and never all ones. */
  lemma {:induction false} WordsPrefixFree(t: HuffTbl, p: nat, l: nat, q: nat, m: nat)
    requires Shaped(t) && LegalCounts(t.bits) && p != q
    requires HasLength(t.bits, p, l) && HasLength(t.bits, q, m)
    ensures !(Word(t.bits, p, l) <= Word(t.bits, q, m))
    ensures exists i :: 0 <= i < l && !Word(t.bits, p, l)[i]
  {
    hide DecodeSymbol, LegalCounts, HasLength, Kraft, Upto, ToBits;
    var w, v := Word(t.bits, p, l), Word(t.bits, q, m);
    CodeRange(t.bits, p, l);
    CodeRange(t.bits, q, m);
    if w <= v {
      assert v == w + v[l..] && v == v + [];
      DecodeWord(t, p, l, v[l..]);
      DecodeWord(t, q, m, []);
    }
    if forall i :: 0 <= i < l ==> w[i] {
      AllOnes(w);
    }
  }

  lemma {:induction false} AllOnes(w: BitString)
    requires forall i :: 0 <= i < |w| ==> w[i]
    ensures Value(w) == Pow2(|w|) - 1
  {
    if w != [] {
      AllOnes(w[..|w| - 1]);
    }
  }
}
