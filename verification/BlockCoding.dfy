/** Sequential coding of one block: the symbols and extra bits of section F.1.2
    of ITU-T T.81, the decoding procedure of section F.2.2, and their agreement. */
module BlockCoding {
  import opened JpegLimits
  import opened Arith
  import opened Bits
  import opened HuffTable
  import opened DerivedTables

  const MAX_COEF_BITS := 10   // 8-bit samples

  type Coef = x: int | -32768 <= x < 32768   // JCOEF

  /** jpeg_natural_order: zigzag position to block index, with 16 spare entries for runs past
      the end of a block. */
  ghost predicate NaturalOrder(order: seq<nat>) {
    && |order| == DCTSIZE2 + 16 && order[0] == 0
    && (forall k :: 0 <= k < |order| ==> order[k] < DCTSIZE2)
    && (forall k :: DCTSIZE2 <= k < |order| ==> order[k] == DCTSIZE2 - 1)
    && (forall j, k :: 0 <= j < k < DCTSIZE2 ==> order[j] != order[k])
    && (forall i :: 0 <= i < DCTSIZE2 ==> i in order[..DCTSIZE2])
  }

  function ZigZag(block: seq<Coef>, order: seq<nat>): (zz: seq<Coef>)
    requires |block| == DCTSIZE2 && |order| == DCTSIZE2 + 16
    requires forall k :: 0 <= k < |order| ==> order[k] < DCTSIZE2
    ensures |zz| == DCTSIZE2
  {
    seq(DCTSIZE2, k requires 0 <= k < DCTSIZE2 => block[order[k]])
  }

  // ----- magnitude categories

  function Abs(v: int): nat {
    if v < 0 then -v else v
  }

  function NBits(n: nat): nat {
    if n == 0 then 0 else 1 + NBits(n / 2)
  }

  function Category(v: int): nat {
    NBits(Abs(v))
  }

  lemma {:induction false} NBitsRange(n: nat)
    ensures n < Pow2(NBits(n))
    ensures n > 0 ==> NBits(n) > 0 && Pow2(NBits(n) - 1) <= n
  {
    if n > 0 {
      NBitsRange(n / 2);
    }
  }

  /** The number whose low bits follow the symbol: negative values are sent as
      the complement of their magnitude. */
  function ExtraCode(v: int): int {
    if v < 0 then v - 1 else v
  }

  /** Figure F.12. */
  function Extend(x: nat, s: nat): int
    requires s > 0
  {
    if x < Pow2(s - 1) then x - Pow2(s) + 1 else x
  }

  lemma {:induction false} ExtendExtra(v: int)
    requires v != 0
    ensures Category(v) > 0
    ensures Extend(ExtraCode(v) % Pow2(Category(v)), Category(v)) == v
  {
    var s, m := Category(v), Abs(v);
    NBitsRange(m);
    var p := Pow2(s);
    assert p == 2 * Pow2(s - 1);
    if v > 0 {
      DivModUnique(v, p, 0, v);
    } else {
      var x := p - 1 - m;
      ModNegative(v - 1, p, x);
    }
  }

  /** What the extra bits of a value are: s bits with Pow2(s - 1) <= |v| < Pow2(s), the value
      itself if it is positive, and otherwise the one's complement of its magnitude. */
  lemma {:induction false} ExtraBitsOf(v: int)
    requires v != 0
    ensures var s := NBits(Abs(v));
            && s > 0 && Pow2(s - 1) <= Abs(v) < Pow2(s)
            && ToBits(ExtraCode(v) % Pow2(s), s) == (if v > 0 then ToBits(v, s) else ToBits(Pow2(s) - 1 + v, s))
  {
    var s, m := NBits(Abs(v)), Abs(v);
    NBitsRange(m);
    if v > 0 {
      DivModUnique(v, Pow2(s), 0, v);
    } else {
      ModNegative(v - 1, Pow2(s), Pow2(s) - 1 - m);
    }
  }

  lemma {:induction false} ModNegative(a: int, p: nat, x: nat)
    requires p > 0 && a == x - p && x < p
    ensures a % p == x
  {
    var q, r := a / p, a % p;
    assert a == q * p + r && (q + 1) * p == q * p + p;
    if q + 1 < 0 {
      MulAtLeast(-(q + 1), p);
      MulDiff(0, q + 1, p);
    }
    DivModUnique(x, p, q + 1, r);
    DivModUnique(x, p, 0, x);
  }

  // ----- what the encoder sends for one block

  /** A Huffman symbol of either class, or the extra bits of a value. */
  datatype Item = Dc(size: nat) | Ac(run: nat, size: nat) | Extra(v: int, size: nat)

  /** AC items from zigzag position k on, after r zeros. */
  function AcItems(zz: seq<int>, k: nat, r: nat): seq<Item>
    requires k <= |zz|
    decreases |zz| - k, r
  {
    if k == |zz| then (if r > 0 then [Ac(0, 0)] else [])
    else if zz[k] == 0 then AcItems(zz, k + 1, r + 1)
    else if r > 15 then [Ac(15, 0)] + AcItems(zz, k, r - 16)
    else [Ac(r, Category(zz[k])), Extra(zz[k], Category(zz[k]))] + AcItems(zz, k + 1, 0)
  }

  function DcItems(diff: int): seq<Item> {
    [Dc(Category(diff))] + if diff == 0 then [] else [Extra(diff, Category(diff))]
  }

  function BlockItems(zz: seq<int>, last: int): seq<Item>
    requires |zz| == DCTSIZE2
  {
    DcItems(zz[0] - last) + AcItems(zz, 1, 0)
  }

  predicate TableShaped(c: CDerived) {
    |c.ehufco| == |c.ehufsi| == 256
  }

  /** The encoder neither finds the value out of range nor misses a code. */
  predicate Codable(dc: CDerived, ac: CDerived, it: Item)
    requires TableShaped(dc) && TableShaped(ac)
  {
    match it
    case Dc(s) => s <= MAX_COEF_BITS + 1 && dc.ehufsi[s] > 0
    case Ac(r, s) => r <= 15 && s <= MAX_COEF_BITS && ac.ehufsi[16 * r + s] > 0
    case Extra(_, _) => true
  }

  function ItemBits(dc: CDerived, ac: CDerived, it: Item): BitString
    requires TableShaped(dc) && TableShaped(ac)
  {
    match it
    case Dc(s) => if s < 256 then CodeBits(dc, s) else []
    case Ac(r, s) => if 16 * r + s < 256 then CodeBits(ac, 16 * r + s) else []
    case Extra(v, n) => ToBits(ExtraCode(v) % Pow2(n), n)
  }

  function ItemsBits(dc: CDerived, ac: CDerived, its: seq<Item>): BitString
    requires TableShaped(dc) && TableShaped(ac)
  {
    if its == [] then [] else ItemBits(dc, ac, its[0]) + ItemsBits(dc, ac, its[1..])
  }

  predicate AllCodable(dc: CDerived, ac: CDerived, its: seq<Item>)
    requires TableShaped(dc) && TableShaped(ac)
  {
    forall i :: 0 <= i < |its| ==> Codable(dc, ac, its[i])
  }

  lemma {:induction false} ItemsBitsAppend(dc: CDerived, ac: CDerived, a: seq<Item>, b: seq<Item>)
    requires TableShaped(dc) && TableShaped(ac)
    ensures ItemsBits(dc, ac, a + b) == ItemsBits(dc, ac, a) + ItemsBits(dc, ac, b)
  {
    hide ItemBits;
    if a == [] {
      assert a + b == b;
    } else {
      ItemsBitsAppend(dc, ac, a[1..], b);
      assert (a + b)[1..] == a[1..] + b;
      var h, x, y := ItemBits(dc, ac, a[0]), ItemsBits(dc, ac, a[1..]), ItemsBits(dc, ac, b);
      assert h + (x + y) == (h + x) + y;
    }
  }

  // ----- the bits of a block, without the item list

  /** The difference d: the code of its category, then d itself, or the one's complement of its
      magnitude. */
  lemma {:induction false} DifferenceBits(dc: CDerived, ac: CDerived, d: int)
    requires TableShaped(dc) && TableShaped(ac) && AllCodable(dc, ac, DcItems(d))
    ensures NBits(Abs(d)) <= MAX_COEF_BITS + 1
    ensures d == 0 ==> ItemsBits(dc, ac, DcItems(d)) == CodeBits(dc, 0)
    ensures d > 0 ==> ItemsBits(dc, ac, DcItems(d)) == CodeBits(dc, NBits(d)) + ToBits(d, NBits(d))
    ensures d < 0 ==> Pow2(NBits(-d)) > -d
    ensures d < 0 ==> ItemsBits(dc, ac, DcItems(d)) == CodeBits(dc, NBits(-d)) + ToBits(Pow2(NBits(-d)) - 1 + d, NBits(-d))
  {
    hide CodeBits, ToBits, Pow2, NBits;
    var its, s := DcItems(d), NBits(Abs(d));
    assert Codable(dc, ac, its[0]) && its[0] == Dc(s);
    if d == 0 {
      assert s == 0 by { BitsOfZero(); }
      assert its[1..] == [];
    } else {
      ExtraBitsOf(d);
      assert its[1..] == [Extra(d, s)] && its[1..][1..] == [];
      assert ItemsBits(dc, ac, its[1..]) == ItemBits(dc, ac, Extra(d, s));
    }
  }

  lemma {:induction false} BitsOfZero()
    ensures NBits(0) == 0
  {
  }

  /** m copies of the code for sixteen zeros, ZRL. */
  function SixteenZeros(ac: CDerived, m: nat): BitString
    requires TableShaped(ac)
  {
    if m == 0 then [] else CodeBits(ac, 0xF0) + SixteenZeros(ac, m - 1)
  }

  /** The extra bits of v in s bits. */
  function SignedBits(v: int, s: nat): BitString
    requires Abs(v) < Pow2(s)
  {
    if v > 0 then ToBits(v, s) else ToBits(Pow2(s) - 1 + v, s)
  }

  /** After r zeros, a nonzero coefficient costs r / 16 times the code 0xF0, then the code of
      16 * (r % 16) + its category, then its bits. */
  lemma {:induction false} CoefficientAfterRun(dc: CDerived, ac: CDerived, zz: seq<Coef>, k: nat, r: nat)
    requires TableShaped(dc) && TableShaped(ac) && k < |zz| && zz[k] != 0
    requires AllCodable(dc, ac, AcItems(zz, k, r))
    ensures NBits(Abs(zz[k])) <= MAX_COEF_BITS && Abs(zz[k]) < Pow2(NBits(Abs(zz[k])))
    ensures var s := NBits(Abs(zz[k]));
            ItemsBits(dc, ac, AcItems(zz, k, r)) ==
              SixteenZeros(ac, r / 16) + CodeBits(ac, 16 * (r % 16) + s) + SignedBits(zz[k], s)
              + ItemsBits(dc, ac, AcItems(zz, k + 1, 0))
    ensures AllCodable(dc, ac, AcItems(zz, k + 1, 0))
    decreases r
  {
    hide CodeBits, ToBits, Pow2, NBits, AcItems, ItemsBits, AllCodable, SignedBits;
    var s := NBits(Abs(zz[k]));
    ExtraBitsOf(zz[k]);
    if r > 15 {
      SixteenMore(dc, ac, zz, k, r);
      CoefficientAfterRun(dc, ac, zz, k, r - 16);
      assert r / 16 == (r - 16) / 16 + 1 && (r - 16) % 16 == r % 16;
      Reassociate(CodeBits(ac, 0xF0), SixteenZeros(ac, (r - 16) / 16), CodeBits(ac, 16 * (r % 16) + s),
                  SignedBits(zz[k], s), ItemsBits(dc, ac, AcItems(zz, k + 1, 0)));
    } else {
      assert r / 16 == 0 && r % 16 == r;
      var w, y, rest := CoefficientBits(dc, ac, zz, k, r);
      assert y == SignedBits(zz[k], s) by { SignedIs(zz[k], s); }
      assert [] + w == w && w + (y + rest) == (w + y) + rest;
    }
  }

  lemma {:induction false} SignedIs(v: int, s: nat)
    requires v != 0 && s == NBits(Abs(v)) && Abs(v) < Pow2(s)
    ensures SignedBits(v, s) == ToBits(ExtraCode(v) % Pow2(s), s)
  {
    hide ToBits, Pow2, NBits;
    ExtraBitsOf(v);
  }

  lemma {:induction false} SixteenMore(dc: CDerived, ac: CDerived, zz: seq<int>, k: nat, r: nat)
    requires TableShaped(dc) && TableShaped(ac) && k < |zz| && zz[k] != 0 && r > 15
    requires AllCodable(dc, ac, AcItems(zz, k, r))
    ensures ItemsBits(dc, ac, AcItems(zz, k, r)) == CodeBits(ac, 0xF0) + ItemsBits(dc, ac, AcItems(zz, k, r - 16))
    ensures AllCodable(dc, ac, AcItems(zz, k, r - 16))
  {
    hide CodeBits, NBits;
    var its := AcItems(zz, k, r);
    assert its[1..] == AcItems(zz, k, r - 16);
    assert forall i :: 0 <= i < |its[1..]| ==> its[1..][i] == its[i + 1];
  }

  lemma {:induction false} Reassociate(h: BitString, z: BitString, c: BitString, x: BitString, t: BitString)
    ensures h + (z + c + x + t) == (h + z) + c + x + t
  {
    assert h + (z + c + x + t) == (h + (z + c + x)) + t;
    assert h + (z + c + x) == (h + (z + c)) + x;
    assert h + (z + c) == (h + z) + c;
  }

  /** Zeros up to a nonzero coefficient add to its run; zeros up to the end cost the code 0. */
  lemma {:induction false} ZerosToNext(zz: seq<int>, k: nat, r: nat, n: nat)
    requires k + n <= |zz| && forall j :: k <= j < k + n ==> zz[j] == 0
    ensures AcItems(zz, k, r) == AcItems(zz, k + n, r + n)
    decreases n
  {
    if n > 0 {
      ZerosToNext(zz, k + 1, r + 1, n - 1);
    }
  }

  lemma {:induction false} ZerosToEnd(dc: CDerived, ac: CDerived, zz: seq<int>, k: nat)
    requires TableShaped(dc) && TableShaped(ac) && k <= |zz| && forall j :: k <= j < |zz| ==> zz[j] == 0
    ensures ItemsBits(dc, ac, AcItems(zz, k, 0)) == if k < |zz| then CodeBits(ac, 0) else []
  {
    hide CodeBits;
    ZerosToNext(zz, k, 0, |zz| - k);
    var its := AcItems(zz, |zz|, |zz| - k);
    if k < |zz| {
      assert its == [Ac(0, 0)] && its[1..] == [];
    }
  }

  // ----- decoding from a bit stream continued by zeros

  function Pad(u: BitString, pos: nat, n: nat): (w: BitString)
    ensures |w| == n
  {
    seq(n, i requires 0 <= i < n => pos + i < |u| && u[pos + i])
  }

  /** The symbol at pos and the position after it; no code match counts as
      symbol 0 after 17 bits. */
  function SymAt(t: HuffTbl, u: BitString, pos: nat): (nat, nat)
    requires Shaped(t) && LegalCounts(t.bits)
  {
    match DecodeSymbol(t, Pad(u, pos, MAXBITS + 1))
    case Symbol(s, l) => (s, pos + l)
    case _ => (0, pos + MAXBITS + 1)
  }

  /** Bits that begin with no code word cost 17 and count as symbol 0. */
  lemma {:induction false} NoSuchCode(t: HuffTbl, u: BitString, pos: nat)
    requires Shaped(t) && LegalCounts(t.bits)
    requires forall p, l :: HasLength(t.bits, p, l) ==> !(Word(t.bits, p, l) <= Pad(u, pos, MAXBITS + 1))
    ensures SymAt(t, u, pos) == (0, pos + 17)
  {
    NeverMatches(t, Pad(u, pos, MAXBITS + 1), 1);
  }

  lemma {:induction false} NeverMatches(t: HuffTbl, bs: BitString, l: nat)
    requires Shaped(t) && LegalCounts(t.bits) && 1 <= l <= MAXBITS + 1 == |bs| && Beyond(t.bits, bs, l - 1)
    requires forall p, l :: HasLength(t.bits, p, l) ==> !(Word(t.bits, p, l) <= bs)
    ensures Decode(t, bs, l) == Garbage
    decreases MAXBITS + 1 - l
  {
    hide Kraft, Upto, LegalCounts, Pow2;
    if l <= MAXBITS {
      if Beyond(t.bits, bs, l) {
        NeverMatches(t, bs, l + 1);
      } else {
        var p := MatchedWord(t, bs, l);
        assert false;
      }
    }
  }

  /** Where the search stops, a code word has been found. */
  lemma {:induction false} MatchedWord(t: HuffTbl, bs: BitString, l: nat) returns (p: nat)
    requires Shaped(t) && LegalCounts(t.bits) && 1 <= l <= MAXBITS && l <= |bs|
    requires Beyond(t.bits, bs, l - 1) && !Beyond(t.bits, bs, l)
    ensures HasLength(t.bits, p, l) && Word(t.bits, p, l) <= bs
  {
    hide Pow2, LegalCounts;
    MatchIndex(t.bits, bs, l);
    p := Value(bs[..l]) - FirstCode(t.bits, l) + Upto(t.bits, l - 1);
    assert CodeAt(t.bits, p, l) == Value(bs[..l]);
    ToBitsValue(bs[..l]);
  }

  function BitsAt(u: BitString, pos: nat, n: nat): nat {
    Value(Pad(u, pos, n))
  }

  /** Conversion to JCOEF. */
  function ToCoef(v: int): Coef {
    (v + 32768) % 65536 - 32768
  }

  /** The DC difference at pos and the position after it. */
  function DcAt(t: HuffTbl, u: BitString, pos: nat): (int, nat)
    requires Shaped(t) && LegalCounts(t.bits)
  {
    var (s, p) := SymAt(t, u, pos);
    if s == 0 then (0, p) else (Extend(BitsAt(u, p, s), s), p + s)
  }

  /** Fill in the AC coefficients from zigzag position k on. */
  function AcFrom(t: HuffTbl, u: BitString, pos: nat, k: nat, blk: seq<Coef>, order: seq<nat>, needed: bool): (r: (seq<Coef>, nat))
    requires Shaped(t) && LegalCounts(t.bits) && |blk| == DCTSIZE2
    requires |order| == DCTSIZE2 + 16 && forall i :: 0 <= i < |order| ==> order[i] < DCTSIZE2
    ensures |r.0| == DCTSIZE2
    decreases DCTSIZE2 - k
  {
    if k >= DCTSIZE2 then (blk, pos) else
    var (sym, p) := SymAt(t, u, pos);
    var run, s := sym / 16, sym % 16;
    if s > 0 then
      var v := Extend(BitsAt(u, p, s), s);
      var blk' := if needed && k + run < |order| then blk[order[k + run] := ToCoef(v)] else blk;
      AcFrom(t, u, p + s, k + run + 1, blk', order, needed)
    else if run != 15 then (blk, p)
    else AcFrom(t, u, p, k + 16, blk, order, needed)
  }

  // ----- decoding undoes encoding

  lemma {:induction false} PadPrefix(u: BitString, pos: nat, w: BitString, n: nat)
    requires pos <= |u| && w <= u[pos..] && |w| <= n
    ensures Pad(u, pos, n) == w + Pad(u, pos + |w|, n - |w|)
    ensures |w| == n ==> Pad(u, pos, n) == w
  {
    forall i | 0 <= i < |w|
      ensures Pad(u, pos, n)[i] == w[i]
    {
      assert u[pos..][i] == w[i];
    }
  }

  lemma {:induction false} CodeSize(c: CDerived, s: UInt8)
    requires TableShaped(c)
    ensures |CodeBits(c, s)| == c.ehufsi[s]
  {
  }

  lemma {:induction false} SymRead(c: CDerived, t: HuffTbl, s: UInt8, u: BitString, pos: nat)
    requires Encodes(c, t) && c.ehufsi[s] > 0
    requires pos <= |u| && CodeBits(c, s) <= u[pos..]
    ensures SymAt(t, u, pos) == (s, pos + |CodeBits(c, s)|)
  {
    hide DecodeSymbol, CodeBits, LegalCounts, Pad;
    var w := CodeBits(c, s);
    assert |w| == c.ehufsi[s] by { CodeSize(c, s); }
    DecodeCodeBits(c, t, s, []);
    PadPrefix(u, pos, w, MAXBITS + 1);
    DecodeCodeBits(c, t, s, Pad(u, pos + |w|, MAXBITS + 1 - |w|));
  }

  lemma {:induction false} ExtraRead(v: int, u: BitString, pos: nat)
    requires v != 0 && pos <= |u|
    requires ToBits(ExtraCode(v) % Pow2(Category(v)), Category(v)) <= u[pos..]
    ensures Category(v) > 0 && Extend(BitsAt(u, pos, Category(v)), Category(v)) == v
  {
    var s := Category(v);
    var x := ExtraCode(v) % Pow2(s);
    ExtendExtra(v);
    PadPrefix(u, pos, ToBits(x, s), s);
    ValueToBits(x, s);
  }

  lemma {:induction false} PrefixSplit(a: BitString, b: BitString, u: BitString, pos: nat)
    requires pos <= |u| && a + b <= u[pos..]
    ensures a <= u[pos..] && pos + |a| <= |u| && b <= u[pos + |a|..]
  {
    assert (a + b)[..|a|] == a;
    assert u[pos..][|a|..] == u[pos + |a|..];
    assert b == (a + b)[|a|..];
  }

  /** The block holds the first m coefficients of zz, and zeros elsewhere. */
  ghost predicate Agrees(blk: seq<Coef>, zz: seq<Coef>, order: seq<nat>, m: nat)
    requires NaturalOrder(order)
  {
    && |blk| == |zz| == DCTSIZE2
    && (forall j :: 0 <= j < DCTSIZE2 ==> blk[order[j]] == if j < m then zz[j] else 0)
  }

  lemma {:induction false} AcEnd(dc: CDerived, ac: CDerived, t: HuffTbl, zz: seq<Coef>, r: nat, u: BitString, pos: nat, order: seq<nat>, blk: seq<Coef>)
    requires TableShaped(dc) && TableShaped(ac) && Encodes(ac, t) && NaturalOrder(order) && |blk| == |zz| == DCTSIZE2
    requires r < DCTSIZE2 && AllCodable(dc, ac, AcItems(zz, DCTSIZE2, r))
    requires pos <= |u| && ItemsBits(dc, ac, AcItems(zz, DCTSIZE2, r)) <= u[pos..]
    ensures AcFrom(t, u, pos, DCTSIZE2 - r, blk, order, true)
         == (blk, pos + |ItemsBits(dc, ac, AcItems(zz, DCTSIZE2, r))|)
  {
    hide Encodes, LegalCounts, Shaped, SymAt, BitsAt, CodeBits, NaturalOrder, Extend, Pow2;
    if r > 0 {
      var its := AcItems(zz, DCTSIZE2, r);
      assert Codable(dc, ac, its[0]);
      assert ItemsBits(dc, ac, its[1..]) == [];
      SymRead(ac, t, 0, u, pos);
    }
  }

  lemma {:induction false} AcRun(dc: CDerived, ac: CDerived, t: HuffTbl, zz: seq<Coef>, k: nat, r: nat, u: BitString, pos: nat, order: seq<nat>, blk: seq<Coef>)
    requires TableShaped(dc) && TableShaped(ac) && Encodes(ac, t) && NaturalOrder(order) && |blk| == |zz| == DCTSIZE2
    requires 15 < r < k < DCTSIZE2 && zz[k] != 0 && AllCodable(dc, ac, AcItems(zz, k, r))
    requires pos <= |u| && ItemsBits(dc, ac, AcItems(zz, k, r)) <= u[pos..]
    ensures var w := CodeBits(ac, 0xF0); var rest := ItemsBits(dc, ac, AcItems(zz, k, r - 16));
            && ItemsBits(dc, ac, AcItems(zz, k, r)) == w + rest
            && pos + |w| <= |u| && rest <= u[pos + |w|..]
            && AllCodable(dc, ac, AcItems(zz, k, r - 16))
            && AcFrom(t, u, pos, k - r, blk, order, true) == AcFrom(t, u, pos + |w|, k - (r - 16), blk, order, true)
  {
    hide Encodes, LegalCounts, Shaped, SymAt, BitsAt, CodeBits, NaturalOrder, Extend, Pow2, NBits;
    var its, w := AcItems(zz, k, r), CodeBits(ac, 0xF0);
    assert Codable(dc, ac, its[0]);
    assert its[1..] == AcItems(zz, k, r - 16);
    assert forall i :: 0 <= i < |its[1..]| ==> its[1..][i] == its[i + 1];
    PrefixSplit(w, ItemsBits(dc, ac, its[1..]), u, pos);
    SymRead(ac, t, 0xF0, u, pos);
  }

  lemma {:induction false} AcRoundTrip(dc: CDerived, ac: CDerived, t: HuffTbl, zz: seq<Coef>, k: nat, r: nat,
                      u: BitString, pos: nat, order: seq<nat>, blk: seq<Coef>) returns (blk': seq<Coef>)
    requires TableShaped(dc) && TableShaped(ac) && Encodes(ac, t) && NaturalOrder(order)
    requires r < k <= DCTSIZE2 == |zz| && forall j :: k - r <= j < k ==> zz[j] == 0
    requires AllCodable(dc, ac, AcItems(zz, k, r))
    requires Agrees(blk, zz, order, k - r)
    requires pos <= |u| && ItemsBits(dc, ac, AcItems(zz, k, r)) <= u[pos..]
    ensures Agrees(blk', zz, order, DCTSIZE2)
    ensures AcFrom(t, u, pos, k - r, blk, order, true) == (blk', pos + |ItemsBits(dc, ac, AcItems(zz, k, r))|)
    decreases DCTSIZE2 - k, r
  {
    hide Encodes, LegalCounts, Shaped, SymAt, BitsAt, CodeBits, NaturalOrder, Extend, Pow2;
    var its := AcItems(zz, k, r);
    if k == DCTSIZE2 {
      blk' := blk;
      AcEnd(dc, ac, t, zz, r, u, pos, order, blk);
    } else if zz[k] == 0 {
      blk' := AcRoundTrip(dc, ac, t, zz, k + 1, r + 1, u, pos, order, blk);
    } else {
      if r > 15 {
        var w := CodeBits(ac, 0xF0);
        AcRun(dc, ac, t, zz, k, r, u, pos, order, blk);
        blk' := AcRoundTrip(dc, ac, t, zz, k, r - 16, u, pos + |w|, order, blk);
      } else {
        blk' := AcCoefficient(dc, ac, t, zz, k, r, u, pos, order, blk);
      }
    }
  }

  lemma {:induction false} AcCoefficient(dc: CDerived, ac: CDerived, t: HuffTbl, zz: seq<Coef>, k: nat, r: nat,
                        u: BitString, pos: nat, order: seq<nat>, blk: seq<Coef>) returns (blk': seq<Coef>)
    requires TableShaped(dc) && TableShaped(ac) && Encodes(ac, t) && NaturalOrder(order)
    requires r <= 15 && r < k < DCTSIZE2 == |zz| && zz[k] != 0 && forall j :: k - r <= j < k ==> zz[j] == 0
    requires AllCodable(dc, ac, AcItems(zz, k, r))
    requires Agrees(blk, zz, order, k - r)
    requires pos <= |u| && ItemsBits(dc, ac, AcItems(zz, k, r)) <= u[pos..]
    ensures Agrees(blk', zz, order, DCTSIZE2)
    ensures AcFrom(t, u, pos, k - r, blk, order, true) == (blk', pos + |ItemsBits(dc, ac, AcItems(zz, k, r))|)
    decreases DCTSIZE2 - k, r, 0
  {
    hide EncodesUpto, LegalCounts, Shaped, SymAt, BitsAt, CodeBits, Extend, Pow2, NBits, AcFrom, ItemsBits;
    var v, s, rest := zz[k], Category(zz[k]), AcItems(zz, k + 1, 0);
    var w, x, y := CoefficientBits(dc, ac, zz, k, r);
    PrefixSplit(w, x + y, u, pos);
    PrefixSplit(x, y, u, pos + |w|);
    SymRead(ac, t, 16 * r + s, u, pos);
    ExtraRead(v, u, pos + |w|);
    AcStep(t, u, pos, k - r, blk, order, r, s, v);
    var blk1 := blk[order[k] := v];
    assert Agrees(blk1, zz, order, k + 1);
    blk' := AcRoundTrip(dc, ac, t, zz, k + 1, 0, u, pos + |w| + |x|, order, blk1);
  }

  lemma {:induction false} CoefficientBits(dc: CDerived, ac: CDerived, zz: seq<Coef>, k: nat, r: nat) returns (w: BitString, x: BitString, y: BitString)
    requires TableShaped(dc) && TableShaped(ac) && k < |zz| && zz[k] != 0 && r <= 15
    requires AllCodable(dc, ac, AcItems(zz, k, r))
    ensures var s := Category(zz[k]);
            && s <= MAX_COEF_BITS && ac.ehufsi[16 * r + s] > 0
            && w == CodeBits(ac, 16 * r + s)
            && x == ToBits(ExtraCode(zz[k]) % Pow2(s), s)
            && y == ItemsBits(dc, ac, AcItems(zz, k + 1, 0))
            && ItemsBits(dc, ac, AcItems(zz, k, r)) == w + (x + y)
            && AllCodable(dc, ac, AcItems(zz, k + 1, 0))
  {
    var its, s := AcItems(zz, k, r), Category(zz[k]);
    var rest := AcItems(zz, k + 1, 0);
    assert Codable(dc, ac, its[0]);
    assert its[1..] == [Extra(zz[k], s)] + rest && its[1..][1..] == rest;
    assert forall i :: 0 <= i < |rest| ==> rest[i] == its[i + 2];
    w, x, y := ItemBits(dc, ac, its[0]), ItemBits(dc, ac, Extra(zz[k], s)), ItemsBits(dc, ac, rest);
    assert ItemsBits(dc, ac, its[1..]) == x + y;
  }

  /** One nonzero coefficient of the decoding loop. */
  lemma {:induction false} AcStep(t: HuffTbl, u: BitString, pos: nat, k0: nat, blk: seq<Coef>, order: seq<nat>, r: nat, s: nat, v: Coef)
    requires Shaped(t) && LegalCounts(t.bits) && |blk| == DCTSIZE2 && NaturalOrder(order)
    requires r <= 15 && 0 < s <= 15 && k0 + r < DCTSIZE2
    requires SymAt(t, u, pos).0 == 16 * r + s
    requires Extend(BitsAt(u, SymAt(t, u, pos).1, s), s) == v
    ensures AcFrom(t, u, pos, k0, blk, order, true)
         == AcFrom(t, u, SymAt(t, u, pos).1 + s, k0 + r + 1, blk[order[k0 + r] := v], order, true)
  {
    hide SymAt, BitsAt, Extend, LegalCounts;
    assert ToCoef(v) == v;
    assert (16 * r + s) / 16 == r && (16 * r + s) % 16 == s;
  }

  lemma {:induction false} DcRoundTrip(dc: CDerived, ac: CDerived, t: HuffTbl, diff: int, u: BitString, pos: nat)
    requires TableShaped(dc) && TableShaped(ac) && Encodes(dc, t) && AllCodable(dc, ac, DcItems(diff))
    requires pos <= |u| && ItemsBits(dc, ac, DcItems(diff)) <= u[pos..]
    ensures DcAt(t, u, pos) == (diff, pos + |ItemsBits(dc, ac, DcItems(diff))|)
  {
    hide Encodes, LegalCounts, Shaped, SymAt, BitsAt, CodeBits, Extend, Pow2;
    var its, s := DcItems(diff), Category(diff);
    assert Codable(dc, ac, its[0]);
    var w := CodeBits(dc, s);
    assert ItemsBits(dc, ac, its) == w + ItemsBits(dc, ac, its[1..]);
    PrefixSplit(w, ItemsBits(dc, ac, its[1..]), u, pos);
    SymRead(dc, t, s, u, pos);
    if diff != 0 {
      var x := ItemBits(dc, ac, Extra(diff, s));
      assert ItemsBits(dc, ac, its[1..]) == x + ItemsBits(dc, ac, its[1..][1..]) == x;
      ExtraRead(diff, u, pos + |w|);
    }
  }

  /** A stream that goes on with the code of the category of d and then d, or the one's
      complement of its magnitude, is read as the difference d. */
  lemma {:induction false} DifferenceRead(dc: CDerived, t: HuffTbl, d: int, u: BitString, pos: nat)
    requires TableShaped(dc) && Encodes(dc, t) && pos <= |u|
    requires NBits(Abs(d)) <= MAX_COEF_BITS + 1 && dc.ehufsi[NBits(Abs(d))] > 0
    requires d > 0 ==> CodeBits(dc, NBits(d)) + ToBits(d, NBits(d)) <= u[pos..]
    requires d < 0 ==> -d < Pow2(NBits(-d)) && CodeBits(dc, NBits(-d)) + ToBits(Pow2(NBits(-d)) - 1 + d, NBits(-d)) <= u[pos..]
    requires d == 0 ==> CodeBits(dc, 0) <= u[pos..]
    ensures DcAt(t, u, pos).0 == d
  {
    hide CodeBits, ToBits, Pow2, NBits, Encodes, DcAt;
    assert AllCodable(dc, dc, DcItems(d));
    DifferenceBits(dc, dc, d);
    DcRoundTrip(dc, dc, t, d, u, pos);
  }

  /** A run past the end of the block ends up in its last coefficient. */
  lemma {:induction false} OverlongRun(t: HuffTbl, u: BitString, pos: nat, k: nat, blk: seq<Coef>, order: seq<nat>)
    requires Shaped(t) && LegalCounts(t.bits) && |blk| == DCTSIZE2 && NaturalOrder(order) && 1 <= k < DCTSIZE2
    requires var (sym, _) := SymAt(t, u, pos); sym < 256 && sym % 16 != 0 && k + sym / 16 >= DCTSIZE2
    ensures var (sym, p) := SymAt(t, u, pos);
            var s := sym % 16;
            AcFrom(t, u, pos, k, blk, order, true) == (blk[DCTSIZE2 - 1 := ToCoef(Extend(BitsAt(u, p, s), s))], p + s)
  {
    hide SymAt, BitsAt, Extend, LegalCounts;
  }

  /** AC decoding leaves the DC coefficient alone. */
  lemma {:induction false} AcKeepsDc(t: HuffTbl, u: BitString, pos: nat, k: nat, blk: seq<Coef>, order: seq<nat>, needed: bool)
    requires Shaped(t) && LegalCounts(t.bits) && |blk| == DCTSIZE2 && NaturalOrder(order) && k >= 1
    ensures AcFrom(t, u, pos, k, blk, order, needed).0[0] == blk[0]
    decreases DCTSIZE2 - k
  {
    hide SymAt, BitsAt, Extend, LegalCounts;
    if k < DCTSIZE2 {
      var (sym, p) := SymAt(t, u, pos);
      var run, s := sym / 16, sym % 16;
      if s > 0 {
        var v := Extend(BitsAt(u, p, s), s);
        var blk' := if needed && k + run < |order| then blk[order[k + run] := ToCoef(v)] else blk;
        assert k + run < |order| ==> order[k + run] != 0;
        AcKeepsDc(t, u, p + s, k + run + 1, blk', order, needed);
      } else if run == 15 {
        AcKeepsDc(t, u, p, k + 16, blk, order, needed);
      }
    }
  }
}
