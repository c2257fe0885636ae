/** The header segments byte by byte, as section B.2 of ITU-T T.81 lays them out. */
module HeaderLayout {
  import opened JpegLimits
  import opened HuffTable
  import opened BlockCoding
  import opened MarkerSegments
  import opened HeaderRoundTrip

  /** A 16-bit number at position i, high byte first. */
  predicate Word(b: seq<UInt8>, i: nat, v: int) {
    i + 2 <= |b| && (b[i] as int) * 256 + b[i + 1] == v
  }

  /** The marker, and the length of what follows it. */
  predicate Starts(b: seq<UInt8>, marker: int) {
    |b| >= 4 && b[0] == 0xFF && b[1] == marker && Word(b, 2, |b| - 2)
  }

  lemma {:induction false} WordAt(a: seq<UInt8>, v: UInt16, c: seq<UInt8>)
    ensures Word(a + Two16(v) + c, |a|, v)
  {
    var b := a + Two16(v) + c;
    assert b[|a|] == Two16(v)[0] && b[|a| + 1] == Two16(v)[1];
  }

  lemma {:induction false} QuantAt(q: seq<UInt16>, order: seq<nat>, n: nat, k: nat)
    requires |q| == DCTSIZE2 && Usable(order) && k < n <= DCTSIZE2
    ensures Word(QuantBytes(q, order, true, n), 2 * k, q[order[k]])
    ensures QuantBytes(q, order, false, n)[k] == q[order[k]] % 256
  {
    if k < n - 1 {
      QuantAt(q, order, n - 1, k);
    } else {
      var b := QuantBytes(q, order, true, n - 1);
      WordAt(b, q[order[k]], []);
      assert b + Two16(q[order[k]]) + [] == QuantBytes(q, order, true, n);
    }
  }

  /** DQT: precision and slot in one byte, then the entries in zigzag order, one byte each if all
      fit and else two. */
  lemma {:induction false} DqtLayout(slot: nat, q: seq<UInt16>, order: seq<nat>)
    requires slot < NUM_QUANT_TBLS && |q| == DCTSIZE2 && Usable(order)
    ensures var b := Bytes(Dqt(slot, q), order);
            && Starts(b, 0xDB)
            && (if exists k :: 0 <= k < DCTSIZE2 && q[k] > 255
                then |b| == 133 && b[4] == 16 + slot && forall k: nat :: k < DCTSIZE2 ==> Word(b, 5 + 2 * k, q[order[k]])
                else |b| == 69 && b[4] == slot && forall k :: 0 <= k < DCTSIZE2 ==> b[5 + k] == q[order[k]])
  {
    hide QuantBytes, Wide;
    var w := Wide(q);
    var len := if w then 2 * DCTSIZE2 + 3 else DCTSIZE2 + 3;
    var pre, body: seq<UInt8> := [0xFF, 0xDB] + Two16(len) + [slot + if w then 16 else 0], QuantBytes(q, order, w, DCTSIZE2);
    DqtBytes(slot, q, order);
    WordAt([0xFF, 0xDB], len, [slot + if w then 16 else 0]);
    ThreeParts(pre, body, []);
    assert pre + body + [] == Bytes(Dqt(slot, q), order);
    DqtEntries(slot, q, order, Bytes(Dqt(slot, q), order));
    assert w <==> exists k :: 0 <= k < DCTSIZE2 && q[k] > 255 by { WideIs(q); }
  }

  lemma {:induction false} WideIs(q: seq<UInt16>)
    requires |q| == DCTSIZE2
    ensures Wide(q) <==> exists k :: 0 <= k < DCTSIZE2 && q[k] > 255
    ensures !Wide(q) ==> forall k :: 0 <= k < DCTSIZE2 ==> q[k] % 256 == q[k]
  {
  }

  lemma {:induction false} DqtBytes(slot: nat, q: seq<UInt16>, order: seq<nat>)
    requires slot < NUM_QUANT_TBLS && |q| == DCTSIZE2 && Usable(order)
    ensures var w := Wide(q);
            Bytes(Dqt(slot, q), order)
              == [0xFF, 0xDB] + Two16(if w then 2 * DCTSIZE2 + 3 else DCTSIZE2 + 3) + [slot + if w then 16 else 0]
                 + QuantBytes(q, order, w, DCTSIZE2)
  {
    hide QuantBytes, Wide, Two16;
  }

  lemma {:induction false} DqtEntries(slot: nat, q: seq<UInt16>, order: seq<nat>, b: seq<UInt8>)
    requires |q| == DCTSIZE2 && Usable(order)
    requires var body := QuantBytes(q, order, Wide(q), DCTSIZE2); |b| == 5 + |body| && b[5..] == body
    ensures Wide(q) ==> forall k: nat :: k < DCTSIZE2 ==> Word(b, 5 + 2 * k, q[order[k]])
    ensures !Wide(q) ==> forall k :: 0 <= k < DCTSIZE2 ==> b[5 + k] == q[order[k]]
  {
    hide QuantBytes, Wide;
    var body := QuantBytes(q, order, Wide(q), DCTSIZE2);
    assert forall i :: 0 <= i < |body| ==> b[5 + i] == body[i];
    WideIs(q);
    if Wide(q) {
      forall k: nat | k < DCTSIZE2
        ensures Word(b, 5 + 2 * k, q[order[k]])
      {
        QuantAt(q, order, DCTSIZE2, k);
        assert b[5 + 2 * k] == body[2 * k] && b[5 + (2 * k + 1)] == body[2 * k + 1];
      }
    } else {
      forall k | 0 <= k < DCTSIZE2
        ensures b[5 + k] == q[order[k]]
      {
        QuantAt(q, order, DCTSIZE2, k);
      }
    }
  }

  /** DHT: class and slot in one byte, the 16 counts, then the symbols. */
  lemma {:induction false} DhtLayout(isAc: bool, slot: nat, t: HuffTbl, order: seq<nat>)
    requires slot < NUM_HUFF_TBLS && Shaped(t) && Upto(t.bits, MAXBITS) <= 256 && Usable(order)
    ensures var b, n := Bytes(Dht(isAc, slot, t), order), Upto(t.bits, MAXBITS);
            && Starts(b, 0xC4) && |b| == 21 + n
            && b[4] == (if isAc then 16 + slot else slot)
            && (forall l :: 1 <= l <= MAXBITS ==> b[4 + l] == t.bits[l])
            && (forall p :: 0 <= p < n ==> b[21 + p] == t.huffval[p])
  {
    hide Upto, Kraft;
    var n := Upto(t.bits, MAXBITS);
    var pre: seq<UInt8> := [0xFF, 0xC4] + Two16(n + 19) + [slot + if isAc then 16 else 0];
    var counts, vals: seq<UInt8> := t.bits[1..], t.huffval[..n];
    DhtBytes(isAc, slot, t, order);
    WordAt([0xFF, 0xC4], n + 19, [slot + if isAc then 16 else 0]);
    ThreeParts(pre, counts, vals);
  }

  lemma {:induction false} DhtBytes(isAc: bool, slot: nat, t: HuffTbl, order: seq<nat>)
    requires slot < NUM_HUFF_TBLS && Shaped(t) && Upto(t.bits, MAXBITS) <= 256 && Usable(order)
    ensures var n := Upto(t.bits, MAXBITS);
            Bytes(Dht(isAc, slot, t), order)
              == [0xFF, 0xC4] + Two16(n + 19) + [slot + if isAc then 16 else 0] + t.bits[1..] + t.huffval[..n]
  {
    hide Upto, Kraft, Two16, Symbols, Legal, Apply;
    var n := Upto(t.bits, MAXBITS);
    var l, h: seq<UInt8> := Two16(n + 19), [slot + if isAc then 16 else 0];
    DhtBody(isAc, slot, t, order);
    Regrouped([0xFF, 0xC4], l, h, t.bits[1..], t.huffval[..n]);
  }

  lemma {:induction false} DhtBody(isAc: bool, slot: nat, t: HuffTbl, order: seq<nat>)
    requires slot < NUM_HUFF_TBLS && Shaped(t) && Upto(t.bits, MAXBITS) <= 256 && Usable(order)
    ensures var n := Upto(t.bits, MAXBITS);
            Body(Dht(isAc, slot, t), order) == Two16(n + 19) + [slot + if isAc then 16 else 0] + t.bits[1..] + t.huffval[..n]
    ensures Code(Dht(isAc, slot, t)) == 0xC4
  {
    hide Upto, Kraft, Two16;
  }

  lemma {:induction false} Regrouped(m: seq<UInt8>, l: seq<UInt8>, h: seq<UInt8>, c: seq<UInt8>, v: seq<UInt8>)
    ensures m + (l + h + c + v) == m + l + h + c + v
  {
  }

  lemma {:induction false} ThreeParts(a: seq<UInt8>, b: seq<UInt8>, c: seq<UInt8>)
    ensures var s := a + b + c;
            && (forall i :: 0 <= i < |a| ==> s[i] == a[i]) && (forall i :: 0 <= i < |b| ==> s[|a| + i] == b[i])
            && (forall i :: 0 <= i < |c| ==> s[|a| + |b| + i] == c[i])
  {
  }

  /** DRI. */
  lemma {:induction false} DriLayout(v: UInt16, order: seq<nat>)
    requires Usable(order)
    ensures var b := Bytes(Dri(v), order); Starts(b, 0xDD) && |b| == 6 && Word(b, 4, v)
  {
  }

  lemma {:induction false} FrameCompsAt(cs: seq<FrameComp>, i: nat)
    requires i < |cs|
    ensures var b := CompBytes(cs); b[3 * i] == cs[i].id && b[3 * i + 1] == 16 * cs[i].h + cs[i].v && b[3 * i + 2] == cs[i].tq
    decreases |cs|
  {
    if i < |cs| - 1 {
      FrameCompsAt(cs[..|cs| - 1], i);
    }
  }

  /** SOF: precision, height, width, and three bytes for each component. */
  lemma {:induction false} SofLayout(code: UInt8, f: Frame, order: seq<nat>)
    requires f.Frame? && |f.comps| < 256 && Usable(order)
    ensures var b, n := Bytes(Sof(code, f), order), |f.comps|;
            && Starts(b, code) && |b| == 10 + 3 * n
            && b[4] == f.precision && Word(b, 5, f.height) && Word(b, 7, f.width) && b[9] == n
            && (forall i :: 0 <= i < n ==> b[10 + 3 * i] == f.comps[i].id && b[11 + 3 * i] == 16 * f.comps[i].h + f.comps[i].v
                                           && b[12 + 3 * i] == f.comps[i].tq)
  {
    hide CompBytes;
    var b, body, n := Bytes(Sof(code, f), order), CompBytes(f.comps), |f.comps|;
    var p, h, w, c: seq<UInt8> := [f.precision], Two16(f.height), Two16(f.width), [n];
    assert b == [0xFF, code] + (Two16(3 * n + 8) + p + h + w + c + body);
    assert Word(b, 2, 3 * n + 8);
    forall i | 0 <= i < n
      ensures b[10 + 3 * i] == f.comps[i].id && b[11 + 3 * i] == 16 * f.comps[i].h + f.comps[i].v && b[12 + 3 * i] == f.comps[i].tq
    {
      FrameCompsAt(f.comps, i);
      assert b[10 + 3 * i] == body[3 * i] && b[11 + 3 * i] == body[3 * i + 1] && b[12 + 3 * i] == body[3 * i + 2];
    }
  }

  lemma {:induction false} ScanCompsAt(cs: seq<ScanComp>, i: nat)
    requires i < |cs|
    ensures var b := ScanCompBytes(cs); b[2 * i] == cs[i].id && b[2 * i + 1] == 16 * cs[i].td + cs[i].ta
    decreases |cs|
  {
    if i < |cs| - 1 {
      ScanCompsAt(cs[..|cs| - 1], i);
    }
  }

  /** SOS: two bytes for each component, then the band and the bit positions. */
  lemma {:induction false} SosLayout(sh: ScanHeader, order: seq<nat>)
    requires sh.ScanHeader? && |sh.comps| <= MAX_COMPS_IN_SCAN && Usable(order)
    ensures var b, n := Bytes(Sos(sh), order), |sh.comps|;
            && Starts(b, 0xDA) && |b| == 8 + 2 * n && b[4] == n
            && (forall i :: 0 <= i < n ==> b[5 + 2 * i] == sh.comps[i].id && b[6 + 2 * i] == 16 * sh.comps[i].td + sh.comps[i].ta)
            && b[5 + 2 * n] == sh.Ss && b[6 + 2 * n] == sh.Se && b[7 + 2 * n] == 16 * sh.Ah + sh.Al
  {
    hide ScanCompBytes;
    var b, body, n := Bytes(Sos(sh), order), ScanCompBytes(sh.comps), |sh.comps|;
    var c, tail: seq<UInt8> := [n], [sh.Ss, sh.Se, 16 * sh.Ah + sh.Al];
    assert b == [0xFF, 0xDA] + (Two16(2 * n + 6) + c + body + tail);
    forall i | 0 <= i < n
      ensures b[5 + 2 * i] == sh.comps[i].id && b[6 + 2 * i] == 16 * sh.comps[i].td + sh.comps[i].ta
    {
      ScanCompsAt(sh.comps, i);
      assert b[5 + 2 * i] == body[2 * i] && b[6 + 2 * i] == body[2 * i + 1];
    }
  }
}
