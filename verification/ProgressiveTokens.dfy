/** What a progressive scan sends: Huffman symbols and raw bits, grouped into
    the segments between restart markers, with their bits, bytes and counts. */
module ProgressiveTokens {
  import opened Bits
  import opened HuffTable
  import opened DerivedTables
  import opened Stuffing
  import opened ScanCoding

  datatype Token = Sym(tbl: nat, s: nat) | Bit(b: bool)

  function RawBits(bs: BitString): (toks: seq<Token>)
    ensures |toks| == |bs| && forall i :: 0 <= i < |bs| ==> toks[i] == Bit(bs[i])
  {
    if bs == [] then [] else [Bit(bs[0])] + RawBits(bs[1..])
  }

  ghost predicate ShapedSlots(tabs: seq<CDerived>) {
    forall t :: 0 <= t < |tabs| ==> ShortCodes(tabs[t])
  }

  /** The symbol has a slot with a code for it. */
  predicate TokenCodable(tabs: seq<CDerived>, x: Token) {
    x.Sym? ==> x.tbl < |tabs| && x.s < 256 && x.s < |tabs[x.tbl].ehufsi| && tabs[x.tbl].ehufsi[x.s] > 0
  }

  predicate TokCodable(tabs: seq<CDerived>, toks: seq<Token>) {
    forall i :: 0 <= i < |toks| ==> TokenCodable(tabs, toks[i])
  }

  function TokenBits(tabs: seq<CDerived>, x: Token): BitString
    requires TokenCodable(tabs, x) && ShapedSlots(tabs)
  {
    match x
    case Sym(tbl, s) => CodeBits(tabs[tbl], s)
    case Bit(b) => [b]
  }

  ghost function TokBits(tabs: seq<CDerived>, toks: seq<Token>): BitString
    requires TokCodable(tabs, toks) && ShapedSlots(tabs)
  {
    if toks == [] then [] else TokenBits(tabs, toks[0]) + TokBits(tabs, toks[1..])
  }

  lemma {:induction false} EmptyTokens(tabs: seq<CDerived>)
    requires ShapedSlots(tabs)
    ensures TokCodable(tabs, []) && TokBits(tabs, []) == []
  {
  }

  lemma {:induction false} CodableSplit(tabs: seq<CDerived>, a: seq<Token>, b: seq<Token>)
    ensures TokCodable(tabs, a + b) <==> TokCodable(tabs, a) && TokCodable(tabs, b)
  {
    assert forall i :: 0 <= i < |a| ==> (a + b)[i] == a[i];
    assert forall i :: 0 <= i < |b| ==> (a + b)[|a| + i] == b[i];
  }

  lemma {:induction false} TokBitsAppend(tabs: seq<CDerived>, a: seq<Token>, b: seq<Token>)
    requires ShapedSlots(tabs) && TokCodable(tabs, a + b)
    ensures TokCodable(tabs, a) && TokCodable(tabs, b)
    ensures TokBits(tabs, a + b) == TokBits(tabs, a) + TokBits(tabs, b)
  {
    hide TokenBits, TokenCodable, ShapedSlots;
    CodableSplit(tabs, a, b);
    if a == [] {
      assert a + b == b;
    } else {
      assert (a + b)[1..] == a[1..] + b && (a + b)[0] == a[0];
      TokBitsAppend(tabs, a[1..], b);
    }
  }

  lemma {:induction false} RawTokBits(tabs: seq<CDerived>, bs: BitString)
    requires ShapedSlots(tabs)
    ensures TokCodable(tabs, RawBits(bs)) && TokBits(tabs, RawBits(bs)) == bs
  {
    if bs != [] {
      RawTokBits(tabs, bs[1..]);
      assert RawBits(bs)[1..] == RawBits(bs[1..]);
      assert bs == [bs[0]] + bs[1..];
    }
  }

  lemma {:induction false} RawAppend(a: BitString, b: BitString)
    ensures RawBits(a + b) == RawBits(a) + RawBits(b)
  {
  }

  lemma {:induction false} OneSymbol(tabs: seq<CDerived>, tbl: nat, s: nat)
    requires ShapedSlots(tabs) && TokenCodable(tabs, Sym(tbl, s))
    ensures TokCodable(tabs, [Sym(tbl, s)]) && TokBits(tabs, [Sym(tbl, s)]) == CodeBits(tabs[tbl], s)
  {
    assert [Sym(tbl, s)][1..] == [];
  }

  // ----- segments of a scan

  /** The segments sent so far, the last one still growing. */
  type Log = g: seq<seq<Token>> | |g| > 0 witness [[]]

  function Append(log: Log, toks: seq<Token>): Log {
    log[..|log| - 1] + [log[|log| - 1] + toks]
  }

  lemma {:induction false} AppendTwice(log: Log, a: seq<Token>, b: seq<Token>)
    ensures Append(Append(log, a), b) == Append(log, a + b)
    ensures Append(log, []) == log
  {
    var x := log[|log| - 1];
    assert (x + a) + b == x + (a + b) && x + [] == x;
  }

  ghost predicate LogCodable(tabs: seq<CDerived>, log: seq<seq<Token>>) {
    forall i :: 0 <= i < |log| ==> TokCodable(tabs, log[i])
  }

  lemma {:induction false} LogCodableAppend(tabs: seq<CDerived>, log: Log, toks: seq<Token>)
    ensures LogCodable(tabs, Append(log, toks)) <==> LogCodable(tabs, log) && TokCodable(tabs, toks)
    ensures LogCodable(tabs, log + [[]]) <==> LogCodable(tabs, log)
  {
    var n := |log| - 1;
    var a := Append(log, toks);
    CodableSplit(tabs, log[n], toks);
    assert forall i :: 0 <= i < n ==> a[i] == log[i];
    assert a[n] == log[n] + toks;
    assert forall i :: 0 <= i <= n ==> (log + [[]])[i] == log[i];
    assert TokCodable(tabs, []);
    if LogCodable(tabs, a) {
      assert TokCodable(tabs, a[n]);
      assert forall i :: 0 <= i <= n ==> TokCodable(tabs, log[i]) by {
        forall i | 0 <= i < n ensures TokCodable(tabs, log[i]) { assert TokCodable(tabs, a[i]); }
      }
    }
    if LogCodable(tabs, log + [[]]) {
      forall i | 0 <= i <= n ensures TokCodable(tabs, log[i]) { assert TokCodable(tabs, (log + [[]])[i]); }
    }
  }

  /** The finished segments as bytes, each closed by its restart marker; the
      markers count modulo 8. */
  ghost function FinishedBytes(tabs: seq<CDerived>, segs: seq<seq<Token>>): seq<UInt8>
    requires ShapedSlots(tabs) && LogCodable(tabs, segs)
  {
    if segs == [] then [] else
    var n := |segs| - 1;
    FinishedBytes(tabs, segs[..n]) + SegmentBytes(TokBits(tabs, segs[n])) + [0xFF, RST0 + n % 8]
  }

  /** All bytes of the scan once the last segment is flushed. */
  ghost function ScanBytes(tabs: seq<CDerived>, log: Log): seq<UInt8>
    requires ShapedSlots(tabs) && LogCodable(tabs, log)
  {
    FinishedBytes(tabs, log[..|log| - 1]) + SegmentBytes(TokBits(tabs, log[|log| - 1]))
  }

  // ----- counts

  function Tally(toks: seq<Token>, tbl: nat, s: nat): nat {
    if toks == [] then 0 else (if toks[0] == Sym(tbl, s) then 1 else 0) + Tally(toks[1..], tbl, s)
  }

  lemma {:induction false} TallyAppend(a: seq<Token>, b: seq<Token>, tbl: nat, s: nat)
    ensures Tally(a + b, tbl, s) == Tally(a, tbl, s) + Tally(b, tbl, s)
  {
    if a == [] {
      assert a + b == b;
    } else {
      TallyAppend(a[1..], b, tbl, s);
      assert (a + b)[1..] == a[1..] + b && (a + b)[0] == a[0];
    }
  }

  lemma {:induction false} TallyRaw(bs: BitString, tbl: nat, s: nat)
    ensures Tally(RawBits(bs), tbl, s) == 0
  {
    if bs != [] {
      TallyRaw(bs[1..], tbl, s);
      assert RawBits(bs)[1..] == RawBits(bs[1..]);
    }
  }

  /** Occurrences of a symbol in the whole scan. */
  function TallyLog(log: seq<seq<Token>>, tbl: nat, s: nat): nat {
    if log == [] then 0 else TallyLog(log[..|log| - 1], tbl, s) + Tally(log[|log| - 1], tbl, s)
  }

  lemma {:induction false} TallyLogAppend(log: Log, toks: seq<Token>, tbl: nat, s: nat)
    ensures TallyLog(Append(log, toks), tbl, s) == TallyLog(log, tbl, s) + Tally(toks, tbl, s)
    ensures TallyLog(log + [[]], tbl, s) == TallyLog(log, tbl, s)
  {
    var n := |log| - 1;
    TallyAppend(log[n], toks, tbl, s);
    assert Append(log, toks)[..n] == log[..n];
    assert (log + [[]])[..n + 1] == log;
  }

  lemma {:induction false} TallyPositive(log: seq<seq<Token>>, i: nat, j: nat)
    requires i < |log| && j < |log[i]| && log[i][j].Sym?
    ensures TallyLog(log, log[i][j].tbl, log[i][j].s) > 0
    decreases |log|
  {
    var n := |log| - 1;
    if i < n {
      TallyPositive(log[..n], i, j);
    } else {
      InTally(log[n], j);
    }
  }

  lemma {:induction false} InTally(toks: seq<Token>, j: nat)
    requires j < |toks| && toks[j].Sym?
    ensures Tally(toks, toks[j].tbl, toks[j].s) > 0
  {
    if j > 0 {
      InTally(toks[1..], j - 1);
    }
  }

  lemma {:induction false} TallyNone(log: seq<seq<Token>>, tbl: nat, s: nat)
    requires forall i, j :: 0 <= i < |log| && 0 <= j < |log[i]| ==> log[i][j] != Sym(tbl, s)
    ensures TallyLog(log, tbl, s) == 0
    decreases |log|
  {
    if log != [] {
      var n := |log| - 1;
      assert forall i :: 0 <= i < n ==> log[..n][i] == log[i];
      TallyNone(log[..n], tbl, s);
      NotInTally(log[n], tbl, s);
    }
  }

  lemma {:induction false} NotInTally(toks: seq<Token>, tbl: nat, s: nat)
    requires forall j :: 0 <= j < |toks| ==> toks[j] != Sym(tbl, s)
    ensures Tally(toks, tbl, s) == 0
  {
    if toks != [] {
      NotInTally(toks[1..], tbl, s);
    }
  }
}
