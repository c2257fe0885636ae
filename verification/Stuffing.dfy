/** Entropy-coded segments as bytes: octets, FF/00 stuffing, and what a reader
    sees before the next marker (section B.1.1.5 of ITU-T T.81). */
module Stuffing {
  import opened Arith
  import opened Bits
  import opened HuffTable

  /** The complete bytes of a bit string. */
  function Octets(bs: BitString): seq<UInt8> {
    if |bs| < 8 then [] else
    OctetRange(bs[..8]);
    [Value(bs[..8]) as UInt8] + Octets(bs[8..])
  }

  lemma {:induction false} OctetRange(bs: BitString)
    requires |bs| == 8
    ensures Value(bs) < 256
  {
    ValueBound(bs);
    assert Pow2(8) == 256;
  }

  /** The bits after the last complete byte. */
  function Remainder(bs: BitString): (r: BitString)
    ensures |r| == |bs| % 8
  {
    bs[|bs| - |bs| % 8..]
  }

  lemma {:induction false} OctetsStep(bs: BitString)
    requires |bs| >= 8
    ensures Value(bs[..8]) < 256 && Octets(bs) == [Value(bs[..8])] + Octets(bs[8..])
    ensures Remainder(bs) == Remainder(bs[8..])
  {
    OctetRange(bs[..8]);
    RemainderStep(bs);
  }

  lemma {:induction false} RemainderStep(bs: BitString)
    requires |bs| >= 8
    ensures Remainder(bs) == Remainder(bs[8..])
  {
    var n, r := |bs|, |bs| % 8;
    assert (n - 8) % 8 == r;
    assert bs[8..][n - 8 - r..] == bs[n - r..];
  }

  lemma {:induction false} NoOctet(bs: BitString)
    requires |bs| < 8
    ensures Octets(bs) == [] && Remainder(bs) == bs
  {
  }

  lemma {:induction false} OctetsAppend(a: BitString, b: BitString)
    ensures Octets(a + b) == Octets(a) + Octets(Remainder(a) + b)
    ensures Remainder(a + b) == Remainder(Remainder(a) + b)
    decreases |a|
  {
    hide Value, Octets, Remainder;
    if |a| < 8 {
      NoOctet(a);
      assert [] + Octets(a + b) == Octets(a + b);
    } else {
      OctetsAppend(a[8..], b);
      OctetsStep(a + b);
      OctetsStep(a);
      assert (a + b)[..8] == a[..8] && (a + b)[8..] == a[8..] + b;
      var h, x, y := [Octets(a)[0]], Octets(a[8..]), Octets(Remainder(a) + b);
      assert h + (x + y) == (h + x) + y;
    }
  }

  function StuffOne(b: UInt8): seq<UInt8> {
    if b == 0xFF then [0xFF, 0] else [b]
  }

  function Stuff(bytes: seq<UInt8>): seq<UInt8> {
    if bytes == [] then [] else StuffOne(bytes[0]) + Stuff(bytes[1..])
  }

  lemma {:induction false} StuffAppend(a: seq<UInt8>, b: seq<UInt8>)
    ensures Stuff(a + b) == Stuff(a) + Stuff(b)
  {
    if a == [] {
      assert a + b == b;
    } else {
      StuffAppend(a[1..], b);
      assert (a + b)[1..] == a[1..] + b && (a + b)[0] == a[0];
      var h, x, y := StuffOne(a[0]), Stuff(a[1..]), Stuff(b);
      assert h + (x + y) == (h + x) + y;
    }
  }

  function CountFF(bytes: seq<UInt8>): nat {
    if bytes == [] then 0 else (if bytes[0] == 0xFF then 1 else 0) + CountFF(bytes[1..])
  }

  /** Stuffing adds one byte per FF, a zero right after it. */
  lemma {:induction false} StuffedZeros(bytes: seq<UInt8>)
    ensures |Stuff(bytes)| == |bytes| + CountFF(bytes)
    ensures forall i :: 0 <= i < |Stuff(bytes)| && Stuff(bytes)[i] == 0xFF ==> i + 1 < |Stuff(bytes)| && Stuff(bytes)[i + 1] == 0
  {
    if bytes != [] {
      StuffedZeros(bytes[1..]);
      var h, t := StuffOne(bytes[0]), Stuff(bytes[1..]);
      forall i | 0 <= i < |h + t| && (h + t)[i] == 0xFF
        ensures i + 1 < |h + t| && (h + t)[i + 1] == 0
      {
        if i >= |h| {
          assert t[i - |h|] == 0xFF;
        }
      }
    }
  }

  function Ones(n: nat): (bs: BitString)
    ensures |bs| == n
  {
    seq(n, i => true)
  }

  /** A finished segment: the last byte is filled up with one bits. */
  function SegmentBytes(bs: BitString): seq<UInt8> {
    Stuff(Octets(bs + Ones(7)))
  }

  // ----- reading

  /** The next thing in an entropy-coded segment: a data byte, a marker, or
      no verdict yet. n counts the bytes it takes up. */
  datatype Unit = Data(byte: UInt8, n: nat) | Marker(code: UInt8, n: nat) | Starved

  /** The length of the leading run of FF bytes. */
  function FFs(s: seq<UInt8>): (n: nat)
    ensures n <= |s|
    ensures n < |s| ==> s[n] != 0xFF
    ensures forall i :: 0 <= i < n ==> s[i] == 0xFF
  {
    if s == [] || s[0] != 0xFF then 0 else 1 + FFs(s[1..])
  }

  lemma {:induction false} FFsIs(s: seq<UInt8>, n: nat)
    requires n <= |s| && forall i :: 0 <= i < n ==> s[i] == 0xFF
    requires n < |s| ==> s[n] != 0xFF
    ensures FFs(s) == n
  {
    if n > 0 {
      FFsIs(s[1..], n - 1);
    }
  }

  function NextUnit(s: seq<UInt8>): (u: Unit)
    ensures !u.Starved? ==> 0 < u.n <= |s|
    ensures u.Marker? ==> u.code != 0 && u.code != 0xFF
  {
    var f := FFs(s);
    if f == |s| then Starved
    else if f == 0 then Data(s[0], 1)
    else if s[f] == 0 then Data(0xFF, f + 1)
    else Marker(s[f], f + 1)
  }

  /** The data bytes before the next marker, or before the input runs out. */
  function DataBytes(s: seq<UInt8>): seq<UInt8>
    decreases |s|
  {
    match NextUnit(s)
    case Data(b, n) => [b] + DataBytes(s[n..])
    case _ => []
  }

  /** A marker ends the segment within s. */
  predicate Closed(s: seq<UInt8>)
    decreases |s|
  {
    match NextUnit(s)
    case Data(_, n) => Closed(s[n..])
    case Marker(_, _) => true
    case Starved => false
  }

  /** The marker that ends the segment, and what follows it. */
  function AfterSegment(s: seq<UInt8>): (r: (UInt8, seq<UInt8>))
    requires Closed(s)
    ensures |r.1| < |s|
    decreases |s|
  {
    match NextUnit(s)
    case Data(_, n) => AfterSegment(s[n..])
    case Marker(m, n) => (m, s[n..])
  }

  function BytesBits(bytes: seq<UInt8>): BitString {
    if bytes == [] then [] else ToBits(bytes[0], 8) + BytesBits(bytes[1..])
  }

  lemma {:induction false} BytesBitsOctets(bs: BitString)
    ensures bs == BytesBits(Octets(bs)) + Remainder(bs)
    decreases |bs|
  {
    if |bs| >= 8 {
      OctetRange(bs[..8]);
      ToBitsValue(bs[..8]);
      BytesBitsOctets(bs[8..]);
      assert Remainder(bs) == Remainder(bs[8..]);
      assert Octets(bs)[1..] == Octets(bs[8..]);
      assert bs == bs[..8] + bs[8..];
    }
  }

  lemma {:induction false} NextStuffed(b: UInt8, tail: seq<UInt8>)
    ensures var s := StuffOne(b) + tail;
            NextUnit(s) == Data(b, |StuffOne(b)|) && s[|StuffOne(b)|..] == tail
  {
    var s := StuffOne(b) + tail;
    if b == 0xFF {
      assert s[1..][0] == 0;
      assert FFs(s[1..]) == 0 && FFs(s) == 1;
    } else {
      assert FFs(s) == 0;
    }
  }

  lemma {:induction false} NextMarkerUnit(m: UInt8, rest: seq<UInt8>)
    requires m != 0 && m != 0xFF
    ensures var s := [0xFF, m] + rest;
            NextUnit(s) == Marker(m, 2) && s[2..] == rest
  {
    var s := [0xFF, m] + rest;
    assert s[1..][0] == m;
    assert FFs(s[1..]) == 0 && FFs(s) == 1;
  }

  /** Reading a stuffed byte sequence up to its marker gives it back. */
  lemma {:induction false} Unstuff(bytes: seq<UInt8>, m: UInt8, rest: seq<UInt8>)
    requires m != 0 && m != 0xFF
    ensures var s := Stuff(bytes) + [0xFF, m] + rest;
            DataBytes(s) == bytes && Closed(s) && AfterSegment(s) == (m, rest)
  {
    hide NextUnit, FFs, StuffOne;
    var s := Stuff(bytes) + [0xFF, m] + rest;
    if bytes == [] {
      assert s == [0xFF, m] + rest;
      NextMarkerUnit(m, rest);
    } else {
      Unstuff(bytes[1..], m, rest);
      var tail := Stuff(bytes[1..]) + [0xFF, m] + rest;
      assert s == StuffOne(bytes[0]) + tail;
      NextStuffed(bytes[0], tail);
    }
  }

  /** Reading a finished segment gives its bits and fewer than eight ones. */
  lemma {:induction false} ReadSegment(bs: BitString, m: UInt8, rest: seq<UInt8>)
    requires m != 0 && m != 0xFF
    ensures var s := SegmentBytes(bs) + [0xFF, m] + rest;
            Closed(s) && AfterSegment(s) == (m, rest)
    ensures var all := BytesBits(DataBytes(SegmentBytes(bs) + [0xFF, m] + rest));
            bs <= all && |all| <= |bs| + 7 && forall i :: |bs| <= i < |all| ==> all[i]
  {
    Unstuff(Octets(bs + Ones(7)), m, rest);
    BytesBitsOctets(bs + Ones(7));
    var all := BytesBits(Octets(bs + Ones(7)));
    assert |all| == |bs| + 7 - (|bs| + 7) % 8;
    assert bs + Ones(7) == all + Remainder(bs + Ones(7));
    assert all[..|bs|] == (bs + Ones(7))[..|bs|] == bs;
    assert forall i :: |bs| <= i < |all| ==> all[i] == (bs + Ones(7))[i];
  }

  // ----- data in pieces

  function Concat(pieces: seq<seq<UInt8>>): seq<UInt8> {
    if pieces == [] then [] else Concat(pieces[..|pieces| - 1]) + pieces[|pieces| - 1]
  }

  lemma {:induction false} ConcatPrefix(pieces: seq<seq<UInt8>>, k: nat)
    requires k <= |pieces|
    ensures Concat(pieces[..k]) <= Concat(pieces)
  {
    if k < |pieces| {
      ConcatPrefix(pieces[..|pieces| - 1], k);
      assert pieces[..|pieces| - 1][..k] == pieces[..k];
    } else {
      assert pieces[..k] == pieces;
    }
  }

  lemma {:induction false} ConcatNext(pieces: seq<seq<UInt8>>, x: seq<UInt8>)
    ensures Concat(pieces + [x]) == Concat(pieces) + x
  {
    assert (pieces + [x])[..|pieces|] == pieces;
  }
}
