/** The working state of jdhuff.c while it reads an MCU: jpeg_fill_bit_buffer,
    the bit-fetching macros of jdhuff.h, and both paths of HUFF_DECODE. */
module BitReader {
  import opened Arith
  import opened Bits
  import opened HuffTable
  import opened DerivedTables
  import opened Stuffing
  import opened Registers
  import opened BlockCoding

  const MIN_GET_BITS := 25   // BIT_BUF_SIZE - 7

  // ----- the next byte of entropy-coded data

  /** Fetch a byte, undoing FF/00 stuffing and skipping pad bytes before a
      marker; Starved when the source refuses. */
  method ReadUnit(data: seq<UInt8>, p0: nat) returns (u: Unit, p: nat)
    requires p0 <= |data|
    ensures u == NextUnit(data[p0..])
    ensures !u.Starved? ==> p == p0 + u.n <= |data|
  {
    p := p0;
    if p == |data| {
      return Starved, p;
    }
    var c := data[p];
    p := p + 1;
    if c != 0xFF {
      return Data(c, 1), p;
    }
    while c == 0xFF
      invariant p0 < p <= |data| && c == data[p - 1]
      invariant forall i :: p0 <= i < p - 1 ==> data[i] == 0xFF
      decreases |data| - p, c == 0xFF
    {
      if p == |data| {
        FFsIs(data[p0..], |data| - p0);
        return Starved, p;
      }
      c := data[p];
      p := p + 1;
    }
    FFsIs(data[p0..], p - 1 - p0);
    if c == 0 {
      u := Data(0xFF, p - p0);
    } else {
      u := Marker(c, p - p0);
    }
  }

  /** A unit that is complete stays what it is when more bytes follow. */
  lemma {:induction false} UnitOfMore(data: seq<UInt8>, file: seq<UInt8>, p: nat)
    requires p <= |data| && data <= file
    ensures !NextUnit(data[p..]).Starved? ==> NextUnit(file[p..]) == NextUnit(data[p..])
  {
    var s, t := data[p..], file[p..];
    assert s <= t;
    if FFs(s) < |s| {
      FFsIs(t, FFs(s));
    }
  }

  lemma {:induction false} PadMore(stream: BitString, at: nat, left: nat, b: BitString, rest: BitString)
    requires at + left <= |stream| && stream[at + left..] == b + rest
    ensures Pad(stream, at, left + |b|) == Pad(stream, at, left) + b
    ensures at + left + |b| <= |stream| && stream[at + left + |b|..] == rest
  {
    var tail := stream[at + left..];
    assert tail[|b|..] == stream[at + left + |b|..];
    forall i | 0 <= i < |b|
      ensures stream[at + left + i] == b[i]
    {
      assert stream[at + left + i] == tail[i];
    }
  }

  lemma {:induction false} PadExtend(stream: BitString, at: nat, left: nat, bytes: seq<UInt8>)
    requires at + left <= |stream| && stream[at + left..] == BytesBits(bytes) && |bytes| > 0
    ensures Pad(stream, at, left + 8) == Pad(stream, at, left) + ToBits(bytes[0], 8)
    ensures at + left + 8 <= |stream| && stream[at + left + 8..] == BytesBits(bytes[1..])
  {
    hide ToBits, Pad;
    PadMore(stream, at, left, ToBits(bytes[0], 8), BytesBits(bytes[1..]));
  }

  lemma {:induction false} PadZeros(stream: BitString, at: nat, left: nat, k: nat)
    requires at + left >= |stream|
    ensures Pad(stream, at, left + k) == Pad(stream, at, left) + ToBits(0, k)
  {
    ZeroBits(k);
  }

  lemma {:induction false} ZeroBits(k: nat)
    ensures forall i :: 0 <= i < k ==> !ToBits(0, k)[i]
  {
    if k > 0 {
      ZeroBits(k - 1);
    }
  }

  lemma {:induction false} PadSplit(stream: BitString, at: nat, left: nat, n: nat)
    requires n <= left
    ensures Pad(stream, at, left)[..n] == Pad(stream, at, n)
    ensures Pad(stream, at, left)[n..] == Pad(stream, at + n, left - n)
  {
  }

  /** A segment as a reader sees it: its bits from the start of the MCU, whether a
      marker ends it, that marker with what follows, and whether it has arrived. */
  datatype Segment = Segment(stream: BitString, closed: bool, after: (UInt8, seq<UInt8>), here: bool)

  /** left bits of buf are the next ones from position at, and the bytes from p on
      continue them. */
  ghost predicate Reading(g: Segment, data: seq<UInt8>, file: seq<UInt8>, p: nat, buf: nat, left: nat, at: nat) {
    && p <= |data| && data <= file && buf < W32 && left <= 32
    && ToBits(buf, left) == Pad(g.stream, at, left)
    && at + left <= |g.stream| && g.stream[at + left..] == BytesBits(DataBytes(file[p..]))
    && g.closed == Closed(file[p..]) && (g.closed ==> g.after == AfterSegment(file[p..]))
    && g.here == Closed(data[p..])
  }

  lemma {:induction false} ReadByte(g: Segment, data: seq<UInt8>, file: seq<UInt8>, p: nat, buf: nat, left: nat, at: nat)
    requires Reading(g, data, file, p, buf, left, at) && left < MIN_GET_BITS && NextUnit(data[p..]).Data?
    ensures var u := NextUnit(data[p..]);
            p + u.n <= |data| && Reading(g, data, file, p + u.n, BitOr(buf * 256, u.byte) % W32, left + 8, at)
  {
    hide BytesBits, ToBits, Pow2, Pad, DataBytes, Closed, AfterSegment, BitOr;
    var u := NextUnit(data[p..]);
    UnitStep(data[p..]);
    UnitOfMore(data, file, p);
    UnitStep(file[p..]);
    assert data[p..][u.n..] == data[p + u.n..] && file[p..][u.n..] == file[p + u.n..];
    PadExtend(g.stream, at, left, DataBytes(file[p..]));
    assert DataBytes(file[p..])[1..] == DataBytes(file[p + u.n..]);
    LoadByte(buf, left, u.byte);
  }

  lemma {:induction false} ReadMarker(g: Segment, data: seq<UInt8>, file: seq<UInt8>, p: nat, buf: nat, left: nat, at: nat)
    requires Reading(g, data, file, p, buf, left, at)
    ensures NextUnit(data[p..]).Starved? ==> !g.here
    ensures var u := NextUnit(data[p..]);
            u.Marker? ==> u.code != 0 && at + left == |g.stream| && g.closed && g.here && p + u.n <= |data| && g.after == (u.code, file[p + u.n..])
  {
    hide BytesBits, ToBits, Pow2, Pad, DataBytes, Closed, AfterSegment;
    var u := NextUnit(data[p..]);
    UnitStep(data[p..]);
    if u.Marker? {
      UnitOfMore(data, file, p);
      UnitStep(file[p..]);
      assert file[p..][u.n..] == file[p + u.n..];
      assert |g.stream[at + left..]| == 0;
    }
  }

  class BitReader {
    const data: seq<UInt8>    // what the source can deliver without refusing
    ghost const file: seq<UInt8>  // and what it will ever deliver
    var pos: nat              // next_input_byte
    var getBuffer: nat        // a 32-bit word
    var bitsLeft: nat
    var marker: UInt8         // cinfo->unread_marker
    var insufficient: bool    // insufficient_data
    ghost const stream: BitString             // the segment's bits from the start of the MCU
    ghost const closed: bool                  // whether a marker ends it
    ghost const here: bool                    // and is among the data
    ghost const after: (UInt8, seq<UInt8>)    // the marker that ends it, and what follows
    ghost var at: nat                         // bits consumed so far

    /** The buffer holds the next bits of the stream, zeros once it has ended. */
    ghost predicate Aligned()
      reads this
    {
      && pos <= |data| && data <= file && getBuffer < W32 && bitsLeft <= 32 && marker != 0xFF
      && ToBits(getBuffer, bitsLeft) == Pad(stream, at, bitsLeft)
      && (marker == 0 ==> Reading(Seen(), data, file, pos, getBuffer, bitsLeft, at))
      && (marker != 0 ==> at + bitsLeft >= |stream| && closed && here && after == (marker, file[pos..]))
      && (at + bitsLeft > |stream| ==> insufficient)
    }

    ghost function Seen(): Segment {
      Segment(stream, closed, after, here)
    }

    /** The flag tells exactly whether bits beyond the segment were used. */
    ghost predicate Valid()
      reads this
    {
      Aligned() && (insufficient <==> at > |stream|)
    }

    constructor (data: seq<UInt8>, ghost file: seq<UInt8>, pos: nat, getBuffer: nat, bitsLeft: nat, marker: UInt8)
      requires pos <= |data| && data <= file && getBuffer < W32 && bitsLeft <= 32
      requires marker != 0 ==> marker != 0xFF
      ensures Valid() && at == 0
      ensures this.data == data && this.file == file && this.pos == pos && this.marker == marker
      ensures stream == ToBits(getBuffer, bitsLeft) + if marker == 0 then BytesBits(DataBytes(file[pos..])) else []
      ensures closed == (marker != 0 || Closed(file[pos..])) && here == (marker != 0 || Closed(data[pos..]))
      ensures closed ==> after == if marker != 0 then (marker, file[pos..]) else AfterSegment(file[pos..])
    {
      this.data, this.file, this.pos, this.getBuffer, this.bitsLeft := data, file, pos, getBuffer, bitsLeft;
      this.marker, insufficient := marker, false;
      var buffered := ToBits(getBuffer, bitsLeft);
      stream := buffered + if marker == 0 then BytesBits(DataBytes(file[pos..])) else [];
      closed := marker != 0 || Closed(file[pos..]);
      here := marker != 0 || Closed(data[pos..]);
      after := if marker != 0 then (marker, file[pos..])
               else if Closed(file[pos..]) then AfterSegment(file[pos..]) else (0, []);
      at := 0;
    }

    /** jpeg_fill_bit_buffer: read until the buffer is full or a marker comes
        up, then add zeros if the request still cannot be met. */
    method Fill(nbits: nat) returns (ok: bool)
      requires Aligned() && bitsLeft < MIN_GET_BITS && nbits <= MIN_GET_BITS
      modifies this
      ensures !ok ==> unchanged(this) && !here
      ensures ok ==> Aligned() && at == old(at) && bitsLeft >= nbits && bitsLeft >= old(bitsLeft)
      ensures ok ==> (insufficient <==> old(insufficient) || at + nbits > |stream|)
    {
      hide BytesBits, ToBits, Pow2, Pad, DataBytes, Closed, AfterSegment, Reading;
      var p: nat, buf: nat, left: nat, found: UInt8 := pos, getBuffer, bitsLeft, marker;
      ReaderBounds(this);
      if marker == 0 {
        while left < MIN_GET_BITS
          invariant p <= |data| && buf < W32 && bitsLeft <= left <= 32
          invariant unchanged(this) && found == marker
          invariant Reading(Seen(), data, file, p, buf, left, at)
          decreases MIN_GET_BITS - left
        {
          ghost var p0 := p;
          var u, p' := ReadUnit(data, p);
          ReadMarker(Seen(), data, file, p, buf, left, at);
          ReadingParts(Seen(), data, file, p, buf, left, at);
          if u.Starved? {
            return false;
          }
          p := p';
          if u.Marker? {
            found := u.code;
            break;
          }
          ReadByte(Seen(), data, file, p0, buf, left, at);
          buf := BitOr(buf * 256, u.byte) % W32;
          left := left + 8;
        }
        if found == 0 {
          ReadingParts(Seen(), data, file, p, buf, left, at);
        }
      }
      marker := found;
      if found != 0 && nbits > left {
        PadZeros(stream, at, left, MIN_GET_BITS - left);
        ShiftZeros(buf, left, MIN_GET_BITS - left);
        insufficient := true;
        buf := buf * Pow2(MIN_GET_BITS - left) % W32;
        left := MIN_GET_BITS;
      }
      pos, getBuffer, bitsLeft := p, buf, left;
      ok := true;
    }
  
    /** GET_BITS with n bits known to be in the buffer. */
    method GetBits(n: nat) returns (val: nat)
      requires Aligned() && n <= bitsLeft
      modifies `bitsLeft, `at
      ensures Aligned() && at == old(at) + n
      ensures val == BitsAt(stream, old(at), n)
    {
      hide Pow2, ToBits, Pad, BytesBits;
      TakeBits(getBuffer, bitsLeft, n);
      PadSplit(stream, at, bitsLeft, n);
      bitsLeft := bitsLeft - n;
      val := getBuffer / Pow2(bitsLeft) % Pow2(n);
      at := at + n;
    }

    /** CHECK_BIT_BUFFER, then GET_BITS. */
    method FetchBits(n: nat) returns (ok: bool, val: nat)
      requires Valid() && n <= MAXBITS
      modifies this
      ensures !ok ==> !here
      ensures ok ==> Valid() && at == old(at) + n && val == BitsAt(stream, old(at), n)
    {
      hide ToBits, Pad, BytesBits, DataBytes, Closed, AfterSegment;
      ok, val := true, 0;
      if bitsLeft < n {
        ok := Fill(n);
        if !ok { return; }
      }
      val := GetBits(n);
    }

    /** HUFF_DECODE: the lookahead table when eight bits are at hand and the
        code is short enough, the bit-serial search otherwise. */
    method HuffDecode(d: DDerived, t: HuffTbl) returns (ok: bool, result: nat)
      requires Valid() && DerivedFrom(d, t)
      modifies this
      ensures !ok ==> !here
      ensures ok ==> Valid() && (result, at) == SymAt(t, stream, old(at))
    {
      hide ToBits, Pad, BytesBits, DataBytes, Closed, AfterSegment, SymAt, LookEntry, SearchTables;
      ok, result := true, 0;
      if bitsLeft < LOOKAHEAD {
        ok := Fill(0);
        if !ok { return; }
        if bitsLeft < LOOKAHEAD {
          FromStart(t, stream, at);
          ok, result := SlowDecode(d, t, 1);
          return;
        }
      }
      var look := PeekByte();
      LookByte(t, stream, at, look, d.lookNbits[look], d.lookSym[look]);
      var nb := d.lookNbits[look];
      if nb != 0 {
        var dropped := GetBits(nb);
        result := d.lookSym[look];
      } else {
        ok, result := SlowDecode(d, t, LOOKAHEAD + 1);
      }
    }

    /** PEEK_BITS(HUFF_LOOKAHEAD) */
    method PeekByte() returns (look: nat)
      requires Aligned() && bitsLeft >= LOOKAHEAD
      ensures look < 256 && look == BitsAt(stream, at, LOOKAHEAD)
      ensures ToBits(look, LOOKAHEAD) == Pad(stream, at, LOOKAHEAD)
    {
      TakeBits(getBuffer, bitsLeft, LOOKAHEAD);
      PadSplit(stream, at, bitsLeft, LOOKAHEAD);
      look := getBuffer / Pow2(bitsLeft - LOOKAHEAD) % Pow2(LOOKAHEAD);
      ValueBound(Pad(stream, at, LOOKAHEAD));
      assert Pow2(8) == 256;
      ToBitsValue(Pad(stream, at, LOOKAHEAD));
    }

    /** jpeg_huff_decode: fetch min_bits bits, then one more at a time until
        the code is no larger than the largest of its length. */
    method SlowDecode(d: DDerived, t: HuffTbl, minBits: nat) returns (ok: bool, result: nat)
      requires Valid() && DerivedFrom(d, t) && 1 <= minBits <= MAXBITS
      requires Beyond(t.bits, Pad(stream, at, MAXBITS + 1), minBits - 1)
      modifies this
      ensures !ok ==> !here
      ensures ok ==> Valid() && (result, at) == SymAt(t, stream, old(at))
    {
      hide ToBits, BytesBits, DataBytes, Closed, AfterSegment, SymAt, LookEntry, Value, Kraft, BitReader.Aligned, LegalCounts,
        Beyond, SearchTables;
      ghost var w := Pad(stream, at, MAXBITS + 1);
      var l: nat := minBits;
      var code: nat;
      result := 0;
      ok, code := FetchBits(l);
      if !ok { return; }
      PadSplit(stream, old(at), MAXBITS + 1, l);
      while code > d.maxcode[l]
        invariant Valid() && at == old(at) + l
        invariant 1 <= l <= MAXBITS + 1 && code == Value(w[..l])
        invariant Beyond(t.bits, w, l - 1)
        invariant w == Pad(stream, old(at), MAXBITS + 1)
        decreases MAXBITS + 1 - l
      {
        SearchTooLong(t, d, w, l, code);
        var bit;
        ok, bit := FetchBits(1);
        if !ok { return; }
        OneMoreBit(stream, old(at), w, l);
        code := 2 * code + bit;
        l := l + 1;
      }
      SearchEnds(t, d, stream, old(at), w, l, code);
      if l > MAXBITS {
        result := 0;
      } else {
        result := d.pub.huffval[code + d.valoffset[l]];
      }
    }
  }

  lemma {:induction false} ReadingParts(g: Segment, data: seq<UInt8>, file: seq<UInt8>, p: nat, buf: nat, left: nat, at: nat)
    requires Reading(g, data, file, p, buf, left, at)
    ensures p <= |data| && buf < W32 && left <= 32 && at + left <= |g.stream| && ToBits(buf, left) == Pad(g.stream, at, left)
  {
  }

  lemma {:induction false} ReaderBounds(r: BitReader)
    requires r.Aligned()
    ensures r.marker == 0 ==> Reading(r.Seen(), r.data, r.file, r.pos, r.getBuffer, r.bitsLeft, r.at) && r.at + r.bitsLeft <= |r.stream|
  {
  }

  lemma {:induction false} FromStart(t: HuffTbl, stream: BitString, at: nat)
    requires Shaped(t) && LegalCounts(t.bits)
    ensures Beyond(t.bits, Pad(stream, at, MAXBITS + 1), 0)
  {
  }

  /** code exceeds maxcode[l]: no code of length l, and l is not the sentinel. */
  lemma {:induction false} SearchTooLong(t: HuffTbl, d: DDerived, w: BitString, l: nat, code: int)
    requires DerivedFrom(d, t) && |w| == MAXBITS + 1 && 1 <= l <= MAXBITS + 1
    requires Beyond(t.bits, w, l - 1) && code == Value(w[..l]) && code > d.maxcode[l]
    ensures l <= MAXBITS && Beyond(t.bits, w, l)
  {
    if l == MAXBITS + 1 {
      WindowBound(w);
      assert false;
    } else {
      assert SearchEntry(t, d.maxcode[l], d.valoffset[l], l);
      assert w[..l][..l - 1] == w[..l - 1];
    }
  }

  lemma {:induction false} WindowBound(w: BitString)
    requires |w| == MAXBITS + 1
    ensures w[..MAXBITS + 1] == w && Value(w) <= SENTINEL
  {
    ValueBound(w);
    Powers();
    Pow2Add(16, 1);
    assert Pow2(1) == 2;
  }

  lemma {:induction false} OneMoreBit(stream: BitString, at: nat, w: BitString, l: nat)
    requires w == Pad(stream, at, MAXBITS + 1) && l <= MAXBITS
    ensures Value(w[..l + 1]) == 2 * Value(w[..l]) + BitsAt(stream, at + l, 1)
  {
    var v, b := w[..l + 1], Pad(stream, at + l, 1);
    assert v[..|v| - 1] == w[..l] && v[|v| - 1] == w[l];
    assert b[..|b| - 1] == [] && b[0] == w[l];
    assert Value(b) == 2 * Value(b[..|b| - 1]) + if b[0] then 1 else 0;
  }

  /** Where the search stops is where the specification stops. */
  lemma {:induction false} SearchEnds(t: HuffTbl, d: DDerived, stream: BitString, at: nat, w: BitString, l: nat, code: int)
    requires DerivedFrom(d, t) && w == Pad(stream, at, MAXBITS + 1) && 1 <= l <= MAXBITS + 1
    requires Beyond(t.bits, w, l - 1) && code == Value(w[..l]) && code <= d.maxcode[l]
    ensures l <= MAXBITS ==> 0 <= code + d.valoffset[l] < 256 && SymAt(t, stream, at) == (t.huffval[code + d.valoffset[l]], at + l)
    ensures l > MAXBITS ==> SymAt(t, stream, at) == (0, at + l)
  {
    DecodeSkip(t, w, l);
    if l <= MAXBITS {
      assert SearchEntry(t, d.maxcode[l], d.valoffset[l], l);
      MatchIndex(t.bits, w, l);
    }
  }

  /** The lookahead entry speaks for the longer window. */
  lemma {:induction false} LookByte(t: HuffTbl, stream: BitString, at: nat, look: nat, nbits: nat, sym: nat)
    requires Shaped(t) && LegalCounts(t.bits) && look < 256
    requires ToBits(look, LOOKAHEAD) == Pad(stream, at, LOOKAHEAD)
    requires LookEntry(t, nbits, sym, look)
    ensures nbits <= LOOKAHEAD
    ensures nbits != 0 ==> SymAt(t, stream, at) == (sym, at + nbits)
    ensures nbits == 0 ==> Beyond(t.bits, Pad(stream, at, MAXBITS + 1), LOOKAHEAD)
  {
    var bs, w := ToBits(look, LOOKAHEAD), Pad(stream, at, MAXBITS + 1);
    PadSplit(stream, at, MAXBITS + 1, LOOKAHEAD);
    DecodeLonger(t, bs, w, 1);
  }

  /** More bits do not change a symbol that was found; and where none was
      found, all the bits are beyond the codes of their length. */
  lemma {:induction false} DecodeLonger(t: HuffTbl, bs: BitString, w: BitString, l: nat)
    requires Shaped(t) && LegalCounts(t.bits) && 1 <= l <= |bs| + 1 <= MAXBITS
    requires bs <= w && Beyond(t.bits, bs, l - 1)
    ensures Beyond(t.bits, w, l - 1)
    ensures Decode(t, bs, l).Symbol? ==> Decode(t, w, l) == Decode(t, bs, l) && l <= Decode(t, bs, l).len <= |bs|
    ensures !Decode(t, bs, l).Symbol? ==> Beyond(t.bits, w, |bs|)
    decreases |bs| + 1 - l
  {
    assert w[..l - 1] == bs[..l - 1];
    if l <= |bs| {
      assert w[..l] == bs[..l];
      if Beyond(t.bits, bs, l) {
        DecodeLonger(t, bs, w, l + 1);
      }
    }
  }

  lemma {:induction false} UnitStep(s: seq<UInt8>)
    ensures NextUnit(s).Data? ==> var n := NextUnit(s).n;
      DataBytes(s) == [NextUnit(s).byte] + DataBytes(s[n..]) && Closed(s) == Closed(s[n..])
    ensures NextUnit(s).Data? && Closed(s) ==> AfterSegment(s) == AfterSegment(s[NextUnit(s).n..])
    ensures NextUnit(s).Marker? ==>
      BytesBits(DataBytes(s)) == [] && Closed(s) && AfterSegment(s) == (NextUnit(s).code, s[NextUnit(s).n..]) && NextUnit(s).code != 0
    ensures NextUnit(s).Starved? ==> !Closed(s)
  {
  }

  lemma {:induction false} ShiftZeros(buf: nat, left: nat, k: nat)
    requires left + k <= 32
    ensures ToBits(buf * Pow2(k) % W32, left + k) == ToBits(buf, left) + ToBits(0, k)
  {
    var v := buf * Pow2(k);
    ModMod(v, left + k);
    ToBitsMod(v, left + k);
    ToBitsMod(v % W32, left + k);
    ToBitsJoin(buf, left, 0, k);
  }
}
