/** The working state of jchuff.c while it writes an MCU: emit_byte,
    emit_bits and flush_bits over a destination that may refuse to empty. */
module BitWriter {
  import opened Arith
  import opened Bits
  import opened HuffTable
  import opened Stuffing
  import opened Registers

  /** Return value of a step: TRUE, FALSE (must suspend) or an ERREXIT. */
  datatype Status = Done | Suspended | Failed

  /** The bytes a bit string has produced so far. */
  function Sent(seg: BitString): seq<UInt8> {
    Stuff(Octets(seg))
  }

  lemma {:induction false} SentGrows(a: BitString, b: BitString)
    ensures |Sent(a)| <= |Sent(a + b)|
  {
    OctetsAppend(a, b);
    StuffAppend(Octets(a), Octets(Remainder(a) + b));
  }

  /** One more octet of a bit string. */
  lemma {:induction false} SentOctet(whole: BitString, cut: nat)
    requires cut % 8 == 0 && cut + 8 <= |whole|
    ensures Value(whole[cut..cut + 8]) < 256
    ensures Sent(whole[..cut + 8]) == Sent(whole[..cut]) + StuffOne(Value(whole[cut..cut + 8]))
  {
    var a, b := whole[..cut], whole[cut..cut + 8];
    assert whole[..cut + 8] == a + b;
    assert Remainder(a) == [] && Remainder(a) + b == b;
    OctetsAppend(a, b);
    OctetRange(b);
    assert b[..8] == b && b[8..] == [];
    assert Octets(b) == [Value(b)];
    StuffAppend(Octets(a), Octets(b));
    assert Octets(b)[1..] == [];
  }

  lemma {:induction false} SentComplete(whole: BitString, cut: nat)
    requires cut % 8 == 0 && cut <= |whole| < cut + 8
    ensures Sent(whole) == Sent(whole[..cut]) && Remainder(whole) == whole[cut..]
  {
    var a, b := whole[..cut], whole[cut..];
    assert whole == a + b;
    assert Remainder(a) == [] && Remainder(a) + b == b;
    OctetsAppend(a, b);
    assert Octets(a) + [] == Octets(a);
  }

  /** What one turn of the output loop relies on. */
  lemma {:induction false} OctetStep(buffer: nat, whole: BitString, cut: nat)
    requires cut % 8 == 0 && cut + 8 <= |whole| && Holds(buffer, whole[cut..])
    ensures var c := buffer / 0x1_0000 % 256;
            Sent(whole[..cut + 8]) == Sent(whole[..cut]) + StuffOne(c)
    ensures Holds(buffer * 256 % W32, whole[cut + 8..])
    ensures |Sent(whole[..cut + 8])| <= |Sent(whole)|
  {
    hide Sent, Holds;
    ShiftOut(buffer, whole[cut..]);
    assert whole[cut..][..8] == whole[cut..cut + 8] && whole[cut..][8..] == whole[cut + 8..];
    SentOctet(whole, cut);
    assert whole == whole[..cut + 8] + whole[cut + 8..];
    SentGrows(whole[..cut + 8], whole[cut + 8..]);
  }

  class Writer {
    var out: seq<UInt8>     // everything stored before next_output_byte
    var free: nat           // free_in_buffer
    var putBuffer: nat      // cur.put_buffer, a 32-bit word
    var putBits: nat        // cur.put_bits
    const canDump: bool     // empty_output_buffer succeeds
    const bufSize: nat      // size of a buffer it supplies
    ghost const limit: nat  // how many bytes a refusing destination can hold

    ghost var base: seq<UInt8>  // finished segments and their markers
    ghost var seg: BitString    // bits of the current segment

    ghost predicate Valid()
      reads this
    {
      && out == base + Sent(seg)
      && putBits < 8 && |Remainder(seg)| == putBits && Holds(putBuffer, Remainder(seg))
      && free > 0 && bufSize > 0
      && (canDump || free + |out| == limit)
    }

    constructor (out: seq<UInt8>, free: nat, putBuffer: nat, putBits: nat, canDump: bool, bufSize: nat,
                 ghost base: seq<UInt8>, ghost seg: BitString)
      requires out == base + Sent(seg)
      requires putBits < 8 && |Remainder(seg)| == putBits && Holds(putBuffer, Remainder(seg))
      requires free > 0 && bufSize > 0
      ensures Valid()
      ensures this.canDump == canDump && this.bufSize == bufSize && limit == free + |out|
      ensures this.base == base && this.seg == seg && this.out == out && this.free == free
    {
      this.out, this.free, this.putBuffer, this.putBits := out, free, putBuffer, putBits;
      this.canDump, this.bufSize, limit := canDump, bufSize, free + |out|;
      this.base, this.seg := base, seg;
    }

    /** The destination is full before these bytes are all stored. */
    ghost predicate Full(bytes: seq<UInt8>) {
      !canDump && |bytes| >= limit
    }

    method EmitByte(v: UInt8) returns (ok: bool)
      requires free > 0 && bufSize > 0
      requires canDump || free + |out| == limit
      modifies `out, `free
      ensures out == old(out) + [v]
      ensures ok ==> free > 0 && (canDump || free + |out| == limit)
      ensures !ok ==> Full(out)
    {
      out := out + [v];
      free := free - 1;
      if free == 0 {
        if !canDump {
          return false;
        }
        free := bufSize;
      }
      ok := true;
    }

    /** One byte of entropy-coded data, with a zero stuffed after FF. */
    method EmitStuffed(c: UInt8) returns (ok: bool)
      requires free > 0 && bufSize > 0
      requires canDump || free + |out| == limit
      modifies `out, `free
      ensures ok ==> out == old(out) + StuffOne(c) && free > 0 && (canDump || free + |out| == limit)
      ensures !ok ==> Full(old(out) + StuffOne(c))
    {
      ok := EmitByte(c);
      if ok && c == 0xFF {
        ok := EmitByte(0);
      }
    }

    method EmitBits(code: int, size: nat) returns (st: Status)
      requires Valid() && size <= 16
      modifies this
      ensures base == old(base)
      ensures size == 0 ==> st == Failed
      ensures size > 0 ==> st != Failed
      ensures st == Done ==> Valid() && seg == old(seg) + ToBits(code % Pow2(size), size)
      ensures st == Suspended ==> Full(base + Sent(old(seg) + ToBits(code % Pow2(size), size)))
    {
      hide Sent, Holds, Remainder, Pow2, ToBits, BitOr;
      if size == 0 {
        return Failed;
      }
      ghost var seg0 := seg;
      ghost var v: nat := code % Pow2(size);
      ghost var whole := seg + ToBits(v, size);
      ghost var cut: nat := |seg| - putBits;
      SentComplete(seg, cut);
      assert whole[..cut] == seg[..cut] && whole[cut..] == Remainder(seg) + ToBits(v, size);
      ShiftIn(putBuffer, Remainder(seg), v, size);

      var buffer: nat := code % Pow2(size);
      var bits := putBits + size;
      buffer := buffer * Pow2(24 - bits);
      buffer := BitOr(buffer, putBuffer);
      while bits >= 8
        invariant cut % 8 == 0 && cut + bits == |whole| && 0 <= bits <= 23
        invariant Holds(buffer, whole[cut..])
        invariant out == base + Sent(whole[..cut])
        invariant base == old(base)
        invariant free > 0 && (canDump || free + |out| == limit)
        decreases bits
      {
        OctetStep(buffer, whole, cut);
        var c := buffer / 0x1_0000 % 256;
        var ok := EmitStuffed(c);
        if !ok {
          return Suspended;
        }
        buffer := buffer * 256 % W32;
        bits := bits - 8;
        cut := cut + 8;
      }
      SentComplete(whole, cut);
      putBuffer := buffer;
      putBits := bits;
      seg := whole;
      st := Done;
    }

    /** Fill the last byte with one bits and start afresh: the finished
        segment moves to base. */
    method FlushBits() returns (st: Status)
      requires Valid()
      modifies this
      ensures st != Failed
      ensures st == Done ==> Valid() && base == old(base + SegmentBytes(seg)) && seg == []
      ensures st == Suspended ==> Full(old(base + SegmentBytes(seg)))
    {
      hide Pow2, ToBits, Sent, SegmentBytes, Ones, Remainder, Holds;
      SevenOnes();
      SegmentIsSent(seg);
      st := EmitBits(0x7F, 7);
      if st != Done {
        return;
      }
      putBuffer, putBits := 0, 0;
      base, seg := out, [];
      EmptySent();
      EmptyHolds();
    }
  }

  lemma {:induction false} SegmentIsSent(seg: BitString)
    ensures SegmentBytes(seg) == Sent(seg + Ones(7))
  {
  }

  lemma {:induction false} EmptySent()
    ensures Sent([]) == [] && Remainder([]) == []
  {
  }

  lemma {:induction false} SevenOnes()
    ensures ToBits(0x7F % Pow2(7), 7) == Ones(7)
  {
    assert Pow2(7) == 128;
    assert ToBits(127, 7) == ToBits(63, 6) + [true];
    assert ToBits(63, 6) == ToBits(31, 5) + [true];
    assert ToBits(31, 5) == ToBits(15, 4) + [true];
    assert ToBits(15, 4) == ToBits(7, 3) + [true];
  }
}
