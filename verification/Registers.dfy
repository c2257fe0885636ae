/** Shift-register arithmetic of the bit-packing code: 32-bit accumulators as
    numbers, shifts as scaling, bitwise OR of disjoint fields as addition. */
module Registers {
  import opened Arith
  import opened Bits

  const W24 := 0x100_0000
  const W32 := 0x1_0000_0000

  function BitOr(a: nat, b: nat): nat
    decreases a + b
  {
    if a == 0 then b
    else if b == 0 then a
    else 2 * BitOr(a / 2, b / 2) + if a % 2 == 1 || b % 2 == 1 then 1 else 0
  }

  lemma {:induction false} BitOrDisjoint(a: nat, k: nat, b: nat)
    requires b < Pow2(k)
    ensures BitOr(a * Pow2(k), b) == a * Pow2(k) + b
    ensures BitOr(b, a * Pow2(k)) == a * Pow2(k) + b
  {
    if k > 0 && a > 0 && b > 0 {
      var h := a * Pow2(k - 1);
      assert a * Pow2(k) == 2 * h;
      assert h > 0 by { MulAtLeast(a, Pow2(k - 1)); }
      BitOrDisjoint(a, k - 1, b / 2);
    } else if a == 0 || b == 0 {
      assert 0 * Pow2(k) == 0;
    }
  }

  lemma {:induction false} Powers()
    ensures Pow2(8) == 256 && Pow2(16) == 0x1_0000 && Pow2(24) == W24 && Pow2(32) == W32
  {
    assert Pow2(8) == 256;
    Pow2Add(8, 8);
    Pow2Add(8, 16);
    Pow2Add(16, 16);
  }

  /** The low 24 bits of buf hold these bits, left-justified. */
  ghost predicate Holds(buf: nat, bs: BitString) {
    && buf < W32 && |bs| <= 24
    && buf % W24 == Value(bs) * Pow2(24 - |bs|)
  }

  lemma {:induction false} EmptyHolds()
    ensures Holds(0, [])
  {
  }

  lemma {:induction false} MulAssoc3(a: nat, b: nat, c: nat)
    ensures (a * b) * c == a * (b * c)
  {
  }

  lemma {:induction false} MulDistrib(a: nat, b: nat, c: nat)
    ensures (a + b) * c == a * c + b * c
  {
  }

  lemma {:induction false} MulBelow(a: nat, b: nat, c: nat)
    requires a < b
    ensures a * c + c <= b * c
  {
    assert (b - a - 1) * c >= 0;
    assert (b - a - 1) * c == b * c - a * c - c;
  }

  lemma {:induction false} ShiftInCore(buf: nat, x: nat, n: nat, p: nat, m: nat, k: nat, v: nat)
    requires buf < W32 && buf % W24 == x * p && x < n && n * p == W24 && m * k == p && v < m && k > 0
    ensures v * k < p
    ensures buf == (buf / W24 * n + x) * p
    ensures buf + v * k < W32 && (buf + v * k) % W24 == (x * m + v) * k
  {
    var q, c := buf / W24, v * k;
    MulAssoc3(q, n, p);
    MulDistrib(q * n, x, p);
    MulBelow(v, m, k);
    MulBelow(x, n, p);
    assert buf + c == q * W24 + (x * p + c);
    DivModUnique(buf + c, W24, q, x * p + c);
    MulAssoc3(x, m, k);
    MulDistrib(x * m, v, k);
  }

  /** put_buffer <<= 24 - put_bits; put_buffer |= the old contents. */
  lemma {:induction false} ShiftIn(buf: nat, bs: BitString, v: nat, size: nat)
    requires Holds(buf, bs) && |bs| + size <= 24 && v < Pow2(size)
    ensures var r := BitOr(v * Pow2(24 - (|bs| + size)), buf);
            Holds(r, bs + ToBits(v, size))
  {
    hide Pow2, BitOr;
    var n, k := |bs|, 24 - (|bs| + size);
    var x, p := Value(bs), Pow2(24 - n);
    Powers();
    Pow2Add(n, 24 - n);
    Pow2Add(size, k);
    ValueBound(bs);
    ShiftInCore(buf, x, Pow2(n), p, Pow2(size), Pow2(k), v);
    BitOrDisjoint(buf / W24 * Pow2(n) + x, 24 - n, v * Pow2(k));
    ValueAppend(bs, ToBits(v, size));
    ValueToBits(v, size);
  }

  lemma {:induction false} ShiftOutCore(buf: nat, x: nat, hi: nat, lo: nat, m: nat, p: nat)
    requires buf < W32 && buf % W24 == x * p && x == hi * m + lo && lo < m && m * p == 0x1_0000 && hi < 256
    ensures buf / 0x1_0000 % 256 == hi
    ensures buf * 256 % W32 % W24 == lo * (256 * p)
  {
    var q, low := buf / W24, lo * p;
    MulAssoc3(hi, m, p);
    MulDistrib(hi * m, lo, p);
    MulBelow(lo, m, p);
    assert p > 0;
    assert buf == q * W24 + hi * 0x1_0000 + low && low < 0x1_0000;
    ShiftOutLinear(buf, q, hi, low);
    MulAssoc3(lo, 256, p);
    assert (lo * 256) * p == 256 * low;
  }

  lemma {:induction false} ShiftOutLinear(buf: nat, q: nat, hi: nat, low: nat)
    requires buf == q * W24 + hi * 0x1_0000 + low && low < 0x1_0000 && hi < 256
    ensures buf / 0x1_0000 % 256 == hi
    ensures buf * 256 % W32 % W24 == low * 256
  {
    assert buf / 0x1_0000 == 256 * q + hi;
    assert buf * 256 == q * W32 + (hi * W24 + low * 256);
  }

  /** c = (put_buffer >> 16) & 0xFF; put_buffer <<= 8. */
  lemma {:induction false} ShiftOut(buf: nat, bs: BitString)
    requires Holds(buf, bs) && |bs| >= 8
    ensures buf / 0x1_0000 % 256 == Value(bs[..8])
    ensures Holds(buf * 256 % W32, bs[8..])
  {
    hide Pow2;
    var n := |bs|;
    Powers();
    assert bs == bs[..8] + bs[8..];
    ValueAppend(bs[..8], bs[8..]);
    ValueBound(bs[..8]);
    ValueBound(bs[8..]);
    Pow2Add(n - 8, 24 - n);
    Pow2Add(8, 24 - n);
    ShiftOutCore(buf, Value(bs), Value(bs[..8]), Value(bs[8..]), Pow2(n - 8), Pow2(24 - n));
  }

  // ----- the reader's accumulator

  /** get_buffer = (get_buffer << 8) | c. */
  lemma {:induction false} LoadByte(buf: nat, left: nat, c: nat)
    requires left <= 24 && c < 256
    ensures BitOr(buf * 256, c) == buf * 256 + c
    ensures ToBits((buf * 256 + c) % W32, left + 8) == ToBits(buf, left) + ToBits(c, 8)
  {
    Powers();
    BitOrDisjoint(buf, 8, c);
    var v := buf * 256 + c;
    ModMod(v, left + 8);
    ToBitsMod(v, left + 8);
    ToBitsMod(v % W32, left + 8);
    ToBitsJoin(buf, left, c, 8);
  }

  lemma {:induction false} ModMod(v: nat, n: nat)
    requires n <= 32
    ensures v % W32 % Pow2(n) == v % Pow2(n)
  {
    Powers();
    Pow2Add(n, 32 - n);
    ModModCore(v, Pow2(n), Pow2(32 - n), W32);
  }

  lemma {:induction false} ModModCore(v: nat, a: nat, b: nat, w: nat)
    requires a > 0 && b > 0 && a * b == w
    ensures v % w % a == v % a
  {
    var q, r := v / w, v % w;
    var q2, r2 := r / a, r % a;
    MulAssoc3(q, b, a);
    MulDistrib(q * b, q2, a);
    assert q * w == (q * b) * a;
    assert v == (q * b + q2) * a + r2;
    DivModUnique(v, a, q * b + q2, r2);
  }

  lemma {:induction false} ToBitsJoin(a: nat, n: nat, b: nat, m: nat)
    requires b < Pow2(m)
    ensures ToBits(a * Pow2(m) + b, n + m) == ToBits(a, n) + ToBits(b, m)
  {
    if m > 0 {
      var h := a * Pow2(m - 1) + b / 2;
      assert a * Pow2(m) == 2 * (a * Pow2(m - 1));
      var v := a * Pow2(m) + b;
      assert v / 2 == h && v % 2 == b % 2;
      ToBitsJoin(a, n, b / 2, m - 1);
      assert n + m - 1 == n + (m - 1);
    }
  }

  /** (get_buffer >> (bits_left - n)) & ((1 << n) - 1). */
  lemma {:induction false} TakeBits(buf: nat, left: nat, n: nat)
    requires n <= left
    ensures buf / Pow2(left - n) % Pow2(n) == Value(ToBits(buf, left)[..n])
    ensures ToBits(buf, left)[n..] == ToBits(buf, left - n)
  {
    hide Pow2;
    var d := Pow2(left - n);
    var q, r := buf / d, buf % d;
    assert buf == q * d + r;
    ToBitsMod(buf, left - n);
    ToBitsJoin(q, n, r, left - n);
    ToBitsMod(q, n);
    ValueToBits(q % Pow2(n), n);
  }
}
