/** Bit strings, most significant bit first, and the numbers they spell. */
module Bits {
  import opened Arith

  type BitString = seq<bool>

  /** The low n bits of v. */
  function ToBits(v: nat, n: nat): (bs: BitString)
    ensures |bs| == n
  {
    if n == 0 then [] else ToBits(v / 2, n - 1) + [v % 2 == 1]
  }

  function Value(bs: BitString): nat {
    if bs == [] then 0 else 2 * Value(bs[..|bs| - 1]) + if bs[|bs| - 1] then 1 else 0
  }

  lemma {:induction false} ValueBound(bs: BitString)
    ensures Value(bs) < Pow2(|bs|)
  {
    if bs != [] {
      ValueBound(bs[..|bs| - 1]);
    }
  }

  lemma {:induction false} ValueToBits(v: nat, n: nat)
    requires v < Pow2(n)
    ensures Value(ToBits(v, n)) == v
  {
    if n > 0 {
      ValueToBits(v / 2, n - 1);
      assert ToBits(v, n)[..n - 1] == ToBits(v / 2, n - 1);
    }
  }

  lemma {:induction false} ToBitsValue(bs: BitString)
    ensures ToBits(Value(bs), |bs|) == bs
  {
    if bs != [] {
      ToBitsValue(bs[..|bs| - 1]);
      assert bs == bs[..|bs| - 1] + [bs[|bs| - 1]];
    }
  }

  lemma {:induction false} ValueAppend(a: BitString, b: BitString)
    ensures Value(a + b) == Value(a) * Pow2(|b|) + Value(b)
  {
    if b == [] {
      assert a + b == a;
    } else {
      var b' := b[..|b| - 1];
      assert (a + b)[..|a + b| - 1] == a + b';
      ValueAppend(a, b');
      assert 2 * (Value(a) * Pow2(|b'|)) == Value(a) * Pow2(|b|);
    }
  }

  /** Dropping low bits divides. */
  lemma {:induction false} ValueTake(bs: BitString, k: nat)
    requires k <= |bs|
    ensures Value(bs[..k]) == Value(bs) / Pow2(|bs| - k)
    ensures Value(bs[k..]) == Value(bs) % Pow2(|bs| - k)
  {
    assert bs == bs[..k] + bs[k..];
    ValueAppend(bs[..k], bs[k..]);
    ValueBound(bs[k..]);
    DivModUnique(Value(bs), Pow2(|bs| - k), Value(bs[..k]), Value(bs[k..]));
  }

  lemma {:induction false} DivModUnique(n: nat, d: nat, q: nat, r: nat)
    requires d > 0 && n == q * d + r && r < d
    ensures n / d == q && n % d == r
  {
    var q', r' := n / d, n % d;
    assert q' * d + r' == q * d + r;
    MulDiff(q', q, d);
    if q' < q {
      MulAtLeast(q - q', d);
    } else if q' > q {
      MulAtLeast(q' - q, d);
    }
  }

  lemma {:induction false} MulDiff(a: int, b: int, d: int)
    ensures a * d - b * d == (a - b) * d
    ensures b * d - a * d == (b - a) * d
  {
  }

  lemma {:induction false} MulAtLeast(k: nat, d: nat)
    requires k >= 1
    ensures k * d >= d
  {
    assert (k - 1) * d >= 0;
  }

  lemma {:induction false} ToBitsMod(v: nat, n: nat)
    ensures ToBits(v % Pow2(n), n) == ToBits(v, n)
  {
    if n > 0 {
      var d := Pow2(n - 1);
      var q, r := v / 2 / d, v / 2 % d;
      assert v == 2 * (v / 2) + v % 2 && v / 2 == q * d + r;
      assert v == q * (2 * d) + (2 * r + v % 2);
      DivModUnique(v, 2 * d, q, 2 * r + v % 2);
      ToBitsMod(v / 2, n - 1);
    }
  }
}
