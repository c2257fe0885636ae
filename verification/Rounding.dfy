/** Rounding up: jdiv_round_up and the size of the last, possibly partial, piece. */
module Rounding {
  import opened Bits

  lemma {:induction false} MulLe(a: int, b: int, r: nat)
    requires a <= b
    ensures a * r <= b * r
  {
    assert (b - a) * r >= 0;
  }

  /** n, or a for a full last one. */
  function LastPart(n: nat, a: nat): nat
    requires a > 0
  {
    if n % a == 0 then a else n % a
  }

  lemma {:induction false} CeilParts(n: nat, a: nat)
    requires n >= 1 && a >= 1
    ensures var q := (n + a - 1) / a; q >= 1 && n == (q - 1) * a + LastPart(n, a) && 1 <= LastPart(n, a) <= a
  {
    var q, r := n / a, n % a;
    assert n == q * a + r;
    if r == 0 {
      assert (q - 1) * a == q * a - a;
      DivModUnique(n + a - 1, a, q, a - 1);
    } else {
      assert (q + 1) * a == q * a + a;
      DivModUnique(n + a - 1, a, q + 1, r - 1);
    }
  }

  /** jdiv_round_up. */
  function CeilDiv(a: nat, b: nat): (q: nat)
    requires b > 0
    ensures q * b >= a && (q > 0 ==> (q - 1) * b < a) && (q == 0 <==> a == 0)
  {
    CeilBounds(a, b);
    (a + b - 1) / b
  }

  lemma {:induction false} CeilBounds(a: nat, b: nat)
    requires b > 0
    ensures var q := (a + b - 1) / b; q * b >= a && (q > 0 ==> (q - 1) * b < a) && (q == 0 <==> a == 0)
  {
    var q := (a + b - 1) / b;
    var r := (a + b - 1) % b;
    assert a + b - 1 == q * b + r;
    assert (q - 1) * b == q * b - b;
    if q == 0 { assert q * b == 0; }
    if q > 0 { assert (q - 1) * b >= 0; }
  }

  /** The quotient is determined by its bounds. */
  lemma {:induction false} CeilUnique(a: nat, b: nat, q: nat)
    requires b > 0 && q * b >= a && (q > 0 ==> (q - 1) * b < a)
    ensures CeilDiv(a, b) == q
  {
    var p := CeilDiv(a, b);
    if p < q {
      MulLe(p, q - 1, b);
    } else if q < p {
      MulLe(q, p - 1, b);
    }
  }

  /** Rounding up in two steps is rounding up in one. */
  lemma {:induction false} CeilTwice(a: nat, b: nat, c: nat)
    requires b > 0 && c > 0
    ensures b * c > 0 && CeilDiv(CeilDiv(a, b), c) == CeilDiv(a, b * c)
  {
    ProductPositive(b, c);
    var p := CeilDiv(a, b);
    var q := CeilDiv(p, c);
    TwoSteps(a, b, c, p, q);
    CeilUnique(a, b * c, q);
  }

  lemma {:induction false} ProductPositive(b: nat, c: nat)
    requires b > 0 && c > 0
    ensures b * c > 0
  {
    MulLe(1, b, c);
  }

  lemma {:induction false} TwoSteps(a: nat, b: nat, c: nat, p: nat, q: nat)
    requires b > 0 && c > 0
    requires p * b >= a && (p > 0 ==> (p - 1) * b < a) && q * c >= p && (q > 0 ==> (q - 1) * c < p)
    ensures q * (b * c) >= a && (q > 0 ==> (q - 1) * (b * c) < a)
  {
    Regroup(q, b, c);
    MulLe(p, q * c, b);
    if q > 0 {
      Regroup(q - 1, b, c);
      MulLe((q - 1) * c, p - 1, b);
    }
  }

  lemma {:induction false} Regroup(q: int, b: nat, c: nat)
    ensures q * (b * c) == (q * c) * b
  {
  }

  /** A common factor does not matter. */
  lemma {:induction false} CeilScale(a: nat, b: nat, c: nat)
    requires b > 0 && c > 0
    ensures b * c > 0 && CeilDiv(a * c, b * c) == CeilDiv(a, b)
  {
    ProductPositive(b, c);
    var q := CeilDiv(a, b);
    MulLe(a, q * b, c);
    Regroup(q, c, b);
    Regroup(q - 1, c, b);
    if q > 0 {
      MulLe((q - 1) * b + 1, a, c);
      assert ((q - 1) * b + 1) * c == ((q - 1) * b) * c + c;
    }
    assert q * (c * b) == q * (b * c) && (q - 1) * (c * b) == (q - 1) * (b * c);
    CeilUnique(a * c, b * c, q);
  }
}
