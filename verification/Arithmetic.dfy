/** Facts about products and truncated quotients that the rounding proofs rest on. */
module Arithmetic {

  /** The quotient rounded up. */
  function CeilDiv(a: nat, b: nat): nat
    requires b > 0
  {
    (a + b - 1) / b
  }

  function Max(a: int, b: int): int { if a >= b then a else b }

  function Min(a: int, b: int): int { if a <= b then a else b }

  lemma MulMono(a: int, b: int, c: int)
    requires a <= b && 0 <= c
    ensures a * c <= b * c && c * a <= c * b
  {
  }

  lemma MulCancel(a: int, b: int, c: int)
    requires 0 < c
    ensures a * c <= b * c ==> a <= b
    ensures a * c < b * c ==> a < b
  {
    if a >= b { MulMono(b, a, c); }
    if a > b {
      MulMono(b + 1, a, c);
      assert (b + 1) * c == b * c + c;
    }
  }

  lemma DivBounds(a: int, b: int)
    requires b > 0
    ensures (a / b) * b <= a < (a / b) * b + b
    ensures b * (a / b) <= a < b * (a / b) + b
    ensures a == (a / b) * b + a % b && 0 <= a % b < b
  {
  }

  lemma DivUnique(a: int, b: int, q: int)
    requires b > 0 && q * b <= a < q * b + b
    ensures a / b == q
  {
    var p := a / b;
    DivBounds(a, b);
    assert (q + 1) * b == q * b + b && (p + 1) * b == p * b + b;
    MulCancel(p, q + 1, b);
    MulCancel(q, p + 1, b);
  }

  /** q is at most the quotient exactly when q copies of the divisor fit. */
  lemma DivGalois(a: int, b: int, q: int)
    requires b > 0
    ensures q <= a / b <==> q * b <= a
  {
    var p := a / b;
    DivBounds(a, b);
    assert (p + 1) * b == p * b + b;
    if q <= p { MulMono(q, p, b); }
    if q * b <= a { MulCancel(q, p + 1, b); }
  }

  lemma DivMono(a: int, b: int, c: int)
    requires a <= b && c > 0
    ensures a / c <= b / c
  {
    DivBounds(a, c);
    DivGalois(b, c, a / c);
  }

  lemma DivNat(a: nat, b: nat)
    requires b > 0
    ensures 0 <= a / b <= a
  {
    DivGalois(a, b, 0);
    DivBounds(a, b);
    MulMono(1, b, a / b);
  }

  lemma DivDiv(a: nat, b: nat, c: nat)
    requires b > 0 && c > 0
    ensures b * c > 0 && (a / b) / c == a / (b * c)
  {
    assert b * c > 0 by { MulMono(1, b, c); }
    var p := a / b;
    var q := p / c;
    DivBounds(a, b);
    DivBounds(p, c);
    MulMono(q * c, p, b);
    MulMono(p + 1, q * c + c, b);
    assert (q * c) * b == q * (b * c);
    assert (q * c + c) * b == q * (b * c) + b * c;
    assert (p + 1) * b == p * b + b;
    DivUnique(a, b * c, q);
  }

  lemma DivCancel(a: int, b: int, k: int)
    requires b > 0 && k > 0
    ensures b * k > 0 && (a * k) / (b * k) == a / b
  {
    assert b * k > 0 by { MulMono(1, b, k); }
    var q := a / b;
    DivBounds(a, b);
    MulMono(q * b, a, k);
    MulMono(a + 1, q * b + b, k);
    assert (q * b) * k == q * (b * k);
    assert (q * b + b) * k == q * (b * k) + b * k;
    assert (a + 1) * k == a * k + k;
    DivUnique(a * k, b * k, q);
  }

  lemma DivOfMultiple(a: int, b: int)
    requires b > 0
    ensures (a * b) / b == a
  {
    DivUnique(a * b, b, a);
  }

  lemma CeilBounds(a: nat, b: nat)
    requires b > 0
    ensures CeilDiv(a, b) * b < a + b && a <= CeilDiv(a, b) * b
  {
    DivBounds(a + b - 1, b);
  }

  /** The rounded-up quotient is at most q exactly when q copies of the divisor cover. */
  lemma CeilGalois(a: nat, b: nat, q: int)
    requires b > 0
    ensures CeilDiv(a, b) <= q <==> a <= q * b
  {
    var c := CeilDiv(a, b);
    CeilBounds(a, b);
    if c <= q { MulMono(c, q, b); }
    if a <= q * b {
      assert (c - 1) * b == c * b - b;
      MulCancel(c - 1, q, b);
    }
  }

  /** The quotient rounded up, as a natural number. */
  function CeilOf(x: nat, n: nat): (c: nat)
    requires n > 0
  {
    CeilGalois(x, n, -1);
    CeilDiv(x, n)
  }

  /** The quotient rounded down, as a natural number. */
  function FloorOf(x: nat, n: nat): nat
    requires n > 0
  {
    DivNat(x, n);
    x / n
  }
}
