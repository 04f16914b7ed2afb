/** The bounds of the integer types that the programs store, and laws of division. */
module Integers {

  const MAX_INT64: int := 0x7fff_ffff_ffff_ffff
  const MIN_INT64: int := -0x8000_0000_0000_0000

  type int64 = n: int | MIN_INT64 <= n <= MAX_INT64

  const U16: nat := 0x1_0000
  const U32: nat := 0x1_0000_0000
  const U64: nat := 0x1_0000_0000_0000_0000

  lemma AtLeast(x: int, q: int, d: nat)
    requires x > q
    ensures x * d >= q * d + d
  {
    var k: nat := x - q - 1;
    assert x * d == q * d + k * d + d;
    assert k * d >= 0;
  }

  lemma OneQuotient(x: int, y: nat, q: int, r: nat, d: nat)
    requires x * d + y == q * d + r && y < d && r < d
    ensures x == q
  {
    if x > q {
      AtLeast(x, q, d);
    } else if x < q {
      AtLeast(q, x, d);
    }
  }

  lemma DivOf(n: int, d: nat, q: int, r: nat)
    requires n == q * d + r && r < d
    ensures n / d == q
  {
    var x, y := n / d, n % d;
    assert n == x * d + y;
    OneQuotient(x, y, q, r, d);
  }

  lemma DivTwice(n: nat, d: nat, p: nat)
    requires d > 0 && p > 0
    ensures d * p > 0 && n / d / p == n / (d * p)
  {
    var m, r := n / d, n % d;
    var x, y := m / p, m % p;
    assert n == m * d + r && m == x * p + y;
    var rest := y * d + r;
    assert m * d == x * p * d + y * d;
    assert rest < d * p by { AtLeast(p, y, d); }
    assert n == x * (d * p) + rest;
    DivOf(n, d * p, x, rest);
  }
}
