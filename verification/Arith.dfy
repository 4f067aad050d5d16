/** Division with remainder. */
module Arith {
  lemma {:induction false} Product(k: nat, m: nat)
    ensures k * m >= 0 && (k > 0 ==> k * m >= m)
  {
    if k > 0 {
      Product(k - 1, m);
      assert k * m == (k - 1) * m + m;
    }
  }

  /** Numbers of two digits are ordered by the first digit, then by the second. */
  lemma Digits(a: nat, b: nat, c: nat, d: nat, m: nat)
    requires b < m && d < m
    ensures a * m + b < c * m + d <==> a < c || (a == c && b < d)
    ensures a * m + b == c * m + d <==> a == c && b == d
  {
    if a < c {
      Product(c - a, m);
      Difference(a, c, m);
    } else if a > c {
      Product(a - c, m);
      Difference(c, a, m);
    }
  }

  lemma Difference(a: nat, c: nat, m: nat)
    requires a <= c
    ensures (c - a) * m == c * m - a * m
  {
  }

  lemma DivMod(x: nat, q: nat, r: nat, m: nat)
    requires m > 0 && x == q * m + r && r < m
    ensures x / m == q && x % m == r
  {
    var e, s := x / m, x % m;
    assert x == e * m + s;
    Digits(e, s, q, r, m);
  }

  lemma DivBound(x: nat, m: nat, k: nat)
    requires m > 0
    ensures x / m < k <==> x < k * m
  {
    var e, s := x / m, x % m;
    assert x == e * m + s;
    Digits(e, s, k, 0, m);
  }

  lemma DivTwice(x: nat, m: nat)
    requires m > 0
    ensures m * m > 0 && x / (m * m) == x / m / m
  {
    var q, r := x / m, x % m;
    var e, s := q / m, q % m;
    Twice(x, q, r, e, s, m);
    DivMod(x, e, s * m + r, m * m);
  }

  lemma Twice(x: nat, q: nat, r: nat, e: nat, s: nat, m: nat)
    requires x == q * m + r && q == e * m + s && r < m && s < m
    ensures m * m > 0 && x == e * (m * m) + (s * m + r) && s * m + r < m * m
  {
    Product(m - s, m);
    Difference(s, m, m);
    assert e * m * m == e * (m * m);
  }
}
