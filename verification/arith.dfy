/** Facts about multiplication, division and remainder on naturals that the
    solver does not find on its own once the divisor is not a literal. */
module Arith {

  lemma MulAtLeast(m: nat, k: int)
    ensures k >= 1 ==> m * k >= m
  {
    if k >= 1 {
      assert m * k == m + m * (k - 1);
    }
  }

  lemma MulMono(a: nat, b: nat, c: nat)
    ensures b >= c ==> a * b >= a * c
  {
    if b >= c {
      assert a * b == a * c + a * (b - c);
    }
  }

  /** Quotient and remainder are the unique pair with `x == m * a + b`, `b < m`. */
  lemma DivUnique(x: nat, m: nat, a: nat, b: nat)
    requires m > 0 && b < m && x == m * a + b
    ensures x / m == a && x % m == b
  {
    var q := x / m;
    var s := x % m;
    assert x == m * q + s;
    assert m * (a - q) == s - b;
    assert m * (q - a) == b - s;
    MulAtLeast(m, a - q);
    MulAtLeast(m, q - a);
  }

  /** Two nested divisions with remainder make one by the product:
      from `v == d * q + r` and `q == p * q2 + s` follows
      `v == (d * p) * q2 + (r + d * s)` with `r + d * s < d * p`. */
  lemma Nested(v: nat, d: nat, p: nat, q: nat, r: nat, q2: nat, s: nat)
    requires v == d * q + r && r < d
    requires q == p * q2 + s && s < p
    ensures v == (d * p) * q2 + (r + d * s)
    ensures r + d * s < d * p
  {
    Distrib(d, p * q2, s);
    Assoc(d, p, q2);
    MulMono(d, p - 1, s);
    Distrib(d, p - 1, 1);
  }

  lemma Distrib(a: int, b: int, c: int)
    ensures a * (b + c) == a * b + a * c
  {
  }

  lemma Assoc(a: int, b: int, c: int)
    ensures a * (b * c) == (a * b) * c
  {
  }

  lemma DivDiv(v: nat, p: nat, d: nat)
    requires p >= 1 && d >= 1
    ensures v / (p * d) == (v / p) / d
  {
    var q, r := v / p, v % p;
    var q2, s := q / d, q % d;
    Nested(v, p, d, q, r, q2, s);
    DivUnique(v, p * d, q2, r + p * s);
  }

  /** Splitting a remainder modulo `d * p` into its low digit base `d` and the rest. */
  lemma ModSplit(v: nat, d: nat, p: nat)
    requires d >= 1 && p >= 1
    ensures v % (d * p) == v % d + d * ((v / d) % p)
  {
    var q, r := v / d, v % d;
    var q2, s := q / p, q % p;
    Nested(v, d, p, q, r, q2, s);
    DivUnique(v, d * p, q2, r + d * s);
  }

  lemma ModShift(x: nat, m: nat)
    requires m > 0
    ensures (x + m) % m == x % m
  {
    DivUnique(x + m, m, x / m + 1, x % m);
  }
}
