/** Division with remainder. */
module Arithmetic {
  lemma AtLeastOnce(k: nat, d: nat)
    requires k >= 1
    ensures k * d >= d
  {
  }

  lemma {:induction false} NoMore(a: nat, b: nat, d: nat, r: nat, s: nat)
    requires a * d + r == b * d + s && s < d
    ensures a <= b
  {
    if a > b {
      AtLeastOnce(a - b, d);
    }
  }

  /** Quotient and remainder are determined. */
  lemma {:induction false} DivMod(x: nat, d: nat, q: nat, r: nat)
    requires d > 0 && x == q * d + r && r < d
    ensures x / d == q && x % d == r
  {
    assert x == x / d * d + x % d;
    NoMore(q, x / d, d, r, x % d);
    NoMore(x / d, q, d, x % d, r);
  }

  lemma NonNegative(n: nat, d: nat)
    requires d > 0
    ensures n / d >= 0
  {
  }

  lemma Regrouped(q: nat, b: nat, r: nat, a: nat, t: nat)
    ensures (q * b + r) * a + t == q * (a * b) + (r * a + t)
  {
    assert (q * b) * a == q * (a * b) by { assert b * a == a * b; }
  }

  lemma {:induction false} Below(r: nat, b: nat, t: nat, a: nat)
    requires r < b && t < a
    ensures r * a + t < a * b
  {
    AtLeastOnce(b - r, a);
    assert (b - r) * a == a * b - r * a;
  }

  /** Dividing twice. */
  lemma {:induction false} DivTwice(n: nat, a: nat, b: nat)
    requires a > 0 && b > 0
    ensures a * b > 0 && n / a / b == n / (a * b)
  {
    AtLeastOnce(a, b);
    Quotients(n, a, b, n / a, n % a, n / a / b, n / a % b);
  }

  lemma {:induction false} Quotients(n: nat, a: nat, b: nat, m: nat, t: nat, q: nat, r: nat)
    requires a * b > 0 && t < a && r < b && n == m * a + t && m == q * b + r
    ensures n / (a * b) == q
  {
    Regrouped(q, b, r, a, t);
    Below(r, b, t, a);
    DivMod(n, a * b, q, r * a + t);
  }
}
