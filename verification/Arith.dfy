/** Division facts used across the project. */
module Arith {
  function Div(n: nat, d: nat): nat
    requires d > 0
  {
    n / d
  }

  function Mod(n: nat, d: nat): (r: nat)
    requires d > 0
    ensures r < d
  {
    n % d
  }

  lemma DivMod(n: nat, d: nat)
    requires d > 0
    ensures n == Div(n, d) * d + Mod(n, d)
  {
  }

  /** Quotient and remainder are unique. */
  lemma DivUnique(a: nat, d: nat, k: nat, r: nat)
    requires d > 0 && a == k * d + r && r < d
    ensures a / d == k && a % d == r
  {
    var q := a / d;
    assert a == q * d + a % d;
    assert (k - q) * d == k * d - q * d;
    if q < k {
      MulMono(1, k - q, d);
      assert false;
    } else if q > k {
      MulMono(1, q - k, d);
      assert false;
    }
  }

  lemma MulMono(a: nat, b: nat, d: nat)
    requires a <= b
    ensures a * d <= b * d
  {
  }

  /** Adding a multiple of the divisor. */
  lemma DivAdd(q: nat, d: nat, p: nat)
    requires d > 0
    ensures (q * d + p) / d == q + p / d
    ensures (q * d + p) % d == p % d
  {
    var k, r := p / d, p % d;
    assert p == k * d + r;
    assert (q + k) * d == q * d + k * d;
    DivUnique(q * d + p, d, q + k, r);
  }

  /** Dividing twice. */
  lemma DivDiv(p: nat, d: nat, e: nat)
    requires d > 0 && e > 0
    ensures d * e > 0 && Div(p, d * e) == Div(Div(p, d), e)
  {
    hide Div, Mod;
    var k := Div(p, d);
    DivMod(p, d);
    DivMod(k, e);
    Nested(Div(k, e), e, Mod(k, e), d, Mod(p, d));
    DivIs(p, d * e, Div(k, e), Mod(k, e) * d + Mod(p, d));
  }

  lemma DivIs(a: nat, d: nat, k: nat, r: nat)
    requires d > 0 && a == k * d + r && r < d
    ensures Div(a, d) == k
  {
    DivUnique(a, d, k, r);
  }

  lemma Nested(j: nat, e: nat, s: nat, d: nat, r: nat)
    requires s < e && r < d
    ensures (j * e + s) * d + r == j * (d * e) + (s * d + r) && s * d + r < d * e && d * e > 0
  {
    assert (j * e + s) * d == j * e * d + s * d && j * e * d == j * (d * e);
    MulMono(s + 1, e, d);
    assert (s + 1) * d == s * d + d;
  }
}
