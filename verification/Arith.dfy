/** Facts about products and quotients of unbounded integers. */
module Arith {

  lemma MulMono(a: int, b: int, d: int)
    requires a <= b && 0 <= d
    ensures a * d <= b * d
  {
  }

  lemma DoubleProduct(x: int, p: int)
    ensures 2 * (x * p) == x * (2 * p)
  {
  }

  /** The quotient is the only `q` with `q * d <= x < (q + 1) * d`. */
  lemma DivUnique(x: int, d: int, q: int)
    requires d > 0 && q * d <= x < q * d + d
    ensures x / d == q && x % d == x - q * d
  {
    var k := x / d;
    assert k * d <= x < k * d + d;
    assert (q + 1) * d == q * d + d && (k + 1) * d == k * d + d;
    if k > q {
      MulMono(q + 1, k, d);
    }
    if k < q {
      MulMono(k + 1, q, d);
    }
  }

  lemma DivBetween(x: int, d: int, lo: int, hi: int)
    requires d > 0 && lo * d <= x < hi * d
    ensures lo <= x / d < hi
  {
    var k := x / d;
    assert k * d <= x < k * d + d && (k + 1) * d == k * d + d;
    if k < lo {
      MulMono(k + 1, lo, d);
    }
    if hi <= k {
      MulMono(hi, k, d);
    }
  }

  // Products and quotients of two unknowns, as recursions: the solver leaves
  // them alone until one of the two lemmas below is called.

  function Times(a: nat, b: nat): nat {
    if b == 0 then 0 else a + Times(a, b - 1)
  }

  function Quot(a: nat, d: nat): nat
    requires d > 0
  {
    if a < d then 0 else 1 + Quot(a - d, d)
  }

  lemma {:induction false} TimesIsProduct(a: nat, b: nat)
    ensures Times(a, b) == a * b
  {
    if b > 0 {
      TimesIsProduct(a, b - 1);
      assert a * b == a + a * (b - 1);
    }
  }

  lemma {:induction false} QuotIsQuotient(a: nat, d: nat)
    requires d > 0
    ensures Quot(a, d) == a / d
  {
    if a >= d {
      QuotIsQuotient(a - d, d);
      var k := (a - d) / d;
      assert k * d <= a - d < k * d + d && (k + 1) * d == k * d + d;
      DivUnique(a, d, k + 1);
    } else {
      DivUnique(a, d, 0);
    }
  }

  lemma {:induction false} QuotAtLeast(a: nat, d: nat, k: nat)
    requires d > 0 && k * d <= a
    ensures Quot(a, d) >= k
  {
    QuotIsQuotient(a, d);
    assert (a + 1) * d >= a + 1;
    DivBetween(a, d, k, a + 1);
  }
}
