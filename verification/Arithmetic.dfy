/** Division facts that need a proof. */
module Arithmetic {

  lemma MulMono(a: nat, b: nat, c: nat)
    requires a <= b
    ensures a * c <= b * c
  {
    assert b * c == a * c + (b - a) * c;
  }

  /** Quotient and remainder are unique. */
  lemma DivUnique(m: nat, p: nat, q: nat, r: nat)
    requires r < p && m == q * p + r
    ensures m / p == q && m % p == r
  {
    var q' := m / p;
    assert m == q' * p + m % p;
    if q < q' { MulMono(q + 1, q', p); }
    if q' < q { MulMono(q' + 1, q, p); }
  }

  /** The remainder of a sum is that of the sum of the remainders. */
  lemma RemainderOfSum(a: nat, b: nat, p: nat)
    requires p >= 1
    ensures (a % p + b) % p == (a + b) % p
  {
    var q, r := (a % p + b) / p, (a % p + b) % p;
    assert a == a / p * p + a % p && a % p + b == q * p + r;
    SumOfProducts(a / p, q, p);
    DivUnique(a + b, p, a / p + q, r);
  }

  lemma SumOfProducts(a: nat, b: nat, c: nat)
    ensures (a + b) * c == a * c + b * c
  {
  }
}
