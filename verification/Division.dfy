// Quotients and remainders.
module Division {

  lemma MulStep(a: nat, k: nat, d: nat)
    ensures (a + 1 + k) * d == a * d + d + k * d && k * d >= 0
  {
  }

  lemma DivModIs(n: nat, d: nat, q: nat, r: nat)
    requires n == q * d + r && r < d
    ensures n / d == q && n % d == r
  {
    var q', r' := n / d, n % d;
    assert n == q' * d + r';
    if q' < q { MulStep(q', q - q' - 1, d); }
    if q < q' { MulStep(q, q' - q - 1, d); }
  }

  lemma CountUp(n: nat, d: nat)
    requires d > 0
    ensures (n + 1) % d == if n % d == d - 1 then 0 else n % d + 1
    ensures (n + 1) / d == if n % d == d - 1 then n / d + 1 else n / d
    ensures n % d < d
  {
    var q, r := n / d, n % d;
    if r == d - 1 {
      DivModIs(n + 1, d, q + 1, 0);
    } else {
      DivModIs(n + 1, d, q, r + 1);
    }
  }
}
