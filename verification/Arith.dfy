// Products, quotients and remainders.
module Arith {

  function Min(a: nat, b: nat): nat {
    if a <= b then a else b
  }

  lemma MulLe(a: nat, b: nat, n: nat)
    requires a <= b
    ensures a * n <= b * n
  {
  }

  lemma ModSmall(x: nat, n: nat)
    requires x < n
    ensures x % n == x
  {
  }

  lemma ModUnique(a: nat, q: nat, r: nat, n: nat)
    requires r < n && a == q * n + r
    ensures a % n == r && a / n == q
  {
    assert a == a / n * n + a % n;
    if a / n < q {
      MulLe(a / n + 1, q, n);
    } else if q < a / n {
      MulLe(q + 1, a / n, n);
    }
  }

  lemma MulMod(k: nat, n: nat)
    requires n > 0
    ensures k * n % n == 0 && k * n / n == k
  {
    ModUnique(k * n, k, 0, n);
  }

  lemma DivMod(q: nat, n: nat)
    requires n > 0
    ensures q == q / n * n + q % n
  {
  }

  lemma DivLess(q: nat, n: nat)
    requires n >= 2 && q > 0
    ensures q / n < q
  {
  }
}
