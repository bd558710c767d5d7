/** Facts about products and floor division that the other modules share. */
module Arithmetic {

  lemma MulMono(x: int, y: int, l: int)
    requires x <= y && 0 <= l
    ensures x * l <= y * l
  {
  }

  lemma DivUnique(x: int, m: int, q: int, r: int)
    requires m > 0 && x == q * m + r && 0 <= r < m
    ensures x / m == q && x % m == r
  {
    var q' := x / m;
    assert x == q' * m + x % m;
    if q' > q {
      MulMono(q + 1, q', m);
    } else if q' < q {
      MulMono(q' + 1, q, m);
    }
  }

  lemma DivMono(x: int, y: int, m: int)
    requires x <= y && m > 0
    ensures x / m <= y / m
  {
    var p, q := x / m, y / m;
    assert p * m <= x <= y < q * m + m;
    if q + 1 <= p {
      MulMono(q + 1, p, m);
    }
  }

  lemma DivBack(x: int, m: int)
    requires m > 0
    ensures (x - m) / m == x / m - 1
  {
    assert x - m == (x / m - 1) * m + x % m;
    DivUnique(x - m, m, x / m - 1, x % m);
  }

  lemma DivBelow(n: nat, m: nat, p: nat)
    requires m > 0
    ensures n / m < p <==> n < m * p
  {
    var q := n / m;
    assert q * m <= n < q * m + m;
    if q < p {
      MulMono(q + 1, p, m);
    } else {
      MulMono(p, q, m);
    }
  }

  lemma DivShrinks(n: nat, m: nat)
    requires n > 0 && m >= 2
    ensures n / m < n
  {
    MulMono(2, m, n);
    DivBelow(n, m, n);
  }

  lemma DivMod(n: nat, m: nat) returns (q: nat, r: nat)
    requires m > 0
    ensures q == n / m && r == n % m && r < m && n == q * m + r
  {
    q, r := n / m, n % m;
  }

  function CeilDiv(n: int, m: int): int
    requires m > 0
  {
    (n + m - 1) / m
  }
}
