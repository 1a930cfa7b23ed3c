// Quotient and remainder by a positive divisor.
module Arith {

  lemma MulAtLeast(m: int, d: int)
    requires d >= 1 && m >= 0
    ensures m * d >= m
  {
    assert m * (d - 1) >= 0;
  }

  lemma DivModUnique(n: int, q: int, r: int, m: int)
    requires 0 <= r < m && n == m * q + r
    ensures n / m == q && n % m == r
  {
    var q', r' := n / m, n % m;
    assert n == m * q' + r';
    var d := q' - q;
    assert m * d == r - r';
    if d >= 1 {
      MulAtLeast(m, d);
    } else if d <= -1 {
      MulAtLeast(m, -d);
    }
  }

  lemma NextDivMod(n: int, m: int)
    requires m >= 1
    ensures n % m + 1 < m ==> (n + 1) / m == n / m && (n + 1) % m == n % m + 1
    ensures n % m + 1 == m ==> (n + 1) / m == n / m + 1 && (n + 1) % m == 0
  {
    var q, r := n / m, n % m;
    assert n == m * q + r;
    if r + 1 < m {
      DivModUnique(n + 1, q, r + 1, m);
    } else {
      assert m * (q + 1) == m * q + m;
      DivModUnique(n + 1, q + 1, 0, m);
    }
  }
}
