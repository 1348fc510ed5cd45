/** Facts about quotients and remainders of variables. */
module DivisionFacts {

  lemma DivMod(x: int, m: nat, q: int, r: int)
    requires m > 0 && x == q * m + r && 0 <= r < m
    ensures x / m == q && x % m == r
  {
    var d: int := x / m - q;
    assert d * m == r - x % m;
    assert d >= 1 ==> d * m >= m;
    assert d <= -1 ==> d * m <= 0 - m;
  }

  lemma NextMultiple(y: int, m: nat, q: int, d: int)
    requires m > 0 && 0 - m <= d < m && y == q * m + m + d
    ensures y / m == if d < 0 then q else q + 1
  {
    assert (q + 1) * m == q * m + m;
    if d < 0 {
      DivMod(y, m, q, m + d);
    } else {
      DivMod(y, m, q + 1, d);
    }
  }

  lemma QuotientAndRemainder(x: int, m: nat)
    requires m > 0
    ensures x == (x / m) * m + x % m && 0 <= x % m < m
  {
  }

  lemma SumDiv(c: nat, n: nat, m: nat)
    requires m > 0
    ensures (c + n) / m == c / m + n / m + if c % m + n % m < m then 0 else 1
  {
    var q, r, qn, rn := c / m, c % m, n / m, n % m;
    assert (q + qn) * m == q * m + qn * m;
    assert (q + qn + 1) * m == q * m + qn * m + m;
    if r + rn < m {
      DivMod(c + n, m, q + qn, r + rn);
    } else {
      DivMod(c + n, m, q + qn + 1, r + rn - m);
    }
  }

  lemma CeilDiv(n: nat, m: nat)
    requires m > 0
    ensures (n + m - 1) / m == n / m + if n % m == 0 then 0 else 1
  {
    var q, r := n / m, n % m;
    if r == 0 {
      DivMod(n + m - 1, m, q, m - 1);
    } else {
      assert (q + 1) * m == q * m + m;
      DivMod(n + m - 1, m, q + 1, r - 1);
    }
  }

  /** Reducing before an addition does not change the reduced sum. */
  lemma WrapAdd(a: int, b: int, r: nat)
    requires r > 0
    ensures (a % r + b) % r == (a + b) % r
  {
    var q := a / r;
    var p, s := (a % r + b) / r, (a % r + b) % r;
    assert (p + q) * r == p * r + q * r;
    DivMod(a + b, r, p + q, s);
  }
}
