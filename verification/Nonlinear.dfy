/** Facts about products that are proved once, away from everything else. */
module Nonlinear {
  lemma MulPositive(x: int, y: int)
    requires 0 < x && 0 < y
    ensures 0 < x * y
  {
  }

  lemma MulStrict(x: int, y: int, k: int)
    requires x < y && 0 < k
    ensures x * k < y * k
  {
    MulPositive(y - x, k);
    Distribute(y - x, x, k);
  }

  lemma MulMonotone(x: int, y: int, k: int)
    requires x <= y && 0 <= k
    ensures x * k <= y * k
  {
    if x < y && 0 < k {
      MulStrict(x, y, k);
    }
  }

  lemma Cancel(x: int, y: int, k: int)
    requires 0 < k && x * k == y * k
    ensures x == y
  {
    if x < y {
      MulStrict(x, y, k);
    } else if y < x {
      MulStrict(y, x, k);
    }
  }

  /** The quotient and remainder of a quotient. */
  lemma NestedDivision(c: nat, m: nat, n: nat)
    requires 0 < m && 0 < n && 0 < m * n
    ensures c / m == c / (m * n) * n + c / m % n
  {
    var q := c / m / n;
    var lo := c / m - n * q;
    Reassociate(m, n, q);
    assert 0 <= lo < n;
    MulMonotone(lo, n - 1, m);
    assert c == (m * n) * q + (m * lo + c % m);
    DivisionUnique(c, m * n, q, m * lo + c % m);
  }

  lemma DivisionUnique(c: int, d: int, q: int, r: int)
    requires 0 < d && c == d * q + r && 0 <= r < d
    ensures c / d == q && c % d == r
  {
    var q' := c / d;
    if q' < q {
      MulMonotone(q' + 1, q, d);
    } else if q < q' {
      MulMonotone(q + 1, q', d);
    }
  }

  lemma QuotientBound(x: nat, d: nat)
    requires 0 < d
    ensures 0 <= x / d <= x
  {
    if x / d > x {
      MulMonotone(x + 1, x / d, d);
      MulMonotone(1, d, x + 1);
    }
  }

  lemma Distribute(x: int, y: int, k: int)
    ensures (x + y) * k == x * k + y * k
  {
  }

  lemma Reassociate(x: int, y: int, z: int)
    ensures (x * y) * z == x * (y * z) == (x * z) * y
  {
  }
}
