/** Quotients and remainders of products. */
module Division {
  lemma DivMod(a: nat, m: nat)
    requires m > 0
    ensures a == a / m * m + a % m && a % m < m
  {
  }

  lemma DivUnique(a: nat, m: nat, q: nat, r: nat)
    requires m > 0 && a == q * m + r && r < m
    ensures a / m == q && a % m == r
  {
    DivMod(a, m);
    var d := q - a / m;
    assert d * m == a % m - r;
    Multiple(d, m);
  }

  lemma Multiple(d: int, m: nat)
    ensures d == 0 || d * m >= m || d * m <= 0 - m
  {
  }

  lemma Cancel(p: nat, q: nat, m: nat)
    requires m > 0 && p * m == q * m
    ensures p == q
  {
    assert (p - q) * m == 0;
    Multiple(p - q, m);
  }

  lemma Regroup(q: nat, n: nat, s: nat, m: nat, r: nat)
    ensures (q * n + s) * m + r == q * (m * n) + (s * m + r)
  {
    assert (q * n + s) * m == q * n * m + s * m;
    assert q * n * m == q * (n * m);
  }

  lemma BelowProduct(s: nat, n: nat, m: nat, r: nat)
    requires s < n && r < m
    ensures s * m + r < m * n
  {
    assert (n - 1 - s) * m >= 0;
    assert (n - 1 - s) * m == n * m - m - s * m;
  }

  lemma DivDiv(a: nat, m: nat, n: nat)
    requires m > 0 && n > 0
    ensures m * n > 0 && a / (m * n) == a / m / n
  {
    DivMod(a, m);
    DivMod(a / m, n);
    var (q, s, r) := (a / m / n, a / m % n, a % m);
    Regroup(q, n, s, m, r);
    BelowProduct(s, n, m, r);
    DivUnique(a, m * n, q, s * m + r);
  }
}
