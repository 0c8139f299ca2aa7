/** Facts about / and % that the coder's modular indexing needs. */
module Arithmetic {

  function Min(a: nat, b: nat): nat { if a < b then a else b }

  lemma MulGe(d: int, n: nat)
    requires d >= 1
    ensures d * n >= n
  {
    assert d * n == (d - 1) * n + n;
    assert (d - 1) * n >= 0;
  }

  lemma DivModUnique(q: int, r: int, p: int, s: int, n: nat)
    requires q * n + r == p * n + s && 0 <= r < n && 0 <= s < n
    ensures q == p && r == s
  {
    assert (p - q) * n == p * n - q * n;
    assert (q - p) * n == q * n - p * n;
    if q < p {
      MulGe(p - q, n);
    } else if p < q {
      MulGe(q - p, n);
    }
  }

  lemma AddMod(x: nat, n: nat)
    requires n >= 1
    ensures (x + n) % n == x % n
    ensures (x + n) / n == x / n + 1
  {
    var q, r := x / n, x % n;
    assert x == q * n + r;
    assert x + n == (q + 1) * n + r;
    DivModUnique(q + 1, r, (x + n) / n, (x + n) % n, n);
  }

  lemma {:induction false} ModPlusMultiple(r: nat, q: nat, n: nat)
    requires n >= 1
    ensures q * n >= 0
    ensures (r + q * n) % n == r % n
    decreases q
  {
    if q > 0 {
      ModPlusMultiple(r, q - 1, n);
      assert r + q * n == (r + (q - 1) * n) + n;
      AddMod(r + (q - 1) * n, n);
    }
  }

  lemma ModAdd(i: nat, j: nat, n: nat)
    requires n >= 1
    ensures (i % n + j) % n == (i + j) % n
    ensures (i % n + j % n) % n == (i + j) % n
  {
    ModPlusMultiple(i % n + j, i / n, n);
    assert i == i % n + (i / n) * n;
    ModPlusMultiple(i % n + j % n, j / n, n);
    assert j == j % n + (j / n) * n;
  }

  lemma SmallMod(i: nat, n: nat)
    requires i < n
    ensures i % n == i && i / n == 0
  {
  }
}
