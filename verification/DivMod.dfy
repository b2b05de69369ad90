/** Division and remainder by a variable, in the few forms the layout arithmetic needs. */
module DivMod {

  lemma MulMono(a: nat, b: nat, c: nat)
    requires a <= b
    ensures 0 <= a * c <= b * c
  {
  }

  lemma MulNext(a: nat, c: nat)
    ensures (a + 1) * c == a * c + c
  {
  }

  lemma DivModSum(a: nat, n: nat)
    requires n > 0
    ensures a == a / n * n + a % n && 0 <= a % n < n && 0 <= a / n
  {
  }

  lemma DivAtLeast(a: nat, n: nat, q: nat)
    requires n > 0 && q * n <= a
    ensures q <= a / n
  {
    DivModSum(a, n);
    if a / n + 1 <= q {
      MulMono(a / n + 1, q, n);
    }
  }

  /** Dividing twice is dividing by the product. */
  lemma DivDiv(a: nat, m: nat, n: nat)
    requires m > 0 && n > 0
    ensures m * n > 0 && 0 <= a / m && a / m / n == a / (m * n)
  {
    var half := a / m;
    DivModSum(a, m);
    DivModSum(half, n);
    MulMono(half % n + 1, n, m);
    MulNext(half % n, m);
    MulMono(1, m, n);
    assert half * m == half / n * (m * n) + half % n * m;
    DivUnique(a, m * n, half / n, half % n * m + a % m);
  }

  lemma DivUnique(a: nat, n: nat, q: nat, r: nat)
    requires n > 0 && r < n && a == q * n + r
    ensures a / n == q && a % n == r
  {
    DivModSum(a, n);
    DivAtLeast(a, n, q);
    if q + 1 <= a / n {
      MulMono(q + 1, a / n, n);
    }
  }
}
