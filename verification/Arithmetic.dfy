/** Products and quotients by a variable, one step at a time. */
module Arithmetic {
  lemma ProductGrows(n: nat, d: int)
    requires 0 < n && d >= 1
    ensures n * d >= n
  {
  }

  lemma MultiplesAreApart(n: nat, p: int, q: int)
    requires 0 < n
    ensures p < q ==> n * q >= n * p + n
    ensures p == q ==> n * q == n * p
    ensures p > q ==> n * q <= n * p - n
  {
    if p < q { ProductGrows(n, q - p); assert n * (q - p) == n * q - n * p; }
    if p > q { ProductGrows(n, p - q); assert n * (p - q) == n * p - n * q; }
  }

  lemma DivisionIs(num: int, den: int)
    requires 0 < den
    ensures num == den * (num / den) + num % den && 0 <= num % den < den
  {
  }

  lemma QuotientIsUnique(num: int, den: int, r: int)
    requires 0 < den
    ensures r == num / den <==> den * r <= num < den * r + den
  {
    DivisionIs(num, den);
    MultiplesAreApart(den, num / den, r);
  }

  lemma RemainderIs(n: nat, q: nat, r: nat)
    requires r < n
    ensures (n * q + r) % n == r
  {
    DivisionIs(n * q + r, n);
    MultiplesAreApart(n, q, (n * q + r) / n);
  }

  lemma RemaindersDiffer(n: nat, i: nat, j: nat)
    requires 0 < n && i < j < i + n
    ensures i % n != j % n
  {
    DivisionIs(i, n);
    DivisionIs(j, n);
    MultiplesAreApart(n, i / n, j / n);
  }
}
