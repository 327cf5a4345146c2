/** Products, quotients and remainders of natural numbers. */
module Division {
  lemma {:induction false} Scale(i: nat, j: nat, size: nat)
    requires i < j
    ensures i * size + size <= j * size
    decreases j - i
  {
    if i + 1 < j {
      Scale(i, j - 1, size);
      assert j * size == (j - 1) * size + size;
    } else {
      assert j * size == i * size + size;
    }
  }

  /** Quotient and remainder are unique. */
  lemma Euclid(d: nat, q: nat, s: nat, k: nat, r: nat)
    requires d * q + s == d * k + r && s < d && r < d
    ensures q == k && s == r
  {
    if q > k { Scale(k, q, d); }
    if q < k { Scale(q, k, d); }
  }

  lemma DivIs(x: nat, d: nat, k: nat, r: nat)
    requires x == d * k + r && r < d
    ensures x / d == k && x % d == r
  {
    Euclid(d, x / d, x % d, k, r);
  }
}
