/** Division by a page size that is not a literal. */
module PageArithmetic {

  lemma MultipleIsFar(e: int, p: nat)
    ensures e >= 1 ==> e * p >= p
    ensures e <= -1 ==> e * p <= -(p as int)
  {
  }

  lemma QuotientIs(x: int, q: int, r: int, p: nat)
    requires p > 0 && x == q * p + r && 0 <= r < p
    ensures x / p == q && x % p == r
  {
    var e := x / p - q;
    assert x == x / p * p + x % p;
    assert e * p == r - x % p;
    MultipleIsFar(e, p);
  }

  lemma MultiplesOrdered(i: int, j: int, p: nat)
    requires i * p < j * p + p
    ensures i <= j
  {
    assert (i - j) * p < p;
    MultipleIsFar(i - j, p);
  }

  lemma MultipleAtMost(i: int, j: int, p: nat)
    requires i <= j
    ensures i * p <= j * p
  {
    assert (j - i) * p >= 0;
  }

  lemma AlignedIsMultiple(s: int, p: nat)
    requires p > 0 && s % p == 0
    ensures s == s / p * p
  {
  }

  /** Rounding down to a page boundary, and up to the next one. */
  lemma AlignDown(x: nat, p: nat)
    requires p > 0
    ensures var a := x / p * p; 0 <= a <= x < a + p && a % p == 0 && (a + p) % p == 0
  {
    var q := x / p;
    assert x == q * p + x % p;
    QuotientIs(q * p, q, 0, p);
    assert (q + 1) * p == q * p + p;
    QuotientIs(q * p + p, q + 1, 0, p);
  }

  lemma AlignDownIsGreatest(x: nat, s: nat, p: nat)
    requires p > 0 && s % p == 0 && s <= x
    ensures s <= x / p * p
  {
    AlignDown(x, p);
    AlignedIsMultiple(s, p);
    MultiplesOrdered(s / p, x / p, p);
    MultipleAtMost(s / p, x / p, p);
  }

  lemma AlignUpIsLeast(x: nat, e: nat, p: nat)
    requires p > 0 && e % p == 0 && x < e
    ensures x / p * p + p <= e
  {
    AlignDown(x, p);
    AlignedIsMultiple(e, p);
    if e / p <= x / p {
      MultipleAtMost(e / p, x / p, p);
      assert false;
    }
    MultipleAtMost(x / p + 1, e / p, p);
    assert (x / p + 1) * p == x / p * p + p;
  }
}
