/** Euclidean division facts the index arithmetic relies on. */
module Arithmetic {

  lemma {:induction false} Apart(r: int, p: int, q: int)
    requires r > 0 && p < q
    ensures p * r + r <= q * r
    decreases q - p
  {
    if p + 1 < q {
      Apart(r, p, q - 1);
    }
    assert q * r == (q - 1) * r + r;
  }

  /** Quotient and remainder are unique. */
  lemma DivModUndo(q: int, k: int, r: int)
    requires r > 0 && 0 <= k < r
    ensures (q * r + k) / r == q && (q * r + k) % r == k
  {
    var x := q * r + k;
    var q', k' := x / r, x % r;
    assert x == q' * r + k';
    if q' < q {
      Apart(r, q', q);
    } else if q < q' {
      Apart(r, q, q');
    }
  }

  /** Numbers a whole number of steps of n above k < n are those with remainder k. */
  lemma SameResidue(i: int, k: int, n: nat)
    requires 0 < n && 0 <= i && 0 <= k < n
    ensures k <= i && (i - k) % n == 0 <==> k == i % n
  {
    var q, r := i / n, i % n;
    assert i == q * n + r;
    if k == r {
      assert i - k == q * n + 0;
      DivModUndo(q, 0, n);
      assert q >= 0;
    } else if r > k {
      assert i - k == q * n + (r - k);
      DivModUndo(q, r - k, n);
    } else {
      assert i - k == (q - 1) * n + (n + r - k);
      DivModUndo(q - 1, n + r - k, n);
    }
  }
}
