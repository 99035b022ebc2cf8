/** Facts about products and Euclidean division by a variable, each proved from linear steps. */
module Arith {
  lemma {:induction false} MulNonneg(k: int, c: int)
    requires k >= 0 && c >= 0
    ensures k * c >= 0
  {
    if k > 0 {
      MulNonneg(k - 1, c);
      assert k * c == (k - 1) * c + c;
    }
  }

  lemma MulAtLeast(k: int, c: int)
    requires k >= 0 && c >= 1
    ensures k <= k * c
  {
    MulNonneg(k, c - 1);
    assert k * c == k * (c - 1) + k;
  }

  lemma MulBounds(k: int, c: int)
    requires c >= 1
    ensures k >= 1 ==> k * c >= c
    ensures k <= -1 ==> k * c <= -c
  {
    if k >= 1 {
      MulNonneg(k - 1, c);
      assert k * c == (k - 1) * c + c;
    } else if k <= -1 {
      MulNonneg(-k - 1, c);
      assert k * c == -((-k - 1) * c) - c;
    }
  }

  /** Quotient and remainder are the only such pair. */
  lemma DivUnique(x: int, c: int, d: int, m: int)
    requires c >= 1 && 0 <= m < c && x == d * c + m
    ensures x / c == d && x % c == m
  {
    var d' := x / c;
    var m' := x % c;
    assert x == d' * c + m';
    assert (d - d') * c == m' - m;
    MulBounds(d - d', c);
  }

  lemma DivAtMost(x: int, c: int)
    requires x >= 0 && c >= 1
    ensures 0 <= x / c <= x
  {
    MulAtLeast(x / c, c);
  }

  /** `k * c` grows with `k`. */
  lemma MulMonotone(j: int, k: int, c: int)
    requires 0 <= j <= k && c >= 0
    ensures j * c <= k * c
  {
    MulNonneg(k - j, c);
    assert k * c == j * c + (k - j) * c;
  }
}
