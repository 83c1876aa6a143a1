/** Monotonicity of products, for a factor that is not negative. */
module Arithmetic {

  lemma MulNonneg(m: nat, i: int)
    requires i >= 0
    ensures m * i >= 0
  {
  }

  lemma MulMonotone(m: nat, i: int, j: int)
    requires i <= j
    ensures m * i <= m * j
  {
  }

  lemma MulStep(m: nat, i: int, j: int)
    requires i < j
    ensures m * i + m <= m * j
  {
    MulMonotone(m, i + 1, j);
    assert m * (i + 1) == m * i + m;
  }

  /** Compares a product with one of a constant, whichever is larger. */
  lemma MulCompare(m: nat, i: int, k: int)
    ensures i >= k ==> m * i >= m * k
    ensures i <= k ==> m * i <= m * k
  {
  }
}
