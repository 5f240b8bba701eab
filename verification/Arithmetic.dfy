/** Products as repeated addition. */
module Arithmetic {

  lemma OneMore(k: int, n: int)
    ensures (k + 1) * n == k * n + n
  {
  }
}
