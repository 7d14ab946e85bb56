/** Integer facts the page arithmetic needs and the solver does not find alone. */
module Arith {

  /** Multiplying by a non-negative factor keeps the order. */
  lemma MulMono(q: int, a: int, b: int)
    requires q >= 0 && a <= b
    ensures q * a <= q * b
  {
  }

  /** Euclidean division by a positive divisor: quotient, remainder and their recombination. */
  lemma DivMod(k: nat, d: int)
    requires d > 0
    ensures k / d >= 0 && 0 <= k % d < d
    ensures (k / d) * d + k % d == k
  {
  }
}
