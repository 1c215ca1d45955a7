/** Facts about real arithmetic that the percentile and mean proofs share. */
module Arith {

  /** A real whose product with a positive real is not negative is not negative. */
  lemma NonNegativeFactor(x: real, t: real)
    requires t > 0.0 && x * t >= 0.0
    ensures x >= 0.0
  {
  }
}
