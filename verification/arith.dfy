/** Arithmetic shared by the grid, the ant and the metrics: the absolute value of an
    offset and the sign facts about a product of reals that the probability and
    score proofs reduce to. */
module Arith {

  function Abs(x: int): nat {
    if x < 0 then -x else x
  }

  /** Dividing by a non-zero t and multiplying back gives p. */
  lemma Quotient(p: real, t: real)
    requires t != 0.0
    ensures (p / t) * t == p
  {
  }

  /** A positive product with a positive factor has a positive other factor. */
  lemma PositiveFactor(x: real, t: real)
    requires t > 0.0 && x * t > 0.0
    ensures x > 0.0
  {
  }

  /** A non-positive product with a positive factor has a non-positive other factor. */
  lemma NonPositiveFactor(x: real, t: real)
    requires t > 0.0 && x * t <= 0.0
    ensures x <= 0.0
  {
  }

  /** The product of two positive reals is positive. */
  lemma MulPositive(x: real, y: real)
    requires x > 0.0 && y > 0.0
    ensures x * y > 0.0
  {
  }
}
