/** C's lround over the reals: to the nearest integer, halves away from zero. */
module Rounding {

  function LRound(r: real): int {
    if r >= 0.0 then (r + 0.5).Floor else -((-r + 0.5).Floor)
  }

  lemma LRoundOfInt(n: int)
    ensures LRound(n as real) == n
  {
  }

  lemma LRoundNearest(r: real)
    ensures -0.5 <= LRound(r) as real - r <= 0.5
  {
  }

  /** Halves go away from zero. */
  lemma LRoundHalves(r: real)
    requires LRound(r) as real - r == 0.5 || r - LRound(r) as real == 0.5
    ensures r > 0.0 ==> LRound(r) as real > r
    ensures r < 0.0 ==> LRound(r) as real < r
  {
  }

  lemma LRoundBounds(r: real, lo: int, hi: int)
    requires lo as real <= r <= hi as real
    ensures lo <= LRound(r) <= hi
  {
  }
}
