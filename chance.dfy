/**
 * The engines' only external dependency is `Math.random()`. Every draw is
 * passed in explicitly as a real number in [0, 1), which covers any value
 * the generator could return. Which values are drawn, and how often, is left
 * to the caller; the engines only rely on each draw lying in that interval.
 */
module Chance {

  /** A value `Math.random()` can return. */
  predicate IsDraw(u: real) {
    0.0 <= u < 1.0
  }

  /** An endless random source: the k-th call of `Math.random()` returns `source(k)`. */
  ghost predicate IsSource(source: nat -> real) {
    forall k: nat :: IsDraw(source(k))
  }

  /** `Math.floor(u * n)`: the choice a draw selects among n alternatives. */
  function Pick(u: real, n: nat): (k: nat)
    requires IsDraw(u) && n > 0
    ensures k < n
  {
    var x := u * (n as real);
    // x is below n because (1 - u) * n is positive
    assert x + (1.0 - u) * (n as real) == n as real;
    assert (1.0 - u) * (n as real) > 0.0;
    x.Floor
  }
}
