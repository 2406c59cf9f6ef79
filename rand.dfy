/**
  * `Math.floor(Math.random() * n)`, the one way the application turns a
  * random number into a choice. `Math.random()` is not modelled: its value
  * is a parameter `r` with `0 <= r < 1`, supplied by the caller.
  */
module Rand {

  /** A random index into a range of `n` values. */
  function RandomIndex(r: real, n: nat): (j: nat)
    requires 0.0 <= r < 1.0 && n > 0
    ensures j < n
  {
    var x := r * n as real;
    assert 0.0 <= x < n as real by {
      assert (1.0 - r) * n as real > 0.0;
    }
    x.Floor
  }

  /** Every index is reachable: the random number `j / n` picks index `j`. */
  lemma RandomIndexReaches(j: nat, n: nat)
    requires j < n
    ensures 0.0 <= j as real / n as real < 1.0
    ensures RandomIndex(j as real / n as real, n) == j
  {
    assert (j as real / n as real) * n as real == j as real;
  }
}
