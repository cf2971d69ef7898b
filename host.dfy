/** What the browser hands to both game engines: the keys of `keydown`
    events and draws of `Math.random()`. */
module Host {

  /** The `e.key` values the engines react to; every other key is `OtherKey`. */
  datatype Key = ArrowUp | ArrowDown | ArrowLeft | ArrowRight | OtherKey

  /** A draw of `Math.random()`: a number in the half-open interval [0, 1). */
  predicate IsRandom(r: real) {
    0.0 <= r < 1.0
  }

  /** `Math.floor(r * n)` for a draw `r`: a uniformly chosen index below `n`
      (exact real arithmetic stands in for the double-precision product). */
  function ScaledFloor(r: real, n: nat): (k: int)
    requires IsRandom(r) && n > 0
    ensures 0 <= k < n
  {
    assert r * (n as real) < n as real by {
      assert (1.0 - r) * (n as real) > 0.0;
    }
    (r * (n as real)).Floor
  }
}
