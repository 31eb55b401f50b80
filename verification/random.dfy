/** The random source of the generator.

    `Math.random()` is replaced by an injected stream of natural numbers: the
    k-th draw of a generation run is `draws(k)`. A draw is mapped into the
    half-open range `[a, b)` by taking it modulo `b - a`, which stands for the
    code's `Math.floor(Math.random() * (b - a)) + a`. Every value of the range
    is reachable by some stream, so no outcome of the code is lost. */
module Random {

  /** The k-th draw of a run. */
  type Stream = nat -> nat

  /** `randomNumberBetween(a, b)` on the k-th draw: a value in `[a, b)`. */
  function Between(draws: Stream, k: nat, a: int, b: int): (r: int)
    requires a < b
    ensures a <= r < b
  {
    a + draws(k) % (b - a)
  }

  /** The stream that always draws `v`. */
  function Constant(v: nat): Stream
  {
    _ => v
  }

  /** No value of `[a, b)` is out of reach of the oracle: for each one there
      is a stream whose k-th draw lands on it. */
  lemma BetweenReaches(k: nat, a: int, b: int, v: int)
    requires a <= v < b
    ensures exists s: Stream :: Between(s, k, a, b) == v
  {
    var s := Constant(v - a);
    assert Between(s, k, a, b) == v;
  }
}
