/** The seeded generator the grid and the player draw from. Its floating-point core,
    `frac(sin(seed) * 10000)`, is an oracle `sample` given at construction. */
module Random {

  /** A draw in [0, 1). */
  type Unit = r: real | 0.0 <= r < 1.0

  /** randomInt's scaling: floor(u * (max - min + 1)) + min. */
  function Scale(u: Unit, min: int, max: int): (r: int)
    requires min <= max
    ensures min <= r <= max
    ensures u == 0.0 ==> r == min
  {
    var n := (max - min + 1) as real;
    assert u * n < n by {
      assert (1.0 - u) * n > 0.0;
    }
    (u * n).Floor + min
  }

  class SeededRandom {
    /** The next argument for the oracle; every draw advances it by one. */
    var seed: int
    /** Stands for `x - floor(x)` with `x = sin(s) * 10000`. */
    const sample: int -> Unit

    constructor (seed: int, sample: int -> Unit)
      ensures this.seed == seed && this.sample == sample
    {
      this.seed := seed;
      this.sample := sample;
    }

    /** random(): the oracle's value for the current seed, then the seed moves on. */
    method Random() returns (u: Unit)
      modifies this
      ensures u == sample(old(seed)) && seed == old(seed) + 1
    {
      u := sample(seed);
      seed := seed + 1;
    }

    /** randomInt(min, max): an integer in [min, max] from one draw. */
    method RandomInt(min: int, max: int) returns (r: int)
      requires min <= max
      modifies this
      ensures min <= r <= max
      ensures r == Scale(sample(old(seed)), min, max) && seed == old(seed) + 1
    {
      var u := Random();
      r := Scale(u, min, max);
    }
  }
}
