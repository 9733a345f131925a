/**
  The random-number generator as the rest of the model sees it: a seeded generator
  whose every draw is determined by the seed and by the sequence of draws made
  before it. The generator's internals are not modelled; `calls` records the
  draws in the order they were made.
*/
module GslRng {

  /** The kinds of draw the model makes: gsl_rng_get, gsl_rng_uniform and
      gsl_ran_gaussian_ziggurat with standard deviation `sigma`. */
  datatype Draw = GetDraw | UniformDraw | GaussianDraw(sigma: real)

  class Rng {
    /** The seeded behaviour of a real-valued draw, given the draws made before it. */
    const outcome: (seq<Draw>, Draw) -> real
    /** The seeded behaviour of gsl_rng_get, given the draws made before it. */
    const rawOutcome: seq<Draw> -> nat
    /** Every draw made so far, oldest first. */
    var calls: seq<Draw>

    constructor (outcome: (seq<Draw>, Draw) -> real, rawOutcome: seq<Draw> -> nat)
      ensures this.outcome == outcome && this.rawOutcome == rawOutcome
      ensures calls == []
    {
      this.outcome := outcome;
      this.rawOutcome := rawOutcome;
      calls := [];
    }

    /** gsl_rng_get: one raw integer draw. */
    method Get() returns (x: nat)
      modifies this
      ensures calls == old(calls) + [GetDraw]
      ensures x == rawOutcome(old(calls))
    {
      x := rawOutcome(calls);
      calls := calls + [GetDraw];
    }

    /** gsl_rng_uniform: one uniform draw. */
    method Uniform() returns (u: real)
      modifies this
      ensures calls == old(calls) + [UniformDraw]
      ensures u == outcome(old(calls), UniformDraw)
    {
      u := outcome(calls, UniformDraw);
      calls := calls + [UniformDraw];
    }

    /** gsl_ran_gaussian_ziggurat: one Gaussian draw with standard deviation `sigma`. */
    method Gaussian(sigma: real) returns (g: real)
      modifies this
      ensures calls == old(calls) + [GaussianDraw(sigma)]
      ensures g == outcome(old(calls), GaussianDraw(sigma))
    {
      g := outcome(calls, GaussianDraw(sigma));
      calls := calls + [GaussianDraw(sigma)];
    }
  }
}
