/** Shared vocabulary of the local-search library: optional values, the
    errors an iteration can raise, and the injected random source that stands
    for `Math.random`. */
module Search {

  datatype Option<T> = None | Some(value: T)

  /** Why a construction or an iteration did not produce a state. */
  datatype Error =
    | InvalidState       // "State should be a valid instance"
    | InvalidHeuristic   // "Heuristic should be a valid instance"
    | NoNeighbor         // a missing neighbour was handed to the heuristic

  datatype Result<T> = Success(value: T) | Failure(error: Error)

  /** A number drawn uniformly from [0, 1), as `Math.random()` returns. */
  type Uniform = u: real | 0.0 <= u < 1.0 witness 0.0

  /** The process-wide random source, made explicit: a fixed stream of draws
      and a cursor saying how many of them have been used. */
  class Random {
    const draw: nat -> Uniform
    var next: nat

    constructor (draw: nat -> Uniform)
      ensures this.draw == draw && next == 0
    {
      this.draw := draw;
      next := 0;
    }

    /** `Math.random()`: hands out the next draw of the stream. */
    method Next() returns (u: Uniform)
      modifies this
      ensures u == draw(old(next)) && next == old(next) + 1
    {
      u := draw(next);
      next := next + 1;
    }
  }

  /** `Math.floor(u * max)`: the index `getRandomInt(max)` returns once
      `Math.random()` has produced `u`. */
  function RandomInt(max: nat, u: Uniform): (i: nat)
    ensures max > 0 ==> i < max
    ensures max == 0 ==> i == 0
  {
    var x := u * max as real;
    assert 0.0 <= x;
    assert max > 0 ==> x < max as real;
    x.Floor
  }

  /** Every index below `max` is drawn for some `u`: the oracle can pick any
      neighbour. */
  lemma RandomIntReachesEveryIndex(max: nat, i: nat)
    requires i < max
    ensures RandomInt(max, i as real / max as real) == i
  {
    var u := i as real / max as real;
    assert u * max as real == i as real;
  }

  /** `getRandomInt(max)` (src/sisyphos.ts:368-370): consumes one draw. */
  method GetRandomInt(rng: Random, max: nat) returns (i: nat)
    modifies rng
    ensures rng.next == old(rng.next) + 1
    ensures i == RandomInt(max, rng.draw(old(rng.next)))
    ensures max > 0 ==> i < max
  {
    var u := rng.Next();
    i := RandomInt(max, u);
  }

  /** `probability > Math.random()` once `Math.random()` has produced `u`. */
  function ProbabilityMet(probability: real, u: Uniform): (met: bool)
    ensures probability <= 0.0 ==> !met
    ensures probability >= 1.0 ==> met
  {
    probability > u
  }

  /** `isProbabilityMet(probability)` (src/sisyphos.ts:375-377): consumes one draw. */
  method IsProbabilityMet(rng: Random, probability: real) returns (met: bool)
    modifies rng
    ensures rng.next == old(rng.next) + 1
    ensures met == ProbabilityMet(probability, rng.draw(old(rng.next)))
  {
    var u := rng.Next();
    met := ProbabilityMet(probability, u);
  }

  /** `getRandomNeighbor` (src/sisyphos.ts:122-129): the neighbour at a random
      position of `expand(state)`; with no neighbours the position 0 is out of
      range and the source gets `undefined` (None). */
  method GetRandomNeighbor<S>(expand: S -> seq<S>, state: S, rng: Random) returns (r: Option<S>)
    modifies rng
    ensures rng.next == old(rng.next) + 1
    ensures var ns := expand(state);
      r == if |ns| == 0 then None else Some(ns[RandomInt(|ns|, rng.draw(old(rng.next)))])
  {
    var neighbors := expand(state);
    var randomIndex := GetRandomInt(rng, |neighbors|);
    r := if randomIndex < |neighbors| then Some(neighbors[randomIndex]) else None;
  }
}
