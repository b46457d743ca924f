/** The first revision of simulated annealing (Scripts/SimulatedAnnealing.ts),
    with the same floor test and cooling schedule as the later ones. */
module ScriptsAnnealing {
  import opened Search
  import opened Annealing

  /** Simulated annealing (Scripts/SimulatedAnnealing.ts:5-86). `exp` stands
      for `Math.pow(Math.E, ·)`; the class's private `getRandomInt`,
      `isProbabilityMet` and `getRandomNeighbor` (lines 63-78) are the shared
      random helpers. */
  class SimulatedAnnealing<S> {
    var state: S
    const heuristic: S -> int
    const expand: S -> seq<S>
    var isCompleted: bool
    var minTemperature: real
    var temperature: real
    var iterationCount: nat
    var initTemperature: real
    const exp: real -> real

    /** The temperature follows the schedule; the last working step, if any,
        started above the floor; a completed search is at or below it. */
    ghost predicate Valid()
      reads this
    {
      && temperature == TemperatureAfter(initTemperature, iterationCount)
      && (iterationCount > 0 ==> TemperatureAfter(initTemperature, iterationCount - 1) > minTemperature)
      && (isCompleted ==> temperature <= minTemperature)
    }

    constructor (state: S, heuristic: S -> int, expand: S -> seq<S>, temperature: real, minTemperature: real,
                 exp: real -> real)
      ensures this.state == state && this.heuristic == heuristic && this.expand == expand && this.exp == exp
      ensures initTemperature == temperature && this.temperature == temperature
      ensures this.minTemperature == minTemperature && iterationCount == 0
      ensures !isCompleted && Valid()
    {
      this.state := state;
      this.heuristic := heuristic;
      this.expand := expand;
      isCompleted := false;
      iterationCount := 0;
      initTemperature := temperature;
      this.temperature := temperature;
      this.minTemperature := minTemperature;
      this.exp := exp;
    }

    /** One step: at or below the floor, complete and change nothing else;
        otherwise cool to `initTemperature / iterationCount` and make the
        annealing move. */
    method IterateOnce(rng: Random) returns (r: Result<S>)
      requires Valid()
      modifies this, rng
      ensures Valid()
      ensures minTemperature == old(minTemperature) && initTemperature == old(initTemperature)
      ensures old(temperature) <= minTemperature ==>
        && isCompleted && state == old(state) && temperature == old(temperature)
        && iterationCount == old(iterationCount) && rng.next == old(rng.next) && r == Success(state)
      ensures old(temperature) > minTemperature ==>
        && iterationCount == old(iterationCount) + 1
        && temperature == initTemperature / iterationCount as real
        && (0.0 <= initTemperature ==> temperature <= old(temperature))
        && isCompleted == old(isCompleted)
        && var m := AnnealMove(heuristic, exp, temperature, old(state), expand(old(state)), rng.draw, old(rng.next));
          && (m.Failure? ==> r == Failure(m.error) && state == old(state) && rng.next == old(rng.next) + 1)
          && (m.Success? ==> r == Success(state) && state == m.value.state && rng.next == m.value.next)
    {
      if temperature <= minTemperature {
        isCompleted := true;
        return Success(state);
      }
      iterationCount := iterationCount + 1;
      temperature := initTemperature / iterationCount as real;
      if 0.0 <= initTemperature {
        CoolingIsNonIncreasing(initTemperature, iterationCount - 1, iterationCount);
      }
      r := WorkingStep(rng);
    }

    /** The working step after cooling (Scripts/SimulatedAnnealing.ts:36-60): the move `AnnealMove`
        describes at the new temperature. */
    method WorkingStep(rng: Random) returns (r: Result<S>)
      modifies this`state, rng
      ensures var m := AnnealMove(heuristic, exp, temperature, old(state), expand(old(state)), rng.draw, old(rng.next));
        && (m.Failure? ==> r == Failure(m.error) && state == old(state) && rng.next == old(rng.next) + 1)
        && (m.Success? ==> r == Success(state) && state == m.value.state && rng.next == m.value.next)
    {
      ghost var ns := expand(state);
      ghost var k := rng.next;
      ghost var m := AnnealMove(heuristic, exp, temperature, state, ns, rng.draw, k);
      var currentStateEvaluation := heuristic(state);
      var randomNeighbor := GetRandomNeighbor(expand, state, rng);
      if randomNeighbor.None? {
        assert m == Failure(NoNeighbor);
        return Failure(NoNeighbor);
      }
      assert randomNeighbor.value == ns[RandomInt(|ns|, rng.draw(k))];
      var randomNeighborEvaluation := heuristic(randomNeighbor.value);
      var de := randomNeighborEvaluation - currentStateEvaluation;
      if de > 0 {
        state := randomNeighbor.value;
        assert m == Success(Move(state, k + 1));
      } else {
        var probability := AcceptanceProbability(exp, de, temperature);
        var met := IsProbabilityMet(rng, probability);
        if met {
          state := randomNeighbor.value;
        }
        assert m == Success(Move(state, k + 2));
      }
      r := Success(state);
    }

    /** `completeSearch` (Scripts/SimulatedAnnealing.ts:80-85): it stops when the floor is positive
        or already reached, after exactly `ceil(initTemperature /
        minTemperature)` working steps from a fresh search with
        `initTemperature > minTemperature > 0`. */
    method CompleteSearch(rng: Random) returns (r: Result<S>)
      requires Valid()
      requires isCompleted || temperature <= minTemperature || minTemperature > 0.0
      modifies this, rng
      ensures Valid()
      ensures minTemperature == old(minTemperature) && initTemperature == old(initTemperature)
      ensures r.Success? ==> isCompleted && r.value == state
      ensures r.Failure? ==> r.error == NoNeighbor && !isCompleted
      ensures r.Success? && 0.0 < minTemperature < initTemperature ==>
        iterationCount == WorkingSteps(initTemperature, minTemperature)
    {
      while !isCompleted
        invariant Valid()
        invariant minTemperature == old(minTemperature) && initTemperature == old(initTemperature)
        invariant isCompleted || temperature <= minTemperature || minTemperature > 0.0
        decreases if isCompleted then 0 else if temperature <= minTemperature then 1
          else 2 + (if 0.0 < minTemperature < initTemperature && iterationCount < WorkingSteps(initTemperature, minTemperature)
                    then WorkingSteps(initTemperature, minTemperature) - iterationCount else 0)
      {
        if temperature > minTemperature {
          AboveFloorLeavesWorkingSteps(initTemperature, minTemperature, iterationCount);
        }
        var step := IterateOnce(rng);
        if step.Failure? {
          return step;
        }
      }
      if 0.0 < minTemperature < initTemperature {
        StepsTakenAtFloor(initTemperature, minTemperature, iterationCount);
      }
      r := Success(state);
    }
  }
}
