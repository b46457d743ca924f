/** The earlier single-file revision of the library (HCL.ts). Its
    constructors check nothing; its first-choice search draws with
    replacement; its random-restart wrapper tests the method reference
    `getIsCompleted`, which is always truthy, instead of calling it. */
module Hcl {
  import opened Search
  import opened Steepest
  import opened Sampling
  import opened Annealing

  /** Steepest-ascent hill climbing (HCL.ts:120-159), with the neighbour scan
      written out in `iterateOnce`. */
  class HillClimbing<S(!new)> {
    var state: S
    const heuristic: S -> int
    const expand: S -> seq<S>
    var isCompleted: bool

    /** A completed search sits on a state no neighbour strictly beats. */
    ghost predicate Valid()
      reads this
    {
      isCompleted ==> BestImproving(heuristic, state, expand(state)).None?
    }

    constructor (state: S, heuristic: S -> int, expand: S -> seq<S>)
      ensures this.state == state && this.heuristic == heuristic && this.expand == expand
      ensures !isCompleted && Valid()
    {
      this.state := state;
      this.heuristic := heuristic;
      this.expand := expand;
      isCompleted := false;
    }

    /** One step: scan the neighbours in order, keep the first one of
        strictly highest score above the current one, and move there; with
        none, complete with the state unchanged. */
    method IterateOnce() returns (r: S)
      requires Valid()
      modifies this
      ensures Valid()
      ensures var next := BestImproving(heuristic, old(state), expand(old(state)));
        && (next.None? ==> state == old(state) && isCompleted)
        && (next.Some? ==> state == next.value && heuristic(state) > heuristic(old(state)) && isCompleted == old(isCompleted))
      ensures old(isCompleted) ==> isCompleted && state == old(state)
      ensures r == state
    {
      var currentState := state;
      var nextState: Option<S> := None;
      var startStateEvaluation := heuristic(currentState);
      var max := startStateEvaluation;
      var neighbors := expand(currentState);
      ghost var best: Option<nat> := None;
      for i := 0 to |neighbors|
        invariant best.Some? ==> best.value < i && heuristic(neighbors[best.value]) == max
        invariant nextState == if best.None? then None else Some(neighbors[best.value])
        invariant ScanBest(heuristic, neighbors, i, max, best) == FirstBest(heuristic, startStateEvaluation, neighbors)
      {
        var evaluation := heuristic(neighbors[i]);
        if evaluation > max {
          max := evaluation;
          nextState := Some(neighbors[i]);
          best := Some(i);
        }
      }
      if nextState.None? {
        isCompleted := true;
      } else {
        state := nextState.value;
      }
      r := state;
    }

    /** `completeSearch` (HCL.ts:46-51): iterate until completed; the model
        asks for an upper bound on the heuristic so that the climb stops. */
    method CompleteSearch(ghost bound: int) returns (r: S)
      requires Valid()
      requires forall s :: heuristic(s) <= bound
      modifies this
      ensures Valid() && isCompleted && r == state
      ensures state == Summit(heuristic, expand, old(state), bound)
    {
      while !isCompleted
        invariant Valid()
        invariant Summit(heuristic, expand, state, bound) == Summit(heuristic, expand, old(state), bound)
        decreases if isCompleted then 0 else 1, bound - heuristic(state)
      {
        var s := IterateOnce();
      }
      r := state;
    }
  }

  /** The run `completeSearch` of this revision's first-choice search performs
      in at most `fuel` steps: the state, the completion flag and the next
      unused draw. */
  function FirstChoiceRun<S>(h: S -> int, expand: S -> seq<S>, s: S, done: bool,
                             draw: nat -> Uniform, k: nat, fuel: nat): (r: (S, bool, nat))
    ensures h(r.0) >= h(s)
    ensures r.2 >= k
    ensures done ==> r == (s, done, k)
    decreases fuel
  {
    if done || fuel == 0 then (s, done, k)
    else
      var ns := expand(s);
      var d := DrawWithReplacement(h, h(s), ns, |ns|, draw, k);
      DrawWithReplacementSpec(h, h(s), ns, |ns|, draw, k);
      FirstChoiceRun(h, expand, if d.adopted.Some? then d.adopted.value else s, d.adopted.None?, draw, d.next, fuel - 1)
  }

  /** First-choice hill climbing (HCL.ts:165-200). */
  class FirstChoiceHillClimbing<S> {
    var state: S
    const heuristic: S -> int
    const expand: S -> seq<S>
    var isCompleted: bool

    constructor (state: S, heuristic: S -> int, expand: S -> seq<S>)
      ensures this.state == state && this.heuristic == heuristic && this.expand == expand
      ensures !isCompleted
    {
      this.state := state;
      this.heuristic := heuristic;
      this.expand := expand;
      isCompleted := false;
    }

    /** One step: as many draws as the state has neighbours, each from the
        full neighbour list again; adopt the first scoring at least the
        current score, or complete with the state unchanged. */
    method IterateOnce(rng: Random) returns (r: S)
      modifies this, rng
      ensures var ns := expand(old(state));
        var d := DrawWithReplacement(heuristic, heuristic(old(state)), ns, |ns|, rng.draw, old(rng.next));
        && rng.next == d.next
        && (d.adopted.None? ==> state == old(state) && isCompleted)
        && (d.adopted.Some? ==> state == d.adopted.value && isCompleted == old(isCompleted))
      ensures heuristic(state) >= heuristic(old(state))
      ensures state == old(state) || state in expand(old(state))
      ensures r == state
    {
      var startStateEvaluation := heuristic(state);
      var remainingIterations := |expand(state)|;
      ghost var ns := expand(state);
      ghost var whole := DrawWithReplacement(heuristic, startStateEvaluation, ns, remainingIterations, rng.draw, rng.next);
      while true
        invariant 0 <= remainingIterations <= |ns| && ns == expand(state)
        invariant state == old(state) && isCompleted == old(isCompleted)
        invariant Ends(whole, DrawWithReplacement(heuristic, startStateEvaluation, ns, remainingIterations, rng.draw, rng.next))
        decreases remainingIterations
      {
        if remainingIterations <= 0 {
          isCompleted := true;
          return state;
        }
        remainingIterations := remainingIterations - 1;
        DrawWithReplacementStep(heuristic, startStateEvaluation, ns, remainingIterations + 1, rng.draw, rng.next);
        var randomNeighbor := GetAndRemoveRandomNeighbor(expand, state, rng);
        var randomNeighborEvaluation := heuristic(randomNeighbor.value);
        if !(randomNeighborEvaluation < startStateEvaluation) {
          state := randomNeighbor.value;
          return state;
        }
      }
    }

    /** `completeSearch` (HCL.ts:46-51). Ties are adopted, so the source's
        loop can run forever on a plateau; the model stops after `fuel`
        steps. */
    method CompleteSearch(rng: Random, fuel: nat) returns (r: S)
      modifies this, rng
      ensures (state, isCompleted, rng.next)
        == FirstChoiceRun(heuristic, expand, old(state), old(isCompleted), rng.draw, old(rng.next), fuel)
      ensures r == state
    {
      var remaining := fuel;
      while !isCompleted && remaining > 0
        invariant FirstChoiceRun(heuristic, expand, state, isCompleted, rng.draw, rng.next, remaining)
          == FirstChoiceRun(heuristic, expand, old(state), old(isCompleted), rng.draw, old(rng.next), fuel)
        decreases remaining
      {
        var s := IterateOnce(rng);
        remaining := remaining - 1;
      }
      r := state;
    }
  }

  /** The restart budget and completion flag after one call of
      `iterateOnce`: a restart on every call while the budget is not
      negative, completion once a call leaves the budget at zero. */
  function RestartBudgetStep(remaining: int, completed: bool): (r: (int, bool))
    ensures remaining >= 0 ==> r.0 == remaining - 1
    ensures remaining < 0 ==> r == (remaining, completed)
    ensures completed ==> r.1
    ensures r.1 && !completed ==> r.0 == 0
  {
    var left := if remaining >= 0 then remaining - 1 else remaining;
    (left, completed || left == 0)
  }

  /** The restart budget and completion flag after `k` calls on a wrapper
      built with budget `n`. */
  function RestartBudgetAfter(n: int, k: nat): (r: (int, bool))
    ensures -1 <= n ==> -1 <= r.0
    ensures r.0 <= n
    ensures r.1 ==> n >= 1
  {
    if k == 0 then (n, false)
    else
      var before := RestartBudgetAfter(n, k - 1);
      RestartBudgetStep(before.0, before.1)
  }

  /** With a budget of N >= 1 the wrapper completes on exactly the N-th call,
      and one more call drives the budget to -1; with N = 0 the first call
      drives it to -1 and the wrapper never completes; with N < 0 nothing
      ever happens to the budget. */
  lemma {:induction false} RestartBudgetCompletesOnNthCall(n: int, k: nat)
    ensures n >= 1 ==> (RestartBudgetAfter(n, k).1 <==> k >= n)
    ensures n >= 1 ==> RestartBudgetAfter(n, k).0 == if k <= n then n - k else -1
    ensures n == 0 && k >= 1 ==> RestartBudgetAfter(n, k) == (-1, false)
    ensures n < 0 ==> RestartBudgetAfter(n, k) == (n, false)
  {
    if k > 0 {
      RestartBudgetCompletesOnNthCall(n, k - 1);
    }
  }

  /** Random-restart hill climbing (HCL.ts:205-249). The constructor assigns
      neither the wrapper's `state` nor its `isCompleted`: the state stays
      `undefined` (None) and the flag starts falsy. The wrapper's own
      `heuristic` is neither assigned nor read and is not modelled. */
  class RandomRestartHillClimbing<S(!new)> {
    var state: Option<S>
    var isCompleted: bool
    var bestState: Option<S>
    var remainingRestarts: int
    var hillClimbing: HillClimbing<S>
    const createRandomState: Uniform -> S
    const expand: S -> seq<S>

    ghost predicate Valid()
      reads this, hillClimbing
    {
      hillClimbing.expand == expand && hillClimbing.Valid()
    }

    constructor (state: S, heuristic: S -> int, expand: S -> seq<S>, restarts: int, createRandomState: Uniform -> S)
      ensures this.state.None? && !isCompleted && bestState.None? && remainingRestarts == restarts
      ensures this.expand == expand && this.createRandomState == createRandomState
      ensures fresh(hillClimbing) && hillClimbing.state == state && hillClimbing.heuristic == heuristic
      ensures !hillClimbing.isCompleted && Valid()
    {
      this.state := None;
      isCompleted := false;
      bestState := None;
      hillClimbing := new HillClimbing(state, heuristic, expand);
      remainingRestarts := restarts;
      this.createRandomState := createRandomState;
      this.expand := expand;
    }

    /** One step: restart the inner search from a random state whenever the
        budget is not negative, step the inner search, and complete once the
        budget is zero. */
    method IterateOnce(rng: Random) returns (r: S)
      requires Valid()
      modifies this, hillClimbing, rng
      ensures Valid()
      ensures state == old(state) && hillClimbing.heuristic == old(hillClimbing.heuristic)
      ensures (remainingRestarts, isCompleted) == RestartBudgetStep(old(remainingRestarts), old(isCompleted))
      ensures var restarted := old(remainingRestarts) >= 0;
        var start := if restarted then createRandomState(rng.draw(old(rng.next))) else old(hillClimbing.state);
        var climbed := BestImproving(hillClimbing.heuristic, start, expand(start));
        && (restarted ==> fresh(hillClimbing) && rng.next == old(rng.next) + 1)
        && (!restarted ==> hillClimbing == old(hillClimbing) && rng.next == old(rng.next))
        && hillClimbing.state == (if climbed.Some? then climbed.value else start)
        && hillClimbing.isCompleted == ((!restarted && old(hillClimbing.isCompleted)) || climbed.None?)
      ensures bestState == old(bestState) || bestState == state
      ensures old(bestState).None? && old(remainingRestarts) >= 0 ==> bestState == state
      ensures r == hillClimbing.state
    {
      // `this.hillClimbing.getIsCompleted` names the method without calling
      // it, so that half of the test is always true
      if remainingRestarts >= 0 {
        // restart search
        var u := rng.Next();
        hillClimbing := new HillClimbing(createRandomState(u), hillClimbing.heuristic, expand);
        remainingRestarts := remainingRestarts - 1;
        // record best state
        if bestState.None? {
          bestState := state;
        } else if state.Some? && hillClimbing.heuristic(state.value) > hillClimbing.heuristic(bestState.value) {
          bestState := state;
        }
      }
      var s := hillClimbing.IterateOnce();
      if remainingRestarts == 0 {
        isCompleted := true;
      }
      r := s;
    }

    /** `completeSearch` (HCL.ts:46-51). It stops only if some call leaves the
        budget at zero, so the model asks for a budget of at least one. It
        returns the wrapper's own state, which is absent. */
    method CompleteSearch(rng: Random) returns (r: Option<S>)
      requires Valid()
      requires isCompleted || remainingRestarts >= 1
      modifies this, hillClimbing, rng
      ensures Valid() && isCompleted
      ensures r == state && state == old(state)
      ensures !old(isCompleted) ==> remainingRestarts == 0
      ensures bestState == old(bestState) || bestState == state
    {
      while !isCompleted
        invariant Valid()
        invariant isCompleted || remainingRestarts >= 1
        invariant hillClimbing == old(hillClimbing) || fresh(hillClimbing)
        invariant state == old(state)
        invariant !old(isCompleted) && isCompleted ==> remainingRestarts == 0
        invariant bestState == old(bestState) || bestState == state
        decreases if isCompleted then 0 else remainingRestarts
      {
        var s := IterateOnce(rng);
      }
      r := state;
    }
  }

  /** Simulated annealing (HCL.ts:259-316). `exp` stands for
      `Math.pow(Math.E, ·)`. */
  class SimulatedAnnealing<S> {
    var state: S
    const heuristic: S -> int
    const expand: S -> seq<S>
    var isCompleted: bool
    var minTemperature: real
    var temperature: real
    var iterationCount: nat
    var initTemperature: real
    const exp: real -> real

    /** The temperature follows the schedule; the last working step, if any,
        started above the floor; a completed search is at or below it. */
    ghost predicate Valid()
      reads this
    {
      && temperature == TemperatureAfter(initTemperature, iterationCount)
      && (iterationCount > 0 ==> TemperatureAfter(initTemperature, iterationCount - 1) > minTemperature)
      && (isCompleted ==> temperature <= minTemperature)
    }

    constructor (state: S, heuristic: S -> int, expand: S -> seq<S>, temperature: real, minTemperature: real,
                 exp: real -> real)
      ensures this.state == state && this.heuristic == heuristic && this.expand == expand && this.exp == exp
      ensures initTemperature == temperature && this.temperature == temperature
      ensures this.minTemperature == minTemperature && iterationCount == 0
      ensures !isCompleted && Valid()
    {
      this.state := state;
      this.heuristic := heuristic;
      this.expand := expand;
      isCompleted := false;
      iterationCount := 0;
      initTemperature := temperature;
      this.temperature := temperature;
      this.minTemperature := minTemperature;
      this.exp := exp;
    }

    /** One step: at or below the floor, complete and change nothing else;
        otherwise cool to `initTemperature / iterationCount` and make the
        annealing move. */
    method IterateOnce(rng: Random) returns (r: Result<S>)
      requires Valid()
      modifies this, rng
      ensures Valid()
      ensures minTemperature == old(minTemperature) && initTemperature == old(initTemperature)
      ensures old(temperature) <= minTemperature ==>
        && isCompleted && state == old(state) && temperature == old(temperature)
        && iterationCount == old(iterationCount) && rng.next == old(rng.next) && r == Success(state)
      ensures old(temperature) > minTemperature ==>
        && iterationCount == old(iterationCount) + 1
        && temperature == initTemperature / iterationCount as real
        && (0.0 <= initTemperature ==> temperature <= old(temperature))
        && isCompleted == old(isCompleted)
        && var m := AnnealMove(heuristic, exp, temperature, old(state), expand(old(state)), rng.draw, old(rng.next));
          && (m.Failure? ==> r == Failure(m.error) && state == old(state) && rng.next == old(rng.next) + 1)
          && (m.Success? ==> r == Success(state) && state == m.value.state && rng.next == m.value.next)
    {
      if temperature <= minTemperature {
        isCompleted := true;
        return Success(state);
      }
      iterationCount := iterationCount + 1;
      temperature := initTemperature / iterationCount as real;
      if 0.0 <= initTemperature {
        CoolingIsNonIncreasing(initTemperature, iterationCount - 1, iterationCount);
      }
      r := WorkingStep(rng);
    }

    /** The working step after cooling (HCL.ts:290-314): the move `AnnealMove`
        describes at the new temperature. */
    method WorkingStep(rng: Random) returns (r: Result<S>)
      modifies this`state, rng
      ensures var m := AnnealMove(heuristic, exp, temperature, old(state), expand(old(state)), rng.draw, old(rng.next));
        && (m.Failure? ==> r == Failure(m.error) && state == old(state) && rng.next == old(rng.next) + 1)
        && (m.Success? ==> r == Success(state) && state == m.value.state && rng.next == m.value.next)
    {
      ghost var ns := expand(state);
      ghost var k := rng.next;
      ghost var m := AnnealMove(heuristic, exp, temperature, state, ns, rng.draw, k);
      var currentStateEvaluation := heuristic(state);
      var randomNeighbor := GetRandomNeighbor(expand, state, rng);
      if randomNeighbor.None? {
        assert m == Failure(NoNeighbor);
        return Failure(NoNeighbor);
      }
      assert randomNeighbor.value == ns[RandomInt(|ns|, rng.draw(k))];
      var randomNeighborEvaluation := heuristic(randomNeighbor.value);
      var de := randomNeighborEvaluation - currentStateEvaluation;
      if de > 0 {
        state := randomNeighbor.value;
        assert m == Success(Move(state, k + 1));
      } else {
        var probability := AcceptanceProbability(exp, de, temperature);
        var met := IsProbabilityMet(rng, probability);
        if met {
          state := randomNeighbor.value;
        }
        assert m == Success(Move(state, k + 2));
      }
      r := Success(state);
    }

    /** `completeSearch` (HCL.ts:46-51): it stops when the floor is positive
        or already reached, after exactly `ceil(initTemperature /
        minTemperature)` working steps from a fresh search with
        `initTemperature > minTemperature > 0`. */
    method CompleteSearch(rng: Random) returns (r: Result<S>)
      requires Valid()
      requires isCompleted || temperature <= minTemperature || minTemperature > 0.0
      modifies this, rng
      ensures Valid()
      ensures minTemperature == old(minTemperature) && initTemperature == old(initTemperature)
      ensures r.Success? ==> isCompleted && r.value == state
      ensures r.Failure? ==> r.error == NoNeighbor && !isCompleted
      ensures r.Success? && 0.0 < minTemperature < initTemperature ==>
        iterationCount == WorkingSteps(initTemperature, minTemperature)
    {
      while !isCompleted
        invariant Valid()
        invariant minTemperature == old(minTemperature) && initTemperature == old(initTemperature)
        invariant isCompleted || temperature <= minTemperature || minTemperature > 0.0
        decreases if isCompleted then 0 else if temperature <= minTemperature then 1
          else 2 + (if 0.0 < minTemperature < initTemperature && iterationCount < WorkingSteps(initTemperature, minTemperature)
                    then WorkingSteps(initTemperature, minTemperature) - iterationCount else 0)
      {
        if temperature > minTemperature {
          AboveFloorLeavesWorkingSteps(initTemperature, minTemperature, iterationCount);
        }
        var step := IterateOnce(rng);
        if step.Failure? {
          return step;
        }
      }
      if 0.0 < minTemperature < initTemperature {
        StepsTakenAtFloor(initTemperature, minTemperature, iterationCount);
      }
      r := Success(state);
    }
  }
}
