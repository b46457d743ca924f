/** The current revision of the library (src/sisyphos.ts): four searches over
    one current state and a one-way completion flag. Each state's neighbours
    come from `expand` and its score from `heuristic`; randomness comes from an
    explicit `Random` stream. */
module Sisyphos {
  import opened Search
  import opened Steepest
  import opened Sampling
  import opened Annealing

  /** The checks of the BaseHillClimbingSearch constructor
      (src/sisyphos.ts:60-66): a missing state is reported before a missing
      heuristic; with both present construction goes ahead. */
  function CheckArguments<S>(state: Option<S>, heuristic: Option<S -> int>): (r: Option<Error>)
    ensures r.None? <==> state.Some? && heuristic.Some?
    ensures state.None? ==> r == Some(InvalidState)
    ensures state.Some? && heuristic.None? ==> r == Some(InvalidHeuristic)
  {
    if state.None? then Some(InvalidState)
    else if heuristic.None? then Some(InvalidHeuristic)
    else None
  }

  /** Steepest-ascent hill climbing (src/sisyphos.ts:162-187). */
  class HillClimbing<S(!new)> {
    var state: S
    const heuristic: S -> int
    const expand: S -> seq<S>
    var isCompleted: bool

    /** A completed search sits on a state no neighbour strictly beats. */
    ghost predicate Valid()
      reads this
    {
      isCompleted ==> BestImproving(heuristic, state, expand(state)).None?
    }

    constructor (state: S, heuristic: S -> int, expand: S -> seq<S>)
      ensures this.state == state && this.heuristic == heuristic && this.expand == expand
      ensures !isCompleted && Valid()
    {
      this.state := state;
      this.heuristic := heuristic;
      this.expand := expand;
      isCompleted := false;
    }

    /** `new HillClimbing(state, heuristic)`, which fails on a missing
        argument (src/sisyphos.ts:56-71, 165-170). */
    static method Create(state: Option<S>, heuristic: Option<S -> int>, expand: S -> seq<S>)
      returns (r: Result<HillClimbing<S>>)
      ensures CheckArguments(state, heuristic).Some? ==> r == Failure(CheckArguments(state, heuristic).value)
      ensures CheckArguments(state, heuristic).None? ==>
        && r.Success? && fresh(r.value) && r.value.Valid() && !r.value.isCompleted
        && r.value.state == state.value && r.value.heuristic == heuristic.value && r.value.expand == expand
    {
      var e := CheckArguments(state, heuristic);
      if e.Some? {
        return Failure(e.value);
      }
      var search := new HillClimbing(state.value, heuristic.value, expand);
      return Success(search);
    }

    /** One step: move to the best strictly improving neighbour, or complete
        with the state unchanged when there is none. */
    method IterateOnce() returns (r: S)
      requires Valid()
      modifies this
      ensures Valid()
      ensures var next := BestImproving(heuristic, old(state), expand(old(state)));
        && (next.None? ==> state == old(state) && isCompleted)
        && (next.Some? ==> state == next.value && heuristic(state) > heuristic(old(state)) && isCompleted == old(isCompleted))
      ensures |expand(old(state))| == 0 ==> state == old(state) && isCompleted
      ensures old(isCompleted) ==> isCompleted && state == old(state)
      ensures r == state
    {
      var nextState := GetBestExpandedState(heuristic, expand, state);
      if nextState.None? {
        isCompleted := true;
      } else {
        state := nextState.value;
      }
      r := state;
    }

    /** `completeSearch` (src/sisyphos.ts:87-93): iterate until completed. The
        source's loop stops only if the climb does; the model asks for an
        upper bound on the heuristic. */
    method CompleteSearch(ghost bound: int) returns (r: S)
      requires Valid()
      requires forall s :: heuristic(s) <= bound
      modifies this
      ensures Valid() && isCompleted && r == state
      ensures state == Summit(heuristic, expand, old(state), bound)
    {
      while !isCompleted
        invariant Valid()
        invariant Summit(heuristic, expand, state, bound) == Summit(heuristic, expand, old(state), bound)
        decreases if isCompleted then 0 else 1, bound - heuristic(state)
      {
        var s := IterateOnce();
      }
      r := state;
    }
  }

  /** The run `completeSearch` of a first-choice search performs in at most
      `fuel` steps: the state, the completion flag and the next unused draw. */
  function FirstChoiceRun<S>(h: S -> int, expand: S -> seq<S>, s: S, done: bool,
                             draw: nat -> Uniform, k: nat, fuel: nat): (r: (S, bool, nat))
    ensures h(r.0) >= h(s)
    ensures r.1 && !done ==> forall n :: n in expand(r.0) ==> h(n) < h(r.0)
    ensures done ==> r == (s, done, k)
    decreases fuel
  {
    if done || fuel == 0 then (s, done, k)
    else
      var d := DrawWithoutReplacement(h, h(s), expand(s), draw, k);
      DrawWithoutReplacementSpec(h, h(s), expand(s), draw, k);
      WithoutReplacementGivesUpIffNoneQualifies(h, h(s), expand(s), draw, k);
      FirstChoiceRun(h, expand, if d.adopted.Some? then d.adopted.value else s, d.adopted.None?, draw, d.next, fuel - 1)
  }

  /** First-choice hill climbing (src/sisyphos.ts:193-232). */
  class FirstChoiceHillClimbing<S> {
    var state: S
    const heuristic: S -> int
    const expand: S -> seq<S>
    var isCompleted: bool

    /** A completed search sits on a state every neighbour of which scores
        strictly less: it gave up after drawing them all. */
    ghost predicate Valid()
      reads this
    {
      isCompleted ==> forall n :: n in expand(state) ==> heuristic(n) < heuristic(state)
    }

    constructor (state: S, heuristic: S -> int, expand: S -> seq<S>)
      ensures this.state == state && this.heuristic == heuristic && this.expand == expand
      ensures !isCompleted && Valid()
    {
      this.state := state;
      this.heuristic := heuristic;
      this.expand := expand;
      isCompleted := false;
    }

    /** `new FirstChoiceHillClimbing(state, heuristic)` (src/sisyphos.ts:196-201). */
    static method Create(state: Option<S>, heuristic: Option<S -> int>, expand: S -> seq<S>)
      returns (r: Result<FirstChoiceHillClimbing<S>>)
      ensures CheckArguments(state, heuristic).Some? ==> r == Failure(CheckArguments(state, heuristic).value)
      ensures CheckArguments(state, heuristic).None? ==>
        && r.Success? && fresh(r.value) && r.value.Valid() && !r.value.isCompleted
        && r.value.state == state.value && r.value.heuristic == heuristic.value && r.value.expand == expand
    {
      var e := CheckArguments(state, heuristic);
      if e.Some? {
        return Failure(e.value);
      }
      var search := new FirstChoiceHillClimbing(state.value, heuristic.value, expand);
      return Success(search);
    }

    /** One step: draw neighbours without replacement, at most as many as
        there are, and adopt the first scoring at least the current score;
        when none does, complete with the state unchanged. */
    method IterateOnce(rng: Random) returns (r: S)
      requires Valid()
      modifies this, rng
      ensures Valid()
      ensures var d := DrawWithoutReplacement(heuristic, heuristic(old(state)), expand(old(state)), rng.draw, old(rng.next));
        && rng.next == d.next
        && (d.adopted.None? ==> state == old(state) && isCompleted)
        && (d.adopted.Some? ==> state == d.adopted.value && isCompleted == old(isCompleted))
      ensures heuristic(state) >= heuristic(old(state))
      ensures old(isCompleted) ==> isCompleted && state == old(state)
      ensures r == state
    {
      var startStateEvaluation := heuristic(state);
      var neighbors := expand(state);
      var remainingIterations := |neighbors|;
      ghost var whole := DrawWithoutReplacement(heuristic, startStateEvaluation, neighbors, rng.draw, rng.next);
      WithoutReplacementGivesUpIffNoneQualifies(heuristic, startStateEvaluation, neighbors, rng.draw, rng.next);
      while true
        invariant remainingIterations == |neighbors|
        invariant state == old(state) && isCompleted == old(isCompleted)
        invariant Ends(whole, DrawWithoutReplacement(heuristic, startStateEvaluation, neighbors, rng.draw, rng.next))
        decreases remainingIterations
      {
        if remainingIterations <= 0 {
          isCompleted := true;
          return state;
        }
        DrawWithoutReplacementStep(heuristic, startStateEvaluation, neighbors, rng.draw, rng.next);
        remainingIterations := remainingIterations - 1;
        var randomIndex := GetRandomInt(rng, |neighbors|);
        var randomNeighbor := neighbors[randomIndex];
        neighbors := RemoveAt(neighbors, randomIndex);
        var randomNeighborEvaluation := heuristic(randomNeighbor);
        if !(randomNeighborEvaluation < startStateEvaluation) {
          state := randomNeighbor;
          return state;
        }
      }
    }

    /** `completeSearch` (src/sisyphos.ts:87-93). Ties are adopted, so the
        source's loop can run forever on a plateau; the model stops after
        `fuel` steps. A completed search sits on a state every neighbour of
        which scores strictly less. */
    method CompleteSearch(rng: Random, fuel: nat) returns (r: S)
      requires Valid()
      modifies this, rng
      ensures Valid()
      ensures (state, isCompleted, rng.next)
        == FirstChoiceRun(heuristic, expand, old(state), old(isCompleted), rng.draw, old(rng.next), fuel)
      ensures r == state
    {
      var remaining := fuel;
      while !isCompleted && remaining > 0
        invariant Valid()
        invariant FirstChoiceRun(heuristic, expand, state, isCompleted, rng.draw, rng.next, remaining)
          == FirstChoiceRun(heuristic, expand, old(state), old(isCompleted), rng.draw, old(rng.next), fuel)
        decreases remaining
      {
        var s := IterateOnce(rng);
        remaining := remaining - 1;
      }
      r := state;
    }
  }

  /** How a restart records the best state (src/sisyphos.ts:268-274): the
      first record is taken unconditionally, a later one replaces the record
      only on a strictly higher score. */
  function RecordBest<S>(h: S -> int, best: Option<S>, candidate: S): (r: Option<S>)
    ensures r.Some? && (r == best || r.value == candidate)
    ensures h(r.value) >= h(candidate)
    ensures best.Some? ==> h(r.value) >= h(best.value)
    ensures best.Some? && h(candidate) <= h(best.value) ==> r == best
  {
    if best.None? then Some(candidate)
    else if h(candidate) > h(best.value) then Some(candidate)
    else best
  }

  /** Random-restart hill climbing (src/sisyphos.ts:237-295). The wrapper's
      own `state` is never reassigned: iterateOnce keeps the inner search's
      state in a local, so the recorded best state is always the state the
      wrapper was built with. */
  class RandomRestartHillClimbing<S(!new)> {
    var state: S
    const heuristic: S -> int
    const expand: S -> seq<S>
    var isCompleted: bool
    var bestState: Option<S>
    var remainingRestarts: int
    var hillClimbing: HillClimbing<S>
    /** May produce no state (None), which the inner constructor rejects. */
    const createRandomState: Uniform -> Option<S>
    /** The restart budget the wrapper was built with. */
    ghost const restarts: int

    ghost predicate Valid()
      reads this, hillClimbing
    {
      && hillClimbing.heuristic == heuristic && hillClimbing.expand == expand && hillClimbing.Valid()
      && (remainingRestarts == 0 && hillClimbing.isCompleted ==> isCompleted)
      && remainingRestarts <= restarts
      && (bestState.Some? <==> remainingRestarts < restarts)
    }

    constructor (state: S, heuristic: S -> int, expand: S -> seq<S>, restarts: int, createRandomState: Uniform -> Option<S>)
      ensures this.state == state && this.heuristic == heuristic && this.expand == expand
      ensures this.createRandomState == createRandomState && this.restarts == restarts
      ensures !isCompleted && bestState.None? && remainingRestarts == restarts
      ensures fresh(hillClimbing) && hillClimbing.state == state && !hillClimbing.isCompleted
      ensures Valid()
    {
      this.state := state;
      this.heuristic := heuristic;
      this.expand := expand;
      isCompleted := false;
      bestState := None;
      hillClimbing := new HillClimbing(state, heuristic, expand);
      remainingRestarts := restarts;
      this.createRandomState := createRandomState;
      this.restarts := restarts;
    }

    /** `new RandomRestartHillClimbing(state, heuristic, restarts, createRandomState)`
        (src/sisyphos.ts:245-256). */
    static method Create(state: Option<S>, heuristic: Option<S -> int>, expand: S -> seq<S>,
                         restarts: int, createRandomState: Uniform -> Option<S>)
      returns (r: Result<RandomRestartHillClimbing<S>>)
      ensures CheckArguments(state, heuristic).Some? ==> r == Failure(CheckArguments(state, heuristic).value)
      ensures CheckArguments(state, heuristic).None? ==>
        && r.Success? && fresh(r.value) && r.value.Valid() && !r.value.isCompleted
        && r.value.state == state.value && r.value.heuristic == heuristic.value
        && r.value.expand == expand && r.value.createRandomState == createRandomState
        && r.value.bestState.None? && r.value.remainingRestarts == restarts && r.value.restarts == restarts
        && fresh(r.value.hillClimbing) && r.value.hillClimbing.state == state.value
        && !r.value.hillClimbing.isCompleted
    {
      var e := CheckArguments(state, heuristic);
      if e.Some? {
        return Failure(e.value);
      }
      var search := new RandomRestartHillClimbing(state.value, heuristic.value, expand, restarts, createRandomState);
      return Success(search);
    }

    /** One step: restart the inner search from a random state when it is
        completed and the budget is not negative, then step the inner search
        and complete once the budget is zero and the inner search completed.
        A restart whose random state is missing fails with `InvalidState`
        before anything but the draw is used. */
    method IterateOnce(rng: Random) returns (r: Result<S>)
      requires Valid()
      modifies this, hillClimbing, rng
      ensures Valid()
      ensures state == old(state)
      ensures var made := createRandomState(rng.draw(old(rng.next)));
        old(hillClimbing.isCompleted) && old(remainingRestarts) >= 0 && made.None? ==>
        && r == Failure(InvalidState) && rng.next == old(rng.next) + 1
        && hillClimbing == old(hillClimbing) && hillClimbing.state == old(hillClimbing.state)
        && hillClimbing.isCompleted == old(hillClimbing.isCompleted)
        && remainingRestarts == old(remainingRestarts) && bestState == old(bestState)
        && isCompleted == old(isCompleted)
      ensures var made := createRandomState(rng.draw(old(rng.next)));
        old(hillClimbing.isCompleted) && old(remainingRestarts) >= 0 && made.Some? ==>
        && fresh(hillClimbing) && remainingRestarts == old(remainingRestarts) - 1
        && rng.next == old(rng.next) + 1 && bestState == RecordBest(heuristic, old(bestState), state)
      ensures !(old(hillClimbing.isCompleted) && old(remainingRestarts) >= 0) ==>
        && hillClimbing == old(hillClimbing) && remainingRestarts == old(remainingRestarts)
        && rng.next == old(rng.next) && bestState == old(bestState)
      ensures r.Success? ==>
        var restarted := old(hillClimbing.isCompleted) && old(remainingRestarts) >= 0;
        var made := createRandomState(rng.draw(old(rng.next)));
        var start := if restarted && made.Some? then made.value else old(hillClimbing.state);
        var climbed := BestImproving(heuristic, start, expand(start));
        && hillClimbing.state == (if climbed.Some? then climbed.value else start)
        && hillClimbing.isCompleted == ((!restarted && old(hillClimbing.isCompleted)) || climbed.None?)
        && isCompleted == (old(isCompleted) || (remainingRestarts == 0 && hillClimbing.isCompleted))
        && r.value == hillClimbing.state
      ensures r.Failure? <==>
        old(hillClimbing.isCompleted) && old(remainingRestarts) >= 0 && createRandomState(rng.draw(old(rng.next))).None?
      ensures r.Failure? ==> r.error == InvalidState
    {
      if hillClimbing.isCompleted && remainingRestarts >= 0 {
        var e := Restart(rng);
        if e.Some? {
          return Failure(e.value);
        }
      }
      var s := hillClimbing.IterateOnce();
      if remainingRestarts == 0 && hillClimbing.isCompleted {
        isCompleted := true;
      }
      r := Success(s);
    }

    /** The restart block of iterateOnce (src/sisyphos.ts:259-274): a fresh
        inner search from a random state, one restart fewer, and the wrapper's
        own state recorded as the best when it beats the recorded one. The
        inner constructor checks its state (src/sisyphos.ts:60-62): a missing
        random state is reported, and nothing is reassigned. */
    method Restart(rng: Random) returns (e: Option<Error>)
      requires Valid() && hillClimbing.isCompleted && remainingRestarts >= 0
      modifies this, rng
      ensures Valid()
      ensures rng.next == old(rng.next) + 1
      ensures state == old(state) && isCompleted == old(isCompleted)
      ensures createRandomState(rng.draw(old(rng.next))).None? ==>
        && e == Some(InvalidState) && hillClimbing == old(hillClimbing)
        && remainingRestarts == old(remainingRestarts) && bestState == old(bestState)
      ensures createRandomState(rng.draw(old(rng.next))).Some? ==>
        && e.None? && fresh(hillClimbing)
        && hillClimbing.state == createRandomState(rng.draw(old(rng.next))).value
        && !hillClimbing.isCompleted
        && remainingRestarts == old(remainingRestarts) - 1
        && bestState == RecordBest(heuristic, old(bestState), state)
    {
      // restart search
      var u := rng.Next();
      var created := HillClimbing.Create(createRandomState(u), Some(hillClimbing.heuristic), expand);
      if created.Failure? {
        return Some(created.error);
      }
      hillClimbing := created.value;
      remainingRestarts := remainingRestarts - 1;
      // record best state
      if bestState.None? {
        bestState := Some(state);
      } else if hillClimbing.heuristic(state) > hillClimbing.heuristic(bestState.value) {
        bestState := Some(state);
      }
      return None;
    }

    /** `completeSearch` (src/sisyphos.ts:87-93). With a budget of N >= 0 it
        restarts exactly N times; it returns the wrapper's own state, which is
        the state it was built with. A restart on a missing random state ends
        it with `InvalidState`. */
    method CompleteSearch(rng: Random, ghost bound: int) returns (r: Result<S>)
      requires Valid()
      requires isCompleted || remainingRestarts >= 0
      requires forall s :: heuristic(s) <= bound
      modifies this, hillClimbing, rng
      ensures Valid() && state == old(state)
      ensures r.Success? ==> isCompleted && r.value == state
      ensures r.Failure? ==> r.error == InvalidState && !isCompleted
      ensures (forall u :: createRandomState(u).Some?) ==> r.Success?
      ensures r.Success? && !old(isCompleted) ==> remainingRestarts == 0
      ensures old(isCompleted) ==> r == Success(state) && remainingRestarts == old(remainingRestarts) && bestState == old(bestState)
      ensures bestState == old(bestState) || bestState == Some(state)
    {
      while !isCompleted
        invariant Valid()
        invariant hillClimbing == old(hillClimbing) || fresh(hillClimbing)
        invariant bestState == old(bestState) || bestState == Some(state)
        invariant isCompleted || remainingRestarts >= 0
        invariant state == old(state)
        invariant old(isCompleted) ==> remainingRestarts == old(remainingRestarts) && bestState == old(bestState)
        invariant !old(isCompleted) && isCompleted ==> remainingRestarts == 0
        decreases if isCompleted then 0 else 1, remainingRestarts,
          if hillClimbing.isCompleted then 0 else 1 + bound - heuristic(hillClimbing.state)
      {
        var step := IterateOnce(rng);
        if step.Failure? {
          return Failure(step.error);
        }
      }
      r := Success(state);
    }
  }

  /** Simulated annealing (src/sisyphos.ts:305-363). `exp` stands for
      `Math.pow(Math.E, ·)`. */
  class SimulatedAnnealing<S> {
    var state: S
    const heuristic: S -> int
    const expand: S -> seq<S>
    var isCompleted: bool
    var minTemperature: real
    var temperature: real
    var iterationCount: nat
    var initTemperature: real
    const exp: real -> real

    /** The temperature follows the schedule; the last working step, if any,
        started above the floor; a completed search is at or below it. */
    ghost predicate Valid()
      reads this
    {
      && temperature == TemperatureAfter(initTemperature, iterationCount)
      && (iterationCount > 0 ==> TemperatureAfter(initTemperature, iterationCount - 1) > minTemperature)
      && (isCompleted ==> temperature <= minTemperature)
    }

    constructor (state: S, heuristic: S -> int, expand: S -> seq<S>, temperature: real, minTemperature: real,
                 exp: real -> real)
      ensures this.state == state && this.heuristic == heuristic && this.expand == expand && this.exp == exp
      ensures initTemperature == temperature && this.temperature == temperature
      ensures this.minTemperature == minTemperature && iterationCount == 0
      ensures !isCompleted && Valid()
    {
      this.state := state;
      this.heuristic := heuristic;
      this.expand := expand;
      isCompleted := false;
      iterationCount := 0;
      initTemperature := temperature;
      this.temperature := temperature;
      this.minTemperature := minTemperature;
      this.exp := exp;
    }

    /** `new SimulatedAnnealing(state, heuristic, temperature, minTemperature)`
        (src/sisyphos.ts:314-325). */
    static method Create(state: Option<S>, heuristic: Option<S -> int>, expand: S -> seq<S>,
                         temperature: real, minTemperature: real, exp: real -> real)
      returns (r: Result<SimulatedAnnealing<S>>)
      ensures CheckArguments(state, heuristic).Some? ==> r == Failure(CheckArguments(state, heuristic).value)
      ensures CheckArguments(state, heuristic).None? ==>
        && r.Success? && fresh(r.value) && r.value.Valid() && !r.value.isCompleted
        && r.value.state == state.value && r.value.heuristic == heuristic.value
        && r.value.expand == expand && r.value.exp == exp
        && r.value.initTemperature == temperature && r.value.temperature == temperature
        && r.value.minTemperature == minTemperature && r.value.iterationCount == 0
    {
      var e := CheckArguments(state, heuristic);
      if e.Some? {
        return Failure(e.value);
      }
      var search := new SimulatedAnnealing(state.value, heuristic.value, expand, temperature, minTemperature, exp);
      return Success(search);
    }

    /** One step: at or below the floor, complete and change nothing else;
        otherwise cool to `initTemperature / iterationCount` and make the
        annealing move. */
    method IterateOnce(rng: Random) returns (r: Result<S>)
      requires Valid()
      modifies this, rng
      ensures Valid()
      ensures minTemperature == old(minTemperature) && initTemperature == old(initTemperature)
      ensures old(temperature) <= minTemperature ==>
        && isCompleted && state == old(state) && temperature == old(temperature)
        && iterationCount == old(iterationCount) && rng.next == old(rng.next) && r == Success(state)
      ensures old(temperature) > minTemperature ==>
        && iterationCount == old(iterationCount) + 1
        && temperature == initTemperature / iterationCount as real
        && (0.0 <= initTemperature ==> temperature <= old(temperature))
        && isCompleted == old(isCompleted)
        && var m := AnnealMove(heuristic, exp, temperature, old(state), expand(old(state)), rng.draw, old(rng.next));
          && (m.Failure? ==> r == Failure(m.error) && state == old(state) && rng.next == old(rng.next) + 1)
          && (m.Success? ==> r == Success(state) && state == m.value.state && rng.next == m.value.next)
    {
      if temperature <= minTemperature {
        isCompleted := true;
        return Success(state);
      }
      iterationCount := iterationCount + 1;
      temperature := initTemperature / iterationCount as real;
      if 0.0 <= initTemperature {
        CoolingIsNonIncreasing(initTemperature, iterationCount - 1, iterationCount);
      }
      r := WorkingStep(rng);
    }

    /** The working step after cooling (src/sisyphos.ts:338-361): the move `AnnealMove`
        describes at the new temperature. */
    method WorkingStep(rng: Random) returns (r: Result<S>)
      modifies this`state, rng
      ensures var m := AnnealMove(heuristic, exp, temperature, old(state), expand(old(state)), rng.draw, old(rng.next));
        && (m.Failure? ==> r == Failure(m.error) && state == old(state) && rng.next == old(rng.next) + 1)
        && (m.Success? ==> r == Success(state) && state == m.value.state && rng.next == m.value.next)
    {
      ghost var ns := expand(state);
      ghost var k := rng.next;
      ghost var m := AnnealMove(heuristic, exp, temperature, state, ns, rng.draw, k);
      var currentStateEvaluation := heuristic(state);
      var randomNeighbor := GetRandomNeighbor(expand, state, rng);
      if randomNeighbor.None? {
        assert m == Failure(NoNeighbor);
        return Failure(NoNeighbor);
      }
      assert randomNeighbor.value == ns[RandomInt(|ns|, rng.draw(k))];
      var randomNeighborEvaluation := heuristic(randomNeighbor.value);
      var de := randomNeighborEvaluation - currentStateEvaluation;
      if de > 0 {
        state := randomNeighbor.value;
        assert m == Success(Move(state, k + 1));
      } else {
        var probability := AcceptanceProbability(exp, de, temperature);
        var met := IsProbabilityMet(rng, probability);
        if met {
          state := randomNeighbor.value;
        }
        assert m == Success(Move(state, k + 2));
      }
      r := Success(state);
    }

    /** `completeSearch` (src/sisyphos.ts:87-93). The source's loop stops only
        when the floor is positive or already reached. From a fresh search with
        `initTemperature > minTemperature > 0` it takes exactly
        `ceil(initTemperature / minTemperature)` working steps. A step that
        hands the heuristic a missing neighbour ends the search with that error. */
    method CompleteSearch(rng: Random) returns (r: Result<S>)
      requires Valid()
      requires isCompleted || temperature <= minTemperature || minTemperature > 0.0
      modifies this, rng
      ensures Valid()
      ensures minTemperature == old(minTemperature) && initTemperature == old(initTemperature)
      ensures r.Success? ==> isCompleted && r.value == state
      ensures r.Failure? ==> r.error == NoNeighbor && !isCompleted
      ensures r.Success? && 0.0 < minTemperature < initTemperature ==>
        iterationCount == WorkingSteps(initTemperature, minTemperature)
    {
      while !isCompleted
        invariant Valid()
        invariant minTemperature == old(minTemperature) && initTemperature == old(initTemperature)
        invariant isCompleted || temperature <= minTemperature || minTemperature > 0.0
        decreases if isCompleted then 0 else if temperature <= minTemperature then 1
          else 2 + (if 0.0 < minTemperature < initTemperature && iterationCount < WorkingSteps(initTemperature, minTemperature)
                    then WorkingSteps(initTemperature, minTemperature) - iterationCount else 0)
      {
        if temperature > minTemperature {
          AboveFloorLeavesWorkingSteps(initTemperature, minTemperature, iterationCount);
        }
        var step := IterateOnce(rng);
        if step.Failure? {
          return step;
        }
      }
      if 0.0 < minTemperature < initTemperature {
        StepsTakenAtFloor(initTemperature, minTemperature, iterationCount);
      }
      r := Success(state);
    }
  }
}
