/** The first revision of first-choice hill climbing
    (Scripts/FirstChoiceHillClimbing.ts): draws with replacement, and an
    exhausted draw budget returns the state without completing the search. */
module ScriptsFirstChoice {
  import opened Search
  import opened Sampling

  /** The state and next unused draw after `steps` calls of `iterateOnce`
      from state `s` with draw `k` next. */
  function FirstChoiceSteps<S>(h: S -> int, expand: S -> seq<S>, s: S, draw: nat -> Uniform, k: nat, steps: nat)
    : (r: (S, nat))
    ensures h(r.0) >= h(s)
    ensures r.1 >= k
    decreases steps
  {
    if steps == 0 then (s, k)
    else
      var ns := expand(s);
      var d := DrawWithReplacement(h, h(s), ns, |ns|, draw, k);
      DrawWithReplacementSpec(h, h(s), ns, |ns|, draw, k);
      FirstChoiceSteps(h, expand, if d.adopted.Some? then d.adopted.value else s, draw, d.next, steps - 1)
  }

  /** First-choice hill climbing (Scripts/FirstChoiceHillClimbing.ts:5-63). */
  class FirstChoiceHillClimbing<S> {
    var state: S
    const heuristic: S -> int
    const expand: S -> seq<S>
    var isCompleted: bool

    constructor (state: S, heuristic: S -> int, expand: S -> seq<S>)
      ensures this.state == state && this.heuristic == heuristic && this.expand == expand
      ensures !isCompleted
    {
      this.state := state;
      this.heuristic := heuristic;
      this.expand := expand;
      isCompleted := false;
    }

    /** One step: as many draws as the state has neighbours, each from the
        full neighbour list again; adopt the first scoring at least the
        current score, or return the unchanged state. `isCompleted` is never
        assigned. */
    method IterateOnce(rng: Random) returns (r: S)
      modifies this, rng
      ensures var ns := expand(old(state));
        var d := DrawWithReplacement(heuristic, heuristic(old(state)), ns, |ns|, rng.draw, old(rng.next));
        && rng.next == d.next
        && state == (if d.adopted.Some? then d.adopted.value else old(state))
      ensures isCompleted == old(isCompleted)
      ensures heuristic(state) >= heuristic(old(state))
      ensures state == old(state) || state in expand(old(state))
      ensures r == state
    {
      var startStateEvaluation := heuristic(state);
      var remainingIterations := |expand(state)|;
      ghost var ns := expand(state);
      ghost var whole := DrawWithReplacement(heuristic, startStateEvaluation, ns, remainingIterations, rng.draw, rng.next);
      while true
        invariant 0 <= remainingIterations <= |ns| && ns == expand(state)
        invariant state == old(state) && isCompleted == old(isCompleted)
        invariant Ends(whole, DrawWithReplacement(heuristic, startStateEvaluation, ns, remainingIterations, rng.draw, rng.next))
        decreases remainingIterations
      {
        if remainingIterations <= 0 {
          return state;
        }
        remainingIterations := remainingIterations - 1;
        DrawWithReplacementStep(heuristic, startStateEvaluation, ns, remainingIterations + 1, rng.draw, rng.next);
        var randomNeighbor := GetAndRemoveRandomNeighbor(expand, state, rng);
        var randomNeighborEvaluation := heuristic(randomNeighbor.value);
        if !(randomNeighborEvaluation < startStateEvaluation) {
          state := randomNeighbor.value;
          return state;
        }
      }
    }

    /** `completeSearch` (Scripts/FirstChoiceHillClimbing.ts:41-47). Nothing
        ever sets `isCompleted`, so from a search that is not completed the
        source's loop never ends; the model stops after `fuel` steps and
        shows the flag still unset. */
    method CompleteSearch(rng: Random, fuel: nat) returns (r: S)
      modifies this, rng
      ensures isCompleted == old(isCompleted)
      ensures old(isCompleted) ==> state == old(state) && rng.next == old(rng.next)
      ensures !old(isCompleted) ==>
        (state, rng.next) == FirstChoiceSteps(heuristic, expand, old(state), rng.draw, old(rng.next), fuel)
      ensures r == state
    {
      var remaining := fuel;
      while !isCompleted && remaining > 0
        invariant isCompleted == old(isCompleted)
        invariant old(isCompleted) ==> state == old(state) && rng.next == old(rng.next)
        invariant !old(isCompleted) ==>
          FirstChoiceSteps(heuristic, expand, state, rng.draw, rng.next, remaining)
            == FirstChoiceSteps(heuristic, expand, old(state), rng.draw, old(rng.next), fuel)
        decreases remaining
      {
        var s := IterateOnce(rng);
        remaining := remaining - 1;
      }
      r := state;
    }
  }
}
