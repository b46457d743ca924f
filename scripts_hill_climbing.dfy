/** The first revision of steepest-ascent hill climbing
    (Scripts/HillClimbing.ts): it keeps the best score reached in
    `highestEvaluation`, and its `completeSearch` is a separate walk capped at
    100 rounds that never touches the search's own state. */
module ScriptsHillClimbing {
  import opened Search
  import opened Steepest

  /** Where `completeSearch` stopped, and how many rounds it ran. */
  datatype Walked<S> = Walked(state: S, iterations: nat)

  /** The state a round of the walk looks at: the neighbour kept by the
      previous round if there is one, the start state otherwise. */
  function Entry<S>(current: S, next: Option<S>): S
  {
    if next.Some? then next.value else current
  }

  /** The do-while loop of `completeSearch` (Scripts/HillClimbing.ts:64-82)
      from the top of a round, after `iterations` rounds: move to the kept
      neighbour, keep the first neighbour of maximal score (the scan starts
      at minus infinity, so any neighbour beats nothing), and go on while the
      kept neighbour scores at least as much and fewer than 100 rounds ran.
      A kept neighbour survives a round with no neighbours. Handing the
      heuristic `null` (no neighbour ever kept) is an error. */
  function Walk<S>(h: S -> int, expand: S -> seq<S>, current: S, next: Option<S>, iterations: nat)
    : Result<Walked<S>>
    requires iterations < 100
    decreases 100 - iterations
  {
    var cur := Entry(current, next);
    var ns := expand(cur);
    var kept := if |ns| > 0 then Some(ns[FirstMax(h, ns)]) else next;
    if kept.None? then Failure(NoNeighbor)
    else if h(cur) <= h(kept.value) && iterations + 1 < 100 then Walk(h, expand, cur, kept, iterations + 1)
    else Success(Walked(cur, iterations + 1))
  }

  /** What the walk promises: it fails, with a missing neighbour, exactly when
      no neighbour was ever kept and the start state has none; otherwise it
      runs at least one more round and at most 100 in all, never ends below
      the state it entered on, and, when it stops before the cap, every
      neighbour of the state it stops on scores strictly less. */
  lemma {:induction false} WalkSpec<S>(h: S -> int, expand: S -> seq<S>, current: S, next: Option<S>, iterations: nat)
    requires iterations < 100
    ensures var r := Walk(h, expand, current, next, iterations);
      && (r.Failure? <==> next.None? && |expand(current)| == 0)
      && (r.Failure? ==> r.error == NoNeighbor)
      && (r.Success? ==> iterations < r.value.iterations <= 100)
      && (r.Success? ==> h(r.value.state) >= h(Entry(current, next)))
      && (r.Success? && r.value.iterations < 100 ==>
            && |expand(r.value.state)| > 0
            && forall k :: 0 <= k < |expand(r.value.state)| ==> h(expand(r.value.state)[k]) < h(r.value.state))
    decreases 100 - iterations
  {
    var cur := Entry(current, next);
    var ns := expand(cur);
    var kept := if |ns| > 0 then Some(ns[FirstMax(h, ns)]) else next;
    if kept.Some? && h(cur) <= h(kept.value) && iterations + 1 < 100 {
      WalkSpec(h, expand, cur, kept, iterations + 1);
    }
  }

  /** Hill climbing with a stored best score (Scripts/HillClimbing.ts:5-92). */
  class HillClimbing<S> {
    var state: S
    const heuristic: S -> int
    const expand: S -> seq<S>
    var completed: bool
    var highestEvaluation: int

    /** The stored score is the score of the current state. */
    ghost predicate Valid()
      reads this
    {
      highestEvaluation == heuristic(state)
    }

    /** The constructor (Scripts/HillClimbing.ts:11-17): stores the initial
        state's score. */
    constructor (state: S, heuristic: S -> int, expand: S -> seq<S>)
      ensures this.state == state && this.heuristic == heuristic && this.expand == expand
      ensures !completed && highestEvaluation == heuristic(state) && Valid()
    {
      this.state := state;
      this.heuristic := heuristic;
      this.expand := expand;
      completed := false;
      highestEvaluation := heuristic(state);
    }

    /** One step (Scripts/HillClimbing.ts:19-54): scan the neighbours from the
        current score up; move to the first neighbour of strictly highest
        score when it beats `highestEvaluation`, otherwise complete with the
        state unchanged. */
    method IterateOnce() returns (r: S)
      requires Valid()
      modifies this
      ensures Valid()
      ensures highestEvaluation >= old(highestEvaluation)
      ensures var next := BestImproving(heuristic, old(state), expand(old(state)));
        && (next.None? ==> state == old(state) && completed)
        && (next.Some? ==> state == next.value && highestEvaluation > old(highestEvaluation) && completed == old(completed))
      ensures r == state
    {
      var currentState := state;
      var nextState: Option<S> := None;
      var neighbors := expand(state);
      var max := heuristic(currentState);
      ghost var best: Option<nat> := None;
      for i := 0 to |neighbors|
        invariant best.Some? ==> best.value < i && heuristic(neighbors[best.value]) == max
        invariant nextState == if best.None? then None else Some(neighbors[best.value])
        invariant ScanBest(heuristic, neighbors, i, max, best) == FirstBest(heuristic, heuristic(currentState), neighbors)
      {
        var evaluation := heuristic(neighbors[i]);
        if evaluation > max {
          max := evaluation;
          nextState := Some(neighbors[i]);
          best := Some(i);
        }
      }
      FirstBestSpec(heuristic, heuristic(currentState), neighbors);
      if max > highestEvaluation {
        highestEvaluation := max;
        state := nextState.value;
      } else {
        completed := true;
      }
      r := state;
    }

    /** `completeSearch` (Scripts/HillClimbing.ts:56-91): walks a local
        current state, leaves `state` and `highestEvaluation` alone, sets
        `completed` and returns where the walk stopped. */
    method CompleteSearch() returns (r: Result<S>)
      modifies this
      ensures state == old(state) && highestEvaluation == old(highestEvaluation)
      ensures var w := Walk(heuristic, expand, old(state), None, 0);
        && (w.Failure? ==> r == Failure(w.error) && completed == old(completed))
        && (w.Success? ==> r == Success(w.value.state) && completed)
    {
      var currentState := state;
      var nextState: Option<S> := None;
      var iterations: nat := 0;
      while true
        invariant iterations < 100
        invariant state == old(state) && highestEvaluation == old(highestEvaluation) && completed == old(completed)
        invariant Walk(heuristic, expand, currentState, nextState, iterations) == Walk(heuristic, expand, old(state), None, 0)
        decreases 100 - iterations
      {
        ghost var before := (currentState, nextState);
        if nextState.Some? {
          currentState := nextState.value;
        }
        var neighbors := expand(currentState);
        var max := NegativeInfinity;
        ghost var best: Option<nat> := None;
        for i := 0 to |neighbors|
          invariant i == 0 ==> max.NegativeInfinity? && nextState == before.1
          invariant i > 0 ==> && best.Some? && best.value < i && max == Finite(heuristic(neighbors[best.value]))
                              && nextState == Some(neighbors[best.value])
                              && ScanBest(heuristic, neighbors, i, max.value, best)
                                 == ScanBest(heuristic, neighbors, 1, heuristic(neighbors[0]), Some(0))
        {
          var evaluation := heuristic(neighbors[i]);
          if Exceeds(evaluation, max) {
            max := Finite(evaluation);
            nextState := Some(neighbors[i]);
            best := Some(i);
          }
        }
        assert currentState == Entry(before.0, before.1);
        assert nextState == if |neighbors| > 0 then Some(neighbors[FirstMax(heuristic, neighbors)]) else before.1;
        iterations := iterations + 1;
        if nextState.None? {
          return Failure(NoNeighbor);
        }
        if !(heuristic(currentState) <= heuristic(nextState.value) && iterations < 100) {
          break;
        }
      }
      completed := true;
      r := Success(currentState);
    }
  }
}
