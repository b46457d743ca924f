/** The neighbour scan shared by every steepest-ascent hill climber of the
    library: walk `expand(state)` in order, keep the best score seen so far and
    the neighbour that set it, replacing it only on a strictly higher score. */
module Steepest {
  import opened Search

  /** Where a scan ended: the position of the neighbour it kept, if any, and
      the best score it saw. */
  datatype Best = Best(index: Option<nat>, score: int)

  /** `j` is the first position of `ns` whose score is maximal. */
  ghost predicate IsFirstMax<S>(h: S -> int, ns: seq<S>, j: int)
  {
    && 0 <= j < |ns|
    && (forall k :: 0 <= k < |ns| ==> h(ns[k]) <= h(ns[j]))
    && (forall k :: 0 <= k < j ==> h(ns[k]) < h(ns[j]))
  }

  /** The scan from position `i` on, with best score `max` so far, set by the
      neighbour at position `best` (or by nobody yet). */
  function ScanBest<S>(h: S -> int, ns: seq<S>, i: nat, max: int, best: Option<nat>): (r: Best)
    requires i <= |ns|
    requires best.Some? ==> best.value < i && h(ns[best.value]) == max
    ensures r.index.Some? ==> r.index.value < |ns| && h(ns[r.index.value]) == r.score
    ensures r.index == best ==> r.score == max
    ensures r.index != best ==> r.index.Some? && i <= r.index.value && r.score > max
    decreases |ns| - i
  {
    if i == |ns| then Best(best, max)
    else if h(ns[i]) > max then ScanBest(h, ns, i + 1, h(ns[i]), Some(i))
    else ScanBest(h, ns, i + 1, max, best)
  }

  /** The scan as the source starts it: nobody kept yet, best score `start`. */
  function FirstBest<S>(h: S -> int, start: int, ns: seq<S>): Best
  {
    ScanBest(h, ns, 0, start, None)
  }

  /** Once some neighbour is kept, the scan ends on the first maximal one. */
  lemma {:induction false} ScanKeepsFirstMax<S>(h: S -> int, ns: seq<S>, i: nat, max: int, best: Option<nat>)
    requires i <= |ns|
    requires best.Some? && best.value < i && h(ns[best.value]) == max
    requires forall k :: 0 <= k < i ==> h(ns[k]) <= max
    requires forall k :: 0 <= k < best.value ==> h(ns[k]) < max
    ensures ScanBest(h, ns, i, max, best).index.Some?
    ensures IsFirstMax(h, ns, ScanBest(h, ns, i, max, best).index.value)
    decreases |ns| - i
  {
    if i < |ns| {
      if h(ns[i]) > max {
        ScanKeepsFirstMax(h, ns, i + 1, h(ns[i]), Some(i));
      } else {
        ScanKeepsFirstMax(h, ns, i + 1, max, best);
      }
    }
  }

  lemma {:induction false} ScanFindsFirstBest<S>(h: S -> int, start: int, ns: seq<S>, i: nat)
    requires i <= |ns|
    requires forall k :: 0 <= k < i ==> h(ns[k]) <= start
    ensures var r := ScanBest(h, ns, i, start, None);
      && (r.index.None? <==> forall k :: 0 <= k < |ns| ==> h(ns[k]) <= start)
      && (r.index.Some? ==> IsFirstMax(h, ns, r.index.value) && h(ns[r.index.value]) > start)
    decreases |ns| - i
  {
    if i < |ns| {
      if h(ns[i]) > start {
        ScanKeepsFirstMax(h, ns, i + 1, h(ns[i]), Some(i));
      } else {
        ScanFindsFirstBest(h, start, ns, i + 1);
      }
    }
  }

  /** The scan keeps nobody exactly when no neighbour strictly beats `start`;
      otherwise it keeps the first neighbour of maximal score, and that score
      strictly beats `start`. */
  lemma FirstBestSpec<S>(h: S -> int, start: int, ns: seq<S>)
    ensures FirstBest(h, start, ns).index.None? <==> forall k :: 0 <= k < |ns| ==> h(ns[k]) <= start
    ensures FirstBest(h, start, ns).index.Some? ==>
      IsFirstMax(h, ns, FirstBest(h, start, ns).index.value) && h(ns[FirstBest(h, start, ns).index.value]) > start
  {
    ScanFindsFirstBest(h, start, ns, 0);
  }

  /** The neighbour `getBestExpandedState` returns for state `s` with
      neighbours `ns` (None for the source's `null`). */
  function BestImproving<S>(h: S -> int, s: S, ns: seq<S>): Option<S>
  {
    match FirstBest(h, h(s), ns).index
    case None => None
    case Some(j) => Some(ns[j])
  }

  /** There is no best improving neighbour exactly when no neighbour strictly
      beats `s`; otherwise it is a first neighbour of maximal score, and it
      strictly beats `s`. */
  lemma BestImprovingSpec<S>(h: S -> int, s: S, ns: seq<S>)
    ensures var r := BestImproving(h, s, ns);
      && (r.None? <==> forall k :: 0 <= k < |ns| ==> h(ns[k]) <= h(s))
      && (r.Some? ==> h(r.value) > h(s) && exists j :: IsFirstMax(h, ns, j) && r.value == ns[j])
  {
    FirstBestSpec(h, h(s), ns);
  }

  /** Where steepest ascent from `s` ends: follow the best improving neighbour
      until there is none. Needs a heuristic bounded above to stop. */
  function Summit<S(!new)>(h: S -> int, expand: S -> seq<S>, s: S, bound: int): (r: S)
    requires forall t :: h(t) <= bound
    ensures h(r) >= h(s)
    ensures forall k :: 0 <= k < |expand(r)| ==> h(expand(r)[k]) <= h(r)
    decreases bound - h(s)
  {
    BestImprovingSpec(h, s, expand(s));
    match BestImproving(h, s, expand(s))
    case None => s
    case Some(n) => Summit(h, expand, n, bound)
  }

  /** `getBestExpandedState` (src/sisyphos.ts:131-146), with the search's
      `state` and `heuristic` passed in. */
  method GetBestExpandedState<S>(heuristic: S -> int, expand: S -> seq<S>, state: S)
    returns (nextState: Option<S>)
    ensures nextState == BestImproving(heuristic, state, expand(state))
  {
    nextState := None;
    var startStateEvaluation := heuristic(state);
    var max := startStateEvaluation;
    var neighbors := expand(state);
    ghost var best: Option<nat> := None;
    for i := 0 to |neighbors|
      invariant best.Some? ==> best.value < i && heuristic(neighbors[best.value]) == max
      invariant nextState == if best.None? then None else Some(neighbors[best.value])
      invariant ScanBest(heuristic, neighbors, i, max, best) == FirstBest(heuristic, startStateEvaluation, neighbors)
    {
      var evaluation := heuristic(neighbors[i]);
      if evaluation > max {
        max := evaluation;
        nextState := Some(neighbors[i]);
        best := Some(i);
      }
    }
  }

  /** `Number.NEGATIVE_INFINITY` or a finite score: the running maximum of a
      scan that starts below every score. */
  datatype Bound = NegativeInfinity | Finite(value: int)

  function Exceeds(e: int, b: Bound): bool
  {
    b.NegativeInfinity? || e > b.value
  }

  /** The position a scan starting at minus infinity keeps: the first
      neighbour takes the lead, later ones only on a strictly higher score. */
  function FirstMax<S>(h: S -> int, ns: seq<S>): (j: nat)
    requires |ns| > 0
    ensures IsFirstMax(h, ns, j)
  {
    ScanKeepsFirstMax(h, ns, 1, h(ns[0]), Some(0));
    ScanBest(h, ns, 1, h(ns[0]), Some(0)).index.value
  }
}
