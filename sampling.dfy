/** The random draws of first-choice hill climbing: keep drawing neighbours
    until one scores at least the current state's score or the draw budget is
    spent. The current revision draws without replacement (it splices the
    drawn neighbour out of its list); the earlier revisions draw with
    replacement (their `slice` result is thrown away). */
module Sampling {
  import opened Search

  /** `neighbors.splice(i, 1)` on a local list: the list without position `i`. */
  function RemoveAt<S>(s: seq<S>, i: nat): (r: seq<S>)
    requires i < |s|
    ensures |r| == |s| - 1
    ensures multiset(r) + multiset{s[i]} == multiset(s)
  {
    assert s == s[..i] + [s[i]] + s[i + 1..];
    s[..i] + s[i + 1..]
  }

  /** What one first-choice step drew: the neighbours it evaluated, in order,
      the one it adopted (if any) and the position of the next unused draw of
      the random stream. */
  datatype Draws<S> = Draws(drawn: seq<S>, adopted: Option<S>, next: nat)

  /** Two runs of draws end alike: same neighbour adopted (if any), same
      position of the next unused draw. */
  ghost predicate Ends<S>(a: Draws<S>, b: Draws<S>)
  {
    a.adopted == b.adopted && a.next == b.next
  }

  /** The do-while loop of FirstChoiceHillClimbing.iterateOnce
      (src/sisyphos.ts:212-226): draw a position of `pool` with `draw(k)`,
      remove that neighbour, and stop at the first draw scoring at least
      `start`; the budget is the pool's size, which falls with it. */
  function DrawWithoutReplacement<S>(h: S -> int, start: int, pool: seq<S>, draw: nat -> Uniform, k: nat)
    : Draws<S>
    decreases |pool|
  {
    if |pool| == 0 then Draws([], None, k)
    else
      var i := RandomInt(|pool|, draw(k));
      var n := pool[i];
      if h(n) >= start then Draws([n], Some(n), k + 1)
      else
        var rest := DrawWithoutReplacement(h, start, RemoveAt(pool, i), draw, k + 1);
        Draws([n] + rest.drawn, rest.adopted, rest.next)
  }

  /** What a first-choice step without replacement draws: one random-stream
      draw per neighbour evaluated, each neighbour of the pool at most once,
      all but the last scoring below `start`; an adopted neighbour is the last
      one drawn and scores at least `start`; giving up means the whole pool was
      drawn and nothing in it scored at least `start`. */
  ghost predicate DrawnWithoutReplacement<S>(h: S -> int, start: int, pool: seq<S>, k: nat, r: Draws<S>)
  {
    && r.next == k + |r.drawn|
    && |r.drawn| <= |pool|
    && multiset(r.drawn) <= multiset(pool)
    && (forall j :: 0 <= j < |r.drawn| - 1 ==> h(r.drawn[j]) < start)
    && (r.adopted.Some? ==> |r.drawn| > 0 && r.adopted.value == r.drawn[|r.drawn| - 1] && h(r.adopted.value) >= start)
    && (r.adopted.None? ==> multiset(r.drawn) == multiset(pool) && forall j :: 0 <= j < |r.drawn| ==> h(r.drawn[j]) < start)
  }

  lemma {:induction false} DrawWithoutReplacementSpec<S>(h: S -> int, start: int, pool: seq<S>, draw: nat -> Uniform, k: nat)
    ensures DrawnWithoutReplacement(h, start, pool, k, DrawWithoutReplacement(h, start, pool, draw, k))
    decreases |pool|
  {
    if |pool| > 0 {
      var i := RandomInt(|pool|, draw(k));
      var n := pool[i];
      if h(n) < start {
        var smaller := RemoveAt(pool, i);
        var rest := DrawWithoutReplacement(h, start, smaller, draw, k + 1);
        assert DrawWithoutReplacement(h, start, pool, draw, k) == Draws([n] + rest.drawn, rest.adopted, rest.next);
        DrawWithoutReplacementSpec(h, start, smaller, draw, k + 1);
        DrawnWithoutReplacementPrepend(h, start, pool, smaller, n, k, rest);
      } else {
        assert DrawWithoutReplacement(h, start, pool, draw, k) == Draws([n], Some(n), k + 1);
        assert multiset([n]) <= multiset(pool);
      }
    }
  }

  /** Setting aside one neighbour scoring below `start` in front of what the
      remaining pool draws keeps the description of the draws. */
  lemma DrawnWithoutReplacementPrepend<S>(h: S -> int, start: int, pool: seq<S>, smaller: seq<S>, n: S, k: nat, rest: Draws<S>)
    requires DrawnWithoutReplacement(h, start, smaller, k + 1, rest)
    requires |smaller| + 1 == |pool| && multiset(smaller) + multiset{n} == multiset(pool)
    requires h(n) < start
    ensures DrawnWithoutReplacement(h, start, pool, k, Draws([n] + rest.drawn, rest.adopted, rest.next))
  {
    var d := [n] + rest.drawn;
    assert forall j :: 1 <= j < |d| ==> d[j] == rest.drawn[j - 1];
    assert multiset(d) == multiset{n} + multiset(rest.drawn);
  }

  /** One draw of the loop: the neighbour at the drawn position is adopted,
      or set aside while the loop goes on over the remaining pool and ends as
      that continuation ends. */
  lemma DrawWithoutReplacementStep<S>(h: S -> int, start: int, pool: seq<S>, draw: nat -> Uniform, k: nat)
    requires |pool| > 0
    ensures var i := RandomInt(|pool|, draw(k));
      var d := DrawWithoutReplacement(h, start, pool, draw, k);
      && (h(pool[i]) >= start ==> d.adopted == Some(pool[i]) && d.next == k + 1)
      && (h(pool[i]) < start ==> Ends(d, DrawWithoutReplacement(h, start, RemoveAt(pool, i), draw, k + 1)))
  {
  }

  /** Without replacement every neighbour is drawn before the budget runs
      out, so a step gives up exactly when no neighbour scores at least
      `start`, whatever the draws are. */
  lemma WithoutReplacementGivesUpIffNoneQualifies<S>(h: S -> int, start: int, pool: seq<S>, draw: nat -> Uniform, k: nat)
    ensures DrawWithoutReplacement(h, start, pool, draw, k).adopted.None? <==> forall n :: n in pool ==> h(n) < start
  {
    var d := DrawWithoutReplacement(h, start, pool, draw, k);
    DrawWithoutReplacementSpec(h, start, pool, draw, k);
    if d.adopted.None? {
      forall n | n in pool ensures h(n) < start {
        assert n in multiset(d.drawn);
        var j :| 0 <= j < |d.drawn| && d.drawn[j] == n;
      }
    } else {
      var n := d.drawn[|d.drawn| - 1];
      assert n in multiset(d.drawn);
      assert n in multiset(pool);
    }
  }

  /** The do-while loop of the earlier FirstChoiceHillClimbing.iterateOnce
      (HCL.ts:181-194, Scripts/FirstChoiceHillClimbing.ts:22-34): each draw
      picks a position of the full neighbour list `ns` again, for at most
      `budget` draws, and stops at the first draw scoring at least `start`. */
  function DrawWithReplacement<S>(h: S -> int, start: int, ns: seq<S>, budget: nat, draw: nat -> Uniform, k: nat)
    : Draws<S>
    requires budget <= |ns|
    decreases budget
  {
    if budget == 0 then Draws([], None, k)
    else
      var n := ns[RandomInt(|ns|, draw(k))];
      if h(n) >= start then Draws([n], Some(n), k + 1)
      else
        var rest := DrawWithReplacement(h, start, ns, budget - 1, draw, k + 1);
        Draws([n] + rest.drawn, rest.adopted, rest.next)
  }

  /** What a first-choice step with replacement draws: one random-stream draw
      per neighbour evaluated, at most `budget` of them, each one of `ns`, all
      but the last scoring below `start`; an adopted neighbour is the last one
      drawn and scores at least `start`; giving up means all `budget` draws
      scored below `start`. */
  ghost predicate DrawnWithReplacement<S>(h: S -> int, start: int, ns: seq<S>, budget: nat, k: nat, r: Draws<S>)
  {
    && r.next == k + |r.drawn|
    && |r.drawn| <= budget
    && (forall j :: 0 <= j < |r.drawn| ==> r.drawn[j] in ns)
    && (forall j :: 0 <= j < |r.drawn| - 1 ==> h(r.drawn[j]) < start)
    && (r.adopted.Some? ==> |r.drawn| > 0 && r.adopted.value == r.drawn[|r.drawn| - 1] && h(r.adopted.value) >= start)
    && (r.adopted.None? ==> |r.drawn| == budget && forall j :: 0 <= j < |r.drawn| ==> h(r.drawn[j]) < start)
  }

  lemma {:induction false} DrawWithReplacementSpec<S>(h: S -> int, start: int, ns: seq<S>, budget: nat, draw: nat -> Uniform, k: nat)
    requires budget <= |ns|
    ensures DrawnWithReplacement(h, start, ns, budget, k, DrawWithReplacement(h, start, ns, budget, draw, k))
    decreases budget
  {
    if budget > 0 {
      var n := ns[RandomInt(|ns|, draw(k))];
      if h(n) < start {
        DrawWithReplacementSpec(h, start, ns, budget - 1, draw, k + 1);
      }
    }
  }

  /** One draw of the loop with replacement: the neighbour at the drawn
      position is adopted, or the loop goes on over the same list with one
      draw fewer and ends as that continuation ends. */
  lemma DrawWithReplacementStep<S>(h: S -> int, start: int, ns: seq<S>, budget: nat, draw: nat -> Uniform, k: nat)
    requires 0 < budget <= |ns|
    ensures var n := ns[RandomInt(|ns|, draw(k))];
      var d := DrawWithReplacement(h, start, ns, budget, draw, k);
      && (h(n) >= start ==> d.adopted == Some(n) && d.next == k + 1)
      && (h(n) < start ==> Ends(d, DrawWithReplacement(h, start, ns, budget - 1, draw, k + 1)))
  {
  }

  /** `getAndRemoveRandomNeighbor` (HCL.ts:92-101,
      Scripts/FirstChoiceHillClimbing.ts:49-57): expands the state afresh and
      returns the neighbour at a random position. `slice` returns a copy that
      is thrown away, so nothing is removed and the next call sees the same
      list again. With no neighbours the source gets `undefined` (None). */
  method GetAndRemoveRandomNeighbor<S>(expand: S -> seq<S>, state: S, rng: Random) returns (r: Option<S>)
    modifies rng
    ensures rng.next == old(rng.next) + 1
    ensures var ns := expand(state);
      r == if |ns| == 0 then None else Some(ns[RandomInt(|ns|, rng.draw(old(rng.next)))])
  {
    var neighbors := expand(state);
    var randomIndex := GetRandomInt(rng, |neighbors|);
    r := if randomIndex < |neighbors| then Some(neighbors[randomIndex]) else None;
  }

  /** Drawing with replacement can give up although a neighbour qualifies:
      with neighbours scoring 0 and 5, start score 1 and every draw 0.0, the
      earlier revisions draw the first neighbour twice and give up, while the
      current revision removes it and then adopts the second. */
  lemma ReplacementMissesAQualifyingNeighbor()
    ensures var draw: nat -> Uniform := _ => 0.0;
      && DrawWithReplacement(x => x, 1, [0, 5], 2, draw, 0) == Draws([0, 0], None, 2)
      && DrawWithoutReplacement(x => x, 1, [0, 5], draw, 0) == Draws([0, 5], Some(5), 2)
  {
    var draw: nat -> Uniform := _ => 0.0;
    assert RandomInt(2, 0.0) == 0 && RandomInt(1, 0.0) == 0;
    assert RemoveAt([0, 5], 0) == [5];
  }
}
