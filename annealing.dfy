/** Simulated annealing as all three revisions of the library run it: the
    `initTemperature / iterationCount` cooling schedule, the floor test, and
    the move of one working step. Temperatures are exact reals, an idealised
    stand-in for JavaScript's floating-point numbers. */
module Annealing {
  import opened Search

  /** The temperature held after `count` working steps: the initial one
      before the first, `init / count` after it. */
  function TemperatureAfter(init: real, count: nat): real
  {
    if count == 0 then init else init / count as real
  }

  /** Division by a positive count, in terms of multiplication. */
  lemma Quotient(x: real, c: real, m: real)
    requires c > 0.0
    ensures x / c <= m <==> x <= m * c
  {
    var q := x / c;
    assert q * c == x;
    if q <= m {
      assert q * c <= m * c;
    } else {
      assert q * c > m * c;
    }
  }

  /** Multiplying by a positive number keeps the order. */
  lemma Scale(a: real, b: real, m: real)
    requires m > 0.0
    ensures a <= b ==> a * m <= b * m
    ensures a < b ==> a * m < b * m
  {
    assert b * m - a * m == (b - a) * m;
  }

  /** With a non-negative initial temperature the schedule never warms up. */
  lemma CoolingIsNonIncreasing(init: real, a: nat, b: nat)
    requires 0.0 <= init && a <= b
    ensures TemperatureAfter(init, b) <= TemperatureAfter(init, a)
  {
    if 0 < a {
      Quotient(init, b as real, init / a as real);
      assert (init / a as real) * a as real == init;
      assert init * a as real <= init * b as real;
    } else if 0 < b {
      Quotient(init, b as real, init);
      assert init * 1.0 <= init * b as real;
    }
  }

  /** `ceil(init / min)`: the number of working steps before the floor is
      reached, characterised by `(n - 1) * min < init <= n * min`. */
  function WorkingSteps(init: real, min: real): (n: nat)
    requires 0.0 < min < init
    ensures (n - 1) as real * min < init <= n as real * min
  {
    var x := init / min;
    assert x * min == init;
    var f := (-x).Floor;
    assert f as real <= -x < f as real + 1.0;
    Scale(x, (-f) as real, min);
    Scale((-f - 1) as real, x, min);
    assert x > 1.0 by {
      assert init > 1.0 * min;
    }
    -f
  }

  /** The floor test passes after exactly `WorkingSteps(init, min)` working
      steps: before that the temperature is above the floor, then at or below it. */
  lemma {:induction false} FloorReachedAfterWorkingSteps(init: real, min: real, k: nat)
    requires 0.0 < min < init
    ensures k < WorkingSteps(init, min) ==> TemperatureAfter(init, k) > min
    ensures k >= WorkingSteps(init, min) ==> TemperatureAfter(init, k) <= min
  {
    var n := WorkingSteps(init, min);
    if 0 < k < n {
      var last := (n - 1) as real;
      assert last * min < init;
      assert k as real <= last;
      Scale(k as real, last, min);
      assert k as real * min < init;
      Quotient(init, k as real, min);
      assert min * k as real == k as real * min;
      assert TemperatureAfter(init, k) == init / k as real;
    } else if k >= n {
      assert n > 0;
      CoolingIsNonIncreasing(init, n, k);
      Quotient(init, n as real, min);
    }
  }

  /** With a positive floor, a temperature still above it means the initial
      temperature is above it too and not all working steps are taken yet. */
  lemma AboveFloorLeavesWorkingSteps(init: real, min: real, count: nat)
    requires 0.0 < min < TemperatureAfter(init, count)
    ensures min < init && count < WorkingSteps(init, min)
  {
    if count > 0 {
      Quotient(init, count as real, min);
      Scale(1.0, count as real, min);
    }
    FloorReachedAfterWorkingSteps(init, min, count);
  }

  /** A search that stopped at the floor, having passed the floor test before
      its last working step, has taken exactly `WorkingSteps(init, min)` steps. */
  lemma StepsTakenAtFloor(init: real, min: real, count: nat)
    requires 0.0 < min < init
    requires TemperatureAfter(init, count) <= min
    requires count > 0 ==> TemperatureAfter(init, count - 1) > min
    ensures count == WorkingSteps(init, min)
  {
    FloorReachedAfterWorkingSteps(init, min, count);
    if count > 0 {
      FloorReachedAfterWorkingSteps(init, min, count - 1);
    }
  }

  /** `Math.pow(Math.E, de / temperature)`, with `exp` standing for
      `Math.pow(Math.E, ·)`. At temperature 0 JavaScript computes `e^-Infinity`
      or `e^NaN`; neither passes the probability test, and neither does 0. */
  function AcceptanceProbability(exp: real -> real, de: int, temperature: real): (p: real)
    ensures temperature == 0.0 ==> forall u: Uniform :: !ProbabilityMet(p, u)
    ensures temperature != 0.0 && de == 0 ==> p == exp(0.0)
  {
    if temperature == 0.0 then 0.0 else exp(de as real / temperature)
  }

  /** Where one working step moves, and the position of the next unused draw. */
  datatype Move<S> = Move(state: S, next: nat)

  /** The move of a working step from `s` with neighbours `ns` at the new
      temperature: the neighbour at `getRandomInt(|ns|)` with draw `k`, always
      taken when it scores higher, otherwise taken when the acceptance
      probability beats draw `k + 1`. No neighbour at all means the heuristic
      is handed a missing state. */
  function AnnealMove<S>(h: S -> int, exp: real -> real, temperature: real, s: S, ns: seq<S>,
                         draw: nat -> Uniform, k: nat): (r: Result<Move<S>>)
    ensures r.Failure? <==> |ns| == 0
    ensures r.Failure? ==> r.error == NoNeighbor
    ensures r.Success? ==>
      var n := ns[RandomInt(|ns|, draw(k))];
      && (h(n) > h(s) ==> r.value == Move(n, k + 1))
      && (h(n) <= h(s) ==> r.value.next == k + 2 && (r.value.state == n || r.value.state == s))
  {
    if |ns| == 0 then Failure(NoNeighbor)
    else
      var n := ns[RandomInt(|ns|, draw(k))];
      var de := h(n) - h(s);
      if de > 0 then Success(Move(n, k + 1))
      else if ProbabilityMet(AcceptanceProbability(exp, de, temperature), draw(k + 1)) then Success(Move(n, k + 2))
      else Success(Move(s, k + 2))
  }

  /** With the real exponential, `e^0 = 1` beats every draw, so at a non-zero
      temperature a drawn neighbour that ties the current score is always
      taken, using the second draw. */
  lemma AnnealMoveAdoptsTies<S>(h: S -> int, exp: real -> real, temperature: real, s: S, ns: seq<S>,
                                draw: nat -> Uniform, k: nat)
    requires exp(0.0) == 1.0
    requires temperature != 0.0 && |ns| > 0
    requires h(ns[RandomInt(|ns|, draw(k))]) == h(s)
    ensures AnnealMove(h, exp, temperature, s, ns, draw, k) == Success(Move(ns[RandomInt(|ns|, draw(k))], k + 2))
  {
    assert 0 as real / temperature == 0.0;
  }

  /** At temperature 0 a drawn neighbour that does not score higher is never
      taken: the search stays put and both draws are used. */
  lemma AnnealMoveAtZeroKeepsState<S>(h: S -> int, exp: real -> real, s: S, ns: seq<S>,
                                      draw: nat -> Uniform, k: nat)
    requires |ns| > 0
    requires h(ns[RandomInt(|ns|, draw(k))]) <= h(s)
    ensures AnnealMove(h, exp, 0.0, s, ns, draw, k) == Success(Move(s, k + 2))
  {
  }
}
