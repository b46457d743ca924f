# Sisyphos hill-climbing library in Dafny

This project models the local searches of the Sisyphos hill-climbing library (FotisSpinos/HillClimbingLib):

- steepest-ascent hill climbing;
- first-choice hill climbing;
- random-restart hill climbing;
- simulated annealing.

Each search is a small state machine over one current state and a one-way completion flag. The heuristic is a function `S -> int`, and a state's neighbours come from `expand: S -> seq<S>`.

Three revisions of the searches are modelled side by side:

- `src/sisyphos.ts` is the current revision, in module `Sisyphos`.
- `HCL.ts` is an earlier single-file revision, in module `Hcl`.
- `Scripts/*.ts` are the first revisions, in modules `ScriptsHillClimbing`, `ScriptsFirstChoice` and `ScriptsAnnealing`.

The revisions differ in ways you can observe, and each module follows its own file.

Shared modules:

- `Search`:
  - options and results;
  - the errors;
  - the random source. `Math.random` becomes a `Random` object holding a fixed stream of draws in [0, 1) and a cursor. `getRandomInt` is `floor(u * max)` and `isProbabilityMet` is `p > u`, each for the drawn `u`.
- `Steepest`: the in-order neighbour scan with a strict `>`, which keeps the first maximal neighbour. Also `Summit`, the state where steepest ascent ends.
- `Sampling`: the first-choice draw loops.
  - The current revision draws without replacement, because `splice` removes the drawn neighbour.
  - The earlier revisions draw with replacement, because the copy returned by `slice` is thrown away.
- `Annealing`:
  - the cooling schedule `init / iterationCount`;
  - the number of working steps before the floor test passes, which is `ceil(init / min)`;
  - the move of one working step.
- `Scenarios`: the hill-climbing scenario of `tests/hillClimbing.test.ts`, with immutable index states.

Every class keeps the fields of its source class, with these differences:

- Every class adds a constant `expand`, standing for the state's own `expand()` method.
- The annealing classes add a constant `exp`, standing for `Math.pow(Math.E, ·)`.
- The random-restart wrappers add `createRandomState` as a constant field, and the current one adds a ghost `restarts`, the budget it was built with.
- `Hcl.RandomRestartHillClimbing` has no `heuristic` field, because `HCL.ts` never assigns or reads the wrapper's own heuristic.

The methods modify those fields and are proved against specification functions:

- `BestImproving`, `Summit`, `DrawWithoutReplacement`, `DrawWithReplacement`, `AnnealMove` and `Walk`;
- the run functions of each `completeSearch`.

The properties of those functions are proved as lemmas and as their own `ensures` clauses.

The model follows the code as written, including these oddities:

- **Current revision, random restart:**
  - `RandomRestartHillClimbing` never reassigns its own `state`. So `completeSearch` returns the state the wrapper was built with, and `bestState` can only be absent or that state (`Scenarios.RestartPoints`).
  - A call after completion still restarts, because the budget 0 passes the `>= 0` test. That call drives the budget to -1.
- **Current revision, first choice:** `FirstChoiceHillClimbing` adopts a neighbour that only ties the current score. Its loop exits on `>=`.
- **`HCL.ts`, first choice:** draws are with replacement. A step can give up although a neighbour qualifies (`Sampling.ReplacementMissesAQualifyingNeighbor`).
- **`HCL.ts`, random restart:**
  - It tests the method reference `getIsCompleted`, not its result. So it restarts on every call while the budget is not negative, and it steps the inner search once per call.
  - With a budget of N >= 1 it completes on exactly the N-th call. With N = 0 it never completes.
  - Its own state, heuristic and flag are never assigned, so its state is absent.
- **`Scripts/HillClimbing.ts`:** `completeSearch` walks a local state for at most 100 rounds. It never touches the search's own state.
- **`Scripts/FirstChoiceHillClimbing.ts`:** nothing sets `isCompleted`, so `completeSearch` does not return.

The test "Complete Query" (tests/hillClimbing.test.ts:37-53) expects the search to be still not completed after the fourth `iterateOnce` and completed after the fifth. The code completes on the fourth call: from index 3 (score 6) the only neighbour, index 4, scores 1, so `getBestExpandedState` returns `null` (src/sisyphos.ts:175-186). The test's `expect` calls carry no matcher, so they assert nothing. `Scenarios.IteratePoints` follows the code.

The class comment of the current first-choice search (src/sisyphos.ts:190) says it adopts a neighbour whose evaluation exceeds the current state's. The loop also accepts ties, and the model follows the loop.

## Model

| member | source | states |
|---|---|---|
| `Search.Random.Next` | src/sisyphos.ts:368-377 | `Math.random()` hands out the draw at the cursor and moves the cursor by one |
| `Search.RandomInt` | src/sisyphos.ts:368-370 | `floor(u * max)` is an index below `max` when `max > 0`, and 0 when `max == 0` |
| `Search.RandomIntReachesEveryIndex` | src/sisyphos.ts:368-370 | every index below `max` is returned for some draw |
| `Search.GetRandomInt` | src/sisyphos.ts:368-370 | consumes exactly one draw and returns `RandomInt` of it, below `max` when `max > 0` |
| `Search.ProbabilityMet` | src/sisyphos.ts:375-377 | a probability at or below 0 is never met; one at or above 1 always is |
| `Search.IsProbabilityMet` | src/sisyphos.ts:375-377 | consumes exactly one draw and tests the probability against it |
| `Search.GetRandomNeighbor` | src/sisyphos.ts:122-129 | the neighbour at the drawn position, or none for an empty expansion; one draw consumed |
| `Steepest.ScanBest` | src/sisyphos.ts:137-144 | the kept position and the best score agree; the kept neighbour changes only on a strictly higher score at or after the scan position |
| `Steepest.ScanKeepsFirstMax` | src/sisyphos.ts:137-144 | once a neighbour is kept, the scan ends on the first neighbour of maximal score |
| `Steepest.ScanFindsFirstBest` | src/sisyphos.ts:137-144 | from a prefix not beating the start score, the scan keeps nothing iff no neighbour beats it, and otherwise keeps the first maximum |
| `Steepest.FirstBestSpec` | src/sisyphos.ts:131-146 | the scan from the current score keeps nothing iff no neighbour strictly beats it; otherwise it keeps the first maximal neighbour, which strictly beats it |
| `Steepest.BestImprovingSpec` | src/sisyphos.ts:131-146 | none iff every neighbour scores at most the state; otherwise a first-maximal neighbour scoring strictly more |
| `Steepest.Summit` | src/sisyphos.ts:175-186 | where repeated steepest ascent stops: it scores at least the start, and no neighbour of it scores more |
| `Steepest.GetBestExpandedState` | src/sisyphos.ts:131-146 | the for-loop returns exactly `BestImproving` of the state and its neighbours |
| `Steepest.FirstMax` | Scripts/HillClimbing.ts:71-80 | a scan starting at minus infinity keeps the first position of maximal score |
| `Sampling.RemoveAt` | src/sisyphos.ts:224 | `splice(i, 1)` shortens the list by one and removes exactly that element from its multiset |
| `Sampling.DrawWithoutReplacementSpec` | src/sisyphos.ts:210-226 | one draw per evaluated neighbour, at most the pool size, no neighbour twice (a sub-multiset); all draws but the last score below the start; an adopted neighbour is the last one and scores at least the start; giving up means the whole pool was drawn, all below the start |
| `Sampling.DrawWithoutReplacementStep` | src/sisyphos.ts:214-226 | one round of the do-while: adopt the drawn neighbour, or go on over the pool without it |
| `Sampling.WithoutReplacementGivesUpIffNoneQualifies` | src/sisyphos.ts:210-229 | the step gives up exactly when no neighbour scores at least the start, whatever the draws |
| `Sampling.DrawWithReplacementSpec` | HCL.ts:181-194 | at most `budget` draws, each from the neighbour list, all but the last below the start; an adopted neighbour is the last one and scores at least the start; giving up means all `budget` draws scored below it |
| `Sampling.DrawWithReplacementStep` | HCL.ts:183-194 | one round of the do-while: adopt the drawn neighbour, or go on over the same list with one draw fewer |
| `Sampling.GetAndRemoveRandomNeighbor` | HCL.ts:92-101 | the neighbour at the drawn position of a fresh expansion, nothing removed; one draw consumed |
| `Sampling.ReplacementMissesAQualifyingNeighbor` | HCL.ts:98 | with scores 0 and 5, start 1 and all draws 0.0, drawing with replacement gives up while drawing without replacement adopts 5 |
| `Annealing.CoolingIsNonIncreasing` | src/sisyphos.ts:335-336 | with a non-negative initial temperature, `init / count` never rises as the count grows |
| `Annealing.WorkingSteps` | src/sisyphos.ts:329-336 | `n = ceil(init / min)`, characterised by `(n - 1) * min < init <= n * min` |
| `Annealing.FloorReachedAfterWorkingSteps` | src/sisyphos.ts:329-336 | the temperature is above the floor for fewer than `WorkingSteps` steps, and at or below it from then on |
| `Annealing.AboveFloorLeavesWorkingSteps` | src/sisyphos.ts:329-336 | a temperature above a positive floor means working steps remain |
| `Annealing.StepsTakenAtFloor` | src/sisyphos.ts:329-336 | a search stopped at the floor, having passed it before its last step, took exactly `WorkingSteps` steps |
| `Annealing.AnnealMove` | src/sisyphos.ts:339-359 | fails iff there are no neighbours; a strictly better drawn neighbour is always taken with one draw; otherwise a second draw decides between the neighbour and the old state |
| `Annealing.AcceptanceProbability` | src/sisyphos.ts:353 | at temperature 0 no draw meets the probability; at a non-zero temperature a tie (`de == 0`) has probability `exp(0)` |
| `Annealing.AnnealMoveAdoptsTies` | src/sisyphos.ts:349-358 | with `exp(0) = 1`, at a non-zero temperature a drawn neighbour that ties the current score is always taken, using the second draw |
| `Annealing.AnnealMoveAtZeroKeepsState` | src/sisyphos.ts:349-358 | at temperature 0 a drawn neighbour that does not score higher is never taken |
| `Sisyphos.CheckArguments` | src/sisyphos.ts:60-66 | a missing state is reported first, then a missing heuristic; with both present there is no error |
| `Sisyphos.HillClimbing.Create` | src/sisyphos.ts:56-71 | construction fails with the argument error, or yields a fresh search that is not completed on the given state |
| `Sisyphos.HillClimbing.IterateOnce` | src/sisyphos.ts:175-186 | no strictly better neighbour: state unchanged and completed; otherwise the state becomes `BestImproving` and scores strictly more; an empty expansion completes; a completed search stays completed |
| `Sisyphos.HillClimbing.CompleteSearch` | src/sisyphos.ts:87-93 | returns completed on `Summit` of the start state, a state no neighbour beats |
| `Sisyphos.FirstChoiceRun` | src/sisyphos.ts:87-93 | the score never falls and a search it completes sits on a strict local maximum |
| `Sisyphos.FirstChoiceHillClimbing.Create` | src/sisyphos.ts:196-201 | construction fails with the argument error, or yields a fresh search on the given state, heuristic and `expand` that is not completed |
| `Sisyphos.FirstChoiceHillClimbing.IterateOnce` | src/sisyphos.ts:203-231 | the state, flag and draws follow `DrawWithoutReplacement`: adopt the first draw scoring at least the start, or complete with the state unchanged; the score never falls; a completed search sits on a state every neighbour of which scores strictly less, and a further call leaves that state unchanged |
| `Sisyphos.FirstChoiceHillClimbing.CompleteSearch` | src/sisyphos.ts:87-93 | up to `fuel` steps follow `FirstChoiceRun`, keeping a completed search on a state no neighbour reaches |
| `Sisyphos.RecordBest` | src/sisyphos.ts:267-274 | the first record is the candidate; later the record changes only to a strictly better candidate; the record never scores below the candidate or the previous record |
| `Sisyphos.RandomRestartHillClimbing.Create` | src/sisyphos.ts:245-256 | construction fails with the argument error, or yields a wrapper on the given state, heuristic, `expand` and `createRandomState`, with no best state, the given budget and a fresh inner search on the given state that is not completed |
| `Sisyphos.RandomRestartHillClimbing.IterateOnce` | src/sisyphos.ts:258-286 | restart iff the inner search is completed and the budget is not negative (one draw, budget down by one, best state by `RecordBest`); the call fails with `InvalidState`, changing nothing but the draw, iff that restart's random state is missing; otherwise one inner step, and completion iff budget zero and inner completed; the wrapper's state never changes |
| `Sisyphos.RandomRestartHillClimbing.Restart` | src/sisyphos.ts:259-274 | one draw; a missing random state is rejected by the inner constructor's check (src/sisyphos.ts:60-62) with `InvalidState` and nothing else changes; otherwise a fresh inner search on that state, one restart fewer, the best state updated by `RecordBest`; the wrapper's own state and flag unchanged |
| `Sisyphos.RandomRestartHillClimbing.CompleteSearch` | src/sisyphos.ts:87-93 | with a non-negative budget the wrapper completes with the budget at zero and returns its unchanged initial state, or fails with `InvalidState` not completed; it cannot fail when `createRandomState` always produces a state; the best state is the old one or that state |
| `Sisyphos.SimulatedAnnealing.Create` | src/sisyphos.ts:314-325 | construction fails with the argument error, or yields a search on the given state, heuristic, `expand` and `exp`, at the initial temperature, with the given floor and count zero |
| `Sisyphos.SimulatedAnnealing.IterateOnce` | src/sisyphos.ts:327-362 | at or below the floor: complete, nothing else changes; otherwise count up by one, temperature `init / count` (non-increasing) and the state moves by `AnnealMove` |
| `Sisyphos.SimulatedAnnealing.WorkingStep` | src/sisyphos.ts:338-361 | the state and the draw position move exactly as `AnnealMove` says from the state before the step, and a step with no neighbour fails with the missing-neighbour error and leaves the state alone |
| `Sisyphos.SimulatedAnnealing.CompleteSearch` | src/sisyphos.ts:87-93 | ends completed, or with the missing-neighbour error; from a fresh search with `init > min > 0`, after exactly `ceil(init / min)` working steps |
| `Hcl.HillClimbing.constructor` | HCL.ts:122-128 | the search holds the given state and heuristic and is not completed |
| `Hcl.HillClimbing.IterateOnce` | HCL.ts:130-158 | the inline scan moves to `BestImproving`, strictly better, or completes with the state unchanged |
| `Hcl.HillClimbing.CompleteSearch` | HCL.ts:46-51 | returns completed on `Summit` of the start state |
| `Hcl.FirstChoiceRun` | HCL.ts:46-51 | over up to `fuel` steps the score never falls and draws are only consumed |
| `Hcl.FirstChoiceHillClimbing.constructor` | HCL.ts:167-173 | the search holds the given state and heuristic and is not completed |
| `Hcl.FirstChoiceHillClimbing.IterateOnce` | HCL.ts:175-199 | the state, flag and draws follow `DrawWithReplacement` with budget `|expand(state)|`; adopt the first draw scoring at least the start, or complete unchanged |
| `Hcl.FirstChoiceHillClimbing.CompleteSearch` | HCL.ts:46-51 | up to `fuel` steps follow `Hcl.FirstChoiceRun` |
| `Hcl.RestartBudgetStep` | HCL.ts:220-241 | a call with a non-negative budget spends one restart, a negative budget is left alone; completion is one-way and is first set only when the call leaves the budget at zero |
| `Hcl.RestartBudgetAfter` | HCL.ts:220-241 | starting from a budget of at least -1 the budget never drops below -1; it never rises; the wrapper can only complete when built with a budget of at least one |
| `Hcl.RestartBudgetCompletesOnNthCall` | HCL.ts:220-241 | budget N >= 1: completed after k calls iff k >= N, budget N - k and then -1; N = 0: budget -1 and never completed; N < 0: nothing changes |
| `Hcl.RandomRestartHillClimbing.constructor` | HCL.ts:212-218 | the wrapper's state is absent, its flag unset, its best state absent; the inner search starts on the given state |
| `Hcl.RandomRestartHillClimbing.IterateOnce` | HCL.ts:220-244 | restart iff the budget is not negative, whatever the inner search; budget and flag follow `RestartBudgetStep`; one inner step; the wrapper's state never changes |
| `Hcl.RandomRestartHillClimbing.CompleteSearch` | HCL.ts:46-51 | with a budget of at least one, it completes with the budget at zero and returns the absent state |
| `Hcl.SimulatedAnnealing.constructor` | HCL.ts:267-277 | initial temperature, floor and count zero, not completed |
| `Hcl.SimulatedAnnealing.IterateOnce` | HCL.ts:279-315 | floor test first, then the `init / count` schedule and the `AnnealMove` step |
| `Hcl.SimulatedAnnealing.WorkingStep` | HCL.ts:290-314 | the state and the draw position move exactly as `AnnealMove` says from the state before the step, and a step with no neighbour fails with the missing-neighbour error and leaves the state alone |
| `Hcl.SimulatedAnnealing.CompleteSearch` | HCL.ts:46-51 | ends completed or with the missing-neighbour error, after `ceil(init / min)` working steps from a fresh search with `init > min > 0` |
| `ScriptsHillClimbing.WalkSpec` | Scripts/HillClimbing.ts:60-90 | the error happens iff no neighbour is ever kept; 1 to 100 rounds; the result scores at least the start; stopping before 100 rounds means every neighbour of the result scores strictly less |
| `ScriptsHillClimbing.HillClimbing.constructor` | Scripts/HillClimbing.ts:11-17 | `highestEvaluation` is the initial state's score and the search is not completed |
| `ScriptsHillClimbing.HillClimbing.IterateOnce` | Scripts/HillClimbing.ts:19-54 | keeps `highestEvaluation == heuristic(state)`, never lowers it, moves to `BestImproving` when it beats the stored score, and otherwise completes unchanged |
| `ScriptsHillClimbing.HillClimbing.CompleteSearch` | Scripts/HillClimbing.ts:56-91 | returns where `Walk` stops and sets `completed`; `state` and `highestEvaluation` are untouched |
| `ScriptsFirstChoice.FirstChoiceSteps` | Scripts/FirstChoiceHillClimbing.ts:41-47 | over any number of steps the score never falls |
| `ScriptsFirstChoice.FirstChoiceHillClimbing.constructor` | Scripts/FirstChoiceHillClimbing.ts:10-14 | the search holds the given state and heuristic and is not completed |
| `ScriptsFirstChoice.FirstChoiceHillClimbing.IterateOnce` | Scripts/FirstChoiceHillClimbing.ts:16-39 | the state and draws follow `DrawWithReplacement`; the flag never changes; the score never falls |
| `ScriptsFirstChoice.FirstChoiceHillClimbing.CompleteSearch` | Scripts/FirstChoiceHillClimbing.ts:41-47 | a search that is not completed stays not completed after any number of steps |
| `ScriptsAnnealing.SimulatedAnnealing.constructor` | Scripts/SimulatedAnnealing.ts:15-23 | initial temperature, floor and count zero, not completed |
| `ScriptsAnnealing.SimulatedAnnealing.IterateOnce` | Scripts/SimulatedAnnealing.ts:25-61 | floor test first, then the `init / count` schedule and the `AnnealMove` step |
| `ScriptsAnnealing.SimulatedAnnealing.WorkingStep` | Scripts/SimulatedAnnealing.ts:36-60 | the state and the draw position move exactly as `AnnealMove` says from the state before the step, and a step with no neighbour fails with the missing-neighbour error and leaves the state alone |
| `ScriptsAnnealing.SimulatedAnnealing.CompleteSearch` | Scripts/SimulatedAnnealing.ts:80-85 | ends completed or with the missing-neighbour error, after `ceil(init / min)` working steps from a fresh search with `init > min > 0` |
| `Scenarios.PointsClimb` | tests/hillClimbing.test.ts:4-22 | over the scores [1, 2, 5, 6, 1] with neighbour = next index, ascent moves 0 to 1 to 2 to 3 and stops at 3 |
| `Scenarios.ClimbPoints` | tests/hillClimbing.test.ts:24-29 | `completeSearch` from index 0 returns index 3, score 6 |
| `Scenarios.IteratePoints` | src/sisyphos.ts:175-186 | on the test scenario of tests/hillClimbing.test.ts:37-53, four calls visit 1, 2, 3, 3 and the fourth already completes, one call earlier than the test expects |
| `Scenarios.RestartPoints` | src/sisyphos.ts:258-286 | a wrapper built on index 0 with one restart succeeds, returns index 0 and records index 0 as best |
| `Scenarios.HundredWorkingSteps` | Scripts/SimulatedAnnealing.ts:27-34 | cooling from 100 to a floor of 1 takes 100 working steps |

## Left out

- I/O: the `console.log` calls of `Scripts/HillClimbing.ts` are output only.
- Floating point:
  - Temperatures, probabilities and `Math.pow(Math.E, ·)` are exact reals and a caller-supplied `exp` function. The floating-point rounding of `init / count` is not modelled.
  - At temperature 0 the acceptance probability is taken as 0, which fails the test as JavaScript's `e^-Infinity` and `e^NaN` do.
- Randomness: `Math.random` is a fixed stream of draws, and no probabilistic claim is made. `createRandomState` consumes one draw.
- `undefined` and `null` passed to the heuristic:
  - For an empty expansion in annealing, and on the first round of the `Scripts` `completeSearch`, this becomes the error `NoNeighbor`. What a caller's heuristic would do with `undefined` is not modelled.
  - Construction checks are modelled as absent arguments (`Option`). This includes the state `createRandomState` produces at a restart of the current random-restart wrapper, which is an `Option` and goes through the same check. JavaScript truthiness of other falsy states (0, "") is not modelled.
- Exceptions thrown by caller-supplied `expand` or heuristic: both are total functions.
- Aliasing of the neighbour list: `FirstChoiceHillClimbing.iterateOnce` splices the array that `this.state.expand()` returned (src/sisyphos.ts:210, 224). A state whose `expand` hands back an array it keeps would lose those neighbours for later calls. The model's `expand` is a pure function and `splice` works on a local copy (`Sampling.RemoveAt`), so every call sees the full neighbour list again.
- The exponential: the annealing classes take any `exp: real -> real`. The source's `Math.pow(Math.E, 0 / T)` is 1, which beats every draw, so a neighbour that ties the current score is always adopted at a non-zero temperature. The model proves this only for an `exp` with `exp(0) = 1` (`Annealing.AnnealMoveAdoptsTies`); the classes do not require it of their `exp`.
- The getters and the `IIterativeSearch` interface are plain field reads. They are not modelled as members, and neither are the `Abstract/` and `Interfaces/` declarations.
- `Scripts/RandomRestartHillClimbing.ts` is not part of this model. It reads an inner field under a name its dependency does not have, and it never initialises its own state. `Scripts/RandomStartHillClimbing.ts` is commented out entirely.
- The tests' own harness is not modelled: in-place mutating `expand`, `expect` without matchers, and a constructor signature the code does not have. Only their index scenario is restated.
- Sisyphos.HillClimbing.CompleteSearch: requires an upper bound on the heuristic, because the source's loop stops only if the climb does.
- Hcl.HillClimbing.CompleteSearch: requires an upper bound on the heuristic, for the same reason.
- Sisyphos.RandomRestartHillClimbing.CompleteSearch: requires an upper bound on the heuristic, so that each inner climb stops, and a non-negative budget.
- Sisyphos.FirstChoiceHillClimbing.CompleteSearch: takes a `fuel` bound, because ties are adopted and the source's loop can cycle on a plateau. What happens after `fuel` steps is not captured.
- Hcl.FirstChoiceHillClimbing.CompleteSearch: takes a `fuel` bound, for the same reason.
- ScriptsFirstChoice.FirstChoiceHillClimbing.CompleteSearch: takes a `fuel` bound, because the source's loop never ends.
- Sisyphos.SimulatedAnnealing.CompleteSearch: requires a positive floor or a search already at the floor, because otherwise the source's loop need not stop.
- Hcl.SimulatedAnnealing.CompleteSearch: requires a positive floor or a search already at the floor, for the same reason.
- ScriptsAnnealing.SimulatedAnnealing.CompleteSearch: requires a positive floor or a search already at the floor, for the same reason.
- Hcl.RandomRestartHillClimbing.CompleteSearch: requires a budget of at least one, because with budget 0 or below the source's loop never ends.
- Hcl.FirstChoiceRun: it states only that the score never falls. Drawing with replacement gives no local-maximum guarantee on completion, as `Sampling.ReplacementMissesAQualifyingNeighbor` shows.
