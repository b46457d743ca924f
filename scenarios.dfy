/** The hill-climbing scenario of tests/hillClimbing.test.ts:4-54, with
    immutable states: a state is an index into the scores [1, 2, 5, 6, 1] and
    its only neighbour is the next index. */
module Scenarios {
  import opened Search
  import opened Steepest
  import Sisyphos
  import Annealing

  const Scores: seq<int> := [1, 2, 5, 6, 1]

  function Points(i: nat): int
  {
    if i < |Scores| then Scores[i] else 0
  }

  function NextIndex(i: nat): seq<nat>
  {
    if i + 1 < |Scores| then [i + 1] else []
  }

  /** Steepest ascent walks 0, 1, 2, 3 and stops at the peak, index 3. */
  lemma PointsClimb()
    ensures BestImproving(Points, 0, NextIndex(0)) == Some(1)
    ensures BestImproving(Points, 1, NextIndex(1)) == Some(2)
    ensures BestImproving(Points, 2, NextIndex(2)) == Some(3)
    ensures BestImproving(Points, 3, NextIndex(3)) == None
  {
    assert FirstBest(Points, Points(0), NextIndex(0)).index == Some(0);
    assert FirstBest(Points, Points(1), NextIndex(1)).index == Some(0);
    assert FirstBest(Points, Points(2), NextIndex(2)).index == Some(0);
    assert FirstBest(Points, Points(3), NextIndex(3)).index == None;
  }

  /** `completeSearch` from index 0 returns index 3, the highest score. */
  method ClimbPoints() returns (r: nat)
    ensures r == 3 && Points(r) == 6
  {
    var search := new Sisyphos.HillClimbing(0, Points, NextIndex);
    PointsClimb();
    assert Summit(Points, NextIndex, 3, 6) == 3;
    assert Summit(Points, NextIndex, 0, 6) == 3;
    r := search.CompleteSearch(6);
  }

  /** Step by step: the first call moves to index 1; the fourth call, at
      the peak, completes without moving. */
  method IteratePoints() returns (states: seq<nat>, completed: seq<bool>)
    ensures states == [1, 2, 3, 3]
    ensures completed == [false, false, false, true]
  {
    var search := new Sisyphos.HillClimbing(0, Points, NextIndex);
    PointsClimb();
    var s1 := search.IterateOnce();
    var c1 := search.isCompleted;
    var s2 := search.IterateOnce();
    var c2 := search.isCompleted;
    var s3 := search.IterateOnce();
    var c3 := search.isCompleted;
    var s4 := search.IterateOnce();
    var c4 := search.isCompleted;
    states := [s1, s2, s3, s4];
    completed := [c1, c2, c3, c4];
  }

  /** The restart wrapper hands back the state it was built with: from
      index 0 with one restart at index 2 it climbs to the peak inside, yet
      `completeSearch` returns index 0 and records index 0 as best. */
  method RestartPoints() returns (r: Result<nat>, best: Option<nat>)
    ensures r == Success(0) && best == Some(0)
  {
    var rng := new Random(_ => 0.5);
    var search := new Sisyphos.RandomRestartHillClimbing(0, Points, NextIndex, 1, _ => Some(2));
    r := search.CompleteSearch(rng, 6);
    best := search.bestState;
  }

  /** Annealing from temperature 100 down to a floor of 1 takes 100 working
      steps: a hundredth step cools to exactly 1, and the next call completes. */
  lemma HundredWorkingSteps()
    ensures Annealing.WorkingSteps(100.0, 1.0) == 100
    ensures Annealing.TemperatureAfter(100.0, 100) == 1.0
  {
  }
}
