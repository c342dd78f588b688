/** The 1-based simulation that compares the cycle strategy with random
    choice and plots the longest cycle of each arrangement.  Slips hold the
    numbers 1..N; box i (0-based index) holds `boxes[i]`. */
module TanZheYaoPrisoners {
  import opened Perms

  /** `cycle_strategy`: prisoner p (1-based) opens box p first and then the
      box whose number is on the slip, for at most K openings. */
  method CycleStrategy(boxes: seq<int>, prisonerNum: int, k: int) returns (found: bool)
    requires IsPerm1(boxes) && 1 <= prisonerNum <= |boxes|
    ensures found <==> Succeeds(Shift(boxes), k, prisonerNum - 1)
  {
    ghost var f := Shift(boxes);
    ghost var x := prisonerNum - 1;
    ghost var cl := CycleLen(f, x);
    var currentBox := prisonerNum - 1;
    var steps := 0;
    while steps < k
      invariant 0 <= steps && (steps <= k || steps == 0)
      invariant currentBox == Iter(f, steps, x) && steps < cl
    {
      ChainStep(f, x, steps);
      if boxes[currentBox] == prisonerNum {
        return true;
      }
      currentBox := boxes[currentBox] - 1;
      steps := steps + 1;
    }
    return false;
  }

  /** One round of `simulate` with the cycle strategy: prisoners 1..N in
      turn, stopping at the first who fails. */
  method CycleRound(boxes: seq<int>, k: int) returns (allSuccess: bool)
    requires IsPerm1(boxes)
    ensures allSuccess <==> AllSucceed1(boxes, k)
  {
    allSuccess := true;
    var prisoner := 1;
    while prisoner <= |boxes|
      invariant 1 <= prisoner <= |boxes| + 1
      invariant allSuccess
      invariant forall q :: 0 <= q < prisoner - 1 ==> Succeeds(Shift(boxes), k, q)
    {
      var found := CycleStrategy(boxes, prisoner, k);
      if !found {
        allSuccess := false;
        break;
      }
      prisoner := prisoner + 1;
    }
  }

  /** `simulate` with the cycle strategy over a given list of arrangements:
      the number of rounds in which everyone succeeds. */
  method Simulate(rounds: seq<seq<int>>, k: int) returns (successes: int)
    requires forall i :: 0 <= i < |rounds| ==> IsPerm1(rounds[i])
    ensures successes == WinningRounds1(rounds, k)
  {
    successes := 0;
    var r := 0;
    while r < |rounds|
      invariant 0 <= r <= |rounds|
      invariant successes == WinningRounds1(rounds[..r], k)
    {
      WinningRounds1Step(rounds, r, k);
      var ok := CycleRound(rounds[r], k);
      if ok {
        successes := successes + 1;
      }
      r := r + 1;
    }
    assert rounds[..r] == rounds;
  }

  /** The cycle decomposition of `plot_success_distribution`: the longest
      cycle of one arrangement, found with a `visited` list. */
  method MaxCycleOf(boxes: seq<int>) returns (maxCycle: int)
    requires IsPerm1(boxes)
    ensures maxCycle == MaxCycle(Shift(boxes))
  {
    ghost var f := Shift(boxes);
    var n := |boxes|;
    var visited := new bool[n](_ => false);
    maxCycle := 0;
    DecomposedStart(f);
    MaxVisitedStart(f);
    var i := 0;
    while i < n
      invariant 0 <= i <= n && visited.Length == n
      invariant Decomposed(f, visited[..], i) && MaxVisited(f, visited[..], maxCycle)
    {
      if !visited[i] {
        ghost var vis0 := visited[..];
        var cycleLen := WalkCycle(boxes, visited, i);
        MaxVisitedCycle(f, vis0, i, visited[..], maxCycle);
        CycleDone(f, vis0, i, visited[..]);
        if cycleLen > maxCycle {
          maxCycle := cycleLen;
        }
      } else {
        DecomposedSkip(f, visited[..], i);
      }
      i := i + 1;
    }
    MaxVisitedDone(f, visited[..], maxCycle);
  }

  /** The `while not visited[current]` walk from an unvisited box i: marks
      the whole cycle through i and returns its length. */
  method WalkCycle(boxes: seq<int>, visited: array<bool>, i: int) returns (cycleLen: int)
    requires IsPerm1(boxes) && visited.Length == |boxes| && 0 <= i < |boxes|
    requires Closed(Shift(boxes), visited[..]) && !visited[i]
    modifies visited
    ensures cycleLen == CycleLen(Shift(boxes), i)
    ensures Marked(Shift(boxes), old(visited[..]), i, cycleLen, visited[..])
  {
    ghost var f := Shift(boxes);
    ghost var vis0 := visited[..];
    cycleLen := 0;
    var current := i;
    MarkedStart(f, vis0, i);
    while !visited[current]
      invariant 0 <= current < |boxes| && current == Iter(f, cycleLen, i)
      invariant Walked(f, vis0, i, cycleLen, visited[..])
      decreases CycleLen(f, i) - cycleLen
    {
      current := MarkBox(boxes, visited, current, f, vis0, i, cycleLen);
      cycleLen := cycleLen + 1;
    }
    WalkStop(f, vis0, i, cycleLen, visited[..]);
  }

  /** One pass of the walk: `visited[current] = True` and on to the box
      named by the slip, `boxes[current] - 1`. */
  method MarkBox(boxes: seq<int>, visited: array<bool>, current: int,
                 ghost f: seq<int>, ghost vis0: seq<bool>, ghost i: int, ghost len: nat)
    returns (next: int)
    requires IsPerm1(boxes) && f == Shift(boxes) && visited.Length == |boxes| && 0 <= i < |boxes|
    requires current == Iter(f, len, i) && Walked(f, vis0, i, len, visited[..]) && !visited[current]
    modifies visited
    ensures len < CycleLen(f, i) && 0 <= next < |boxes| && next == Iter(f, len + 1, i)
    ensures Walked(f, vis0, i, len + 1, visited[..])
  {
    WalkedStep(f, vis0, i, len, visited[..]);
    ghost var before := visited[..];
    visited[current] := true;
    assert visited[..] == before[current := true];
    next := boxes[current] - 1;
  }

  /** One round of `plot_success_distribution`: the longest cycle, and
      whether it is at most K, which is whether everyone wins unless K is
      negative and there is nobody to play. */
  method DistributionRound(boxes: seq<int>, k: int) returns (maxCycle: int, success: bool)
    requires IsPerm1(boxes)
    ensures maxCycle == MaxCycle1(boxes)
    ensures 0 <= k || |boxes| > 0 ==> (success <==> AllSucceed1(boxes, k))
  {
    maxCycle := MaxCycleOf(boxes);
    success := maxCycle <= k;
    if 0 <= k || |boxes| > 0 {
      AllSucceedMaxCycle(Shift(boxes), k);
    }
  }

  /** The longest cycle of each arrangement, in order. */
  function LongestCycles(rounds: seq<seq<int>>): (ms: seq<int>)
    requires forall i :: 0 <= i < |rounds| ==> IsPerm1(rounds[i])
    ensures |ms| == |rounds|
  {
    if rounds == [] then []
    else LongestCycles(rounds[..|rounds| - 1]) + [MaxCycle1(rounds[|rounds| - 1])]
  }

  /** `plot_success_distribution` without the plot: the longest cycle of each
      arrangement, and the number of arrangements whose longest cycle is at
      most K, which are exactly the winning rounds unless K is negative and
      some round has nobody to play. */
  method SuccessDistribution(rounds: seq<seq<int>>, k: int) returns (cycleLengths: seq<int>, successes: int)
    requires forall i :: 0 <= i < |rounds| ==> IsPerm1(rounds[i])
    ensures cycleLengths == LongestCycles(rounds)
    ensures (0 <= k || forall i :: 0 <= i < |rounds| ==> |rounds[i]| > 0) ==> successes == WinningRounds1(rounds, k)
  {
    cycleLengths := [];
    successes := 0;
    var r := 0;
    while r < |rounds|
      invariant 0 <= r <= |rounds|
      invariant cycleLengths == LongestCycles(rounds[..r])
      invariant (0 <= k || forall i :: 0 <= i < |rounds| ==> |rounds[i]| > 0) ==> successes == WinningRounds1(rounds[..r], k)
    {
      WinningRounds1Step(rounds, r, k);
      assert rounds[..r + 1][..r] == rounds[..r];
      var maxCycle, success := DistributionRound(rounds[r], k);
      cycleLengths := cycleLengths + [maxCycle];
      if success {
        successes := successes + 1;
      }
      r := r + 1;
    }
    assert rounds[..r] == rounds;
  }
}
