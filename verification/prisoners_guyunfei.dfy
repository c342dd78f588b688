/** The prisoner simulation that decides each round by the longest cycle of
    the arrangement. */
module GuYunfeiPrisoners {
  import opened Perms

  /** The parameters accepted from the prompt: N > 0, 0 < K <= N, T > 0. */
  predicate ParamsOk(n: int, k: int, t: int) {
    n > 0 && 0 < k <= n && t > 0
  }

  /** `get_params` over the successive (N, K, T) answers typed at the prompt:
      it asks again until an answer passes `ParamsOk`, and returns the index
      of that first accepted answer (|inputs| when none is). */
  method GetParams(inputs: seq<(int, int, int)>) returns (i: int)
    ensures 0 <= i <= |inputs|
    ensures i < |inputs| ==> ParamsOk(inputs[i].0, inputs[i].1, inputs[i].2)
    ensures forall j :: 0 <= j < i ==> !ParamsOk(inputs[j].0, inputs[j].1, inputs[j].2)
  {
    i := 0;
    while i < |inputs|
      invariant 0 <= i <= |inputs|
      invariant forall j :: 0 <= j < i ==> !ParamsOk(inputs[j].0, inputs[j].1, inputs[j].2)
    {
      var (n, k, t) := inputs[i];
      if n > 0 && 0 < k <= n && t > 0 {
        return;
      }
      i := i + 1;
    }
  }

  /** `find_max_cycle_length`: decomposes the permutation into cycles with a
      visited array and keeps the longest. */
  method FindMaxCycleLength(boxes: seq<int>) returns (maxLen: int)
    requires IsPerm(boxes)
    ensures maxLen == MaxCycle(boxes)
    ensures |boxes| > 0 ==> 1 <= maxLen <= |boxes|
  {
    var n := |boxes|;
    var visited := new bool[n](_ => false);
    maxLen := 0;
    DecomposedStart(boxes);
    MaxVisitedStart(boxes);
    var i := 0;
    while i < n
      invariant 0 <= i <= n && visited.Length == n
      invariant Decomposed(boxes, visited[..], i) && MaxVisited(boxes, visited[..], maxLen)
    {
      if !visited[i] {
        ghost var vis0 := visited[..];
        var currentLen := WalkCycle(boxes, visited, i);
        MaxVisitedCycle(boxes, vis0, i, visited[..], maxLen);
        CycleDone(boxes, vis0, i, visited[..]);
        if currentLen > maxLen {
          maxLen := currentLen;
        }
      } else {
        DecomposedSkip(boxes, visited[..], i);
      }
      i := i + 1;
    }
    MaxVisitedDone(boxes, visited[..], maxLen);
    if n > 0 {
      MaxCycleBounds(boxes);
    }
  }

  /** The inner `while not visited[j]` walk from the unvisited box i: it
      marks the boxes of i's cycle and counts them. */
  method WalkCycle(boxes: seq<int>, visited: array<bool>, i: int) returns (currentLen: int)
    requires IsPerm(boxes) && visited.Length == |boxes| && 0 <= i < |boxes|
    requires Decomposed(boxes, visited[..], i) && !visited[i]
    modifies visited
    ensures currentLen == CycleLen(boxes, i)
    ensures Marked(boxes, old(visited[..]), i, currentLen, visited[..])
  {
    ghost var vis0 := visited[..];
    currentLen := 0;
    var j := i;
    MarkedStart(boxes, vis0, i);
    while !visited[j]
      invariant 0 <= j < |boxes| && j == Iter(boxes, currentLen, i)
      invariant Walked(boxes, vis0, i, currentLen, visited[..])
      decreases CycleLen(boxes, i) - currentLen
    {
      j := MarkBox(boxes, visited, j, vis0, i, currentLen);
      currentLen := currentLen + 1;
    }
    WalkStop(boxes, vis0, i, currentLen, visited[..]);
  }

  /** The success test of `run_simulation`: a round succeeds when the longest
      cycle is at most K. */
  function RoundSucceeds(boxes: seq<int>, k: int): (ok: bool)
    requires IsPerm(boxes) && 0 <= k
    ensures ok <==> AllSucceed(boxes, k)
  {
    AllSucceedMaxCycle(boxes, k);
    MaxCycle(boxes) <= k
  }

  /** `calculate_theoretical_rate` gives 1 when K >= N: with that many
      openings every round succeeds. */
  lemma FullBudgetSucceeds(boxes: seq<int>, k: int)
    requires IsPerm(boxes) && k >= |boxes|
    ensures RoundSucceeds(boxes, k)
  {
    if |boxes| > 0 {
      MaxCycleBounds(boxes);
    }
  }
}
