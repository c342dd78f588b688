/** One round of the cycle strategy of the simulation that decomposes the
    arrangement into cycles and counts, rather than searches for, the
    prisoners who fail: every prisoner on a cycle longer than K fails. */
module FanShengjiePrisoners {
  import opened Perms

  /** The total length of the cycles in `xs` that are longer than K. */
  function LongSum(xs: seq<int>, k: int): int {
    if xs == [] then 0
    else LongSum(xs[..|xs| - 1], k) + (if xs[|xs| - 1] > k then xs[|xs| - 1] else 0)
  }

  lemma LongSumSnoc(xs: seq<int>, x: int, k: int)
    ensures LongSum(xs + [x], k) == LongSum(xs, k) + (if x > k then x else 0)
  {
    assert (xs + [x])[..|xs|] == xs;
  }

  /** The cycle-decomposition body of `simulate_prisoners` for one given
      arrangement (0-based, as `np.random.permutation` gives): walks every
      cycle once from its smallest box and adds the length of each cycle
      longer than K to `total_failures`. The round's count of successful
      prisoners is exactly the prisoners whose cycle is at most K long, and
      the round succeeds iff nobody fails. Every box is visited exactly once,
      so the cycle lengths add up to N. */
  method CycleRound(boxes: seq<int>, k: int) returns (cycleSuccessCount: int, cycleSuccess: bool)
    requires IsPerm(boxes)
    ensures cycleSuccessCount == SuccessCount(boxes, k, |boxes|)
    ensures 0 <= cycleSuccessCount <= |boxes|
    ensures |boxes| - cycleSuccessCount == LongSum(LeaderLengths(boxes, |boxes|), k)
    ensures cycleSuccess <==> AllSucceed(boxes, k)
    ensures cycleSuccess <==> cycleSuccessCount == |boxes|
    ensures Sum(LeaderLengths(boxes, |boxes|)) == |boxes|
  {
    var n := |boxes|;
    var visited := new bool[n](_ => false);
    assert visited[..] == seq(n, _ => false);
    DecomposeStart(boxes, k);
    var totalFailures := DecomposeAll(boxes, k, visited);
    DecomposeDone(boxes, k, visited[..], totalFailures);
    cycleSuccessCount := n - totalFailures;
    cycleSuccess := totalFailures == 0;
  }

  /** The `for start in range(N)` loop over a fresh `visited`: afterwards
      every cycle is walked and `total` holds the failures. */
  method DecomposeAll(boxes: seq<int>, k: int, visited: array<bool>) returns (total: int)
    requires IsPerm(boxes) && visited.Length == |boxes|
    requires DecomposeInv(boxes, k, visited[..], 0, 0)
    modifies visited
    ensures DecomposeInv(boxes, k, visited[..], |boxes|, total)
  {
    total := 0;
    for start := 0 to |boxes|
      invariant DecomposeInv(boxes, k, visited[..], start, total)
    {
      total := DecomposeFrom(boxes, k, visited, start, total);
    }
  }

  /** Before the first start nothing is visited and nothing has failed. */
  lemma DecomposeStart(f: seq<int>, k: int)
    requires IsPerm(f)
    ensures DecomposeInv(f, k, seq(|f|, _ => false), 0, 0)
  {
    VisitedBelowStart(f);
    CountTrueNone(|f|);
    LongVisitedNone(f, k, |f|);
  }

  /** Once every start is handled, `total` counts the failing prisoners and
      the cycle lengths add up to N. */
  lemma DecomposeDone(f: seq<int>, k: int, vis: seq<bool>, total: int)
    requires IsPerm(f) && DecomposeInv(f, k, vis, |f|, total)
    ensures total == |f| - SuccessCount(f, k, |f|)
    ensures total == LongSum(LeaderLengths(f, |f|), k)
    ensures total == 0 <==> AllSucceed(f, k)
    ensures Sum(LeaderLengths(f, |f|)) == |f|
  {
    forall x | 0 <= x < |f| ensures vis[x] {
      CycleMinBelow(f, x, 0);
    }
    LongVisitedAll(f, k, vis, |f|);
    CountTrueAll(vis);
    CountIsAll(f, k);
  }

  /** What holds once the starts below p are handled: the visited boxes are
      the cycles whose smallest box is below p, `total` is both the number of
      visited boxes on long cycles and the total length of the long cycles
      among those, and the lengths of those cycles add up to the number of
      visited boxes. */
  ghost predicate DecomposeInv(f: seq<int>, k: int, vis: seq<bool>, p: int, total: int)
    requires IsPerm(f)
  {
    VisitedBelow(f, vis, p) &&
    total == LongVisited(f, k, vis, |f|) &&
    total == LongSum(LeaderLengths(f, p), k) &&
    Sum(LeaderLengths(f, p)) == CountTrue(vis)
  }

  /** One pass of `for start in range(N)`: skips a visited box, or walks the
      cycle it starts and adds its length to the failures when it is longer
      than K. */
  method DecomposeFrom(boxes: seq<int>, k: int, visited: array<bool>, start: int, totalFailures: int)
    returns (total: int)
    requires IsPerm(boxes) && visited.Length == |boxes| && 0 <= start < |boxes|
    requires DecomposeInv(boxes, k, visited[..], start, totalFailures)
    modifies visited
    ensures DecomposeInv(boxes, k, visited[..], start + 1, total)
  {
    if visited[start] {
      DecomposeSkip(boxes, k, visited[..], start, totalFailures);
      return totalFailures;
    }
    ghost var vis0 := visited[..];
    VisitedBelowClosed(boxes, vis0, start);
    var cycleLength := WalkCycle(boxes, k, visited, start);
    total := totalFailures;
    if cycleLength > k {
      total := total + cycleLength;
    }
    DecomposeCycle(boxes, k, vis0, visited[..], start, totalFailures);
  }

  lemma DecomposeSkip(f: seq<int>, k: int, vis: seq<bool>, s: int, total: int)
    requires IsPerm(f) && 0 <= s < |f| && DecomposeInv(f, k, vis, s, total) && vis[s]
    ensures DecomposeInv(f, k, vis, s + 1, total)
  {
    VisitedBelowSkip(f, vis, s);
    LeaderLengthsNext(f, s);
    assert LeaderLengths(f, s + 1) == LeaderLengths(f, s);
  }

  /** Walking the cycle led by the unvisited box s extends the list of
      lengths by its length and adds it to the failures when it is long. */
  lemma DecomposeCycle(f: seq<int>, k: int, vis0: seq<bool>, vis: seq<bool>, s: int, total: int)
    requires IsPerm(f) && 0 <= s < |f| && DecomposeInv(f, k, vis0, s, total) && !vis0[s]
    requires Marked(f, vis0, s, CycleLen(f, s), vis)
    requires CountTrue(vis) == CountTrue(vis0) + CycleLen(f, s)
    requires LongVisited(f, k, vis, |f|) ==
             LongVisited(f, k, vis0, |f|) + (if CycleLen(f, s) > k then CycleLen(f, s) else 0)
    ensures DecomposeInv(f, k, vis, s + 1, total + (if CycleLen(f, s) > k then CycleLen(f, s) else 0))
  {
    LeaderLengthsNext(f, s);
    VisitedBelowStep(f, vis0, s, vis);
    LongSumSnoc(LeaderLengths(f, s), CycleLen(f, s), k);
    SumSnoc(LeaderLengths(f, s), CycleLen(f, s));
  }

  /** The `while not visited[current]` walk: marks the cycle of `start`, and
      every box it marks is a failing prisoner exactly when the cycle is
      longer than K. */
  method WalkCycle(boxes: seq<int>, k: int, visited: array<bool>, start: int) returns (cycleLength: int)
    requires IsPerm(boxes) && visited.Length == |boxes| && 0 <= start < |boxes|
    requires Closed(boxes, visited[..]) && !visited[start]
    modifies visited
    ensures cycleLength == CycleLen(boxes, start)
    ensures Marked(boxes, old(visited[..]), start, cycleLength, visited[..])
    ensures CountTrue(visited[..]) == CountTrue(old(visited[..])) + cycleLength
    ensures LongVisited(boxes, k, visited[..], |boxes|) ==
            LongVisited(boxes, k, old(visited[..]), |boxes|) + (if cycleLength > k then cycleLength else 0)
  {
    ghost var vis0 := visited[..];
    ghost var cl := CycleLen(boxes, start);
    cycleLength := 0;
    var current := start;
    MarkedStart(boxes, vis0, start);
    while !visited[current]
      invariant 0 <= current < |boxes| && current == Iter(boxes, cycleLength, start)
      invariant WalkInv(boxes, k, vis0, start, cycleLength, visited[..])
      decreases CycleLen(boxes, start) - cycleLength
    {
      WalkStep(boxes, k, vis0, start, cycleLength, visited[..]);
      ghost var before := visited[..];
      visited[current] := true;
      assert visited[..] == before[current := true];
      current := boxes[current];
      cycleLength := cycleLength + 1;
    }
    WalkStop(boxes, vis0, start, cycleLength, visited[..]);
  }

  /** The walk has opened the first `len` boxes of the cycle of s, each
      adding one visited box and, on a long cycle, one failing prisoner. */
  ghost predicate WalkInv(f: seq<int>, k: int, vis0: seq<bool>, s: int, len: nat, vis: seq<bool>)
    requires IsPerm(f) && 0 <= s < |f|
  {
    |vis0| == |f| && Closed(f, vis0) && !vis0[s] &&
    len <= CycleLen(f, s) && Marked(f, vis0, s, len, vis) &&
    CountTrue(vis) == CountTrue(vis0) + len &&
    LongVisited(f, k, vis, |f|) == LongVisited(f, k, vis0, |f|) + (if CycleLen(f, s) > k then len else 0)
  }

  lemma WalkStep(f: seq<int>, k: int, vis0: seq<bool>, s: int, len: nat, vis: seq<bool>)
    requires IsPerm(f) && 0 <= s < |f| && WalkInv(f, k, vis0, s, len, vis) && !vis[Iter(f, len, s)]
    ensures len < CycleLen(f, s) && Iter(f, len + 1, s) == f[Iter(f, len, s)]
    ensures WalkInv(f, k, vis0, s, len + 1, vis[Iter(f, len, s) := true])
  {
    WalkContinue(f, vis0, s, len, vis);
    CycleLenOnCycle(f, len, s);
    LongVisitedSet(f, k, vis, Iter(f, len, s), |f|);
  }
}
