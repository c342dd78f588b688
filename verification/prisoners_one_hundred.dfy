/** The prisoner simulator class with the loop strategy and the cycle-length
    census. Boxes and slips are numbered from 0, as `np.random.permutation`
    gives them; the arrangements are passed in. */
module OneHundredPrisoners {
  import opened Perms

  class PrisonerSimulator {
    var n: int
    var k: int

    constructor (n: int, k: int)
      ensures this.n == n && this.k == k
    {
      this.n := n;
      this.k := k;
    }

    /** `loop_strategy`: each prisoner starts at their own box and opens at
        most K boxes along the chain, counting a success when a slip names
        them; the round succeeds iff all N succeed. */
    method LoopStrategy(boxes: seq<int>) returns (ok: bool)
      requires IsPerm(boxes) && |boxes| == n
      ensures ok <==> AllSucceed(boxes, k)
    {
      var successes := 0;
      var prisoner := 0;
      while prisoner < n
        invariant 0 <= prisoner <= n
        invariant successes == SuccessCount(boxes, k, prisoner)
      {
        var found := FollowLoop(boxes, k, prisoner);
        if found {
          successes := successes + 1;
        }
        prisoner := prisoner + 1;
      }
      CountIsAll(boxes, k);
      ok := successes == n;
    }

    /** `simulate` with the loop strategy over a given list of T
        arrangements: one result per round, True iff everyone succeeded. */
    method Simulate(rounds: seq<seq<int>>) returns (results: seq<bool>)
      requires forall i :: 0 <= i < |rounds| ==> IsPerm(rounds[i]) && |rounds[i]| == n
      ensures |results| == |rounds|
      ensures forall i :: 0 <= i < |rounds| ==> (results[i] <==> AllSucceed(rounds[i], k))
    {
      results := [];
      var r := 0;
      while r < |rounds|
        invariant 0 <= r <= |rounds| && |results| == r
        invariant forall i :: 0 <= i < r ==> (results[i] <==> AllSucceed(rounds[i], k))
      {
        var success := LoopStrategy(rounds[r]);
        results := results + [success];
        r := r + 1;
      }
    }

    /** The census of `loop_length_distribution` over a given list of T
        arrangements: the cycle lengths of each round in the order of their
        smallest box, round after round; every round contributes lengths
        adding up to N. */
    method LoopLengthDistribution(rounds: seq<seq<int>>) returns (loopLengths: seq<int>)
      requires forall i :: 0 <= i < |rounds| ==> IsPerm(rounds[i]) && |rounds[i]| == n
      ensures loopLengths == AllLengths(rounds)
      ensures Sum(loopLengths) == n * |rounds|
    {
      loopLengths := [];
      var r := 0;
      while r < |rounds|
        invariant 0 <= r <= |rounds|
        invariant loopLengths == AllLengths(rounds[..r])
        invariant Sum(loopLengths) == n * r
      {
        var lengths := CycleLengths(rounds[r]);
        AllLengthsStep(rounds, r);
        SumRounds(loopLengths, lengths, n, r);
        loopLengths := loopLengths + lengths;
        r := r + 1;
      }
      assert rounds[..r] == rounds;
    }
  }

  /** The inner `for _ in range(self.K)` loop of `loop_strategy`. */
  method FollowLoop(boxes: seq<int>, k: int, prisoner: int) returns (found: bool)
    requires IsPerm(boxes) && 0 <= prisoner < |boxes|
    ensures found <==> Succeeds(boxes, k, prisoner)
  {
    ghost var cl := CycleLen(boxes, prisoner);
    found := false;
    var nextBox := prisoner;
    var tries := 0;
    while tries < k
      invariant 0 <= tries && (tries <= k || tries == 0)
      invariant nextBox == Iter(boxes, tries, prisoner) && tries < cl
    {
      ChainStep(boxes, prisoner, tries);
      if boxes[nextBox] == prisoner {
        return true;
      }
      nextBox := boxes[nextBox];
      tries := tries + 1;
    }
  }

  /** The cycle lengths of every round, concatenated round after round. */
  function AllLengths(rounds: seq<seq<int>>): seq<int>
    requires forall i :: 0 <= i < |rounds| ==> IsPerm(rounds[i])
  {
    if rounds == [] then []
    else AllLengths(rounds[..|rounds| - 1]) + LeaderLengths(rounds[|rounds| - 1], |rounds[|rounds| - 1]|)
  }

  lemma AllLengthsStep(rounds: seq<seq<int>>, r: int)
    requires forall i :: 0 <= i < |rounds| ==> IsPerm(rounds[i])
    requires 0 <= r < |rounds|
    ensures AllLengths(rounds[..r + 1]) == AllLengths(rounds[..r]) + LeaderLengths(rounds[r], |rounds[r]|)
  {
    assert rounds[..r + 1][..r] == rounds[..r];
  }

  lemma {:induction false} SumConcat(xs: seq<int>, ys: seq<int>)
    ensures Sum(xs + ys) == Sum(xs) + Sum(ys)
  {
    if ys != [] {
      var zs := ys[..|ys| - 1];
      assert xs + ys == (xs + zs) + [ys[|ys| - 1]];
      SumSnoc(xs + zs, ys[|ys| - 1]);
      SumConcat(xs, zs);
    } else {
      assert xs + ys == xs;
    }
  }

  /** Appending a round whose lengths add up to N to r rounds gives r + 1
      rounds' worth. */
  lemma SumRounds(xs: seq<int>, ys: seq<int>, n: int, r: int)
    requires Sum(xs) == n * r && Sum(ys) == n
    ensures Sum(xs + ys) == n * (r + 1)
  {
    SumConcat(xs, ys);
  }

  /** One round of `loop_length_distribution`: walks the cycle of every
      unvisited box in turn and appends its length; the lengths come out
      once per cycle, in the order of the cycles' smallest boxes, and add up
      to N since every box is visited exactly once. */
  method CycleLengths(boxes: seq<int>) returns (lengths: seq<int>)
    requires IsPerm(boxes)
    ensures lengths == LeaderLengths(boxes, |boxes|)
    ensures Sum(lengths) == |boxes|
  {
    var n := |boxes|;
    lengths := [];
    var visited := new bool[n](_ => false);
    assert visited[..] == seq(n, _ => false);
    CensusStart(boxes);
    var i := 0;
    while i < n
      invariant 0 <= i <= n && visited.Length == n
      invariant CensusInv(boxes, visited[..], i, lengths)
    {
      lengths := CensusStep(boxes, visited, i, lengths);
      i := i + 1;
    }
    CensusDone(boxes, visited[..], lengths);
  }

  /** The visited boxes are the cycles whose smallest box is below i, their
      lengths are listed in that order, and they add up to the number of
      visited boxes. */
  ghost predicate CensusInv(f: seq<int>, vis: seq<bool>, i: int, lengths: seq<int>)
    requires IsPerm(f)
  {
    VisitedBelow(f, vis, i) && lengths == LeaderLengths(f, i) && Sum(lengths) == CountTrue(vis)
  }

  lemma CensusStart(f: seq<int>)
    requires IsPerm(f)
    ensures CensusInv(f, seq(|f|, _ => false), 0, [])
  {
    VisitedBelowStart(f);
    CountTrueNone(|f|);
  }

  lemma CensusDone(f: seq<int>, vis: seq<bool>, lengths: seq<int>)
    requires IsPerm(f) && CensusInv(f, vis, |f|, lengths)
    ensures lengths == LeaderLengths(f, |f|) && Sum(lengths) == |f|
  {
    forall x | 0 <= x < |f| ensures vis[x] {
      CycleMinBelow(f, x, 0);
    }
    CountTrueAll(vis);
  }

  /** One pass of `for i in range(self.N)`. */
  method CensusStep(boxes: seq<int>, visited: array<bool>, i: int, lengths: seq<int>) returns (lengths': seq<int>)
    requires IsPerm(boxes) && visited.Length == |boxes| && 0 <= i < |boxes|
    requires CensusInv(boxes, visited[..], i, lengths)
    modifies visited
    ensures CensusInv(boxes, visited[..], i + 1, lengths')
  {
    if visited[i] {
      VisitedBelowSkip(boxes, visited[..], i);
      LeaderLengthsNext(boxes, i);
      assert LeaderLengths(boxes, i + 1) == LeaderLengths(boxes, i);
      return lengths;
    }
    ghost var vis0 := visited[..];
    VisitedBelowClosed(boxes, vis0, i);
    var count := CountLoop(boxes, visited, i);
    CensusCycle(boxes, vis0, visited[..], i, lengths);
    lengths' := lengths + [count];
  }

  lemma CensusCycle(f: seq<int>, vis0: seq<bool>, vis: seq<bool>, s: int, lengths: seq<int>)
    requires IsPerm(f) && 0 <= s < |f| && CensusInv(f, vis0, s, lengths) && !vis0[s]
    requires Marked(f, vis0, s, CycleLen(f, s), vis)
    requires CountTrue(vis) == CountTrue(vis0) + CycleLen(f, s)
    ensures CensusInv(f, vis, s + 1, lengths + [CycleLen(f, s)])
  {
    VisitedBelowStep(f, vis0, s, vis);
    LeaderLengthsNext(f, s);
    SumSnoc(lengths, CycleLen(f, s));
  }

  /** The `while not visited[current]` walk: marks the cycle of `start` and
      counts its boxes. */
  method CountLoop(boxes: seq<int>, visited: array<bool>, start: int) returns (count: int)
    requires IsPerm(boxes) && visited.Length == |boxes| && 0 <= start < |boxes|
    requires Closed(boxes, visited[..]) && !visited[start]
    modifies visited
    ensures count == CycleLen(boxes, start)
    ensures Marked(boxes, old(visited[..]), start, count, visited[..])
    ensures CountTrue(visited[..]) == CountTrue(old(visited[..])) + count
  {
    ghost var vis0 := visited[..];
    count := 0;
    var current := start;
    MarkedStart(boxes, vis0, start);
    while !visited[current]
      invariant 0 <= current < |boxes| && current == Iter(boxes, count, start)
      invariant Walked(boxes, vis0, start, count, visited[..])
      decreases CycleLen(boxes, start) - count
    {
      current := MarkBox(boxes, visited, current, vis0, start, count);
      count := count + 1;
    }
    WalkStop(boxes, vis0, start, count, visited[..]);
  }
}
