/** The loop strategy of the simulation that reports, per round, how many
    prisoners found their number and whether all of them did. */
module GuozhengPrisoners {
  import opened Perms

  /** `loop_strategy`: each prisoner starts at their own box and jumps to the
      box named by the slip at most K times, stopping as soon as the jump
      lands on their own number; the result is how many prisoners succeed. */
  method LoopStrategy(boxes: seq<int>, n: int, k: int) returns (successCount: int)
    requires IsPerm(boxes) && n == |boxes|
    ensures successCount == SuccessCount(boxes, k, n)
  {
    successCount := 0;
    var prisoner := 0;
    while prisoner < n
      invariant 0 <= prisoner <= n
      invariant successCount == SuccessCount(boxes, k, prisoner)
    {
      ghost var cl := CycleLen(boxes, prisoner);
      var current := prisoner;
      var jumps := 0;
      var found := false;
      while jumps < k
        invariant 0 <= jumps && (jumps <= k || jumps == 0)
        invariant !found ==> current == Iter(boxes, jumps, prisoner) && jumps < cl
        invariant found ==> cl <= jumps
        decreases k - jumps
      {
        ChainStep(boxes, prisoner, jumps);
        current := boxes[current];
        jumps := jumps + 1;
        if current == prisoner {
          found := true;
          break;
        }
      }
      if found {
        successCount := successCount + 1;
      }
      prisoner := prisoner + 1;
    }
  }

  /** One round of `simulate_prisoners_problem` for the loop strategy: the
      number of successful prisoners and whether it equals N. */
  method LoopRound(boxes: seq<int>, k: int) returns (count: int, allFound: bool)
    requires IsPerm(boxes)
    ensures count == SuccessCount(boxes, k, |boxes|)
    ensures allFound <==> AllSucceed(boxes, k)
  {
    count := LoopStrategy(boxes, |boxes|, k);
    allFound := count == |boxes|;
    CountIsAll(boxes, k);
  }

  /** The loop-strategy half of `simulate_prisoners_problem` over a given list
      of arrangements: per round the success count and whether all succeeded. */
  method SimulateLoopRounds(rounds: seq<seq<int>>, k: int) returns (counts: seq<int>, allRounds: seq<bool>)
    requires forall i :: 0 <= i < |rounds| ==> IsPerm(rounds[i])
    ensures |counts| == |rounds| && |allRounds| == |rounds|
    ensures forall i :: 0 <= i < |rounds| ==> counts[i] == SuccessCount(rounds[i], k, |rounds[i]|)
    ensures forall i :: 0 <= i < |rounds| ==> (allRounds[i] <==> AllSucceed(rounds[i], k))
  {
    counts, allRounds := [], [];
    var i := 0;
    while i < |rounds|
      invariant 0 <= i <= |rounds| && |counts| == i && |allRounds| == i
      invariant forall j :: 0 <= j < i ==> counts[j] == SuccessCount(rounds[j], k, |rounds[j]|)
      invariant forall j :: 0 <= j < i ==> (allRounds[j] <==> AllSucceed(rounds[j], k))
    {
      var c, all := LoopRound(rounds[i], k);
      counts := counts + [c];
      allRounds := allRounds + [all];
      i := i + 1;
    }
  }
}
