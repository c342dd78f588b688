/** The top-level 100-prisoners script: a round with the loop strategy
    succeeds when every prisoner 1..N finds their number.  Boxes are
    numbered 1..N and box b holds `boxes[b - 1]`. */
module HundredPrisoners {
  import opened Perms

  /** `simulate_strategy_loop` on a given arrangement: prisoner i starts at
      box i and then opens the box whose number is on the slip, K boxes at
      most; the round fails at the first prisoner who does not find i. */
  method SimulateStrategyLoop(boxes: seq<int>, k: int) returns (success: bool)
    requires IsPerm1(boxes)
    ensures success <==> AllSucceed1(boxes, k)
  {
    var prisoner := 1;
    while prisoner <= |boxes|
      invariant 1 <= prisoner <= |boxes| + 1
      invariant forall q :: 0 <= q < prisoner - 1 ==> Succeeds(Shift(boxes), k, q)
    {
      var found := FollowLoop(boxes, k, prisoner);
      if !found {
        return false;
      }
      prisoner := prisoner + 1;
    }
    return true;
  }

  /** The inner `for _ in range(K)` loop: whether the prisoner meets their own
      number, which is when their cycle is at most K long. */
  method FollowLoop(boxes: seq<int>, k: int, prisoner: int) returns (found: bool)
    requires IsPerm1(boxes) && 1 <= prisoner <= |boxes|
    ensures found <==> Succeeds(Shift(boxes), k, prisoner - 1)
  {
    ghost var f := Shift(boxes);
    ghost var cl := CycleLen(f, prisoner - 1);
    var currentBox := prisoner;
    found := false;
    var tries := 0;
    while tries < k
      invariant 0 <= tries && (tries <= k || tries == 0)
      invariant !found ==> currentBox - 1 == Iter(f, tries, prisoner - 1) && tries < cl
      invariant found ==> cl <= k
      decreases k - tries
    {
      ChainStep(f, prisoner - 1, tries);
      if boxes[currentBox - 1] == prisoner {
        found := true;
        break;
      }
      currentBox := boxes[currentBox - 1];
      tries := tries + 1;
    }
  }

  /** The loop-strategy tally of `run_simulation` over a given list of
      arrangements: how many rounds succeed. */
  method LoopSuccessCount(rounds: seq<seq<int>>, k: int) returns (loopSuccessCount: int)
    requires forall i :: 0 <= i < |rounds| ==> IsPerm1(rounds[i])
    ensures loopSuccessCount == WinningRounds1(rounds, k)
  {
    loopSuccessCount := 0;
    var r := 0;
    while r < |rounds|
      invariant 0 <= r <= |rounds|
      invariant loopSuccessCount == WinningRounds1(rounds[..r], k)
    {
      WinningRounds1Step(rounds, r, k);
      var loopSuccess := SimulateStrategyLoop(rounds[r], k);
      if loopSuccess {
        loopSuccessCount := loopSuccessCount + 1;
      }
      r := r + 1;
    }
    assert rounds[..r] == rounds;
  }
}
