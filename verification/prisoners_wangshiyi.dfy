/** The strategy comparison: slips hold 1..n and `boxes[i]` is the slip in
    the box of 0-based index i. */
module WangShiyiPrisoners {
  import opened Perms

  /** `strategy_cycle`: prisoner `prisonerNum` starts at index
      `prisonerNum - 1` and follows the slips for `maxAttempts` boxes. */
  method StrategyCycle(boxes: seq<int>, prisonerNum: int, maxAttempts: int) returns (found: bool)
    requires IsPerm1(boxes) && 1 <= prisonerNum <= |boxes|
    ensures found <==> Succeeds(Shift(boxes), maxAttempts, prisonerNum - 1)
  {
    ghost var f := Shift(boxes);
    ghost var x := prisonerNum - 1;
    ghost var cl := CycleLen(f, x);
    var currentBox := prisonerNum - 1;
    var attempt := 0;
    while attempt < maxAttempts
      invariant 0 <= attempt && (attempt <= maxAttempts || attempt == 0)
      invariant currentBox == Iter(f, attempt, x) && attempt < cl
    {
      ChainStep(f, x, attempt);
      if boxes[currentBox] == prisonerNum {
        return true;
      }
      currentBox := boxes[currentBox] - 1;
      attempt := attempt + 1;
    }
    return false;
  }

  /** `run_simulation` with the cycle strategy on a given arrangement: false
      at the first prisoner who fails. */
  method RunSimulation(boxes: seq<int>, k: int) returns (success: bool)
    requires IsPerm1(boxes)
    ensures success <==> AllSucceed1(boxes, k)
  {
    var prisonerNum := 1;
    while prisonerNum <= |boxes|
      invariant 1 <= prisonerNum <= |boxes| + 1
      invariant forall q :: 0 <= q < prisonerNum - 1 ==> Succeeds(Shift(boxes), k, q)
    {
      var found := StrategyCycle(boxes, prisonerNum, k);
      if !found {
        return false;
      }
      prisonerNum := prisonerNum + 1;
    }
    return true;
  }

  /** The cycle half of `compare_strategies` over a given list of t
      arrangements: the rounds in which no prisoner failed. */
  method CompareCycle(rounds: seq<seq<int>>, k: int) returns (cycleSuccess: int)
    requires forall i :: 0 <= i < |rounds| ==> IsPerm1(rounds[i])
    ensures cycleSuccess == WinningRounds1(rounds, k)
  {
    cycleSuccess := 0;
    var r := 0;
    while r < |rounds|
      invariant 0 <= r <= |rounds|
      invariant cycleSuccess == WinningRounds1(rounds[..r], k)
    {
      WinningRounds1Step(rounds, r, k);
      // the prisoner loop of this half is the same walk as `run_simulation`
      var cycleOk := RunSimulation(rounds[r], k);
      var cycleFailed := !cycleOk;
      if !cycleFailed {
        cycleSuccess := cycleSuccess + 1;
      }
      r := r + 1;
    }
    assert rounds[..r] == rounds;
  }
}
