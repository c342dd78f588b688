/** The simulation that counts the rounds in which every prisoner succeeds
    with the cycle strategy.  Slips hold 1..n. */
module KangZuChengPrisoners {
  import opened Perms

  /** `strategy_cycle`: prisoner `prisonerId` (1-based) opens box
      `prisonerId - 1` (0-based index) and then the box named by each slip,
      k boxes at most. */
  method StrategyCycle(boxes: seq<int>, prisonerId: int, k: int) returns (found: bool)
    requires IsPerm1(boxes) && 1 <= prisonerId <= |boxes|
    ensures found <==> Succeeds(Shift(boxes), k, prisonerId - 1)
  {
    ghost var f := Shift(boxes);
    ghost var x := prisonerId - 1;
    ghost var cl := CycleLen(f, x);
    var currentBox := prisonerId - 1;
    var tries := 0;
    while tries < k
      invariant 0 <= tries && (tries <= k || tries == 0)
      invariant currentBox == Iter(f, tries, x) && tries < cl
    {
      ChainStep(f, x, tries);
      if boxes[currentBox] == prisonerId {
        return true;
      }
      currentBox := boxes[currentBox] - 1;
      tries := tries + 1;
    }
    return false;
  }

  /** The body of one round of `run_simulation`: prisoners 1..n in turn,
      stopping at the first who fails. */
  method AllFind(boxes: seq<int>, k: int) returns (allSuccess: bool)
    requires IsPerm1(boxes)
    ensures allSuccess <==> AllSucceed1(boxes, k)
  {
    allSuccess := true;
    var prisonerId := 1;
    while prisonerId <= |boxes|
      invariant 1 <= prisonerId <= |boxes| + 1
      invariant allSuccess
      invariant forall q :: 0 <= q < prisonerId - 1 ==> Succeeds(Shift(boxes), k, q)
    {
      var found := StrategyCycle(boxes, prisonerId, k);
      if !found {
        allSuccess := false;
        break;
      }
      prisonerId := prisonerId + 1;
    }
  }

  /** `run_simulation` with the cycle strategy over a given list of t
      arrangements: the number of rounds in which everyone succeeded. */
  method RunSimulation(rounds: seq<seq<int>>, k: int) returns (successes: int)
    requires forall i :: 0 <= i < |rounds| ==> IsPerm1(rounds[i])
    ensures successes == WinningRounds1(rounds, k) && 0 <= successes <= |rounds|
  {
    successes := 0;
    var r := 0;
    while r < |rounds|
      invariant 0 <= r <= |rounds|
      invariant successes == WinningRounds1(rounds[..r], k)
    {
      WinningRounds1Step(rounds, r, k);
      var ok := AllFind(rounds[r], k);
      if ok {
        successes := successes + 1;
      }
      r := r + 1;
    }
    assert rounds[..r] == rounds;
  }
}
