/** The experiment script that counts, per round, the prisoners who succeed
    with the cyclic strategy and tallies the rounds where all N do.  Boxes
    are numbered 1..N and box b holds `boxes[b - 1]`. */
module LiBinbinPrisoners {
  import opened Perms

  /** `cyclic_search_strategy` on a given arrangement: prisoner i starts at
      box i and follows the slips for at most K boxes; the result is the
      number of prisoners who find their number. */
  method CyclicSearchStrategy(boxes: seq<int>, k: int) returns (totalSuccess: int)
    requires IsPerm1(boxes)
    ensures totalSuccess == SuccessCount1(boxes, k, |boxes|)
  {
    totalSuccess := 0;
    var prisoner := 1;
    while prisoner <= |boxes|
      invariant 1 <= prisoner <= |boxes| + 1
      invariant totalSuccess == SuccessCount(Shift(boxes), k, prisoner - 1)
    {
      var found := FollowSlips(boxes, k, prisoner);
      if found {
        totalSuccess := totalSuccess + 1;
      }
      prisoner := prisoner + 1;
    }
  }

  /** The inner `for _ in range(K)` loop of `cyclic_search_strategy`: whether
      the prisoner's own number turns up (the source adds one to the count
      where this returns true). */
  method FollowSlips(boxes: seq<int>, k: int, prisoner: int) returns (found: bool)
    requires IsPerm1(boxes) && 1 <= prisoner <= |boxes|
    ensures found <==> Succeeds(Shift(boxes), k, prisoner - 1)
  {
    ghost var f := Shift(boxes);
    ghost var cl := CycleLen(f, prisoner - 1);
    var currentBox := prisoner;
    var tries := 0;
    while tries < k
      invariant 0 <= tries && (tries <= k || tries == 0)
      invariant currentBox - 1 == Iter(f, tries, prisoner - 1) && tries < cl
    {
      ChainStep(f, prisoner - 1, tries);
      if boxes[currentBox - 1] == prisoner {
        return true;
      }
      currentBox := boxes[currentBox - 1];
      tries := tries + 1;
    }
    return false;
  }

  /** The cyclic tally of the experiment loop over a given list of
      arrangements: a round counts when its success count equals N. */
  method CyclicSuccessCount(rounds: seq<seq<int>>, k: int) returns (cyclicSuccessCount: int)
    requires forall i :: 0 <= i < |rounds| ==> IsPerm1(rounds[i])
    ensures cyclicSuccessCount == WinningRounds1(rounds, k)
  {
    cyclicSuccessCount := 0;
    var r := 0;
    while r < |rounds|
      invariant 0 <= r <= |rounds|
      invariant cyclicSuccessCount == WinningRounds1(rounds[..r], k)
    {
      WinningRounds1Step(rounds, r, k);
      var cyclicSuccess := CyclicSearchStrategy(rounds[r], k);
      CountIsAll(Shift(rounds[r]), k);
      if cyclicSuccess == |rounds[r]| {
        cyclicSuccessCount := cyclicSuccessCount + 1;
      }
      r := r + 1;
    }
    assert rounds[..r] == rounds;
  }
}
