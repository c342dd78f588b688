/** The simulation that records, per round, how many prisoners found their
    number and tallies the rounds in which all N did.  Slips hold 1..N. */
module LizongzePrisoners {
  import opened Perms

  /** `simulate_round` with the loop strategy on a given arrangement: each
      prisoner 1..N starts at box `prisoner - 1` and follows the slips for at
      most K checks; the result is how many found their number. */
  method LoopRound(boxes: seq<int>, k: int) returns (foundCount: int)
    requires IsPerm1(boxes)
    ensures foundCount == SuccessCount1(boxes, k, |boxes|)
  {
    var n := |boxes|;
    foundCount := 0;
    var prisoner := 1;
    while prisoner <= n
      invariant 1 <= prisoner <= n + 1
      invariant foundCount == SuccessCount(Shift(boxes), k, prisoner - 1)
    {
      var found := FollowLoop(boxes, k, prisoner);
      if found {
        foundCount := foundCount + 1;
      }
      prisoner := prisoner + 1;
    }
  }

  /** The inner `for _ in range(K)` loop of the 'loop' strategy: whether the
      prisoner meets their own number, which is when their cycle is at most
      K long. */
  method FollowLoop(boxes: seq<int>, k: int, prisoner: int) returns (found: bool)
    requires IsPerm1(boxes) && 1 <= prisoner <= |boxes|
    ensures found <==> Succeeds(Shift(boxes), k, prisoner - 1)
  {
    ghost var f := Shift(boxes);
    ghost var cl := CycleLen(f, prisoner - 1);
    var pos := prisoner - 1;
    var checks := 0;
    found := false;
    while checks < k
      invariant 0 <= checks && (checks <= k || checks == 0)
      invariant !found ==> pos == Iter(f, checks, prisoner - 1) && checks < cl
      invariant found ==> cl <= k
      decreases k - checks
    {
      ChainStep(f, prisoner - 1, checks);
      if boxes[pos] == prisoner {
        found := true;
        break;
      }
      pos := boxes[pos] - 1;
      checks := checks + 1;
    }
  }

  /** The loop half of `run_simulation` over a given list of arrangements:
      the per-round counts, and the number of rounds whose count is N. */
  method RunSimulation(rounds: seq<seq<int>>, k: int) returns (counts: seq<int>, allSuccess: int)
    requires forall i :: 0 <= i < |rounds| ==> IsPerm1(rounds[i])
    ensures |counts| == |rounds|
    ensures forall i :: 0 <= i < |rounds| ==> counts[i] == SuccessCount1(rounds[i], k, |rounds[i]|)
    ensures allSuccess == WinningRounds1(rounds, k)
  {
    counts := [];
    allSuccess := 0;
    var r := 0;
    while r < |rounds|
      invariant 0 <= r <= |rounds| && |counts| == r
      invariant forall i :: 0 <= i < r ==> counts[i] == SuccessCount1(rounds[i], k, |rounds[i]|)
      invariant allSuccess == WinningRounds1(rounds[..r], k)
    {
      WinningRounds1Step(rounds, r, k);
      var found := LoopRound(rounds[r], k);
      counts := counts + [found];
      CountIsAll(Shift(rounds[r]), k);
      if found == |rounds[r]| {
        allSuccess := allSuccess + 1;
      }
      r := r + 1;
    }
    assert rounds[..r] == rounds;
  }
}
