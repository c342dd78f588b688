/** The loop-strategy simulation that keeps a `found` flag per prisoner.
    `boxes[b]` is the slip in box b, a permutation of 0..N-1. */
module YanghaoyuanPrisoners {
  import opened Perms

  /** One round of `loop_strategy`: each prisoner starts at their own box and
      reads the slip there as the next box, K reads at most, setting
      `found[prisoner]` when the slip names them; the round succeeds when
      every flag is set. */
  method LoopRound(boxes: seq<int>, k: int) returns (found: seq<bool>, success: bool)
    requires IsPerm(boxes)
    ensures |found| == |boxes|
    ensures forall p :: 0 <= p < |boxes| ==> (found[p] <==> Succeeds(boxes, k, p))
    ensures success <==> AllSucceed(boxes, k)
  {
    var n := |boxes|;
    var flags := new bool[n](_ => false);
    var prisoner := 0;
    while prisoner < n
      invariant 0 <= prisoner <= n
      invariant forall p :: 0 <= p < prisoner ==> (flags[p] <==> Succeeds(boxes, k, p))
      invariant forall p :: prisoner <= p < n ==> !flags[p]
    {
      ghost var cl := CycleLen(boxes, prisoner);
      ghost var before := flags[..];
      var currentBox := prisoner;
      var attempts := 0;
      while attempts < k
        invariant 0 <= attempts && (attempts <= k || attempts == 0)
        invariant currentBox == Iter(boxes, attempts, prisoner) && attempts < cl
        invariant flags[..] == before
      {
        ChainStep(boxes, prisoner, attempts);
        var nextBox := boxes[currentBox];
        if nextBox == prisoner {
          flags[prisoner] := true;
          assert flags[..] == before[prisoner := true];
          break;
        }
        currentBox := nextBox;
        attempts := attempts + 1;
      }
      prisoner := prisoner + 1;
    }
    found := flags[..];
    success := forall p :: 0 <= p < n ==> found[p];
  }

  /** `loop_strategy` over a given list of T arrangements: the number of
      successful rounds. */
  method LoopStrategy(rounds: seq<seq<int>>, k: int) returns (successCount: int)
    requires forall i :: 0 <= i < |rounds| ==> IsPerm(rounds[i])
    ensures successCount == WinningRounds(rounds, k)
  {
    successCount := 0;
    var r := 0;
    while r < |rounds|
      invariant 0 <= r <= |rounds|
      invariant successCount == WinningRounds(rounds[..r], k)
    {
      WinningRoundsStep(rounds, r, k);
      var found, allFound := LoopRound(rounds[r], k);
      if allFound {
        successCount := successCount + 1;
      }
      r := r + 1;
    }
    assert rounds[..r] == rounds;
  }
}
