/** The chain-choice simulation: box b (1-based) holds `boxContent[b - 1]`. */
module LrzPrisoners {
  import opened Perms

  /** `simulate_chain_choice` on a given arrangement: prisoner i starts at
      box i and follows the slips for `chances` boxes at most; the round
      fails at the first prisoner who does not find i. */
  method SimulateChainChoice(boxContent: seq<int>, chances: int) returns (success: bool)
    requires IsPerm1(boxContent)
    ensures success <==> AllSucceed1(boxContent, chances)
  {
    var i := 1;
    while i <= |boxContent|
      invariant 1 <= i <= |boxContent| + 1
      invariant forall q :: 0 <= q < i - 1 ==> Succeeds(Shift(boxContent), chances, q)
    {
      var found := FollowChain(boxContent, chances, i);
      if !found {
        return false;
      }
      i := i + 1;
    }
    return true;
  }

  /** The inner `for _ in range(chances)` loop: whether prisoner i meets their
      own number, which is when their cycle is at most `chances` long. */
  method FollowChain(boxContent: seq<int>, chances: int, i: int) returns (found: bool)
    requires IsPerm1(boxContent) && 1 <= i <= |boxContent|
    ensures found <==> Succeeds(Shift(boxContent), chances, i - 1)
  {
    ghost var f := Shift(boxContent);
    ghost var cl := CycleLen(f, i - 1);
    var currentBox := i;
    found := false;
    var used := 0;
    while used < chances
      invariant 0 <= used && (used <= chances || used == 0)
      invariant !found ==> currentBox - 1 == Iter(f, used, i - 1) && used < cl
      invariant found ==> cl <= chances
      decreases chances - used
    {
      ChainStep(f, i - 1, used);
      if boxContent[currentBox - 1] == i {
        found := true;
        break;
      }
      currentBox := boxContent[currentBox - 1];
      used := used + 1;
    }
  }

  /** The chain tally of the script over a given list of arrangements. */
  method ChainSuccessCount(rounds: seq<seq<int>>, chances: int) returns (chainSuccessCount: int)
    requires forall i :: 0 <= i < |rounds| ==> IsPerm1(rounds[i])
    ensures chainSuccessCount == WinningRounds1(rounds, chances)
  {
    chainSuccessCount := 0;
    var r := 0;
    while r < |rounds|
      invariant 0 <= r <= |rounds|
      invariant chainSuccessCount == WinningRounds1(rounds[..r], chances)
    {
      WinningRounds1Step(rounds, r, chances);
      var ok := SimulateChainChoice(rounds[r], chances);
      if ok {
        chainSuccessCount := chainSuccessCount + 1;
      }
      r := r + 1;
    }
    assert rounds[..r] == rounds;
  }
}
