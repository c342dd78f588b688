/** The board-size prompt several solvers share (`is_valid_n` and the retry
    loop of `get_user_input`), with the small boards it turns away. */
module QueenInput {
  import opened QueensSpec

  /** `is_valid_n`: an integer board size of at least 4. */
  predicate IsValidN(n: int) {
    n >= 4
  }

  /** `get_user_input` over the successive integers typed at the prompt: it
      asks again until an answer passes `IsValidN` and returns the index of
      that first accepted answer (|answers| when none is). */
  method GetUserInput(answers: seq<int>) returns (i: nat)
    ensures i <= |answers|
    ensures i < |answers| ==> IsValidN(answers[i])
    ensures forall j :: 0 <= j < i ==> !IsValidN(answers[j])
  {
    i := 0;
    while i < |answers|
      invariant i <= |answers|
      invariant forall j :: 0 <= j < i ==> !IsValidN(answers[j])
    {
      if answers[i] >= 4 {
        return;
      }
      i := i + 1;
    }
  }

  /** A first queen in the corner of the 3 x 3 board leaves one safe
      square in row 1, the far corner of that row, and nothing in row 2. */
  lemma ThreeCorner(c: int, d: int)
    requires (c == 0 && d == 2) || (c == 2 && d == 0)
    ensures Completions(3, [c]) == []
  {
    var p, q := [c], [c, d];
    assert p + [d] == q && p[0] == c && q[0] == c && q[1] == d;
    assert !SafeAt(q, 0) && !SafeAt(q, 1) && !SafeAt(q, 2);
    BranchesSkip(3, q, 0, 3, 3);
    assert forall e :: 0 <= e < 3 && e != d ==> !SafeAt(p, e);
    BranchesSkip(3, p, 0, d, 3);
    BranchesSkip(3, p, d + 1, 3, 3);
    BranchesSplit(3, p, 0, d, 3);
    BranchesSplit(3, p, d, d + 1, 3);
    BranchesSingle(3, p, d);
  }

  /** A first queen in the middle of the top row attacks all of row 1. */
  lemma ThreeMiddle()
    ensures Completions(3, [1]) == []
  {
    var p := [1];
    assert p[0] == 1;
    assert !SafeAt(p, 0) && !SafeAt(p, 1) && !SafeAt(p, 2);
    BranchesSkip(3, p, 0, 3, 3);
  }

  /** The 3 x 3 board has no solution. */
  lemma CountThree()
    ensures AllSolutions(3) == []
  {
    ThreeCorner(0, 2);
    ThreeMiddle();
    ThreeCorner(2, 0);
    assert [] + [0] == [0] && [] + [1] == [1] && [] + [2] == [2];
    assert SafeAt([], 0) && SafeAt([], 1) && SafeAt([], 2);
    assert Branches(3, [], 0, 3) == Completions(3, [0]) + Branches(3, [], 1, 3);
    assert Branches(3, [], 1, 3) == Completions(3, [1]) + Branches(3, [], 2, 3);
    assert Branches(3, [], 2, 3) == Completions(3, [2]) + Branches(3, [], 3, 3);
  }

  /** What `is_valid_n` turns away: the sizes 2 and 3 have no solution, but
      the empty board and the 1 x 1 board have exactly one each. */
  lemma RejectedSizes()
    ensures forall n: nat :: !IsValidN(n) && n >= 2 ==> AllSolutions(n) == []
    ensures AllSolutions(0) == [[]] && AllSolutions(1) == [[0]]
  {
    forall n: nat | !IsValidN(n) && n >= 2 ensures AllSolutions(n) == [] {
      if n == 2 {
        CountTwo();
      } else {
        CountThree();
      }
    }
    CountOne();
  }
}
