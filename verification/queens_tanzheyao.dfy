/** TanZheYao's solver: free functions over a row -> column list holding -1
    for empty rows.  With `use_symmetry` the first row tries only the left
    half (centre column included); mirror images are added afterwards only
    for odd boards, when all solutions are asked for. */
module TanZheYaoQueens {
  import opened Lists
  import opened QueensSpec
  import opened QueenSearch
  import opened QueenSymmetry
  import opened QueenCounts

  /** `is_safe`: no earlier row shares the column or a diagonal. */
  method IsSafe(board: array<int>, row: nat, col: int) returns (safe: bool)
    requires row <= board.Length
    ensures safe <==> SafeAt(board[..row], col)
  {
    for i := 0 to row
      invariant forall k :: 0 <= k < i ==> board[k] != col && Abs(board[k] - col) != Abs(k - row)
    {
      if board[i] == col || Abs(board[i] - col) == Abs(i - row) {
        return false;
      }
    }
    forall k | 0 <= k < row ensures board[..row][k] != col && Abs(board[..row][k] - col) != row - k {
      assert board[..row][k] == board[k];
    }
    return true;
  }

  /** The columns row |p| tries: the left half, centre included, for the
      first row under `use_symmetry`, every column otherwise. */
  function MaxCol(n: nat, row: nat, useSymmetry: bool): (m: nat)
    ensures m <= n
  {
    if useSymmetry && row == 0 then (n + 1) / 2 else n
  }

  /** The complete placements `backtrack` meets from p, in order. */
  ghost function Searched(n: nat, p: seq<int>, useSymmetry: bool): seq<seq<int>>
    requires |p| <= n
  {
    if |p| == n then [p] else Branches(n, p, 0, MaxCol(n, |p|, useSymmetry))
  }

  /** Below the first row the search is the plain one. */
  lemma SearchedDeeper(n: nat, p: seq<int>, useSymmetry: bool)
    requires 0 < |p| <= n
    ensures Searched(n, p, useSymmetry) == Completions(n, p)
  {
  }

  /** The first completion among the columns below hi is the first one of
      the first column c that has any. */
  lemma FirstBelow(n: nat, p: seq<int>, c: nat, hi: nat)
    requires |p| < n && c < hi <= n && SafeAt(p, c)
    requires Branches(n, p, 0, c) == [] && Completions(n, p + [c]) != []
    ensures Branches(n, p, 0, hi) != [] && Branches(n, p, 0, hi)[0] == Completions(n, p + [c])[0]
  {
    BranchesSplit(n, p, 0, c, hi);
    BranchesSplit(n, p, c, c + 1, hi);
    BranchesSingle(n, p, c);
  }

  /** `backtrack`, from the list showing the conflict-free placement p.
      Finding all, it appends every placement met and returns False with the
      list restored.  Finding one, it appends the first placement met and
      returns True with the list left showing it, or returns False with the
      list restored when there is none. */
  method Backtrack(n: nat, useSymmetry: bool, findAll: bool, board: array<int>, row: nat,
                   solutions: seq<seq<int>>, ghost p: seq<int>)
    returns (solutions': seq<seq<int>>, stop: bool)
    requires board.Length == n && row == |p| <= n && Partial(n, p) && Shows(board[..], p)
    modifies board
    ensures findAll ==> !stop && solutions' == solutions + Searched(n, p, useSymmetry)
    ensures !findAll ==> (stop <==> Searched(n, p, useSymmetry) != []) &&
                         solutions' == solutions + First(Searched(n, p, useSymmetry))
    ensures !stop ==> board[..] == old(board[..])
    ensures stop ==> board[..] == Searched(n, p, useSymmetry)[0]
    decreases n - row, 1
  {
    if row == n {
      assert board[..] == board[..|p|];
      return solutions + [board[..]], !findAll;
    }
    var maxCol := n;
    if useSymmetry && row == 0 {
      maxCol := (n + 1) / 2;
    }
    solutions' := solutions;
    for col := 0 to maxCol
      invariant board[..] == old(board[..])
      invariant findAll ==> solutions' == solutions + Branches(n, p, 0, col)
      invariant !findAll ==> solutions' == solutions && Branches(n, p, 0, col) == []
    {
      var sub;
      solutions', sub := Trial(n, useSymmetry, findAll, board, row, col, solutions', p);
      BranchesSnoc(n, p, col);
      if sub {
        FirstBelow(n, p, col, maxCol);
        return solutions', true;
      }
    }
    return solutions', false;
  }

  /** One pass of `for col in range(max_col)`. */
  method Trial(n: nat, useSymmetry: bool, findAll: bool, board: array<int>, row: nat, col: nat,
               solutions: seq<seq<int>>, ghost p: seq<int>)
    returns (solutions': seq<seq<int>>, stop: bool)
    requires board.Length == n && row == |p| < n && col < n && Partial(n, p) && Shows(board[..], p)
    modifies board
    ensures stop ==> !findAll && SafeAt(p, col) && Completions(n, p + [col]) != []
    ensures stop ==> solutions' == solutions + [Completions(n, p + [col])[0]]
    ensures stop ==> board[..] == Completions(n, p + [col])[0]
    ensures !stop ==> board[..] == old(board[..])
    ensures !stop && findAll ==> solutions' == solutions + (if SafeAt(p, col) then Completions(n, p + [col]) else [])
    ensures !stop && !findAll ==> solutions' == solutions && (SafeAt(p, col) ==> Completions(n, p + [col]) == [])
    decreases n - row, 0
  {
    solutions', stop := solutions, false;
    var safe := IsSafe(board, row, col);
    if safe {
      ShowsPlace(board[..], p, col);
      SafeExtends(n, p, col);
      board[row] := col;
      solutions', stop := Backtrack(n, useSymmetry, findAll, board, row + 1, solutions, p + [col]);
      if stop {
        return;
      }
      board[row] := -1;
    }
  }

  /** The final list of `solve_n_queens` when every solution is asked for
      under `use_symmetry`. */
  ghost function WithMirrors(n: nat): seq<seq<int>> {
    var found := Searched(n, [], true);
    found + (if n > 1 && n % 2 == 1 then MirrorAll(n, OffCentre(n, found)) else [])
  }

  /** `solve_n_queens`: runs the search from a list of n entries -1; finding
      all under `use_symmetry` on an odd board larger than 1, it then appends
      the mirror of every solution whose first queen is not in the centre
      column.  The count is the length of the list. */
  method SolveNQueens(n: nat, useSymmetry: bool, findAll: bool) returns (solutions: seq<seq<int>>, count: nat)
    ensures count == |solutions|
    ensures !findAll ==> solutions == First(Searched(n, [], useSymmetry))
    ensures findAll && !useSymmetry ==> solutions == AllSolutions(n)
    ensures findAll && useSymmetry ==> solutions == WithMirrors(n)
  {
    var board := new int[n](_ => -1);
    assert Shows(board[..], []);
    var stop;
    solutions, stop := Backtrack(n, useSymmetry, findAll, board, 0, [], []);
    ghost var found := Searched(n, [], useSymmetry);
    assert findAll ==> solutions == found;
    assert !findAll ==> solutions == First(found);
    if useSymmetry && n > 1 && findAll {
      if n % 2 == 1 {
        BranchesExtend(n, [], 0, (n + 1) / 2);
        var mirrorSolutions := MirrorsOffCentre(n, solutions);
        solutions := solutions + mirrorSolutions;
      }
    }
    assert findAll && useSymmetry && !(n > 1 && n % 2 == 1) ==> WithMirrors(n) == found + [];
    count := |solutions|;
  }

  /** The loop collecting `mirror_solutions`. */
  method MirrorsOffCentre(n: nat, solutions: seq<seq<int>>) returns (mirrorSolutions: seq<seq<int>>)
    requires forall k :: 0 <= k < |solutions| ==> |solutions[k]| > 0
    ensures mirrorSolutions == MirrorAll(n, OffCentre(n, solutions))
  {
    mirrorSolutions := [];
    for k := 0 to |solutions|
      invariant mirrorSolutions == MirrorAll(n, OffCentre(n, solutions[..k]))
    {
      var sol := solutions[k];
      MirrorStep(n, solutions, k);
      if sol[0] != n / 2 {
        var mirrorSol := Mirror(n, sol);
        mirrorSolutions := mirrorSolutions + [mirrorSol];
      }
    }
    assert solutions[..|solutions|] == solutions;
  }

  lemma MirrorStep(n: nat, xs: seq<seq<int>>, k: nat)
    requires k < |xs| && |xs[k]| > 0
    ensures MirrorAll(n, OffCentre(n, xs[..k + 1])) ==
      MirrorAll(n, OffCentre(n, xs[..k])) + (if xs[k][0] != n / 2 then [Mirror(n, xs[k])] else [])
  {
    var sol := xs[k];
    var before := OffCentre(n, xs[..k]);
    assert xs[..k + 1] == xs[..k] + [sol];
    OffCentreConcat(n, xs[..k], [sol]);
    if sol[0] != n / 2 {
      assert OffCentre(n, [sol]) == [sol];
      MirrorAllConcat(n, before, [sol]);
    } else {
      assert OffCentre(n, [sol]) == [];
      assert before + [] == before;
    }
  }

  /** Odd boards: the half search and the mirrors are every solution, each
      once. */
  lemma WithMirrorsOdd(n: nat)
    requires n % 2 == 1
    ensures NoDup(WithMirrors(n))
    ensures forall s :: s in WithMirrors(n) <==> Valid(n, s)
  {
    assert Searched(n, [], true) == LeftHalf(n);
    if n == 1 {
      CountOne();
      assert LeftHalf(1) == AllSolutions(1);
      AllSolutionsExactly(1);
    } else {
      MirrorCompletes(n);
    }
  }

  /** Even boards: no mirrors are added, so the list holds exactly the
      solutions whose first queen is in the left half, each once. */
  lemma WithMirrorsEven(n: nat)
    requires n % 2 == 0 && n > 0
    ensures NoDup(WithMirrors(n))
    ensures forall s :: s in WithMirrors(n) <==> Valid(n, s) && s[0] < n / 2
  {
    FirstRowExactly(n, 0, n / 2);
    BranchesNoDup(n, [], 0, n / 2);
    assert WithMirrors(n) == Branches(n, [], 0, n / 2);
  }

  /** So on the 4 x 4 board the mirror [2, 0, 3, 1] of [1, 3, 0, 2] is
      missing from the symmetric search's result. */
  lemma MirrorMissingFour()
    ensures [2, 0, 3, 1] in AllSolutions(4) && [2, 0, 3, 1] !in WithMirrors(4)
  {
    CountFour();
    WithMirrorsEven(4);
  }

  /** The symmetric search as evidently intended: the mirrors of the
      off-centre solutions are added for every board larger than 1. */
  ghost function WithMirrorsIntended(n: nat): seq<seq<int>> {
    var found := Searched(n, [], true);
    found + (if n > 1 then MirrorAll(n, OffCentre(n, found)) else [])
  }

  /** On every board it returns every solution exactly once. */
  lemma WithMirrorsIntendedComplete(n: nat)
    ensures NoDup(WithMirrorsIntended(n))
    ensures forall s :: s in WithMirrorsIntended(n) <==> Valid(n, s)
  {
    if n == 0 {
      AllSolutionsExactly(0);
      assert WithMirrorsIntended(0) == AllSolutions(0);
    } else if n == 1 {
      WithMirrorsOdd(1);
    } else {
      assert Searched(n, [], true) == LeftHalf(n);
      MirrorCompletes(n);
    }
  }
}
