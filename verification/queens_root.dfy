/** The grid solver of the top-level `n_queens.py`: free functions over an
    n x n 0/1 grid and a solution list the caller passes in.  The search
    never stops early, so single-solution mode changes only the flag it
    returns. */
module RootQueens {
  import opened Lists
  import opened QueensSpec
  import opened QueenSearch
  import opened QueenGrid

  /** `is_safe`: scans column col above `row`, then the cells up and to the
      left and up and to the right starting at (row, col) itself. */
  method IsSafe(board: array2<int>, row: int, col: int, n: nat) returns (safe: bool)
    requires board.Length0 == n && board.Length1 == n && 0 <= row < n && 0 <= col < n
    ensures safe <==> ClearAbove(board, row, col) && board[row, col] != 1
  {
    for i := 0 to row
      invariant forall k :: 0 <= k < i ==> board[k, col] != 1
    {
      if board[i, col] == 1 {
        return false;
      }
    }
    var r, c := row, col;
    while r >= 0 && c >= 0
      invariant -1 <= r <= row && r - c == row - col
      invariant forall k, j :: r < k <= row && 0 <= j < n && row - k == col - j ==> board[k, j] != 1
      decreases r
    {
      if board[r, c] == 1 {
        return false;
      }
      r, c := r - 1, c - 1;
    }
    r, c := row, col;
    while r >= 0 && c < n
      invariant -1 <= r <= row && r + c == row + col
      invariant forall k, j :: r < k <= row && 0 <= j < n && row - k == j - col ==> board[k, j] != 1
      decreases r
    {
      if board[r, c] == 1 {
        return false;
      }
      r, c := r - 1, c + 1;
    }
    return true;
  }

  /** `solve_n_queens_util`: with the grid showing the conflict-free
      placement p of rows 0..row-1, appends a copy of the grid of every
      completion of p, in search order, and leaves the grid showing p
      again.  The result is True exactly when single-solution mode is on and
      some completion exists; it never cuts the search short. */
  method SolveUtil(board: array2<int>, row: nat, n: nat, solutions: seq<seq<seq<int>>>,
                   singleSolution: bool, ghost p: seq<int>)
    returns (solutions': seq<seq<seq<int>>>, res: bool)
    requires board.Length0 == n && row == |p| <= n && Partial(n, p) && Holds(board, p)
    modifies board
    ensures Holds(board, p)
    ensures solutions' == solutions + Boards(n, Completions(n, p))
    ensures res <==> singleSolution && Completions(n, p) != []
    decreases n - row, 1
  {
    if row >= n {
      HoldsCells(board, p);
      solutions' := solutions + [Cells(board)];
      return solutions', singleSolution;
    }
    solutions' := solutions;
    res := false;
    for i := 0 to n
      invariant Holds(board, p)
      invariant solutions' == solutions + Boards(n, Branches(n, p, 0, i))
      invariant res <==> singleSolution && Branches(n, p, 0, i) != []
    {
      var sub;
      solutions', sub := Column(board, row, i, n, solutions', singleSolution, p);
      if sub {
        res := true;
      }
      BranchesSnoc(n, p, i);
      BoardsConcat(n, Branches(n, p, 0, i), if SafeAt(p, i) then Completions(n, p + [i]) else []);
      AppendAssoc(solutions, Boards(n, Branches(n, p, 0, i)), Boards(n, if SafeAt(p, i) then Completions(n, p + [i]) else []));
    }
  }

  /** One pass of `for i in range(n)`: when (row, i) is safe, sets the
      cell, searches on and clears it. */
  method Column(board: array2<int>, row: nat, i: nat, n: nat, solutions: seq<seq<seq<int>>>,
                singleSolution: bool, ghost p: seq<int>)
    returns (solutions': seq<seq<seq<int>>>, sub: bool)
    requires board.Length0 == n && row == |p| < n && i < n && Partial(n, p) && Holds(board, p)
    modifies board
    ensures Holds(board, p)
    ensures solutions' == solutions + Boards(n, if SafeAt(p, i) then Completions(n, p + [i]) else [])
    ensures sub <==> singleSolution && SafeAt(p, i) && Completions(n, p + [i]) != []
    decreases n - row, 0
  {
    ClearAboveSafe(board, p, i);
    var safe := IsSafe(board, row, i, n);
    solutions', sub := solutions, false;
    if safe {
      board[row, i] := 1;
      HoldsPlace(board, p, i);
      SafeExtends(n, p, i);
      solutions', sub := SolveUtil(board, row + 1, n, solutions, singleSolution, p + [i]);
      board[row, i] := 0;
    }
  }

  /** `solve_n_queens`: below 4 it gives no solutions and a count of 0;
      otherwise the grids of all solutions in search order and their number,
      whichever mode is asked for. */
  method SolveNQueens(n: nat, singleSolution: bool) returns (solutions: seq<seq<seq<int>>>, count: nat)
    ensures n < 4 ==> solutions == [] && count == 0
    ensures n >= 4 ==> solutions == Boards(n, AllSolutions(n))
    ensures count == |solutions|
  {
    if n < 4 {
      return [], 0;
    }
    var board := new int[n, n]((i, j) => 0);
    var found;
    solutions, found := SolveUtil(board, 0, n, [], singleSolution, []);
    count := |solutions|;
  }
}
