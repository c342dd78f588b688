/** The grid solver `NQueensSolver`: a 0/1 grid is set and reset cell by
    cell, every full grid is stored as a snapshot and counted. */
module ZhaoweiyiQueens {
  import opened Lists
  import opened QueensSpec
  import opened QueenSearch
  import opened QueenGrid

  class NQueensSolver {
    var n: nat
    var solutions: seq<seq<seq<int>>>
    var totalSolutions: int

    constructor ()
      ensures n == 0 && solutions == [] && totalSolutions == 0
    {
      n := 0;
      solutions := [];
      totalSolutions := 0;
    }

    /** `is_safe`: scans column col above `row`, then the cells up and to
        the left and up and to the right starting at (row, col) itself. */
    method IsSafe(board: array2<int>, row: int, col: int) returns (safe: bool)
      requires board.Length0 == n && board.Length1 == n && 0 <= row < n && 0 <= col < n
      ensures safe <==> ClearAbove(board, row, col) && board[row, col] != 1
    {
      var i := 0;
      while i < row
        invariant 0 <= i <= row
        invariant forall k :: 0 <= k < i ==> board[k, col] != 1
      {
        if board[i, col] == 1 {
          return false;
        }
        i := i + 1;
      }
      var r, c := row, col;
      while r >= 0 && c >= 0
        invariant -1 <= r <= row && r - c == row - col
        invariant forall k, j :: r < k <= row && 0 <= j < n && row - k == col - j ==> board[k, j] != 1
        decreases r
      {
        if board[r, c] == 1 {
          return false;
        }
        r, c := r - 1, c - 1;
      }
      r, c := row, col;
      while r >= 0 && c < n
        invariant -1 <= r <= row && r + c == row + col
        invariant forall k, j :: r < k <= row && 0 <= j < n && row - k == j - col ==> board[k, j] != 1
        decreases r
      {
        if board[r, c] == 1 {
          return false;
        }
        r, c := r - 1, c + 1;
      }
      return true;
    }

    /** `solve_n_queens_util`: with the grid showing the conflict-free
        placement p of rows 0..row-1, appends a snapshot of the grid of every
        completion of p, in search order, counts each, and leaves the grid
        showing p again. */
    method SolveUtil(board: array2<int>, row: nat, ghost p: seq<int>)
      requires board.Length0 == n && row == |p| <= n && Partial(n, p) && Holds(board, p)
      modifies this, board
      ensures n == old(n) && Holds(board, p)
      ensures solutions == old(solutions) + Boards(n, Completions(n, p))
      ensures totalSolutions == old(totalSolutions) + |Completions(n, p)|
      decreases n - row, 1
    {
      if row == n {
        HoldsCells(board, p);
        solutions := solutions + [Cells(board)];
        totalSolutions := totalSolutions + 1;
        return;
      }
      var col := 0;
      while col < n
        invariant 0 <= col <= n && n == old(n) && Holds(board, p)
        invariant solutions == old(solutions) + Boards(n, Branches(n, p, 0, col))
        invariant totalSolutions == old(totalSolutions) + |Branches(n, p, 0, col)|
      {
        Column(board, row, col, p);
        BranchesSnoc(n, p, col);
        BoardsConcat(n, Branches(n, p, 0, col), if SafeAt(p, col) then Completions(n, p + [col]) else []);
        AppendAssoc(old(solutions), Boards(n, Branches(n, p, 0, col)), Boards(n, if SafeAt(p, col) then Completions(n, p + [col]) else []));
        col := col + 1;
      }
    }

    /** One pass of `for col in range(self.n)`: when (row, col) is safe, sets
        it, searches on and resets it. */
    method Column(board: array2<int>, row: nat, col: nat, ghost p: seq<int>)
      requires board.Length0 == n && row == |p| < n && col < n && Partial(n, p) && Holds(board, p)
      modifies this, board
      ensures n == old(n) && Holds(board, p)
      ensures solutions == old(solutions) + Boards(n, if SafeAt(p, col) then Completions(n, p + [col]) else [])
      ensures totalSolutions == old(totalSolutions) + |if SafeAt(p, col) then Completions(n, p + [col]) else []|
      decreases n - row, 0
    {
      ClearAboveSafe(board, p, col);
      var safe := IsSafe(board, row, col);
      if safe {
        board[row, col] := 1;
        HoldsPlace(board, p, col);
        SafeExtends(n, p, col);
        SolveUtil(board, row + 1, p + [col]);
        board[row, col] := 0;
      }
    }
  
    /** `solve_n_queens`: sets n, clears the solutions and the count, and
        searches an empty n x n grid.  `find_all` is not used: every
        solution is stored, as its grid, in search order. */
    method SolveNQueens(n: nat, findAll: bool)
      modifies this
      ensures this.n == n
      ensures solutions == Boards(n, AllSolutions(n)) && totalSolutions == |solutions|
    {
      this.n := n;
      solutions := [];
      totalSolutions := 0;
      var board := new int[n, n]((i, j) => 0);
      SolveUtil(board, 0, []);
    }
  }

  /** Every stored snapshot has exactly one 1 per row, at the column of the
      queen of that row in a solution. */
  lemma SnapshotsOneQueenPerRow(n: nat)
    ensures forall k :: 0 <= k < |AllSolutions(n)| ==>
      (|AllSolutions(n)[k]| == n &&
       forall i, j :: 0 <= i < n && 0 <= j < n ==>
         (Boards(n, AllSolutions(n))[k][i][j] == 1 <==> j == AllSolutions(n)[k][i]))
  {
    AllSolutionsExactly(n);
    forall k | 0 <= k < |AllSolutions(n)|
      ensures |AllSolutions(n)[k]| == n
      ensures forall i, j :: 0 <= i < n && 0 <= j < n ==>
        (Boards(n, AllSolutions(n))[k][i][j] == 1 <==> j == AllSolutions(n)[k][i])
    {
      assert AllSolutions(n)[k] in AllSolutions(n);
      BoardRows(n, AllSolutions(n)[k]);
    }
  }
}
