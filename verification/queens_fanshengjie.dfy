/** The plain solver of fanshengjie's `n_queens.py`: the placement lives in
    a row -> column list holding -1 for empty rows, a column is tested by
    three upward scans, and every solution is stored as a copy of the
    list. */
module FanshengjieQueens {
  import opened Lists
  import opened QueensSpec
  import opened QueenSearch

  class NQueensSolver {
    var solutions: seq<seq<int>>
    var board: seq<int>
    var n: nat

    constructor ()
      ensures solutions == [] && board == [] && n == 0
    {
      solutions := [];
      board := [];
      n := 0;
    }

    /** `is_valid`: scans the column above `row`, then walks up to the left
        while the column stays >= 0 and up to the right while it stays < n.
        On a list whose first `row` entries are columns of the board this is
        exactly the no-attack test. */
    method IsValid(row: nat, col: int) returns (ok: bool)
      requires row <= |board| && 0 <= col < n
      ensures InRange(n, board[..row]) ==> (ok <==> SafeAt(board[..row], col))
    {
      for i := 0 to row
        invariant forall k :: 0 <= k < i ==> board[k] != col
      {
        if board[i] == col {
          return false;
        }
      }
      var i, j := row - 1, col - 1;
      while i >= 0 && j >= 0
        invariant -1 <= i < row && i - j == row - col
        invariant forall k :: i < k < row ==> board[k] != col - (row - k)
        decreases i
      {
        if board[i] == j {
          return false;
        }
        i, j := i - 1, j - 1;
      }
      i, j := row - 1, col + 1;
      while i >= 0 && j < n
        invariant -1 <= i < row && i + j == row + col
        invariant forall k :: i < k < row ==> board[k] != col + (row - k)
        decreases i
      {
        if board[i] == j {
          return false;
        }
        i, j := i - 1, j + 1;
      }
      ok := true;
      if InRange(n, board[..row]) {
        forall k | 0 <= k < row ensures board[..row][k] != col && Abs(board[..row][k] - col) != row - k {
          assert board[..row][k] == board[k];
        }
      }
    }

    /** `backtrack`: with the list showing the conflict-free placement p,
        appends a copy of every completion of p, in search order, and sets
        each tried entry back to -1, so the list is unchanged at the end. */
    method Backtrack(row: nat, ghost p: seq<int>)
      requires |board| == n && row == |p| <= n && Partial(n, p) && Shows(board, p)
      modifies this
      ensures n == old(n) && board == old(board)
      ensures solutions == old(solutions) + Completions(n, p)
      decreases n - row, 1
    {
      if row == n {
        assert board[..|p|] == board;
        solutions := solutions + [board];
        return;
      }
      for col := 0 to n
        invariant n == old(n) && board == old(board)
        invariant solutions == old(solutions) + Branches(n, p, 0, col)
      {
        Trial(row, col, p);
        BranchesSnoc(n, p, col);
        AppendAssoc(old(solutions), Branches(n, p, 0, col), if SafeAt(p, col) then Completions(n, p + [col]) else []);
      }
    }

    /** One pass of `for col in range(self.n)`. */
    method Trial(row: nat, col: nat, ghost p: seq<int>)
      requires |board| == n && row == |p| < n && col < n && Partial(n, p) && Shows(board, p)
      modifies this
      ensures n == old(n) && board == old(board)
      ensures solutions == old(solutions) + (if SafeAt(p, col) then Completions(n, p + [col]) else [])
      decreases n - row, 0
    {
      var ok := IsValid(row, col);
      if ok {
        ShowsPlace(board, p, col);
        SafeExtends(n, p, col);
        board := board[row := col];
        Backtrack(row + 1, p + [col]);
        board := board[row := -1];
      }
    }

    /** `solve`: resets the list to n entries -1 and the solutions, and
        records every solution in search order; `find_all` is not used. */
    method Solve(n: nat, findAll: bool)
      modifies this
      ensures this.n == n && board == seq(n, _ => -1)
      ensures solutions == AllSolutions(n)
    {
      this.n := n;
      board := seq(n, _ => -1);
      solutions := [];
      ShowsEmpty(n);
      Backtrack(0, []);
    }
  }
}
