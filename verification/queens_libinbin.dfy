/** LiBinbin's solver: a plain search over a row -> column list `board`
    that collects every solution.  `solve_n_queens` turns sizes below 4
    away with a message and otherwise prints the solutions and their
    number.  The `limit` the search computes for a half-board optimisation
    is never used: every column of every row is tried. */
module LiBinbinQueens {
  import opened QueensSpec
  import opened QueenSearch

  /** `is_safe(board, row, col)`: no earlier queen shares the column, the
      diagonal `board[i] - i` or the anti-diagonal `board[i] + i`. */
  method IsSafe(board: array<int>, row: nat, col: int) returns (safe: bool)
    requires row <= board.Length
    ensures safe <==> SafeAt(board[..row], col)
  {
    for i := 0 to row
      invariant forall k :: 0 <= k < i ==> board[k] != col && Abs(board[k] - col) != row - k
    {
      if board[i] == col || board[i] - i == col - row || board[i] + i == col + row {
        assert board[..row][i] == board[i];
        return false;
      }
    }
    return true;
  }

  /** `solve_n_queens_util(board, row, n, solutions)` with `board[:row]` the
      conflict-free placement p: appends a copy of every completion of p in
      search order.  Entries of rows at or after `row` are overwritten and
      never reset. */
  method SolveUtil(board: array<int>, row: nat, n: nat, solutions: seq<seq<int>>, ghost p: seq<int>)
    returns (solutions': seq<seq<int>>)
    requires board.Length == n && row == |p| <= n && board[..row] == p && Partial(n, p)
    modifies board
    ensures board[..row] == p
    ensures solutions' == solutions + Completions(n, p)
    decreases n - row, 1
  {
    if row == n {
      assert board[..] == p;
      return solutions + [board[..]];
    }
    var limit := n / 2 + n % 2;
    solutions' := solutions;
    for col := 0 to n
      invariant board[..row] == p
      invariant solutions' == solutions + Branches(n, p, 0, col)
    {
      BranchesSnoc(n, p, col);
      solutions' := TryColumn(board, row, n, col, solutions', p);
    }
  }

  /** One pass of `for col in range(n)`. */
  method TryColumn(board: array<int>, row: nat, n: nat, col: nat, solutions: seq<seq<int>>, ghost p: seq<int>)
    returns (solutions': seq<seq<int>>)
    requires board.Length == n && row == |p| < n && col < n && board[..row] == p && Partial(n, p)
    modifies board
    ensures board[..row] == p
    ensures solutions' == solutions + if SafeAt(p, col) then Completions(n, p + [col]) else []
    decreases n - row, 0
  {
    var safe := IsSafe(board, row, col);
    if !safe {
      return solutions;
    }
    board[row] := col;
    assert board[..row + 1] == p + [col];
    SafeExtends(n, p, col);
    solutions' := SolveUtil(board, row + 1, n, solutions, p + [col]);
    assert board[..row] == board[..row + 1][..row];
  }

  /** What `solve_n_queens` hands back: the refusal message, or (printed,
      with their number) the solutions. */
  datatype Outcome = Refused(message: string) | Printed(solutions: seq<seq<int>>, total: nat)

  /** `solve_n_queens(n)`: sizes below 4 get the message; otherwise every
      solution, each once, in search order, and their number. */
  method SolveNQueens(n: int) returns (r: Outcome)
    ensures r.Refused? <==> n < 4
    ensures r.Refused? ==> r.message == "N must be at least 4."
    ensures r.Printed? ==> r.solutions == AllSolutions(n) && r.total == |r.solutions|
  {
    if n < 4 {
      return Refused("N must be at least 4.");
    }
    var board := new int[n](_ => -1);
    assert board[..0] == [];
    var solutions := SolveUtil(board, 0, n, [], []);
    return Printed(solutions, |solutions|);
  }
}
