/** fanshengjie's `n_queens1.py`: the plain list solver of `n_queens.py`
    again, plus a pruned variant that searches only the left half of the
    first row (centre column included) and adds mirror images afterwards. */
module FanshengjieQueens1 {
  import opened Lists
  import opened QueensSpec
  import opened QueenSearch
  import opened QueenSymmetry

  class NQueensSolver {
    var solutions: seq<seq<int>>
    var board: seq<int>
    var n: nat

    constructor ()
      ensures solutions == [] && board == [] && n == 0
    {
      solutions := [];
      board := [];
      n := 0;
    }

    /** `is_valid`: scans the column above `row`, then walks up to the left
        while the column stays >= 0 and up to the right while it stays < n.
        On a list whose first `row` entries are columns of the board this is
        exactly the no-attack test. */
    method IsValid(row: nat, col: int) returns (ok: bool)
      requires row <= |board| && 0 <= col < n
      ensures InRange(n, board[..row]) ==> (ok <==> SafeAt(board[..row], col))
    {
      for i := 0 to row
        invariant forall k :: 0 <= k < i ==> board[k] != col
      {
        if board[i] == col {
          return false;
        }
      }
      var i, j := row - 1, col - 1;
      while i >= 0 && j >= 0
        invariant -1 <= i < row && i - j == row - col
        invariant forall k :: i < k < row ==> board[k] != col - (row - k)
        decreases i
      {
        if board[i] == j {
          return false;
        }
        i, j := i - 1, j - 1;
      }
      i, j := row - 1, col + 1;
      while i >= 0 && j < n
        invariant -1 <= i < row && i + j == row + col
        invariant forall k :: i < k < row ==> board[k] != col + (row - k)
        decreases i
      {
        if board[i] == j {
          return false;
        }
        i, j := i - 1, j + 1;
      }
      ok := true;
      if InRange(n, board[..row]) {
        forall k | 0 <= k < row ensures board[..row][k] != col && Abs(board[..row][k] - col) != row - k {
          assert board[..row][k] == board[k];
        }
      }
    }

    /** `backtrack`: with the list showing the conflict-free placement p,
        appends a copy of every completion of p, in search order, and sets
        each tried entry back to -1, so the list is unchanged at the end. */
    method Backtrack(row: nat, ghost p: seq<int>)
      requires |board| == n && row == |p| <= n && Partial(n, p) && Shows(board, p)
      modifies this`board, this`solutions
      ensures board == old(board)
      ensures solutions == old(solutions) + Completions(n, p)
      decreases n - row, 1
    {
      if row == n {
        assert board[..|p|] == board;
        solutions := solutions + [board];
        return;
      }
      for col := 0 to n
        invariant board == old(board)
        invariant solutions == old(solutions) + Branches(n, p, 0, col)
      {
        Trial(row, col, p);
        BranchesSnoc(n, p, col);
        AppendAssoc(old(solutions), Branches(n, p, 0, col), if SafeAt(p, col) then Completions(n, p + [col]) else []);
      }
    }

    /** One pass of `for col in range(self.n)`. */
    method Trial(row: nat, col: nat, ghost p: seq<int>)
      requires |board| == n && row == |p| < n && col < n && Partial(n, p) && Shows(board, p)
      modifies this`board, this`solutions
      ensures board == old(board)
      ensures solutions == old(solutions) + (if SafeAt(p, col) then Completions(n, p + [col]) else [])
      decreases n - row, 0
    {
      var ok := IsValid(row, col);
      if ok {
        ShowsPlace(board, p, col);
        SafeExtends(n, p, col);
        board := board[row := col];
        Backtrack(row + 1, p + [col]);
        board := board[row := -1];
      }
    }

    /** `solve`: resets the list to n entries -1 and the solutions, and
        records every solution in search order; `find_all` is not used. */
    method Solve(n: nat, findAll: bool)
      modifies this
      ensures this.n == n && board == seq(n, _ => -1)
      ensures solutions == AllSolutions(n)
    {
      this.n := n;
      board := seq(n, _ => -1);
      solutions := [];
      ShowsEmpty(n);
      Backtrack(0, []);
    }

    /** `backtrack_optimized`: the first row tries the columns below
        `n // 2` (even n) or up to `n // 2` (odd n); every later row tries
        all n columns, so below the first row it is the plain search.  Each
        tried entry is set back to -1. */
    method BacktrackOptimized(row: nat, ghost p: seq<int>)
      requires |board| == n && row == |p| <= n && Partial(n, p) && Shows(board, p)
      modifies this`board, this`solutions
      ensures board == old(board)
      ensures solutions == old(solutions) + HalfSearch(n, p)
      decreases n - row, 1
    {
      if row == n {
        assert board[..|p|] == board;
        solutions := solutions + [board];
        return;
      }
      if row == 0 {
        var endCol := if n % 2 == 0 then n / 2 else n / 2 + 1;
        for col := 0 to endCol
          invariant board == old(board)
          invariant solutions == old(solutions) + Branches(n, p, 0, col)
        {
          OptimizedTrial(row, col, p);
          BranchesSnoc(n, p, col);
          AppendAssoc(old(solutions), Branches(n, p, 0, col), if SafeAt(p, col) then Completions(n, p + [col]) else []);
        }
      } else {
        for col := 0 to n
          invariant board == old(board)
          invariant solutions == old(solutions) + Branches(n, p, 0, col)
        {
          OptimizedTrial(row, col, p);
          BranchesSnoc(n, p, col);
          AppendAssoc(old(solutions), Branches(n, p, 0, col), if SafeAt(p, col) then Completions(n, p + [col]) else []);
        }
      }
    }

    /** One pass of either column loop of `backtrack_optimized`. */
    method OptimizedTrial(row: nat, col: nat, ghost p: seq<int>)
      requires |board| == n && row == |p| < n && col < n && Partial(n, p) && Shows(board, p)
      modifies this`board, this`solutions
      ensures board == old(board)
      ensures solutions == old(solutions) + (if SafeAt(p, col) then Completions(n, p + [col]) else [])
      decreases n - row, 0
    {
      var ok := IsValid(row, col);
      if ok {
        ShowsPlace(board, p, col);
        SafeExtends(n, p, col);
        board := board[row := col];
        BacktrackOptimized(row + 1, p + [col]);
        board := board[row := -1];
      }
    }

    /** `solve_optimized`: runs the half search, then appends the mirror
        [n-1-c for c in s] of every solution found (even n) or of those whose
        first queen is not in the centre column (odd n).  `find_all` is not
        used. */
    method SolveOptimized(n: nat, findAll: bool)
      modifies this
      ensures this.n == n && board == seq(n, _ => -1)
      ensures solutions == Optimized(n)
    {
      this.n := n;
      board := seq(n, _ => -1);
      solutions := [];
      ShowsEmpty(n);
      BacktrackOptimized(0, []);
      var found := solutions;
      assert found == HalfSearch(n, []);
      if n % 2 == 0 {
        AppendMirrors(found);
      } else {
        var nonCenterColSolutions := OffCentre(n, found);
        AppendMirrors(nonCenterColSolutions);
      }
      assert solutions == found + MirrorAll(n, if n % 2 == 0 then found else OffCentre(n, found));
    }

    /** The loop of either branch of `solve_optimized`: appends the mirror
        of each listed solution, in order. */
    method AppendMirrors(xs: seq<seq<int>>)
      modifies this`board, this`solutions
      ensures board == old(board)
      ensures solutions == old(solutions) + MirrorAll(n, xs)
    {
      for k := 0 to |xs|
        invariant board == old(board)
        invariant solutions == old(solutions) + MirrorAll(n, xs[..k])
      {
        var symmetricSolution := Mirror(n, xs[k]);
        solutions := solutions + [symmetricSolution];
        MirrorAllSnoc(n, xs, k);
        AppendAssoc(old(solutions), MirrorAll(n, xs[..k]), [symmetricSolution]);
      }
      assert xs[..|xs|] == xs;
    }
  }

  /** What `backtrack_optimized` reports from p. */
  ghost function HalfSearch(n: nat, p: seq<int>): seq<seq<int>>
    requires |p| <= n
  {
    if |p| == n then [p]
    else if |p| == 0 then Branches(n, p, 0, if n % 2 == 0 then n / 2 else n / 2 + 1)
    else Completions(n, p)
  }

  /** The final list of `solve_optimized`. */
  ghost function Optimized(n: nat): seq<seq<int>> {
    var found := HalfSearch(n, []);
    found + MirrorAll(n, if n % 2 == 0 then found else OffCentre(n, found))
  }

  lemma MirrorAllSnoc(n: int, xs: seq<seq<int>>, k: nat)
    requires k < |xs|
    ensures MirrorAll(n, xs[..k + 1]) == MirrorAll(n, xs[..k]) + [Mirror(n, xs[k])]
  {
  }

  /** For every n > 0 the optimised solver returns every solution exactly
      once: as many as the plain solver, though not in the same order. */
  lemma OptimizedExactly(n: nat)
    requires 0 < n
    ensures NoDup(Optimized(n))
    ensures forall s :: s in Optimized(n) <==> Valid(n, s)
    ensures |Optimized(n)| == |AllSolutions(n)|
  {
    assert HalfSearch(n, []) == LeftHalf(n);
    if n % 2 == 0 {
      FirstRowExactly(n, 0, n / 2);
      OffCentreEven(n, LeftHalf(n));
    }
    MirrorCompletes(n);
    AllSolutionsExactly(n);
    CompletionsNoDup(n, []);
    SameElementsSameLength(Optimized(n), AllSolutions(n));
  }

  /** Even n: exactly twice as many solutions as the half search found. */
  lemma OptimizedEven(n: nat)
    requires n % 2 == 0
    ensures |Optimized(n)| == 2 * |HalfSearch(n, [])|
  {
  }

  /** Odd n: no appended mirror equals a solution of the half search. */
  lemma OptimizedOddMirrorsNew(n: nat)
    requires n % 2 == 1
    ensures forall s :: s in MirrorAll(n, OffCentre(n, HalfSearch(n, []))) ==> s !in HalfSearch(n, [])
  {
    assert HalfSearch(n, []) == LeftHalf(n);
    MirrorCompletes(n);
  }

  /** The empty board: the half search stores the empty placement and the
      even-n branch stores its mirror, the empty placement again. */
  lemma OptimizedEmptyBoard()
    ensures Optimized(0) == [[], []]
  {
    assert Mirror(0, []) == [];
  }
}
