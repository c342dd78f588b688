/** lizongze's `NQ.py` (and the identical backtracking part of `NQ2.py`):
    a row -> column list plus three key sets (`cols`, `diag1` of r - c,
    `diag2` of r + c) captured by the nested `backtrack`.  The queen is
    removed from the sets before the stop check, so the sets are back at
    their entry values on every return; the list entry is never reset. */
module LizongzeQueens {
  import opened Lists
  import opened QueensSpec
  import opened QueenSearch

  /** The variables `backtrack` shares with `solve_n_queens`. */
  class Search {
    const n: nat
    const findAll: bool
    var solutions: seq<seq<int>>
    var cols: set<int>
    var diag1: set<int>
    var diag2: set<int>
    var board: seq<int>

    /** The setup of `solve_n_queens`: no solutions, empty sets, and
        `board = [-1] * n`. */
    constructor (n: nat, findAll: bool)
      ensures this.n == n && this.findAll == findAll
      ensures solutions == [] && cols == {} && diag1 == {} && diag2 == {}
      ensures board == seq(n, _ => -1)
    {
      this.n := n;
      this.findAll := findAll;
      solutions := [];
      cols, diag1, diag2 := {}, {}, {};
      board := seq(n, _ => -1);
    }

    /** The sets hold exactly the keys of the placement p. */
    ghost predicate KeysOf(p: seq<int>)
      reads this`cols, this`diag1, this`diag2
    {
      cols == ColKeys(p) && diag1 == DiffKeys(p) && diag2 == SumKeys(p)
    }

    /** `backtrack(r)` with the first r entries of the list showing the
        conflict-free placement p.  Finding all, it appends every completion
        of p; finding one, only the first.  It answers True at a complete
        placement and, finding one, whenever a completion was found; the sets
        are back at their entry values and the first r entries unchanged. */
    method Backtrack(r: nat, ghost p: seq<int>) returns (found: bool)
      requires |board| == n && r == |p| <= n && board[..r] == p && Partial(n, p) && KeysOf(p)
      modifies this
      ensures |board| == n && board[..r] == p
      ensures cols == old(cols) && diag1 == old(diag1) && diag2 == old(diag2)
      ensures findAll ==> solutions == old(solutions) + Completions(n, p)
      ensures !findAll ==> solutions == old(solutions) + First(Completions(n, p))
      ensures found <==> if findAll then r == n else Completions(n, p) != []
      decreases n - r, 1
    {
      if r == n {
        assert board == board[..r];
        solutions := solutions + [board];
        return true;
      }
      for c := 0 to n
        invariant |board| == n && board[..r] == p && KeysOf(p)
        invariant findAll ==> solutions == old(solutions) + Branches(n, p, 0, c)
        invariant !findAll ==> solutions == old(solutions) && Branches(n, p, 0, c) == []
      {
        var stop := Column(r, c, p);
        BranchesSnoc(n, p, c);
        if stop {
          FirstFound(n, p, c);
          return true;
        }
      }
      return false;
    }

    /** One pass of `for c in range(n)`: skipped when one of the three keys
        is taken; otherwise the queen is placed (keys added, list entry
        set), the search goes on, and the keys are removed again.  True
        means a find-one search has found its solution here. */
    method Column(r: nat, c: nat, ghost p: seq<int>) returns (stop: bool)
      requires |board| == n && r == |p| < n && c < n && board[..r] == p && Partial(n, p) && KeysOf(p)
      modifies this
      ensures |board| == n && board[..r] == p && KeysOf(p)
      ensures stop ==> !findAll && SafeAt(p, c) && Completions(n, p + [c]) != []
      ensures stop ==> solutions == old(solutions) + [Completions(n, p + [c])[0]]
      ensures !stop && findAll ==> solutions == old(solutions) + (if SafeAt(p, c) then Completions(n, p + [c]) else [])
      ensures !stop && !findAll ==> solutions == old(solutions) && (SafeAt(p, c) ==> Completions(n, p + [c]) == [])
      decreases n - r, 0
    {
      KeysSafe(p, c);
      if c in cols || r - c in diag1 || r + c in diag2 {
        return false;
      }
      Place(r, c, p);
      SafeExtends(n, p, c);
      var found := Backtrack(r + 1, p + [c]);
      Remove(r, c, p);
      if found && !findAll {
        return true;
      }
      return false;
    }

    /** `board[r] = c` and the three keys added: the list and the sets now
        show p + [c]. */
    method Place(r: nat, c: nat, ghost p: seq<int>)
      requires |board| == n && r == |p| < n && c < n && board[..r] == p && KeysOf(p)
      modifies this
      ensures |board| == n && board[..r + 1] == p + [c] && KeysOf(p + [c])
      ensures solutions == old(solutions)
    {
      cols := cols + {c};
      diag1 := diag1 + {r - c};
      diag2 := diag2 + {r + c};
      board := board[r := c];
      KeysSnoc(p, c);
      assert board[..r + 1] == p + [c];
    }

    /** The three keys removed again: the sets show p once more; the list
        entry is left as it is. */
    method Remove(r: nat, c: nat, ghost p: seq<int>)
      requires |board| == n && r == |p| < n && board[..r + 1] == p + [c] && KeysOf(p + [c]) && SafeAt(p, c)
      modifies this`cols, this`diag1, this`diag2
      ensures board[..r] == p && KeysOf(p)
    {
      KeysRestore(p, c);
      cols := cols - {c};
      diag1 := diag1 - {r - c};
      diag2 := diag2 - {r + c};
      assert board[..r] == board[..r + 1][..r];
    }
  }

  /** `solve_n_queens`: all solutions in search order, or finding one the
      first solution only (none when there is none). */
  method SolveNQueens(n: nat, findAll: bool) returns (solutions: seq<seq<int>>)
    ensures findAll ==> solutions == AllSolutions(n)
    ensures !findAll ==> solutions == First(AllSolutions(n))
  {
    var search := new Search(n, findAll);
    assert ColKeys([]) == {} && DiffKeys([]) == {} && SumKeys([]) == {};
    var found := search.Backtrack(0, []);
    solutions := search.solutions;
  }

  // ---------------------------------------------------------------------
  // `format_solution`.

  /** `"." * k`: empty for k <= 0. */
  function Dots(k: int): (s: string)
    ensures |s| == if k <= 0 then 0 else k
    ensures forall i :: 0 <= i < |s| ==> s[i] == '.'
  {
    if k <= 0 then "" else seq(k, _ => '.')
  }

  /** `format_solution`: one string per row, `"." * sol[r] + "Q" +
      "." * (n - sol[r] - 1)`. */
  function FormatSolution(sol: seq<int>): (rows: seq<string>)
    ensures |rows| == |sol|
  {
    seq(|sol|, r requires 0 <= r < |sol| => Dots(sol[r]) + "Q" + Dots(|sol| - sol[r] - 1))
  }

  /** For columns of the board, row r is n characters long with its only
      'Q' at index sol[r]. */
  lemma FormatRows(sol: seq<int>)
    requires InRange(|sol|, sol)
    ensures forall r :: 0 <= r < |sol| ==> |FormatSolution(sol)[r]| == |sol|
    ensures forall r, j :: 0 <= r < |sol| && 0 <= j < |sol| ==>
      (FormatSolution(sol)[r][j] == 'Q' <==> j == sol[r]) &&
      (FormatSolution(sol)[r][j] == '.' <==> j != sol[r])
  {
    forall r, j | 0 <= r < |sol| && 0 <= j < |sol|
      ensures |FormatSolution(sol)[r]| == |sol|
      ensures FormatSolution(sol)[r][j] == 'Q' <==> j == sol[r]
      ensures FormatSolution(sol)[r][j] == '.' <==> j != sol[r]
    {
      var a, b := Dots(sol[r]), Dots(|sol| - sol[r] - 1);
      assert FormatSolution(sol)[r] == a + "Q" + b;
      if j < sol[r] {
        assert (a + "Q" + b)[j] == a[j];
      } else if j > sol[r] {
        assert (a + "Q" + b)[j] == b[j - sol[r] - 1];
      }
    }
  }
}
