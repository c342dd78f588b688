/** guozheng's `solve_n_queens`: a row -> column list `queens`, a list of
    column flags and two `defaultdict(bool)` diagonal tables, set and
    cleared by the nested `place_queen` / `remove_queen`.  Each solution is
    stored as text, one string per row of 3-character cells.  With
    `output_all` off the search returns at the first complete placement
    without taking its queens off. */
module GuozhengQueens {
  import opened Lists
  import opened QueensSpec
  import opened QueenSearch
  import opened QueenText

  /** Row text of `add_solution`: `'Q  '` in the queen's column, `'*  '` in
      every other one. */
  function RowText(n: nat, c: int): string {
    Join(Cells(n, c, "Q  ", "*  "))
  }

  /** The solution as `add_solution` stores it, one string per row. */
  function Picture(n: nat, s: seq<int>): (rows: seq<string>)
    ensures |rows| == |s|
  {
    seq(|s|, i requires 0 <= i < |s| => RowText(n, s[i]))
  }

  function Pictures(n: nat, xs: seq<seq<int>>): (ps: seq<seq<string>>)
    ensures |ps| == |xs| && forall k :: 0 <= k < |xs| ==> ps[k] == Picture(n, xs[k])
  {
    seq(|xs|, k requires 0 <= k < |xs| => Picture(n, xs[k]))
  }

  lemma PicturesConcat(n: nat, xs: seq<seq<int>>, ys: seq<seq<int>>)
    ensures Pictures(n, xs + ys) == Pictures(n, xs) + Pictures(n, ys)
  {
  }

  /** A stored solution is n strings of 3n characters; row i is the
      `'*  '` cells before column s[i], then `'Q  '`, then `'*  '` cells,
      so its only 'Q' is at index 3 * s[i]. */
  lemma PictureRows(n: nat, s: seq<int>)
    requires Valid(n, s)
    ensures |Picture(n, s)| == n
    ensures forall i :: 0 <= i < n ==>
      Picture(n, s)[i] == Times(s[i], "*  ") + "Q  " + Times(n - s[i] - 1, "*  ")
    ensures forall i, j :: 0 <= i < n && 0 <= j < |Picture(n, s)[i]| ==>
      |Picture(n, s)[i]| == 3 * n && (Picture(n, s)[i][j] == 'Q' <==> j == 3 * s[i])
  {
    forall i | 0 <= i < n
      ensures Picture(n, s)[i] == Times(s[i], "*  ") + "Q  " + Times(n - s[i] - 1, "*  ")
      ensures |Picture(n, s)[i]| == 3 * n
      ensures forall j :: 0 <= j < |Picture(n, s)[i]| ==> (Picture(n, s)[i][j] == 'Q' <==> j == 3 * s[i])
    {
      RowPieces(n, s[i], "Q  ", "*  ");
      RowQueen(n, s[i], "Q  ", "*  ");
    }
  }

  /** The variables the nested functions of `solve_n_queens` share. */
  class Search {
    const n: nat
    const outputAll: bool
    var solutions: seq<seq<string>>
    var cols: seq<bool>
    var hills: map<int, bool>
    var dales: map<int, bool>
    var queens: seq<int>

    /** The setup of `solve_n_queens`: no solutions, no flags raised, every
        entry of `queens` -1. */
    constructor (n: nat, outputAll: bool)
      ensures this.n == n && this.outputAll == outputAll && solutions == []
      ensures cols == seq(n, _ => false) && hills == map[] && dales == map[]
      ensures queens == seq(n, _ => -1)
    {
      this.n := n;
      this.outputAll := outputAll;
      solutions := [];
      cols := seq(n, _ => false);
      hills, dales := map[], map[];
      queens := seq(n, _ => -1);
    }

    /** The flags and `queens` record the partial placement p. */
    ghost predicate Records(p: seq<int>)
      reads this
    {
      |queens| == n && Shows(queens, p) && FlagsShow(n, cols, hills, dales, p)
    }

    /** `is_not_under_attack`: neither the column nor either diagonal is
        flagged. */
    predicate IsNotUnderAttack(row: int, col: int)
      reads this
      requires 0 <= col < |cols|
    {
      !(cols[col] || Flag(hills, row - col) || Flag(dales, row + col))
    }

    /** On flags recording p, the test of column col of row |p| is the
        no-attack condition. */
    lemma NotUnderAttackSafe(p: seq<int>, col: int)
      requires Records(p) && 0 <= col < n
      ensures IsNotUnderAttack(|p|, col) <==> SafeAt(p, col)
    {
      FlagsSafe(n, cols, hills, dales, p, col);
    }

    /** `place_queen`: records the column and raises the three flags. */
    method PlaceQueen(row: int, col: int)
      requires 0 <= row < |queens| && 0 <= col < |cols|
      modifies `queens, `cols, `hills, `dales
      ensures queens == old(queens)[row := col] && cols == old(cols)[col := true]
      ensures hills == old(hills)[row - col := true] && dales == old(dales)[row + col := true]
    {
      queens := queens[row := col];
      cols := cols[col := true];
      hills := hills[row - col := true];
      dales := dales[row + col := true];
    }

    /** `remove_queen`: resets the entry to -1 and lowers the three flags. */
    method RemoveQueen(row: int, col: int)
      requires 0 <= row < |queens| && 0 <= col < |cols|
      modifies `queens, `cols, `hills, `dales
      ensures queens == old(queens)[row := -1] && cols == old(cols)[col := false]
      ensures hills == old(hills)[row - col := false] && dales == old(dales)[row + col := false]
    {
      queens := queens[row := -1];
      cols := cols[col := false];
      hills := hills[row - col := false];
      dales := dales[row + col := false];
    }

    /** `add_solution`: renders `queens` row by row and stores it. */
    method AddSolution()
      requires |queens| == n && InRange(n, queens)
      modifies `solutions
      ensures solutions == old(solutions) + [Picture(n, queens)]
    {
      var solution: seq<string> := [];
      for i := 0 to n
        invariant solution == Picture(n, queens[..i])
      {
        var row := seq(n, _ => "*  ");
        row := row[queens[i] := "Q  "];
        assert row == Cells(n, queens[i], "Q  ", "*  ");
        solution := solution + [Join(row)];
        assert queens[..i + 1] == queens[..i] + [queens[i]];
      }
      assert queens[..n] == queens;
      solutions := solutions + [solution];
    }

    /** `backtrack(row)` with the partial placement p of rows 0..row-1
        recorded.  With `output_all` it stores every completion of p, in
        search order, returns False and leaves the flags and `queens` as it
        found them.  Without it, it stores the first completion only and
        returns True exactly when there is one, leaving that completion
        recorded; otherwise nothing changes.  At row == n (only reached for
        n == 0) the loop is empty and nothing is stored. */
    method Backtrack(row: nat, ghost p: seq<int>) returns (found: bool)
      requires row == |p| && (row < n || row == n == 0) && Partial(n, p) && Records(p)
      modifies this
      ensures found <==> !outputAll && |p| < n && Completions(n, p) != []
      ensures |p| == n ==> solutions == old(solutions)
      ensures |p| < n && outputAll ==> solutions == old(solutions) + Pictures(n, Completions(n, p))
      ensures |p| < n && !outputAll ==> solutions == old(solutions) + Pictures(n, First(Completions(n, p)))
      ensures !found ==> queens == old(queens) && cols == old(cols) && Records(p)
      ensures found ==> Records(Completions(n, p)[0])
      decreases n - row, 1
    {
      for col := 0 to n
        invariant queens == old(queens) && cols == old(cols) && Records(p)
        invariant |p| < n && outputAll ==> solutions == old(solutions) + Pictures(n, Branches(n, p, 0, col))
        invariant |p| < n && !outputAll ==> solutions == old(solutions) && Branches(n, p, 0, col) == []
        invariant |p| == n ==> solutions == old(solutions)
      {
        var stop := Column(row, col, p);
        BranchesSnoc(n, p, col);
        if stop {
          FirstFound(n, p, col);
          return true;
        }
        ghost var next := if SafeAt(p, col) then Completions(n, p + [col]) else [];
        PicturesConcat(n, Branches(n, p, 0, col), next);
        AppendAssoc(old(solutions), Pictures(n, Branches(n, p, 0, col)), Pictures(n, next));
      }
      if |p| < n {
        BranchesAll(n, p);
      }
      return false;
    }

    /** One pass of `for col in range(n)` in row |p| < n: a safe column gets
        the queen; on the last row the solution is stored, otherwise the
        search goes on.  `stop` is the early return of a search without
        `output_all` that has found its solution: the queens stay on.
        Otherwise the queen is removed and flags and `queens` are as before. */
    method Column(row: nat, col: nat, ghost p: seq<int>) returns (stop: bool)
      requires row == |p| < n && col < n && Partial(n, p) && Records(p)
      modifies this
      ensures stop ==> !outputAll && SafeAt(p, col) && Completions(n, p + [col]) != []
      ensures stop ==> solutions == old(solutions) + Pictures(n, [Completions(n, p + [col])[0]])
      ensures stop ==> Records(Completions(n, p + [col])[0])
      ensures !stop ==> queens == old(queens) && cols == old(cols) && Records(p)
      ensures !stop && outputAll ==>
        solutions == old(solutions) + Pictures(n, if SafeAt(p, col) then Completions(n, p + [col]) else [])
      ensures !stop && !outputAll ==>
        solutions == old(solutions) && (SafeAt(p, col) ==> Completions(n, p + [col]) == [])
      decreases n - row, 0
    {
      NotUnderAttackSafe(p, col);
      if !IsNotUnderAttack(row, col) {
        return false;
      }
      ghost var q := p + [col];
      ghost var cols0 := cols;
      FlagsPlace(n, cols, hills, dales, p, col);
      ShowsPlace(queens, p, col);
      SafeExtends(n, p, col);
      PlaceQueen(row, col);
      assert Records(q);
      if row + 1 == n {
        assert queens == q by {
          assert queens[..|q|] == q;
        }
        AddSolution();
        assert Completions(n, q) == [q];
        if !outputAll {
          return true;
        }
      } else {
        var found := Backtrack(row + 1, q);
        if found && !outputAll {
          return true;
        }
      }
      FlagsRemove(n, cols, hills, dales, p, col);
      RemoveQueen(row, col);
      assert cols == cols0;
      return false;
    }
  }

  /** `solve_n_queens`: the stored solutions and their number (the elapsed
      time is not modelled).  With `output_all` every solution in search
      order, without it the first one only; none at all for n == 0, where
      the first row's loop is empty. */
  method SolveNQueens(n: nat, outputAll: bool) returns (solutions: seq<seq<string>>, count: nat)
    ensures outputAll ==> solutions == Pictures(n, if n == 0 then [] else AllSolutions(n))
    ensures !outputAll ==> solutions == Pictures(n, if n == 0 then [] else First(AllSolutions(n)))
    ensures count == |solutions|
  {
    var search := new Search(n, outputAll);
    FlagsEmpty(n);
    ShowsEmpty(n);
    var _ := search.Backtrack(0, []);
    solutions := search.solutions;
    count := |solutions|;
  }
}
