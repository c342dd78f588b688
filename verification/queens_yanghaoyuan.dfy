/** yanghaoyuan's `solve_n_queens`: a plain search over a row -> column list
    `positions` that finds every solution, followed by
    `add_symmetric_solutions`, which walks the solution list while it grows
    and appends three images of each entry that are not yet in it.  Two of
    the images (the rows reversed, the columns mirrored) are again
    solutions; the third, `[n - 1 - row for row, col in enumerate(solution)]`,
    ignores the queens altogether and is the same list [n-1, ..., 0] for
    every solution, so for n >= 2 the result ends with two lists that are
    not solutions.  The model follows the code; `SolveNQueensIntended` is the
    variant with a real diagonal reflection. */
module YanghaoyuanQueens {
  import opened Lists
  import opened QueensSpec
  import opened QueenSearch
  import opened QueenSymmetry

  // ---------------------------------------------------------------------
  // The search.

  /** `is_not_under_attack(row, col)` over the first row entries. */
  method IsNotUnderAttack(positions: array<int>, row: nat, col: int) returns (safe: bool)
    requires row <= positions.Length
    ensures safe <==> SafeAt(positions[..row], col)
  {
    for prevRow := 0 to row
      invariant forall i :: 0 <= i < prevRow ==> positions[i] != col && Abs(positions[i] - col) != row - i
    {
      var prevCol := positions[prevRow];
      if prevCol == col || Abs(prevCol - col) == Abs(prevRow - row) {
        assert positions[..row][prevRow] == prevCol;
        return false;
      }
    }
    return true;
  }

  /** `place_queen(row)` with `positions[:row]` the conflict-free placement
      p: appends a copy of every completion of p, in search order.  The
      entry of row `row` is overwritten and never reset. */
  method PlaceQueen(positions: array<int>, row: nat, n: nat, solutions: seq<seq<int>>, ghost p: seq<int>)
    returns (solutions': seq<seq<int>>)
    requires positions.Length == n && row == |p| <= n && positions[..row] == p && Partial(n, p)
    modifies positions
    ensures positions[..row] == p
    ensures solutions' == solutions + Completions(n, p)
    decreases n - row, 1
  {
    if row == n {
      assert positions[..] == p;
      return solutions + [positions[..]];
    }
    solutions' := solutions;
    for col := 0 to n
      invariant positions[..row] == p
      invariant solutions' == solutions + Branches(n, p, 0, col)
    {
      BranchesSnoc(n, p, col);
      solutions' := PlaceColumn(positions, row, n, col, solutions', p);
    }
  }

  /** One pass of `for col in range(n)`: a safe column gets the queen and the
      search goes on from there. */
  method PlaceColumn(positions: array<int>, row: nat, n: nat, col: nat, solutions: seq<seq<int>>, ghost p: seq<int>)
    returns (solutions': seq<seq<int>>)
    requires positions.Length == n && row == |p| < n && col < n && positions[..row] == p && Partial(n, p)
    modifies positions
    ensures positions[..row] == p
    ensures solutions' == solutions + if SafeAt(p, col) then Completions(n, p + [col]) else []
    decreases n - row, 0
  {
    var safe := IsNotUnderAttack(positions, row, col);
    if !safe {
      return solutions;
    }
    positions[row] := col;
    assert positions[..row + 1] == p + [col];
    SafeExtends(n, p, col);
    solutions' := PlaceQueen(positions, row + 1, n, solutions, p + [col]);
    assert positions[..row] == positions[..row + 1][..row];
  }

  // ---------------------------------------------------------------------
  // The three images `add_symmetric_solutions` tries.

  /** `[n - 1 - row for row, col in enumerate(solution)]`: only the length
      of the solution is used. */
  function Descending(n: int, s: seq<int>): (r: seq<int>)
    ensures |r| == |s|
  {
    seq(|s|, row => n - 1 - row)
  }

  /** The queens on the anti-diagonal, and on the main diagonal. */
  function Desc(n: nat): seq<int> { seq(n, row => n - 1 - row) }
  function Asc(n: nat): seq<int> { seq(n, row => row) }

  /** `if x not in solutions: solutions.append(x)`. */
  function AddNew(xs: seq<seq<int>>, x: seq<int>): (r: seq<seq<int>>)
    ensures x in r && forall y :: y in r <==> y in xs || y == x
  {
    if x in xs then xs else xs + [x]
  }

  /** Both diagonals hold two queens in adjacent rows once n >= 2. */
  lemma DiagonalsInvalid(n: nat)
    requires n >= 2
    ensures !Valid(n, Desc(n)) && !Valid(n, Asc(n)) && Desc(n) != Asc(n)
  {
    assert Abs(Desc(n)[0] - Desc(n)[1]) == 1;
    assert Abs(Asc(n)[0] - Asc(n)[1]) == 1;
    assert Desc(n)[0] != Asc(n)[0];
  }

  lemma DiagonalImages(n: nat)
    ensures Reverse(Desc(n)) == Asc(n) && Mirror(n, Desc(n)) == Asc(n) && Descending(n, Desc(n)) == Desc(n)
    ensures Reverse(Asc(n)) == Desc(n) && Mirror(n, Asc(n)) == Desc(n) && Descending(n, Asc(n)) == Desc(n)
  {
    var d, a := Desc(n), Asc(n);
    assert Reverse(d) == a by {
      forall i | 0 <= i < n ensures Reverse(d)[i] == a[i] {}
    }
    assert Reverse(a) == d by {
      forall i | 0 <= i < n ensures Reverse(a)[i] == d[i] {}
    }
  }

  /** On boards of size 0 and 1 the third image is the solution itself. */
  lemma SmallBoard(n: nat, s: seq<int>)
    requires n < 2 && Valid(n, s)
    ensures Descending(n, s) == s
  {
    if n == 1 {
      assert s[0] == 0;
    }
  }

  // ---------------------------------------------------------------------
  // `add_symmetric_solutions`, as written.

  /** A list closed under the two genuine symmetries, made of solutions:
      what `place_queen` leaves behind (`AllClosed`). */
  ghost predicate Closed(n: nat, sols: seq<seq<int>>) {
    forall s :: s in sols ==> Valid(n, s) && Reverse(s) in sols && Mirror(n, s) in sols
  }

  /** What the loop appends to a closed list: nothing when the list is empty
      or n < 2, otherwise the anti-diagonal (third image of the first
      solution) and then the main diagonal (its reversal). */
  function Extra(n: nat, sols: seq<seq<int>>): seq<seq<int>> {
    if sols == [] || n < 2 then [] else [Desc(n), Asc(n)]
  }

  /** The list after i passes of `for solution in solutions`. */
  ghost function Expected(n: nat, sols: seq<seq<int>>, i: nat): (r: seq<seq<int>>)
    ensures |r| <= |sols| + 2
  {
    if sols == [] || n < 2 || i == 0 then sols
    else if i <= |sols| then sols + [Desc(n)]
    else sols + Extra(n, sols)
  }

  /** One pass of the loop over entry i turns the list after i passes into
      the list after i + 1. */
  lemma ExpectedStep(n: nat, sols: seq<seq<int>>, i: nat)
    requires Closed(n, sols) && i < |Expected(n, sols, i)|
    ensures var xs, s := Expected(n, sols, i), Expected(n, sols, i)[i];
      AddNew(AddNew(AddNew(xs, Reverse(s)), Mirror(n, s)), Descending(n, s)) == Expected(n, sols, i + 1)
  {
    if sols == [] || n < 2 {
      var s := sols[i];
      SmallBoard(n, s);
      AddPresent(sols, Reverse(s), Mirror(n, s), Descending(n, s));
    } else if i < |sols| {
      StepSolution(n, sols, i);
    } else {
      StepDiagonal(n, sols, i);
    }
  }

  /** Adding three lists that are all present changes nothing. */
  lemma AddPresent(xs: seq<seq<int>>, a: seq<int>, b: seq<int>, c: seq<int>)
    requires a in xs && b in xs && c in xs
    ensures AddNew(AddNew(AddNew(xs, a), b), c) == xs
  {
  }

  /** The pass over a solution: its reversal and mirror are in the closed
      list already, its third image is the anti-diagonal, added by the
      first pass only. */
  lemma StepSolution(n: nat, sols: seq<seq<int>>, i: nat)
    requires Closed(n, sols) && sols != [] && n >= 2 && i < |sols|
    ensures var xs, s := Expected(n, sols, i), sols[i];
      AddNew(AddNew(AddNew(xs, Reverse(s)), Mirror(n, s)), Descending(n, s)) == Expected(n, sols, i + 1)
  {
    var s := sols[i];
    assert s in sols && Valid(n, s);
    assert Descending(n, s) == Desc(n);
    DiagonalsInvalid(n);
    if i == 0 {
      assert Desc(n) !in sols;
    } else {
      AddPresent(sols + [Desc(n)], Reverse(s), Mirror(n, s), Desc(n));
    }
  }

  /** The passes over the two diagonals appended at the end: the first adds
      the main diagonal, the second adds nothing. */
  lemma StepDiagonal(n: nat, sols: seq<seq<int>>, i: nat)
    requires (forall s :: s in sols ==> Valid(n, s)) && sols != [] && n >= 2 && |sols| <= i < |sols| + 2
    ensures var xs := Expected(n, sols, i);
      i < |xs| ==> var s := xs[i];
      AddNew(AddNew(AddNew(xs, Reverse(s)), Mirror(n, s)), Descending(n, s)) == Expected(n, sols, i + 1)
  {
    var d, a := Desc(n), Asc(n);
    DiagonalImages(n);
    DiagonalsInvalid(n);
    assert a !in sols && d !in sols;
    if i == |sols| {
      var xs := sols + [d];
      assert Expected(n, sols, i) == xs && Expected(n, sols, i + 1) == xs + [a];
      assert xs[i] == d && a !in xs;
      var ys := AddNew(xs, Reverse(d));
      assert ys == xs + [a];
      assert AddNew(ys, Mirror(n, d)) == ys;
      assert AddNew(ys, Descending(n, d)) == ys;
    } else {
      var xs := sols + [d, a];
      assert xs[i] == a && d in xs;
      AddPresent(xs, d, d, d);
    }
  }

  /** `add_symmetric_solutions` on the closed list `sols`: the result is
      `sols` followed by `Extra(n, sols)`. */
  method AddSymmetricSolutions(n: nat, sols: seq<seq<int>>) returns (solutions: seq<seq<int>>)
    requires Closed(n, sols)
    ensures solutions == sols + Extra(n, sols)
  {
    solutions := sols;
    var i := 0;
    while i < |solutions|
      invariant solutions == Expected(n, sols, i)
      decreases |sols| + 2 - i
    {
      ExpectedStep(n, sols, i);
      var solution := solutions[i];
      var symmetric := Reverse(solution);
      if symmetric !in solutions {
        solutions := solutions + [symmetric];
      }
      symmetric := Mirror(n, solution);
      if symmetric !in solutions {
        solutions := solutions + [symmetric];
      }
      symmetric := Descending(n, solution);
      if symmetric !in solutions {
        solutions := solutions + [symmetric];
      }
      i := i + 1;
    }
  }

  /** The finished list is closed under all three images (so the walk has
      reached its fixed point), and it holds exactly two lists that are not
      solutions whenever there is a solution and n >= 2. */
  lemma ExtraFacts(n: nat, sols: seq<seq<int>>)
    requires Closed(n, sols)
    ensures forall s :: s in sols + Extra(n, sols) ==>
      Reverse(s) in sols + Extra(n, sols) && Mirror(n, s) in sols + Extra(n, sols) &&
      Descending(n, s) in sols + Extra(n, sols)
    ensures forall s :: s in sols + Extra(n, sols) ==> (Valid(n, s) <==> s in sols)
    ensures sols != [] && n >= 2 ==> |Extra(n, sols)| == 2
  {
    DiagonalImages(n);
    var all := sols + Extra(n, sols);
    forall s | s in all
      ensures Reverse(s) in all && Mirror(n, s) in all && Descending(n, s) in all
      ensures Valid(n, s) <==> s in sols
    {
      if s in sols {
        if n < 2 {
          SmallBoard(n, s);
        } else {
          assert Descending(n, s) == Desc(n);
        }
      } else {
        DiagonalsInvalid(n);
      }
    }
  }

  /** The solution list of the search is closed. */
  lemma AllClosed(n: nat)
    ensures Closed(n, AllSolutions(n))
  {
    AllSolutionsExactly(n);
    forall s | s in AllSolutions(n) ensures Reverse(s) in AllSolutions(n) && Mirror(n, s) in AllSolutions(n) {
      ReverseValid(n, s);
      MirrorValid(n, s);
    }
  }

  /** `solve_n_queens(n)`: every solution in search order, then the two
      diagonals once there is a solution and n >= 2. */
  method SolveNQueens(n: nat) returns (solutions: seq<seq<int>>)
    ensures solutions == AllSolutions(n) + Extra(n, AllSolutions(n))
  {
    var positions := new int[n](_ => -1);
    assert positions[..0] == [];
    solutions := PlaceQueen(positions, 0, n, [], []);
    AllClosed(n);
    solutions := AddSymmetricSolutions(n, solutions);
  }

  /** Once some solution exists and n >= 2, the returned list ends with the
      two diagonals, neither of them a solution. */
  lemma DiagonalsAppended(n: nat, s: seq<int>)
    requires n >= 2 && Valid(n, s)
    ensures Extra(n, AllSolutions(n)) == [Desc(n), Asc(n)]
    ensures !Valid(n, Desc(n)) && !Valid(n, Asc(n))
  {
    AllSolutionsExactly(n);
    assert s in AllSolutions(n);
    DiagonalsInvalid(n);
  }

  /** [1, 3, 0, 2] is a solution of the 4 x 4 board. */
  lemma FourSolution()
    ensures Valid(4, [1, 3, 0, 2])
  {
    var s := [1, 3, 0, 2];
    assert s[0] == 1 && s[1] == 3 && s[2] == 0 && s[3] == 2;
    forall i, j | 0 <= i < j < 4 ensures s[i] != s[j] && Abs(s[i] - s[j]) != j - i {
      assert i == 0 || i == 1 || i == 2;
      assert j == 1 || j == 2 || j == 3;
    }
  }

  /** For n = 4 the list returned ends with [3, 2, 1, 0] and [0, 1, 2, 3],
      neither of which is a solution. */
  lemma FourByFour()
    ensures Extra(4, AllSolutions(4)) == [[3, 2, 1, 0], [0, 1, 2, 3]]
    ensures !Valid(4, [3, 2, 1, 0]) && !Valid(4, [0, 1, 2, 3])
  {
    FourSolution();
    DiagonalsAppended(4, [1, 3, 0, 2]);
    DiagonalsFour();
  }

  lemma DiagonalsFour()
    ensures Desc(4) == [3, 2, 1, 0] && Asc(4) == [0, 1, 2, 3]
  {
    var d, a := Desc(4), Asc(4);
    assert |d| == 4 && d[0] == 3 && d[1] == 2 && d[2] == 1 && d[3] == 0;
    assert |a| == 4 && a[0] == 0 && a[1] == 1 && a[2] == 2 && a[3] == 3;
  }

  // ---------------------------------------------------------------------
  // The intended third image: the reflection in the anti-diagonal.

  ghost predicate ClosedIntended(n: nat, sols: seq<seq<int>>) {
    Closed(n, sols) && forall s :: s in sols ==> AntiDiagonal(n, s) in sols
  }

  lemma AllClosedIntended(n: nat)
    ensures ClosedIntended(n, AllSolutions(n))
  {
    AllClosed(n);
    AllSolutionsExactly(n);
    forall s | s in AllSolutions(n) ensures AntiDiagonal(n, s) in AllSolutions(n) {
      AntiDiagonalValid(n, s);
    }
  }

  /** `add_symmetric_solutions` with the anti-diagonal reflection as its
      third image: on a closed list it adds nothing. */
  method AddSymmetricSolutionsIntended(n: nat, sols: seq<seq<int>>) returns (solutions: seq<seq<int>>)
    requires ClosedIntended(n, sols)
    ensures solutions == sols
  {
    solutions := sols;
    var i := 0;
    while i < |solutions|
      invariant solutions == sols && i <= |sols|
    {
      var solution := solutions[i];
      var symmetric := Reverse(solution);
      if symmetric !in solutions {
        solutions := solutions + [symmetric];
      }
      symmetric := Mirror(n, solution);
      if symmetric !in solutions {
        solutions := solutions + [symmetric];
      }
      symmetric := AntiDiagonal(n, solution);
      if symmetric !in solutions {
        solutions := solutions + [symmetric];
      }
      i := i + 1;
    }
  }

  /** The corrected `solve_n_queens`: exactly the solutions, each once. */
  method SolveNQueensIntended(n: nat) returns (solutions: seq<seq<int>>)
    ensures forall s :: s in solutions <==> Valid(n, s)
    ensures NoDup(solutions)
  {
    var positions := new int[n](_ => -1);
    assert positions[..0] == [];
    solutions := PlaceQueen(positions, 0, n, [], []);
    AllClosedIntended(n);
    solutions := AddSymmetricSolutionsIntended(n, solutions);
    AllSolutionsExactly(n);
    CompletionsNoDup(n, []);
  }
}
