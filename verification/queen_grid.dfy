/** The N x N 0/1 grid several solvers keep instead of a row -> column
    list: a 1 marks a queen.  `Board` is the grid of a placement, `Holds`
    says a mutable grid shows exactly the queens of a partial placement, and
    `ClearAbove` is the upward scan the grid solvers use to test a cell. */
module QueenGrid {
  import opened QueensSpec

  /** The grid of the placement p on an n x n board: a 1 at (i, p[i]) for
      every placed row, 0 everywhere else. */
  function Board(n: nat, p: seq<int>): (g: seq<seq<int>>)
    ensures |g| == n && forall i :: 0 <= i < n ==> |g[i]| == n
  {
    seq(n, i requires 0 <= i < n => seq(n, j => if i < |p| && p[i] == j then 1 else 0))
  }

  /** The grids of a list of placements. */
  function Boards(n: nat, xs: seq<seq<int>>): (gs: seq<seq<seq<int>>>)
    ensures |gs| == |xs| && forall k :: 0 <= k < |xs| ==> gs[k] == Board(n, xs[k])
  {
    seq(|xs|, k requires 0 <= k < |xs| => Board(n, xs[k]))
  }

  lemma BoardsConcat(n: nat, xs: seq<seq<int>>, ys: seq<seq<int>>)
    ensures Boards(n, xs + ys) == Boards(n, xs) + Boards(n, ys)
  {
  }

  /** The grid of a complete solution has exactly one 1 in every row, in the
      queen's column, and 0 elsewhere. */
  lemma BoardRows(n: nat, s: seq<int>)
    requires Valid(n, s)
    ensures forall i, j :: 0 <= i < n && 0 <= j < n ==> (Board(n, s)[i][j] == 1 <==> j == s[i])
    ensures forall i, j :: 0 <= i < n && 0 <= j < n ==> Board(n, s)[i][j] in {0, 1}
  {
  }

  /** The placement can be read back from its grid. */
  lemma BoardInjective(n: nat, s: seq<int>, t: seq<int>)
    requires Valid(n, s) && Valid(n, t) && Board(n, s) == Board(n, t)
    ensures s == t
  {
    forall i | 0 <= i < n ensures s[i] == t[i] {
      assert Board(n, s)[i][s[i]] == 1;
      assert Board(n, t)[i][s[i]] == 1;
    }
  }

  /** The cells of an array grid, row by row, as a list of lists. */
  function Cells(b: array2<int>): seq<seq<int>>
    reads b
  {
    seq(b.Length0, i requires 0 <= i < b.Length0 reads b =>
      seq(b.Length1, j requires 0 <= j < b.Length1 reads b => b[i, j]))
  }

  /** The square array grid shows exactly the queens of the partial
      placement p. */
  ghost predicate Holds(b: array2<int>, p: seq<int>)
    reads b
  {
    b.Length0 == b.Length1 && |p| <= b.Length0 &&
    forall i, j :: 0 <= i < b.Length0 && 0 <= j < b.Length1 ==>
      b[i, j] == (if i < |p| && p[i] == j then 1 else 0)
  }

  lemma HoldsCells(b: array2<int>, p: seq<int>)
    requires Holds(b, p)
    ensures Cells(b) == Board(b.Length0, p)
  {
    forall i | 0 <= i < b.Length0 ensures Cells(b)[i] == Board(b.Length0, p)[i] {
    }
  }

  /** No 1 in column col above row `row`, nor on the diagonals running up
      to the left and up to the right from (row, col); the cell itself is
      not looked at. */
  ghost predicate ClearAbove(b: array2<int>, row: int, col: int)
    reads b
    requires 0 <= row < b.Length0 && 0 <= col < b.Length1
  {
    (forall i :: 0 <= i < row ==> b[i, col] != 1) &&
    (forall i, j :: 0 <= i < row && 0 <= j < b.Length1 && row - i == col - j ==> b[i, j] != 1) &&
    (forall i, j :: 0 <= i < row && 0 <= j < b.Length1 && row - i == j - col ==> b[i, j] != 1)
  }

  /** On a grid showing p, the upward scan from the next row's cell is
      exactly the no-attack condition. */
  lemma ClearAboveSafe(b: array2<int>, p: seq<int>, col: int)
    requires Holds(b, p) && InRange(b.Length0, p) && |p| < b.Length0 && 0 <= col < b.Length1
    ensures ClearAbove(b, |p|, col) <==> SafeAt(p, col)
  {
    var row := |p|;
    if !SafeAt(p, col) {
      var i :| 0 <= i < |p| && !(p[i] != col && Abs(p[i] - col) != |p| - i);
      assert b[i, p[i]] == 1;
    }
  }

  /** Setting the cell of the next row's queen shows the extended placement;
      clearing it again shows p. */
  lemma HoldsPlace(b: array2<int>, p: seq<int>, col: int)
    requires b.Length0 == b.Length1 && |p| < b.Length0 && 0 <= col < b.Length1
    requires forall i, j :: 0 <= i < b.Length0 && 0 <= j < b.Length1 ==>
      b[i, j] == (if (i < |p| && p[i] == j) || (i == |p| && j == col) then 1 else 0)
    ensures Holds(b, p + [col])
  {
  }
}
