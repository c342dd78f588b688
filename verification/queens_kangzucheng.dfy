/** The KangZuCheng solver: a 0/1 grid search that tries only the left
    half (rounded up) of the first row, keeps a solution only when none of
    its eight symmetric images is already kept, and in find-all mode expands
    the kept boards by their images, dropping repeats. */
module KangZuChengQueens {
  import opened Lists
  import opened QueensSpec
  import opened QueenSearch
  import opened QueenGrid
  import opened QueenSymmetry

  type Grid = seq<seq<int>>

  /** An n x n grid. */
  predicate Square(g: Grid, n: nat) {
    |g| == n && forall i :: 0 <= i < n ==> |g[i]| == n
  }

  // ---------------------------------------------------------------------
  // The eight symmetries, cell by cell.

  /** Left-right flip: cell (a, b) comes from (a, n - 1 - b). */
  function Horizontal(g: Grid, n: nat): (h: Grid)
    requires Square(g, n)
    ensures Square(h, n) && forall a, b :: 0 <= a < n && 0 <= b < n ==> h[a][b] == g[a][n - 1 - b]
  {
    seq(n, a requires 0 <= a < n => seq(n, b requires 0 <= b < n => g[a][n - 1 - b]))
  }

  /** Top-bottom flip: row a comes from row n - 1 - a. */
  function Vertical(g: Grid, n: nat): (h: Grid)
    requires Square(g, n)
    ensures Square(h, n) && forall a, b :: 0 <= a < n && 0 <= b < n ==> h[a][b] == g[n - 1 - a][b]
  {
    seq(n, a requires 0 <= a < n => g[n - 1 - a])
  }

  /** Reflection in the main diagonal: (a, b) comes from (b, a). */
  function Diagonal(g: Grid, n: nat): (h: Grid)
    requires Square(g, n)
    ensures Square(h, n) && forall a, b :: 0 <= a < n && 0 <= b < n ==> h[a][b] == g[b][a]
  {
    seq(n, a requires 0 <= a < n => seq(n, b requires 0 <= b < n => g[b][a]))
  }

  /** Reflection in the anti-diagonal: (a, b) comes from (n-1-b, n-1-a). */
  function AntiDiagonal(g: Grid, n: nat): (h: Grid)
    requires Square(g, n)
    ensures Square(h, n) && forall a, b :: 0 <= a < n && 0 <= b < n ==> h[a][b] == g[n - 1 - b][n - 1 - a]
  {
    seq(n, a requires 0 <= a < n => seq(n, b requires 0 <= b < n => g[n - 1 - b][n - 1 - a]))
  }

  /** Clockwise quarter turn: (i, j) moves to (j, n - 1 - i). */
  function Rotate90(g: Grid, n: nat): (h: Grid)
    requires Square(g, n)
    ensures Square(h, n) && forall i, j :: 0 <= i < n && 0 <= j < n ==> h[j][n - 1 - i] == g[i][j]
  {
    seq(n, a requires 0 <= a < n => seq(n, b requires 0 <= b < n => g[n - 1 - b][a]))
  }

  /** Half turn: (i, j) moves to (n - 1 - i, n - 1 - j). */
  function Rotate180(g: Grid, n: nat): (h: Grid)
    requires Square(g, n)
    ensures Square(h, n) && forall i, j :: 0 <= i < n && 0 <= j < n ==> h[n - 1 - i][n - 1 - j] == g[i][j]
  {
    seq(n, a requires 0 <= a < n => seq(n, b requires 0 <= b < n => g[n - 1 - a][n - 1 - b]))
  }

  /** Anticlockwise quarter turn: (i, j) moves to (n - 1 - j, i). */
  function Rotate270(g: Grid, n: nat): (h: Grid)
    requires Square(g, n)
    ensures Square(h, n) && forall i, j :: 0 <= i < n && 0 <= j < n ==> h[n - 1 - j][i] == g[i][j]
  {
    seq(n, a requires 0 <= a < n => seq(n, b requires 0 <= b < n => g[b][n - 1 - a]))
  }

  /** The grid `apply_symmetry` returns for a symmetry name; an unknown
      name gives an unchanged copy. */
  function Image(g: Grid, n: nat, kind: string): (h: Grid)
    requires Square(g, n)
    ensures Square(h, n)
  {
    if kind == "horizontal" then Horizontal(g, n)
    else if kind == "vertical" then Vertical(g, n)
    else if kind == "diagonal" then Diagonal(g, n)
    else if kind == "anti_diagonal" then AntiDiagonal(g, n)
    else if kind == "rotate_90" then Rotate90(g, n)
    else if kind == "rotate_180" then Rotate180(g, n)
    else if kind == "rotate_270" then Rotate270(g, n)
    else g
  }

  /** The names in the order `solve_n_queens` applies them. */
  const Kinds: seq<string> :=
    ["horizontal", "vertical", "diagonal", "anti_diagonal", "rotate_90", "rotate_180", "rotate_270"]

  /** The grid followed by its seven images, the list `is_unique` builds. */
  function Syms(g: Grid, n: nat): (s: seq<Grid>)
    requires Square(g, n)
    ensures |s| == 8 && s[0] == g && forall k :: 1 <= k < 8 ==> s[k] == Image(g, n, Kinds[k - 1])
    ensures forall k :: 0 <= k < 8 ==> Square(s[k], n)
  {
    [g] + seq(7, k requires 0 <= k < 7 => Image(g, n, Kinds[k]))
  }

  // ---------------------------------------------------------------------
  // Laws of the symmetries.

  lemma HorizontalTwice(g: Grid, n: nat)
    requires Square(g, n)
    ensures Horizontal(Horizontal(g, n), n) == g
  {
    var h := Horizontal(Horizontal(g, n), n);
    forall a | 0 <= a < n ensures h[a] == g[a] {
    }
  }

  lemma VerticalTwice(g: Grid, n: nat)
    requires Square(g, n)
    ensures Vertical(Vertical(g, n), n) == g
  {
  }

  lemma Rotate270Undoes90(g: Grid, n: nat)
    requires Square(g, n)
    ensures Rotate270(Rotate90(g, n), n) == g
  {
    var h := Rotate270(Rotate90(g, n), n);
    forall a | 0 <= a < n ensures h[a] == g[a] {
    }
  }

  lemma Rotate180IsFlips(g: Grid, n: nat)
    requires Square(g, n)
    ensures Rotate180(g, n) == Horizontal(Vertical(g, n), n)
  {
    var h := Horizontal(Vertical(g, n), n);
    forall a | 0 <= a < n ensures Rotate180(g, n)[a] == h[a] {
    }
  }

  /** On the grid of a placement the left-right flip is the column mirror
      c -> n - 1 - c. */
  lemma HorizontalBoard(n: nat, s: seq<int>)
    requires |s| == n
    ensures Horizontal(Board(n, s), n) == Board(n, Mirror(n, s))
  {
    var h := Horizontal(Board(n, s), n);
    forall a | 0 <= a < n ensures h[a] == Board(n, Mirror(n, s))[a] {
    }
  }

  // ---------------------------------------------------------------------
  // `apply_symmetry`, branch by branch, on its own copy.

  /** `apply_symmetry`: works on a copy (the input grid is a value and is
      never changed) and returns the named image. */
  method ApplySymmetry(solution: Grid, n: nat, kind: string) returns (newSolution: Grid)
    requires Square(solution, n)
    ensures newSolution == Image(solution, n, kind)
  {
    newSolution := solution;
    if kind == "horizontal" {
      newSolution := FlipRows(solution, n);
    } else if kind == "vertical" {
      newSolution := Reverse(newSolution);
      assert newSolution == Vertical(solution, n);
    } else if kind == "diagonal" {
      newSolution := SwapDiagonal(solution, n);
    } else if kind == "anti_diagonal" {
      newSolution := SwapAntiDiagonal(solution, n);
    } else if kind == "rotate_90" {
      newSolution := Turn90(solution, n);
    } else if kind == "rotate_180" {
      newSolution := Turn180(solution, n);
    } else if kind == "rotate_270" {
      newSolution := Turn270(solution, n);
    }
  }

  /** The "horizontal" branch: each row of the copy is replaced by its
      reversal. */
  method FlipRows(solution: Grid, n: nat) returns (g: Grid)
    requires Square(solution, n)
    ensures g == Horizontal(solution, n)
  {
    g := solution;
    for i := 0 to n
      invariant |g| == n
      invariant forall a :: 0 <= a < i ==> g[a] == Horizontal(solution, n)[a]
      invariant forall a :: i <= a < n ==> g[a] == solution[a]
    {
      g := g[i := Reverse(g[i])];
    }
  }

  /** Cell (r, c) comes before cell (i, j) in row-major order. */
  predicate Before(r: int, c: int, i: int, j: int) {
    r < i || (r == i && c < j)
  }

  function Min(a: int, b: int): int { if a < b then a else b }
  function Max(a: int, b: int): int { if a < b then b else a }

  /** The "diagonal" branch: swaps (i, j) with (j, i) for every j > i. */
  method SwapDiagonal(solution: Grid, n: nat) returns (g: Grid)
    requires Square(solution, n)
    ensures g == Diagonal(solution, n)
  {
    g := solution;
    for i := 0 to n
      invariant Square(g, n)
      invariant forall a, b :: 0 <= a < n && 0 <= b < n ==>
        g[a][b] == if Min(a, b) < i then solution[b][a] else solution[a][b]
    {
      for j := i + 1 to n
        invariant Square(g, n)
        invariant forall a, b :: 0 <= a < n && 0 <= b < n ==>
          g[a][b] == if Before(Min(a, b), Max(a, b), i, j) then solution[b][a] else solution[a][b]
      {
        var x, y := g[i][j], g[j][i];
        g := g[i := g[i][j := y]];
        g := g[j := g[j][i := x]];
      }
    }
    forall a | 0 <= a < n ensures g[a] == Diagonal(solution, n)[a] {
    }
  }

  /** Cell (a, b) has been exchanged with its anti-diagonal partner once the
      scan, which visits the cells above the anti-diagonal in row-major
      order, has passed whichever of the pair lies above it. */
  predicate AntiDone(n: int, a: int, b: int, i: int, j: int) {
    if a + b < n - 1 then Before(a, b, i, j)
    else if a + b > n - 1 then Before(n - 1 - b, n - 1 - a, i, j)
    else false
  }

  /** The "anti_diagonal" branch: swaps (i, j) with (n-1-j, n-1-i) for
      every j < n - i - 1. */
  method SwapAntiDiagonal(solution: Grid, n: nat) returns (g: Grid)
    requires Square(solution, n)
    ensures g == AntiDiagonal(solution, n)
  {
    ghost var t := AntiDiagonal(solution, n);
    g := solution;
    for i := 0 to n
      invariant Square(g, n)
      invariant forall a, b :: 0 <= a < n && 0 <= b < n ==>
        g[a][b] == if AntiDone(n, a, b, i, 0) then t[a][b] else solution[a][b]
    {
      for j := 0 to n - i - 1
        invariant Square(g, n)
        invariant forall a, b :: 0 <= a < n && 0 <= b < n ==>
          g[a][b] == if AntiDone(n, a, b, i, j) then t[a][b] else solution[a][b]
      {
        var x, y := g[i][j], g[n - j - 1][n - i - 1];
        g := g[i := g[i][j := y]];
        g := g[n - j - 1 := g[n - j - 1][n - i - 1 := x]];
      }
    }
    forall a | 0 <= a < n ensures g[a] == AntiDiagonal(solution, n)[a] {
    }
  }

  /** An n x n grid of zeros. */
  function Zeros(n: nat): (z: Grid)
    ensures Square(z, n) && forall a, b :: 0 <= a < n && 0 <= b < n ==> z[a][b] == 0
  {
    seq(n, _ => seq(n, _ => 0))
  }

  /** The "rotate_90" branch: a fresh zero grid, then
      `new_solution[j][n - i - 1] = solution[i][j]` for every cell. */
  method Turn90(solution: Grid, n: nat) returns (g: Grid)
    requires Square(solution, n)
    ensures g == Rotate90(solution, n)
  {
    g := Zeros(n);
    for i := 0 to n
      invariant Square(g, n)
      invariant forall a, b :: 0 <= a < n && 0 <= b < n ==>
        g[a][b] == if n - 1 - b < i then solution[n - 1 - b][a] else 0
    {
      for j := 0 to n
        invariant Square(g, n)
        invariant forall a, b :: 0 <= a < n && 0 <= b < n ==>
          g[a][b] == if Before(n - 1 - b, a, i, j) then solution[n - 1 - b][a] else 0
      {
        g := g[j := g[j][n - i - 1 := solution[i][j]]];
      }
    }
    forall a | 0 <= a < n ensures g[a] == Rotate90(solution, n)[a] {
    }
  }

  /** The "rotate_180" branch: `new_solution[n-i-1][n-j-1] = solution[i][j]`. */
  method Turn180(solution: Grid, n: nat) returns (g: Grid)
    requires Square(solution, n)
    ensures g == Rotate180(solution, n)
  {
    g := Zeros(n);
    for i := 0 to n
      invariant Square(g, n)
      invariant forall a, b :: 0 <= a < n && 0 <= b < n ==>
        g[a][b] == if n - 1 - a < i then solution[n - 1 - a][n - 1 - b] else 0
    {
      for j := 0 to n
        invariant Square(g, n)
        invariant forall a, b :: 0 <= a < n && 0 <= b < n ==>
          g[a][b] == if Before(n - 1 - a, n - 1 - b, i, j) then solution[n - 1 - a][n - 1 - b] else 0
      {
        g := g[n - i - 1 := g[n - i - 1][n - j - 1 := solution[i][j]]];
      }
    }
    forall a | 0 <= a < n ensures g[a] == Rotate180(solution, n)[a] {
    }
  }

  /** The "rotate_270" branch: `new_solution[n-j-1][i] = solution[i][j]`. */
  method Turn270(solution: Grid, n: nat) returns (g: Grid)
    requires Square(solution, n)
    ensures g == Rotate270(solution, n)
  {
    ghost var t := Rotate270(solution, n);
    g := Zeros(n);
    for i := 0 to n
      invariant Square(g, n)
      invariant forall a, b :: 0 <= a < n && 0 <= b < n ==>
        g[a][b] == if b < i then t[a][b] else 0
    {
      for j := 0 to n
        invariant Square(g, n)
        invariant forall a, b :: 0 <= a < n && 0 <= b < n ==>
          g[a][b] == if Before(b, n - 1 - a, i, j) then t[a][b] else 0
      {
        g := g[n - j - 1 := g[n - j - 1][i := solution[i][j]]];
      }
    }
    forall a | 0 <= a < n ensures g[a] == Rotate270(solution, n)[a] {
    }
  }

  // ---------------------------------------------------------------------
  // `is_unique`.

  /** The grid is kept when nothing is kept yet, or when none of its eight
      images equals a kept grid. */
  predicate Unique(g: Grid, existing: seq<Grid>, n: nat)
    requires Square(g, n)
  {
    existing == [] || forall k :: 0 <= k < 8 ==> Syms(g, n)[k] !in existing
  }

  /** The seven images of the grid, in the order of `Kinds`. */
  method Symmetries(solution: Grid, n: nat) returns (images: seq<Grid>)
    requires Square(solution, n)
    ensures images == Syms(solution, n)[1..]
  {
    ghost var sy := Syms(solution, n);
    images := [];
    for k := 0 to 7
      invariant images == sy[1..k + 1]
    {
      var image := ApplySymmetry(solution, n, Kinds[k]);
      assert image == sy[k + 1];
      SliceSnoc(sy, 1, k + 1);
      images := images + [image];
    }
  }

  /** `is_unique`: True at once for an empty list; otherwise compares each of
      the eight images with every kept grid and answers False at the first
      match. */
  method IsUnique(solution: Grid, existingSolutions: seq<Grid>, n: nat) returns (unique: bool)
    requires Square(solution, n)
    ensures unique <==> Unique(solution, existingSolutions, n)
    ensures existingSolutions == [] ==> unique
    ensures (exists k :: 0 <= k < 8 && Syms(solution, n)[k] in existingSolutions) ==> !unique
  {
    if |existingSolutions| == 0 {
      return true;
    }
    var images := Symmetries(solution, n);
    var symmetries := [solution] + images;
    HeadTail(Syms(solution, n));
    var hit := AnyKept(symmetries, existingSolutions);
    return !hit;
  }

  /** The two nested loops of `is_unique`: True at the first image equal to
      a kept grid. */
  method AnyKept(symmetries: seq<Grid>, existing: seq<Grid>) returns (hit: bool)
    ensures hit <==> exists k :: 0 <= k < |symmetries| && symmetries[k] in existing
  {
    for k := 0 to |symmetries|
      invariant forall m :: 0 <= m < k ==> symmetries[m] !in existing
    {
      for e := 0 to |existing|
        invariant forall f :: 0 <= f < e ==> symmetries[k] != existing[f]
      {
        if symmetries[k] == existing[e] {
          return true;
        }
      }
    }
    return false;
  }

  // ---------------------------------------------------------------------
  // The search, as a function of the completions it meets.

  /** The columns a row may try: `(n + 1) // 2` in the first row, n after. */
  function EndCol(n: nat, row: nat): (hi: nat)
    ensures hi <= n
  {
    if row == 0 then (n + 1) / 2 else n
  }

  /** The complete placements the search meets from p, in order. */
  ghost function Searched(n: nat, p: seq<int>): seq<seq<int>>
    requires |p| <= n
  {
    if |p| == n then [p] else Branches(n, p, 0, EndCol(n, |p|))
  }

  /** Find-all mode: each placement met appends its grid when it is unique
      among the grids kept so far. */
  function KeepAll(n: nat, acc: seq<Grid>, xs: seq<seq<int>>): (r: seq<Grid>)
    ensures |acc| <= |r| <= |acc| + |xs| && r[..|acc|] == acc
    ensures (forall g :: g in acc ==> Square(g, n)) ==> forall g :: g in r ==> Square(g, n)
    decreases |xs|
  {
    if xs == [] then acc
    else KeepAll(n, if Unique(Board(n, xs[0]), acc, n) then acc + [Board(n, xs[0])] else acc, xs[1..])
  }

  /** Find-one mode: the first placement whose grid is unique among acc is
      appended, and the search stops there. */
  function SearchOne(n: nat, acc: seq<Grid>, xs: seq<seq<int>>): seq<Grid> {
    if xs == [] then acc
    else if Unique(Board(n, xs[0]), acc, n) then acc + [Board(n, xs[0])]
    else SearchOne(n, acc, xs[1..])
  }

  /** Some placement of xs has a grid unique among acc. */
  predicate Hit(n: nat, acc: seq<Grid>, xs: seq<seq<int>>) {
    xs != [] && (Unique(Board(n, xs[0]), acc, n) || Hit(n, acc, xs[1..]))
  }

  lemma {:induction false} KeepAllConcat(n: nat, acc: seq<Grid>, xs: seq<seq<int>>, ys: seq<seq<int>>)
    ensures KeepAll(n, acc, xs + ys) == KeepAll(n, KeepAll(n, acc, xs), ys)
    decreases |xs|
  {
    if xs != [] {
      assert (xs + ys)[0] == xs[0] && (xs + ys)[1..] == xs[1..] + ys;
      KeepAllConcat(n, if Unique(Board(n, xs[0]), acc, n) then acc + [Board(n, xs[0])] else acc, xs[1..], ys);
    } else {
      assert xs + ys == ys;
    }
  }

  lemma {:induction false} SearchOneConcat(n: nat, acc: seq<Grid>, xs: seq<seq<int>>, ys: seq<seq<int>>)
    ensures Hit(n, acc, xs + ys) == (Hit(n, acc, xs) || Hit(n, acc, ys))
    ensures SearchOne(n, acc, xs + ys) == if Hit(n, acc, xs) then SearchOne(n, acc, xs) else SearchOne(n, acc, ys)
    decreases |xs|
  {
    if xs != [] {
      assert (xs + ys)[0] == xs[0] && (xs + ys)[1..] == xs[1..] + ys;
      SearchOneConcat(n, acc, xs[1..], ys);
    } else {
      assert xs + ys == ys;
    }
  }

  lemma {:induction false} SearchOneMiss(n: nat, acc: seq<Grid>, xs: seq<seq<int>>)
    requires !Hit(n, acc, xs)
    ensures SearchOne(n, acc, xs) == acc
    decreases |xs|
  {
    if xs != [] {
      SearchOneMiss(n, acc, xs[1..]);
    }
  }

  /** With nothing kept yet, a find-one search keeps the first placement it
      meets, if any: at most one grid. */
  lemma SearchOneFirst(n: nat, xs: seq<seq<int>>)
    ensures SearchOne(n, [], xs) == if xs == [] then [] else [Board(n, xs[0])]
    ensures Hit(n, [], xs) <==> xs != []
  {
  }

  // ---------------------------------------------------------------------
  // `backtrack_with_symmetry`.

  /** `is_safe`: scans column col above `row`, then the cells up and to the
      left and up and to the right starting at (row, col) itself. */
  method IsSafe(board: array2<int>, row: int, col: int, n: nat) returns (safe: bool)
    requires board.Length0 == n && board.Length1 == n && 0 <= row < n && 0 <= col < n
    ensures safe <==> ClearAbove(board, row, col) && board[row, col] != 1
  {
    for i := 0 to row
      invariant forall k :: 0 <= k < i ==> board[k, col] != 1
    {
      if board[i, col] == 1 {
        return false;
      }
    }
    var r, c := row, col;
    while r >= 0 && c >= 0
      invariant -1 <= r <= row && r - c == row - col
      invariant forall k, j :: r < k <= row && 0 <= j < n && row - k == col - j ==> board[k, j] != 1
      decreases r
    {
      if board[r, c] == 1 {
        return false;
      }
      r, c := r - 1, c - 1;
    }
    r, c := row, col;
    while r >= 0 && c < n
      invariant -1 <= r <= row && r + c == row + col
      invariant forall k, j :: r < k <= row && 0 <= j < n && row - k == j - col ==> board[k, j] != 1
      decreases r
    {
      if board[r, c] == 1 {
        return false;
      }
      r, c := r - 1, c + 1;
    }
    return true;
  }

  /** The leaf's copy of the grid, row by row. */
  method CopyBoard(board: array2<int>, n: nat) returns (solution: Grid)
    requires board.Length0 == n && board.Length1 == n
    ensures solution == Cells(board)
  {
    solution := [];
    for i := 0 to n
      invariant solution == Cells(board)[..i]
    {
      var rowData := [];
      for j := 0 to n
        invariant rowData == Cells(board)[i][..j]
      {
        rowData := rowData + [board[i, j]];
      }
      assert rowData == Cells(board)[i];
      solution := solution + [rowData];
    }
  }

  /** `backtrack_with_symmetry` from the grid showing the conflict-free
      placement p (`start_col` is 0 in every call).  Find-all mode keeps
      each met placement whose grid is unique, returns False and restores
      the grid; find-one mode stops at the first unique grid, returns True
      then and leaves the grid as it is, and otherwise restores it. */
  method Backtrack(board: array2<int>, row: nat, n: nat, solutions: seq<Grid>, findAll: bool, ghost p: seq<int>)
    returns (solutions': seq<Grid>, found: bool)
    requires board.Length0 == n && row == |p| <= n && Partial(n, p) && Holds(board, p)
    modifies board
    ensures findAll ==> !found && solutions' == KeepAll(n, solutions, Searched(n, p)) && Holds(board, p)
    ensures !findAll ==> found == Hit(n, solutions, Searched(n, p)) && solutions' == SearchOne(n, solutions, Searched(n, p))
    ensures !found ==> Holds(board, p)
    decreases n - row, 1
  {
    if row == n {
      var solution := CopyBoard(board, n);
      HoldsCells(board, p);
      var unique := IsUnique(solution, solutions, n);
      if unique {
        return solutions + [solution], !findAll;
      }
      return solutions, false;
    }
    found := false;
    solutions' := solutions;
    var endCol := if row == 0 then (n + 1) / 2 else n;
    for col := 0 to endCol
      invariant Holds(board, p) && !found
      invariant findAll ==> solutions' == KeepAll(n, solutions, Branches(n, p, 0, col))
      invariant !findAll ==> solutions' == solutions && !Hit(n, solutions, Branches(n, p, 0, col))
    {
      ghost var before := solutions';
      ghost var ys := if SafeAt(p, col) then Completions(n, p + [col]) else [];
      var sub;
      solutions', sub := Column(board, row, col, n, solutions', findAll, p);
      BranchesSnoc(n, p, col);
      if findAll {
        KeepAllConcat(n, solutions, Branches(n, p, 0, col), ys);
      } else {
        SearchOneConcat(n, solutions, Branches(n, p, 0, col), ys);
      }
      if !findAll && !sub {
        SearchOneMiss(n, solutions, ys);
      }
      if sub {
        found := true;
        if !findAll {
          SearchOneConcat(n, solutions, Branches(n, p, 0, col + 1), Branches(n, p, col + 1, endCol));
          BranchesSplit(n, p, 0, col + 1, endCol);
          return;
        }
      }
    }
    if !findAll {
      SearchOneMiss(n, solutions, Branches(n, p, 0, endCol));
    }
  }

  /** One pass of `for col in range(start_col, end_col)`: when (row, col)
      is safe, sets it and searches on; clears it again unless a find-one
      search has just succeeded. */
  method Column(board: array2<int>, row: nat, col: nat, n: nat, solutions: seq<Grid>, findAll: bool, ghost p: seq<int>)
    returns (solutions': seq<Grid>, sub: bool)
    requires board.Length0 == n && row == |p| < n && col < n && Partial(n, p) && Holds(board, p)
    modifies board
    ensures findAll ==> !sub && solutions' == KeepAll(n, solutions, if SafeAt(p, col) then Completions(n, p + [col]) else [])
    ensures !findAll ==> sub == Hit(n, solutions, if SafeAt(p, col) then Completions(n, p + [col]) else []) &&
                         solutions' == SearchOne(n, solutions, if SafeAt(p, col) then Completions(n, p + [col]) else [])
    ensures !sub ==> Holds(board, p)
    decreases n - row, 0
  {
    ClearAboveSafe(board, p, col);
    var safe := IsSafe(board, row, col, n);
    solutions', sub := solutions, false;
    if safe {
      board[row, col] := 1;
      HoldsPlace(board, p, col);
      SafeExtends(n, p, col);
      solutions', sub := Backtrack(board, row + 1, n, solutions, findAll, p + [col]);
      if sub && !findAll {
        return;
      }
      board[row, col] := 0;
    }
  }

  // ---------------------------------------------------------------------
  // `solve_n_queens`.

  /** Every grid KeepAll adds is the grid of a placement it met. */
  lemma {:induction false} KeepAllFrom(n: nat, acc: seq<Grid>, xs: seq<seq<int>>)
    ensures forall g :: g in KeepAll(n, acc, xs) ==> g in acc || exists x :: x in xs && g == Board(n, x)
    decreases |xs|
  {
    if xs != [] {
      var acc' := if Unique(Board(n, xs[0]), acc, n) then acc + [Board(n, xs[0])] else acc;
      KeepAllFrom(n, acc', xs[1..]);
      forall g | g in KeepAll(n, acc, xs) ensures g in acc || exists x :: x in xs && g == Board(n, x) {
        if g !in acc' {
          var x :| x in xs[1..] && g == Board(n, x);
          assert x in xs;
        } else if g !in acc {
          assert g == Board(n, xs[0]) && xs[0] in xs;
        }
      }
    }
  }

  /** The eight images of every grid of gs. */
  ghost function Images(n: nat, gs: seq<Grid>): set<Grid>
    requires forall g :: g in gs ==> Square(g, n)
  {
    set g, k | g in gs && 0 <= k < 8 :: Syms(g, n)[k]
  }

  /** The find-all expansion: each kept grid, then its seven images, is
      appended unless the set of grids seen so far already holds it. */
  method Expand(original: seq<Grid>, n: nat) returns (solutions: seq<Grid>)
    requires forall g :: g in original ==> Square(g, n)
    ensures NoDup(solutions)
    ensures ToSet(solutions) == Images(n, original)
  {
    solutions := [];
    var uniqueSolutions: set<Grid> := {};
    for i := 0 to |original|
      invariant NoDup(solutions) && ToSet(solutions) == uniqueSolutions
      invariant uniqueSolutions == Images(n, original[..i])
    {
      var sol := original[i];
      var images := Symmetries(sol, n);
      var symmetries := [sol] + images;
      assert symmetries == Syms(sol, n);
      ghost var before := uniqueSolutions;
      for k := 0 to 8
        invariant NoDup(solutions) && ToSet(solutions) == uniqueSolutions
        invariant uniqueSolutions == before + set m | 0 <= m < k :: symmetries[m]
      {
        if symmetries[k] !in uniqueSolutions {
          NoDupConcat(solutions, [symmetries[k]]);
          solutions := solutions + [symmetries[k]];
          uniqueSolutions := uniqueSolutions + {symmetries[k]};
        }
        assert (set m | 0 <= m < k + 1 :: symmetries[m]) == (set m | 0 <= m < k :: symmetries[m]) + {symmetries[k]};
      }
      ImagesSnoc(n, original, i);
    }
    assert original[..|original|] == original;
  }

  lemma ImagesSnoc(n: nat, gs: seq<Grid>, i: nat)
    requires i < |gs| && forall g :: g in gs ==> Square(g, n)
    ensures Images(n, gs[..i + 1]) == Images(n, gs[..i]) + set m | 0 <= m < 8 :: Syms(gs[i], n)[m]
  {
    assert gs[..i + 1] == gs[..i] + [gs[i]];
  }

  // ---------------------------------------------------------------------
  // The eight images form a group that maps solution grids to solution
  // grids, so the expansion of the kept grids is every solution grid.

  /** Two n x n grids that agree cell by cell are equal. */
  lemma GridEq(g: Grid, h: Grid, n: nat)
    requires Square(g, n) && Square(h, n)
    requires forall a, b :: 0 <= a < n && 0 <= b < n ==> g[a][b] == h[a][b]
    ensures g == h
  {
    forall a | 0 <= a < n ensures g[a] == h[a] {
    }
  }

  /** Entry k of `Syms` is the k-th transform of `is_unique`'s list. */
  lemma SymsAre(g: Grid, n: nat)
    requires Square(g, n)
    ensures Syms(g, n)[0] == g && Syms(g, n)[1] == Horizontal(g, n) && Syms(g, n)[2] == Vertical(g, n)
    ensures Syms(g, n)[3] == Diagonal(g, n) && Syms(g, n)[4] == AntiDiagonal(g, n)
    ensures Syms(g, n)[5] == Rotate90(g, n) && Syms(g, n)[6] == Rotate180(g, n) && Syms(g, n)[7] == Rotate270(g, n)
  {
    ReflectionsAre(g, n);
    TurnsAre(g, n);
  }

  lemma ReflectionsAre(g: Grid, n: nat)
    requires Square(g, n)
    ensures Image(g, n, Kinds[0]) == Horizontal(g, n) && Image(g, n, Kinds[1]) == Vertical(g, n)
    ensures Image(g, n, Kinds[2]) == Diagonal(g, n) && Image(g, n, Kinds[3]) == AntiDiagonal(g, n)
  {
  }

  lemma TurnsAre(g: Grid, n: nat)
    requires Square(g, n)
    ensures Image(g, n, Kinds[4]) == Rotate90(g, n) && Image(g, n, Kinds[5]) == Rotate180(g, n)
    ensures Image(g, n, Kinds[6]) == Rotate270(g, n)
  {
  }

  lemma DiagonalTwice(g: Grid, n: nat)
    requires Square(g, n)
    ensures Diagonal(Diagonal(g, n), n) == g
  {
    GridEq(Diagonal(Diagonal(g, n), n), g, n);
  }

  lemma AntiDiagonalTwice(g: Grid, n: nat)
    requires Square(g, n)
    ensures AntiDiagonal(AntiDiagonal(g, n), n) == g
  {
    GridEq(AntiDiagonal(AntiDiagonal(g, n), n), g, n);
  }

  lemma Rotate180Twice(g: Grid, n: nat)
    requires Square(g, n)
    ensures Rotate180(Rotate180(g, n), n) == g
  {
    GridEq(Rotate180(Rotate180(g, n), n), g, n);
  }

  lemma Rotate90Undoes270(g: Grid, n: nat)
    requires Square(g, n)
    ensures Rotate90(Rotate270(g, n), n) == g
  {
    GridEq(Rotate90(Rotate270(g, n), n), g, n);
  }

  /** After each of the six transforms other than the identity and the
      left-right flip, one more transform gives the left-right flip. */
  lemma FlipAfterVertical(g: Grid, n: nat)
    requires Square(g, n)
    ensures Rotate180(Vertical(g, n), n) == Horizontal(g, n)
  {
    GridEq(Rotate180(Vertical(g, n), n), Horizontal(g, n), n);
  }

  lemma FlipAfterDiagonal(g: Grid, n: nat)
    requires Square(g, n)
    ensures Rotate90(Diagonal(g, n), n) == Horizontal(g, n)
  {
    GridEq(Rotate90(Diagonal(g, n), n), Horizontal(g, n), n);
  }

  lemma FlipAfterAntiDiagonal(g: Grid, n: nat)
    requires Square(g, n)
    ensures Rotate270(AntiDiagonal(g, n), n) == Horizontal(g, n)
  {
    GridEq(Rotate270(AntiDiagonal(g, n), n), Horizontal(g, n), n);
  }

  lemma FlipAfterRotate90(g: Grid, n: nat)
    requires Square(g, n)
    ensures AntiDiagonal(Rotate90(g, n), n) == Horizontal(g, n)
  {
    GridEq(AntiDiagonal(Rotate90(g, n), n), Horizontal(g, n), n);
  }

  lemma FlipAfterRotate180(g: Grid, n: nat)
    requires Square(g, n)
    ensures Vertical(Rotate180(g, n), n) == Horizontal(g, n)
  {
    GridEq(Vertical(Rotate180(g, n), n), Horizontal(g, n), n);
  }

  lemma FlipAfterRotate270(g: Grid, n: nat)
    requires Square(g, n)
    ensures Diagonal(Rotate270(g, n), n) == Horizontal(g, n)
  {
    GridEq(Diagonal(Rotate270(g, n), n), Horizontal(g, n), n);
  }

  /** Every image of g can be taken back to g, and to g's left-right flip,
      by one of the eight transforms. */
  lemma SymsUndo(g: Grid, n: nat, m: nat)
    requires Square(g, n) && m < 8
    ensures g in Syms(Syms(g, n)[m], n)
    ensures Horizontal(g, n) in Syms(Syms(g, n)[m], n)
  {
    var t := Syms(g, n)[m];
    SymsAre(g, n);
    SymsAre(t, n);
    if m == 1 {
      HorizontalTwice(g, n);
    } else if m == 2 {
      VerticalTwice(g, n);
      FlipAfterVertical(g, n);
    } else if m == 3 {
      DiagonalTwice(g, n);
      FlipAfterDiagonal(g, n);
    } else if m == 4 {
      AntiDiagonalTwice(g, n);
      FlipAfterAntiDiagonal(g, n);
    } else if m == 5 {
      Rotate270Undoes90(g, n);
      FlipAfterRotate90(g, n);
    } else if m == 6 {
      Rotate180Twice(g, n);
      FlipAfterRotate180(g, n);
    } else if m == 7 {
      Rotate90Undoes270(g, n);
      FlipAfterRotate270(g, n);
    }
  }

  /** The main-diagonal reflection and both quarter turns are made of the
      two flips and the anti-diagonal reflection. */
  lemma DiagonalByFlips(g: Grid, n: nat)
    requires Square(g, n)
    ensures Diagonal(g, n) == Horizontal(Vertical(AntiDiagonal(g, n), n), n)
  {
    GridEq(Diagonal(g, n), Horizontal(Vertical(AntiDiagonal(g, n), n), n), n);
  }

  lemma Rotate90ByFlips(g: Grid, n: nat)
    requires Square(g, n)
    ensures Rotate90(g, n) == Horizontal(Diagonal(g, n), n)
  {
    GridEq(Rotate90(g, n), Horizontal(Diagonal(g, n), n), n);
  }

  lemma Rotate270ByFlips(g: Grid, n: nat)
    requires Square(g, n)
    ensures Rotate270(g, n) == Vertical(Diagonal(g, n), n)
  {
    GridEq(Rotate270(g, n), Vertical(Diagonal(g, n), n), n);
  }

  /** The grid of some solution. */
  ghost predicate SolutionGrid(n: nat, g: Grid) {
    exists s :: Valid(n, s) && g == Board(n, s)
  }

  /** On the grid of a placement the top-bottom flip reverses the rows. */
  lemma VerticalBoard(n: nat, s: seq<int>)
    requires |s| == n
    ensures Vertical(Board(n, s), n) == Board(n, Reverse(s))
  {
    GridEq(Vertical(Board(n, s), n), Board(n, Reverse(s)), n);
  }

  /** On the grid of a solution the anti-diagonal reflection is the
      placement-level reflection. */
  lemma AntiDiagonalBoard(n: nat, s: seq<int>)
    requires Valid(n, s)
    ensures AntiDiagonal(Board(n, s), n) == Board(n, QueenSymmetry.AntiDiagonal(n, s))
  {
    var r := QueenSymmetry.AntiDiagonal(n, s);
    var g, h := AntiDiagonal(Board(n, s), n), Board(n, r);
    AntiDiagonalRows(n, s);
    forall a, b | 0 <= a < n && 0 <= b < n ensures g[a][b] == h[a][b] {
      assert g[a][b] == if s[n - 1 - b] == n - 1 - a then 1 else 0;
      assert h[a][b] == if r[a] == b then 1 else 0;
    }
    GridEq(g, h, n);
  }

  lemma HorizontalSolution(n: nat, g: Grid)
    requires SolutionGrid(n, g)
    ensures Square(g, n) && SolutionGrid(n, Horizontal(g, n))
  {
    var s :| Valid(n, s) && g == Board(n, s);
    HorizontalBoard(n, s);
    MirrorValid(n, s);
  }

  lemma VerticalSolution(n: nat, g: Grid)
    requires SolutionGrid(n, g)
    ensures Square(g, n) && SolutionGrid(n, Vertical(g, n))
  {
    var s :| Valid(n, s) && g == Board(n, s);
    VerticalBoard(n, s);
    ReverseValid(n, s);
  }

  lemma AntiDiagonalSolution(n: nat, g: Grid)
    requires SolutionGrid(n, g)
    ensures Square(g, n) && SolutionGrid(n, AntiDiagonal(g, n))
  {
    var s :| Valid(n, s) && g == Board(n, s);
    AntiDiagonalBoard(n, s);
    AntiDiagonalValid(n, s);
  }

  /** The main-diagonal reflection and the quarter turns of a solution
      grid are solution grids. */
  lemma DiagonalSolution(n: nat, g: Grid)
    requires SolutionGrid(n, g)
    ensures Square(g, n) && SolutionGrid(n, Diagonal(g, n))
  {
    AntiDiagonalSolution(n, g);
    var a := AntiDiagonal(g, n);
    VerticalSolution(n, a);
    HorizontalSolution(n, Vertical(a, n));
    DiagonalByFlips(g, n);
  }

  lemma QuarterTurnSolution(n: nat, g: Grid)
    requires SolutionGrid(n, g)
    ensures Square(g, n) && SolutionGrid(n, Rotate90(g, n)) && SolutionGrid(n, Rotate270(g, n))
  {
    DiagonalSolution(n, g);
    var d := Diagonal(g, n);
    HorizontalSolution(n, d);
    VerticalSolution(n, d);
    Rotate90ByFlips(g, n);
    Rotate270ByFlips(g, n);
  }

  lemma HalfTurnSolution(n: nat, g: Grid)
    requires SolutionGrid(n, g)
    ensures Square(g, n) && SolutionGrid(n, Rotate180(g, n))
  {
    VerticalSolution(n, g);
    HorizontalSolution(n, Vertical(g, n));
    Rotate180IsFlips(g, n);
  }

  /** Each of the eight images of a solution grid is a solution grid. */
  lemma SymsSolution(n: nat, g: Grid, m: nat)
    requires SolutionGrid(n, g) && m < 8
    ensures Square(g, n) && SolutionGrid(n, Syms(g, n)[m])
  {
    HorizontalSolution(n, g);
    SymsAre(g, n);
    if m == 2 {
      VerticalSolution(n, g);
    } else if m == 3 {
      DiagonalSolution(n, g);
    } else if m == 4 {
      AntiDiagonalSolution(n, g);
    } else if m == 5 || m == 7 {
      QuarterTurnSolution(n, g);
    } else if m == 6 {
      HalfTurnSolution(n, g);
    }
  }

  /** Every placement the find-all fold meets has one of its eight images
      among the kept grids. */
  lemma {:induction false} KeepAllCovers(n: nat, acc: seq<Grid>, xs: seq<seq<int>>)
    ensures forall x :: x in xs ==> exists m :: 0 <= m < 8 && Syms(Board(n, x), n)[m] in KeepAll(n, acc, xs)
    decreases |xs|
  {
    if xs != [] {
      var b := Board(n, xs[0]);
      var acc' := if Unique(b, acc, n) then acc + [b] else acc;
      var r := KeepAll(n, acc, xs);
      assert r == KeepAll(n, acc', xs[1..]);
      KeepAllCovers(n, acc', xs[1..]);
      assert exists m :: 0 <= m < 8 && Syms(b, n)[m] in acc' by {
        if Unique(b, acc, n) {
          assert Syms(b, n)[0] == b && b == acc'[|acc|];
        }
      }
      var m :| 0 <= m < 8 && Syms(b, n)[m] in acc';
      var j :| 0 <= j < |acc'| && acc'[j] == Syms(b, n)[m];
      assert r[j] == acc'[j];
      forall x | x in xs ensures exists m :: 0 <= m < 8 && Syms(Board(n, x), n)[m] in r {
        if x != xs[0] {
          assert x in xs[1..];
        }
      }
    }
  }

  /** The eight images of the grids kept by the find-all search over the
      first-row half are exactly the solution grids. */
  lemma ImagesAreSolutions(n: nat)
    requires n > 0
    ensures forall g :: g in Images(n, KeepAll(n, [], LeftHalf(n))) <==> SolutionGrid(n, g)
  {
    var kept := KeepAll(n, [], LeftHalf(n));
    FirstRowExactly(n, 0, (n + 1) / 2);
    KeepAllFrom(n, [], LeftHalf(n));
    KeepAllCovers(n, [], LeftHalf(n));
    forall g | g in Images(n, kept) ensures SolutionGrid(n, g) {
      var k, m :| k in kept && 0 <= m < 8 && g == Syms(k, n)[m];
      var x :| x in LeftHalf(n) && k == Board(n, x);
      SymsSolution(n, k, m);
    }
    forall g | SolutionGrid(n, g) ensures g in Images(n, kept) {
      var s :| Valid(n, s) && g == Board(n, s);
      var t := if s[0] < (n + 1) / 2 then s else Mirror(n, s);
      MirrorValid(n, s);
      MirrorInvolution(n, s);
      assert t in LeftHalf(n);
      var b := Board(n, t);
      var m :| 0 <= m < 8 && Syms(b, n)[m] in kept;
      var k := Syms(b, n)[m];
      SymsUndo(b, n, m);
      HorizontalBoard(n, t);
      assert g == b || g == Horizontal(b, n);
      var j :| 0 <= j < 8 && Syms(k, n)[j] == g;
    }
  }

  /** A duplicate-free list of exactly the solution grids has one entry
      per solution. */
  lemma SolutionGridsCount(n: nat, gs: seq<Grid>)
    requires NoDup(gs) && forall g :: g in gs <==> SolutionGrid(n, g)
    ensures |gs| == |AllSolutions(n)|
  {
    var all := AllSolutions(n);
    var bs := Boards(n, all);
    AllSolutionsExactly(n);
    CompletionsNoDup(n, []);
    forall i, j | 0 <= i < j < |bs| ensures bs[i] != bs[j] {
      if bs[i] == bs[j] {
        assert all[i] in all && all[j] in all;
        BoardInjective(n, all[i], all[j]);
      }
    }
    forall g ensures g in bs <==> g in gs {
      if g in bs {
        var k :| 0 <= k < |bs| && bs[k] == g;
        assert all[k] in all;
      }
      if SolutionGrid(n, g) {
        var s :| Valid(n, s) && g == Board(n, s);
        var k :| 0 <= k < |all| && all[k] == s;
        assert bs[k] == g;
      }
    }
    SameElementsSameLength(gs, bs);
  }

  /** `solve_n_queens`: nothing below 4.  Find-one mode gives the grid of
      the first solution met in the first-row half, if there is one; find-all
      mode expands the boards kept by the search into their images, with no
      grid twice. */
  method SolveNQueens(n: nat, findAll: bool) returns (solutions: seq<Grid>)
    ensures n < 4 ==> solutions == []
    ensures n >= 4 && !findAll ==> solutions == if LeftHalf(n) == [] then [] else [Board(n, LeftHalf(n)[0])]
    ensures n >= 4 && findAll ==> NoDup(solutions) && ToSet(solutions) == Images(n, KeepAll(n, [], LeftHalf(n)))
    ensures n >= 4 && findAll ==>
      (forall g :: g in solutions <==> SolutionGrid(n, g)) && |solutions| == |AllSolutions(n)|
  {
    var board := new int[n, n]((i, j) => 0);
    solutions := [];
    if n < 4 {
      return;
    }
    var found;
    solutions, found := Backtrack(board, 0, n, solutions, findAll, []);
    if !findAll && |solutions| > 0 {
      SearchOneFirst(n, LeftHalf(n));
      return [solutions[0]];
    }
    if findAll && |solutions| > 0 {
      var originalSolutions := solutions;
      solutions := Expand(originalSolutions, n);
    } else if findAll {
      assert Images(n, solutions) == {};
    } else {
      SearchOneFirst(n, LeftHalf(n));
    }
    if findAll {
      ImagesAreSolutions(n);
      assert forall g :: g in solutions <==> g in ToSet(solutions);
      SolutionGridsCount(n, solutions);
    }
  }
}
