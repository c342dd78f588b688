/** YouZhixuan's `ChessBoard`: a character grid plus three occupancy masks
    with fixed offsets (bit `col`, bit `row - col + size - 1`, bit
    `row + col`), updated in place by `place_queen` / `remove_queen`.  The
    search stores the text of the grid at every complete placement; a
    search for one solution returns True all the way up from the first. */
module YouZhixuanQueens {
  import opened Lists
  import opened QueensSpec
  import opened QueenSearch
  import opened Bits
  import opened QueenText

  class ChessBoard {
    const size: nat
    var board: seq<seq<char>>
    var cols: nat
    var diag1: nat
    var diag2: nat

    /** An empty grid of '.' and empty masks. */
    constructor (size: nat)
      ensures this.size == size && board == CharGrid(size, [])
      ensures cols == 0 && diag1 == 0 && diag2 == 0
    {
      this.size := size;
      var empty := seq(size, _ => seq(size, _ => '.'));
      forall i | 0 <= i < size ensures empty[i] == CharGrid(size, [])[i] {
      }
      board := empty;
      cols, diag1, diag2 := 0, 0, 0;
    }

    /** The grid draws the partial placement p and the masks mark exactly
        its columns, its `row - col` diagonals shifted by size - 1, and its
        `row + col` anti-diagonals. */
    ghost predicate Shows(p: seq<int>)
      reads this
    {
      |p| <= size && InRange(size, p) && board == CharGrid(size, p) && MasksShow(size, p, cols, diag1, diag2)
    }

    /** `place_queen`: 'Q' into the cell and the three bits set. */
    method PlaceQueen(row: int, col: int)
      requires 0 <= row < |board| && 0 <= col < size && 0 <= col < |board[row]|
      modifies this
      ensures board == old(board)[row := old(board)[row][col := 'Q']]
      ensures cols == Or(old(cols), Pow2(col))
      ensures diag1 == Or(old(diag1), Pow2(row - col + size - 1))
      ensures diag2 == Or(old(diag2), Pow2(row + col))
    {
      board := board[row := board[row][col := 'Q']];
      cols := Or(cols, Pow2(col));
      diag1 := Or(diag1, Pow2(row - col + size - 1));
      diag2 := Or(diag2, Pow2(row + col));
    }

    /** `remove_queen`: '.' back into the cell and the three bits cleared. */
    method RemoveQueen(row: int, col: int)
      requires 0 <= row < |board| && 0 <= col < size && 0 <= col < |board[row]|
      modifies this
      ensures board == old(board)[row := old(board)[row][col := '.']]
      ensures cols == AndNot(old(cols), Pow2(col))
      ensures diag1 == AndNot(old(diag1), Pow2(row - col + size - 1))
      ensures diag2 == AndNot(old(diag2), Pow2(row + col))
    {
      board := board[row := board[row][col := '.']];
      cols := AndNot(cols, Pow2(col));
      diag1 := AndNot(diag1, Pow2(row - col + size - 1));
      diag2 := AndNot(diag2, Pow2(row + col));
    }

    /** `is_safe`: none of the three bits of the cell is set. */
    predicate IsSafe(row: nat, col: nat)
      reads this
      requires col < size
    {
      !(And(cols, Pow2(col)) != 0 ||
        And(diag1, Pow2(row - col + size - 1)) != 0 ||
        And(diag2, Pow2(row + col)) != 0)
    }

    /** `get_solution`: the rows of the grid as strings (joining a row of
        characters gives the row itself); on a board showing p these are
        the rows of p's grid. */
    function GetSolution(ghost p: seq<int>): (rows: seq<string>)
      reads this
      ensures Shows(p) ==> rows == CharGrid(size, p)
    {
      board
    }

    /** On a board showing p, the test of column col of row |p| is the
        no-attack condition. */
    lemma SafeIff(p: seq<int>, col: nat)
      requires Shows(p) && |p| < size && col < size
      ensures IsSafe(|p|, col) <==> SafeAt(p, col)
    {
      TestBit(cols, col);
      TestBit(diag1, |p| - col + size - 1);
      TestBit(diag2, |p| + col);
      KeysSafe(p, col);
    }

    /** Placing the queen of row |p| in a safe column shows p + [col]. */
    lemma PlaceShows(p: seq<int>, col: nat, board0: seq<seq<char>>, cols0: nat, diag10: nat, diag20: nat)
      requires |p| < size && col < size && InRange(size, p)
      requires board0 == CharGrid(size, p) && MasksShow(size, p, cols0, diag10, diag20)
      requires board == board0[|p| := board0[|p|][col := 'Q']]
      requires cols == Or(cols0, Pow2(col)) && diag1 == Or(diag10, Pow2(|p| - col + size - 1))
      requires diag2 == Or(diag20, Pow2(|p| + col))
      ensures Shows(p + [col])
    {
      CharGridPlace(size, p, col);
      MasksPlace(size, p, col, cols0, diag10, diag20);
    }
  }

  /** The masks mark exactly the columns of p, its `row - col` diagonals
      shifted by size - 1, and its `row + col` anti-diagonals. */
  ghost predicate MasksShow(size: nat, p: seq<int>, cols: nat, diag1: nat, diag2: nat) {
    (forall c: nat :: Bit(cols, c) <==> c in ColKeys(p)) &&
    (forall k: nat :: Bit(diag1, k) <==> k - (size - 1) in DiffKeys(p)) &&
    (forall k: nat :: Bit(diag2, k) <==> k in SumKeys(p))
  }

  /** Setting the three bits of the square (|p|, col) marks p + [col]. */
  lemma MasksPlace(size: nat, p: seq<int>, col: nat, cols: nat, diag1: nat, diag2: nat)
    requires |p| < size && col < size && MasksShow(size, p, cols, diag1, diag2)
    ensures MasksShow(size, p + [col], Or(cols, Pow2(col)), Or(diag1, Pow2(|p| - col + size - 1)),
                      Or(diag2, Pow2(|p| + col)))
  {
    var q := p + [col];
    KeysSnoc(p, col);
    OrKey(cols, col, ColKeys(p), ColKeys(q), 0);
    OrKey(diag1, |p| - col + size - 1, DiffKeys(p), DiffKeys(q), size - 1);
    OrKey(diag2, |p| + col, SumKeys(p), SumKeys(q), 0);
  }

  /** Setting bit b of a mask whose bits are the keys shifted by `shift`
      adds the key b - shift. */
  lemma OrKey(m0: nat, b: nat, keys: set<int>, keys': set<int>, shift: int)
    requires forall c: nat :: Bit(m0, c) <==> c - shift in keys
    requires keys' == keys + {b - shift}
    ensures forall c: nat :: Bit(Or(m0, Pow2(b)), c) <==> c - shift in keys'
  {
    forall c: nat ensures Bit(Or(m0, Pow2(b)), c) <==> c - shift in keys' {
      OrBit(m0, Pow2(b), c);
      Pow2Bit(b, c);
    }
  }

  /** Placing then removing a queen on a free cell gives back the grid and
      the three masks exactly. */
  lemma PlaceRemove(b: ChessBoard, p: seq<int>, col: nat)
    requires b.Shows(p) && |p| < b.size && col < b.size && SafeAt(p, col)
    ensures var g := b.board[|p| := b.board[|p|][col := 'Q']]; g[|p| := g[|p|][col := '.']] == b.board
    ensures AndNot(Or(b.cols, Pow2(col)), Pow2(col)) == b.cols
    ensures AndNot(Or(b.diag1, Pow2(|p| - col + b.size - 1)), Pow2(|p| - col + b.size - 1)) == b.diag1
    ensures AndNot(Or(b.diag2, Pow2(|p| + col)), Pow2(|p| + col)) == b.diag2
  {
    KeysSafe(p, col);
    SetClear(b.cols, col);
    SetClear(b.diag1, |p| - col + b.size - 1);
    SetClear(b.diag2, |p| + col);
    CharGridPlace(b.size, p, col);
  }

  /** `backtrack(row)` on a board showing the conflict-free placement p of
      rows 0..row-1: appends the grid of every completion of p (finding
      all) or of the first one only, and returns True exactly when a search
      for one solution has found it, leaving that solution on the board.
      Otherwise the board is as it was. */
  method Backtrack(board: ChessBoard, row: nat, n: nat, findAll: bool, solutions: seq<seq<string>>,
                   ghost p: seq<int>)
    returns (solutions': seq<seq<string>>, stop: bool)
    requires board.size == n && row == |p| && Partial(n, p) && board.Shows(p)
    modifies board
    ensures stop <==> !findAll && Completions(n, p) != []
    ensures findAll ==> solutions' == solutions + CharGrids(n, Completions(n, p))
    ensures !findAll ==> solutions' == solutions + CharGrids(n, First(Completions(n, p)))
    ensures !stop ==> board.board == old(board.board) && board.cols == old(board.cols)
    ensures !stop ==> board.diag1 == old(board.diag1) && board.diag2 == old(board.diag2)
    ensures stop ==> board.Shows(Completions(n, p)[0])
    decreases n - row, 1
  {
    if row >= n {
      solutions' := solutions + [board.GetSolution(p)];
      return solutions', !findAll;
    }
    solutions' := solutions;
    for col := 0 to n
      invariant board.Shows(p)
      invariant board.board == old(board.board) && board.cols == old(board.cols)
      invariant board.diag1 == old(board.diag1) && board.diag2 == old(board.diag2)
      invariant findAll ==> solutions' == solutions + CharGrids(n, Branches(n, p, 0, col))
      invariant !findAll ==> solutions' == solutions && Branches(n, p, 0, col) == []
    {
      solutions', stop := Column(board, row, col, n, findAll, solutions', p);
      BranchesSnoc(n, p, col);
      if stop {
        FirstFound(n, p, col);
        return;
      }
      CharGridsConcat(n, Branches(n, p, 0, col), if SafeAt(p, col) then Completions(n, p + [col]) else []);
      AppendAssoc(solutions, CharGrids(n, Branches(n, p, 0, col)),
                  CharGrids(n, if SafeAt(p, col) then Completions(n, p + [col]) else []));
    }
    return solutions', false;
  }

  /** One pass of `for col in range(n)`: a safe column gets the queen and
      the search goes on; unless that search stops, the queen is removed. */
  method Column(board: ChessBoard, row: nat, col: nat, n: nat, findAll: bool, solutions: seq<seq<string>>,
                ghost p: seq<int>)
    returns (solutions': seq<seq<string>>, stop: bool)
    requires board.size == n && row == |p| < n && col < n && Partial(n, p) && board.Shows(p)
    modifies board
    ensures stop ==> !findAll && SafeAt(p, col) && Completions(n, p + [col]) != []
    ensures stop ==> solutions' == solutions + CharGrids(n, [Completions(n, p + [col])[0]])
    ensures stop ==> board.Shows(Completions(n, p + [col])[0])
    ensures !stop ==> board.board == old(board.board) && board.cols == old(board.cols)
    ensures !stop ==> board.diag1 == old(board.diag1) && board.diag2 == old(board.diag2)
    ensures !stop && findAll ==>
      solutions' == solutions + CharGrids(n, if SafeAt(p, col) then Completions(n, p + [col]) else [])
    ensures !stop && !findAll ==> solutions' == solutions && (SafeAt(p, col) ==> Completions(n, p + [col]) == [])
    decreases n - row, 0
  {
    board.SafeIff(p, col);
    solutions', stop := solutions, false;
    if !board.IsSafe(row, col) {
      return;
    }
    PlaceRemove(board, p, col);
    ghost var board0, cols0, diag10, diag20 := board.board, board.cols, board.diag1, board.diag2;
    board.PlaceQueen(row, col);
    board.PlaceShows(p, col, board0, cols0, diag10, diag20);
    SafeExtends(n, p, col);
    solutions', stop := Backtrack(board, row + 1, n, findAll, solutions, p + [col]);
    if stop {
      return;
    }
    board.RemoveQueen(row, col);
  }

  /** The outcome of `solve_n_queens`: the solutions, or the `ValueError`
      that `validate_input` raises. */
  datatype Outcome = Solutions(solutions: seq<seq<string>>) | ValueError(message: string)

  /** `validate_input`: sizes below 4 are refused with a `ValueError` (the
      `TypeError` for a non-integer has no counterpart: sizes are
      integers). */
  function ValidateInput(n: int): (error: Outcome)
    ensures error.ValueError? <==> n < 4
  {
    if n < 4 then ValueError("N < 4 has no solution") else Solutions([])
  }

  /** `solve_n_queens`: validates first; then the grids of every solution
      in search order, or of the first one only. */
  method SolveNQueens(n: int, findAll: bool) returns (result: Outcome)
    ensures result.ValueError? <==> n < 4
    ensures n >= 4 && findAll ==> result == Solutions(CharGrids(n, AllSolutions(n)))
    ensures n >= 4 && !findAll ==> result == Solutions(CharGrids(n, First(AllSolutions(n))))
  {
    var check := ValidateInput(n);
    if check.ValueError? {
      return check;
    }
    var board := new ChessBoard(n);
    assert ColKeys([]) == {} && DiffKeys([]) == {} && SumKeys([]) == {};
    forall k: nat ensures !Bit(0, k) {
      ZeroBits(k);
    }
    var solutions, _ := Backtrack(board, 0, n, findAll, [], []);
    return Solutions(solutions);
  }
}
