/** The dglw solvers: a grid search that renders each solution as rows of
    'Q' and '_', and a bitmask search over a one-dimensional board that
    searches the left half of the first row and appends row-reversed copies
    of what it found. */
module DglwQueens {
  import opened Lists
  import opened QueensSpec
  import opened QueenSearch
  import opened QueenGrid
  import opened Bits
  import opened QueenMasks
  import opened QueenSymmetry

  // ---------------------------------------------------------------------
  // Text rendering.

  /** A row of the rendered board: 'Q' in column c, '_' everywhere else. */
  function RowText(n: nat, c: int): (r: string)
    ensures |r| == n
  {
    seq(n, j => if j == c then 'Q' else '_')
  }

  /** The rendered board of a placement, one row per queen. */
  function Picture(n: nat, s: seq<int>): (rows: seq<string>)
    ensures |rows| == |s|
  {
    seq(|s|, i requires 0 <= i < |s| => RowText(n, s[i]))
  }

  function Pictures(n: nat, xs: seq<seq<int>>): (ps: seq<seq<string>>)
    ensures |ps| == |xs| && forall k :: 0 <= k < |xs| ==> ps[k] == Picture(n, xs[k])
  {
    seq(|xs|, k requires 0 <= k < |xs| => Picture(n, xs[k]))
  }

  lemma PicturesConcat(n: nat, xs: seq<seq<int>>, ys: seq<seq<int>>)
    ensures Pictures(n, xs + ys) == Pictures(n, xs) + Pictures(n, ys)
  {
  }

  /** The rendering of a solution is n rows of length n, each with its only
      'Q' at the queen's column and '_' elsewhere. */
  lemma PictureRows(n: nat, s: seq<int>)
    requires Valid(n, s)
    ensures |Picture(n, s)| == n
    ensures forall i, j :: 0 <= i < n && 0 <= j < n ==>
      |Picture(n, s)[i]| == n && (Picture(n, s)[i][j] == 'Q' <==> j == s[i]) &&
      (Picture(n, s)[i][j] != 'Q' ==> Picture(n, s)[i][j] == '_')
  {
  }

  /** The placement can be read back from its rendering. */
  lemma PictureInjective(n: nat, s: seq<int>, t: seq<int>)
    requires Valid(n, s) && Valid(n, t) && Picture(n, s) == Picture(n, t)
    ensures s == t
  {
    forall i | 0 <= i < n ensures s[i] == t[i] {
      assert Picture(n, s)[i][s[i]] == 'Q';
      assert Picture(n, t)[i][s[i]] == 'Q';
    }
  }

  /** `s * k` for a one-character string. */
  function Repeat(k: int, c: char): (r: string)
    ensures |r| == if k < 0 then 0 else k
  {
    if k <= 0 then "" else Repeat(k - 1, c) + [c]
  }

  /** `'_' * col + 'Q' + '_' * (n - col - 1)` is the row with the queen in
      column col. */
  lemma RowPieces(n: nat, col: int)
    requires 0 <= col < n
    ensures Repeat(col, '_') + "Q" + Repeat(n - col - 1, '_') == RowText(n, col)
  {
    var r := Repeat(col, '_') + "Q" + Repeat(n - col - 1, '_');
    forall j | 0 <= j < n ensures r[j] == RowText(n, col)[j] {
      RepeatAll(col, '_');
      RepeatAll(n - col - 1, '_');
      if j > col {
        assert r[j] == Repeat(n - col - 1, '_')[j - col - 1];
      }
    }
  }

  lemma {:induction false} RepeatAll(k: int, c: char)
    ensures forall j :: 0 <= j < |Repeat(k, c)| ==> Repeat(k, c)[j] == c
  {
    if k > 0 {
      RepeatAll(k - 1, c);
    }
  }

  /** `[row[::-1] for row in sol]` */
  function ReversedRows(sol: seq<string>): (m: seq<string>)
    ensures |m| == |sol| && forall k :: 0 <= k < |sol| ==> m[k] == Reverse(sol[k])
  {
    seq(|sol|, k requires 0 <= k < |sol| => Reverse(sol[k]))
  }

  function ReversedAll(xs: seq<seq<string>>): (ms: seq<seq<string>>)
    ensures |ms| == |xs| && forall k :: 0 <= k < |xs| ==> ms[k] == ReversedRows(xs[k])
  {
    seq(|xs|, k requires 0 <= k < |xs| => ReversedRows(xs[k]))
  }

  /** Reversing every row of a rendering renders the left-right mirror. */
  lemma ReversedPicture(n: nat, s: seq<int>)
    ensures ReversedRows(Picture(n, s)) == Picture(n, Mirror(n, s))
  {
    forall k | 0 <= k < |s| ensures Reverse(RowText(n, s[k])) == RowText(n, n - 1 - s[k]) {
    }
  }

  lemma ReversedPictures(n: nat, xs: seq<seq<int>>)
    ensures ReversedAll(Pictures(n, xs)) == Pictures(n, MirrorAll(n, xs))
  {
    forall k | 0 <= k < |xs| ensures ReversedRows(Picture(n, xs[k])) == Picture(n, Mirror(n, xs[k])) {
      ReversedPicture(n, xs[k]);
    }
  }

  // ---------------------------------------------------------------------
  // The grid search (`solve_n_queens`).

  /** `is_valid`: no 1 in column col above `row`, nor on the two upward
      diagonals, each scanned from row - 1; the cell itself is not read. */
  method IsValid(board: array2<int>, row: int, col: int, n: nat) returns (ok: bool)
    requires board.Length0 == n && board.Length1 == n && 0 <= row < n && 0 <= col < n
    ensures ok <==> ClearAbove(board, row, col)
  {
    for i := 0 to row
      invariant forall k :: 0 <= k < i ==> board[k, col] != 1
    {
      if board[i, col] == 1 {
        return false;
      }
    }
    var i, j := row - 1, col - 1;
    while i >= 0 && j >= 0
      invariant -1 <= i < row && i - j == row - col
      invariant forall k, m :: i < k < row && 0 <= m < n && row - k == col - m ==> board[k, m] != 1
      decreases i
    {
      if board[i, j] == 1 {
        return false;
      }
      i, j := i - 1, j - 1;
    }
    i, j := row - 1, col + 1;
    while i >= 0 && j < n
      invariant -1 <= i < row && i + j == row + col
      invariant forall k, m :: i < k < row && 0 <= m < n && row - k == m - col ==> board[k, m] != 1
      decreases i
    {
      if board[i, j] == 1 {
        return false;
      }
      i, j := i - 1, j + 1;
    }
    return true;
  }

  /** The rendering loop of `solve_n_queens_util`: one string per grid row,
      'Q' for a 1 and '_' for anything else. */
  method Render(board: array2<int>, n: nat, ghost s: seq<int>) returns (solution: seq<string>)
    requires board.Length0 == n && |s| == n && Holds(board, s)
    ensures solution == Picture(n, s)
  {
    solution := [];
    for i := 0 to n
      invariant solution == Picture(n, s)[..i]
    {
      var rowStr := "";
      for j := 0 to n
        invariant rowStr == RowText(n, s[i])[..j]
      {
        assert board[i, j] == 1 <==> s[i] == j;
        if board[i, j] == 1 {
          rowStr := rowStr + "Q";
        } else {
          rowStr := rowStr + "_";
        }
        assert RowText(n, s[i])[..j + 1] == RowText(n, s[i])[..j] + [RowText(n, s[i])[j]];
      }
      assert rowStr == RowText(n, s[i]);
      assert Picture(n, s)[..i + 1] == Picture(n, s)[..i] + [rowStr];
      solution := solution + [rowStr];
    }
  }

  /** `solve_n_queens_util`: with the grid showing the conflict-free
      placement p, appends the rendering of every completion of p in search
      order and leaves the grid showing p again. */
  method SolveUtil(board: array2<int>, row: nat, n: nat, solutions: seq<seq<string>>, ghost p: seq<int>)
    returns (solutions': seq<seq<string>>)
    requires board.Length0 == n && row == |p| <= n && Partial(n, p) && Holds(board, p)
    modifies board
    ensures Holds(board, p)
    ensures solutions' == solutions + Pictures(n, Completions(n, p))
    decreases n - row, 1
  {
    if row == n {
      var solution := Render(board, n, p);
      assert Pictures(n, [p]) == [solution];
      return solutions + [solution];
    }
    solutions' := solutions;
    for col := 0 to n
      invariant Holds(board, p)
      invariant solutions' == solutions + Pictures(n, Branches(n, p, 0, col))
    {
      solutions' := Column(board, row, col, n, solutions', p);
      BranchesSnoc(n, p, col);
      PicturesConcat(n, Branches(n, p, 0, col), if SafeAt(p, col) then Completions(n, p + [col]) else []);
      AppendAssoc(solutions, Pictures(n, Branches(n, p, 0, col)),
                  Pictures(n, if SafeAt(p, col) then Completions(n, p + [col]) else []));
    }
    assert Completions(n, p) == Branches(n, p, 0, n);
  }

  /** One pass of `for col in range(n)`. */
  method Column(board: array2<int>, row: nat, col: nat, n: nat, solutions: seq<seq<string>>, ghost p: seq<int>)
    returns (solutions': seq<seq<string>>)
    requires board.Length0 == n && row == |p| < n && col < n && Partial(n, p) && Holds(board, p)
    modifies board
    ensures Holds(board, p)
    ensures solutions' == solutions + Pictures(n, if SafeAt(p, col) then Completions(n, p + [col]) else [])
    decreases n - row, 0
  {
    ClearAboveSafe(board, p, col);
    var ok := IsValid(board, row, col, n);
    solutions' := solutions;
    if ok {
      board[row, col] := 1;
      HoldsPlace(board, p, col);
      SafeExtends(n, p, col);
      solutions' := SolveUtil(board, row + 1, n, solutions, p + [col]);
      board[row, col] := 0;
    }
  }

  /** `solve_n_queens`: the renderings of all solutions, in search order. */
  method SolveNQueens(n: nat) returns (solutions: seq<seq<string>>)
    ensures solutions == Pictures(n, AllSolutions(n))
  {
    var board := new int[n, n]((i, j) => 0);
    solutions := SolveUtil(board, 0, n, [], []);
  }

  // ---------------------------------------------------------------------
  // The pruned bitmask search (`solve_n_queens_with_pruning`).

  /** The columns a row may try: the first row is cut to the lowest n // 2
      columns by `limit`, the other rows try all n. */
  function Limit(n: nat, row: nat): (hi: nat)
    ensures hi <= n
  {
    if row == 0 then n / 2 else n
  }

  /** What the pruned search reports from the partial placement p. */
  ghost function Pruned(n: nat, p: seq<int>): seq<seq<int>>
    requires |p| <= n
  {
    if |p| == n then [p] else Branches(n, p, 0, Limit(n, |p|))
  }

  /** Below the first row the search is not pruned. */
  lemma PrunedDeep(n: nat, q: seq<int>)
    requires 0 < |q| <= n
    ensures Pruned(n, q) == Completions(n, q)
  {
  }

  /** The half the pruned search finds: solutions whose first queen lies in
      the lowest n // 2 columns. */
  ghost function PrunedHalf(n: nat): seq<seq<int>>
    requires n > 0
  {
    Branches(n, [], 0, n / 2)
  }

  /** What `solve_n_queens_with_pruning` returns, as placements. */
  ghost function PruningResult(n: nat): seq<seq<int>> {
    if n <= 1 then [] else PrunedHalf(n) + MirrorAll(n, PrunedHalf(n))
  }

  /** The rows of the one-dimensional board, rendered as
      `'_' * col + 'Q' + '_' * (n - col - 1)`. */
  method RenderColumns(board: array<int>, n: nat) returns (solution: seq<string>)
    requires board.Length == n && InRange(n, board[..])
    ensures solution == Picture(n, board[..])
  {
    solution := [];
    for i := 0 to n
      invariant solution == Picture(n, board[..i])
    {
      var col := board[i];
      RowPieces(n, col);
      solution := solution + [Repeat(col, '_') + "Q" + Repeat(n - col - 1, '_')];
      assert board[..i + 1] == board[..i] + [col];
    }
    assert board[..n] == board[..];
  }

  /** The nested `backtrack`: `cols`, `diag1`, `diag2` are the masks of the
      placement p on the board.  Appends the rendering of what the pruned
      search reports from p.  Each pass of the loop writes the column it
      tries into `board[row]` and nothing resets it, so after the first row
      `board[0]` holds the last column tried there, n // 2 - 1. */
  method Backtrack(n: nat, row: nat, cols: nat, diag1: nat, diag2: nat, board: array<int>,
                   solutions: seq<seq<string>>)
    returns (solutions': seq<seq<string>>)
    requires board.Length == n && row <= n
    requires Partial(n, board[..row]) && MasksOf(board[..row], cols, diag1, diag2)
    modifies board
    ensures board[..row] == old(board[..row])
    ensures solutions' == solutions + Pictures(n, Pruned(n, old(board[..row])))
    ensures row == 0 && n / 2 > 0 ==> board[0] == n / 2 - 1
    decreases n - row, 1
  {
    ghost var p := board[..row];
    if row == n {
      assert board[..] == p;
      var solution := RenderColumns(board, n);
      return solutions + [solution];
    }
    var available := Available(n, row, cols, diag1, diag2, p);
    ghost var hi := Limit(n, row);
    solutions' := solutions;
    ghost var lo: nat := 0;
    while available != 0
      invariant lo <= hi && board[..row] == p
      invariant forall c: nat :: Bit(available, c) <==> lo <= c < hi && SafeAt(p, c)
      invariant solutions' == solutions + Pictures(n, Branches(n, p, 0, lo))
      invariant lo > 0 ==> board[row] == lo - 1
      decreases available
    {
      ghost var lo0, sols0 := lo, solutions';
      solutions', available, lo := PrunedColumn(n, row, cols, diag1, diag2, board, available, solutions', p, lo, hi);
      BranchesSplit(n, p, 0, lo0, lo);
      PicturesConcat(n, Branches(n, p, 0, lo0), Branches(n, p, lo0, lo));
      AppendAssoc(solutions, Pictures(n, Branches(n, p, 0, lo0)), Pictures(n, Branches(n, p, lo0, lo)));
    }
    LoopDone(n, p, lo, hi);
  }

  /** When the loop ends, the columns from lo on were all unsafe; on the
      empty board that means every column up to hi was tried. */
  lemma LoopDone(n: nat, p: seq<int>, lo: nat, hi: nat)
    requires |p| < n && lo <= hi <= n
    requires forall c: nat :: Bit(0, c) <==> lo <= c < hi && SafeAt(p, c)
    ensures Branches(n, p, 0, hi) == Branches(n, p, 0, lo)
    ensures p == [] ==> lo == hi
  {
    EmptyFree(hi, p, lo);
    BranchesSkip(n, p, lo, hi, hi);
    BranchesSplit(n, p, 0, lo, hi);
    assert SafeAt([], lo);
  }

  /** `available = ((1 << n) - 1) & (~(cols | diag1 | diag2))`, then, in
      the first row, `available &= limit` with `limit = (1 << (n // 2)) - 1`:
      the safe columns below the row's limit. */
  method Available(n: nat, row: nat, cols: nat, diag1: nat, diag2: nat, ghost p: seq<int>)
    returns (available: nat)
    requires MasksOf(p, cols, diag1, diag2)
    ensures forall c: nat :: Bit(available, c) <==> c < Limit(n, row) && SafeAt(p, c)
  {
    var free: nat := AndNot(Ones(n), Or(Or(cols, diag1), diag2));
    forall c: nat ensures Bit(free, c) <==> c < n && SafeAt(p, c) {
      FreeBit(n, p, cols, diag1, diag2, c);
    }
    available := free;
    if row == 0 {
      var limit := Ones(n / 2);
      available := And(available, limit);
      forall c: nat ensures Bit(available, c) <==> c < n / 2 && SafeAt(p, c) {
        AndBit(free, limit, c);
        OnesBit(n / 2, c);
      }
    }
  }

  /** One pass of the `while available` loop: `p = available & -available`
      is the lowest free column's bit, `bin(p - 1).count('1')` its index;
      the queen goes there, the search goes on with the updated masks, and
      `available &= available - 1` drops that bit.  The columns skipped on
      the way are the unsafe ones. */
  method PrunedColumn(n: nat, row: nat, cols: nat, diag1: nat, diag2: nat, board: array<int>,
                      available: nat, solutions: seq<seq<string>>, ghost p: seq<int>, ghost lo: nat, ghost hi: nat)
    returns (solutions': seq<seq<string>>, rest: nat, ghost lo': nat)
    requires board.Length == n && row == |p| < n && board[..row] == p && lo <= hi <= n && available > 0
    requires Partial(n, p) && MasksOf(p, cols, diag1, diag2)
    requires forall c: nat :: Bit(available, c) <==> lo <= c < hi && SafeAt(p, c)
    modifies board
    ensures board[..row] == p
    ensures lo < lo' <= hi && board[row] == lo' - 1 && rest < available
    ensures forall c: nat :: Bit(rest, c) <==> lo' <= c < hi && SafeAt(p, c)
    ensures solutions' == solutions + Pictures(n, Branches(n, p, lo, lo'))
    decreases n - row, 0
  {
    var pos, col;
    pos, col, rest := LowestColumn(hi, p, lo, available);
    board[row] := col;
    assert board[..row + 1] == p + [col];
    MasksStep(p, cols, diag1, diag2, col);
    SafeExtends(n, p, col);
    solutions' := Backtrack(n, row + 1, Or(cols, pos), 2 * Or(diag1, pos), Or(diag2, pos) / 2, board, solutions);
    assert board[..row] == board[..row + 1][..row];
    PrunedDeep(n, p + [col]);
    lo' := col + 1;
    BranchesSkip(n, p, lo, col, col + 1);
    BranchesSingle(n, p, col);
  }

  /** `pos = available & -available` and `col = bin(pos - 1).count('1')`:
      the lowest free column, its bit, and the free columns above it. */
  method LowestColumn(ghost hi: nat, ghost p: seq<int>, ghost lo: nat, available: nat) returns (pos: nat, col: nat, rest: nat)
    requires available > 0
    requires forall c: nat :: Bit(available, c) <==> lo <= c < hi && SafeAt(p, c)
    ensures lo <= col < hi && SafeAt(p, col) && pos == Pow2(col) && rest < available
    ensures forall c: nat :: lo <= c < col ==> !SafeAt(p, c)
    ensures forall c: nat :: Bit(rest, c) <==> col + 1 <= c < hi && SafeAt(p, c)
  {
    pos := LowBit(available);
    TakeLowest(hi, p, lo, available);
    BinOnesIndex(LowIndex(available));
    col := CountChar(Bin(pos - 1), '1');
    rest := ClearLowest(available);
  }

  /** The mirroring pass after the search: for each of the first
      `original_count` renderings, unless `n % 2 == 1 and board[0] == n // 2`
      (b0 is the value of `board[0]` at that point), appends its row-reversed
      copy. */
  method MirrorPass(n: nat, solutions: seq<seq<string>>, b0: int) returns (solutions': seq<seq<string>>)
    ensures solutions' == solutions + (if n % 2 == 1 && b0 == n / 2 then [] else ReversedAll(solutions))
  {
    var originalCount := |solutions|;
    solutions' := solutions;
    for i := 0 to originalCount
      invariant solutions' == solutions + (if n % 2 == 1 && b0 == n / 2 then [] else ReversedAll(solutions[..i]))
    {
      var sol := solutions'[i];
      if n % 2 == 1 && b0 == n / 2 {
        continue;
      }
      var mirrored := ReversedRows(sol);
      solutions' := solutions' + [mirrored];
      assert ReversedAll(solutions[..i + 1]) == ReversedAll(solutions[..i]) + [mirrored];
    }
    assert solutions[..originalCount] == solutions;
  }

  /** `solve_n_queens_with_pruning`: [] for n == 0; otherwise the left-half
      search, followed (for n > 1) by the mirror of each of its results. */
  method SolveWithPruning(n: nat) returns (solutions: seq<seq<string>>)
    ensures solutions == Pictures(n, PruningResult(n))
  {
    if n == 0 {
      return [];
    }
    solutions := [];
    var board := new int[n](_ => -1);
    assert board[..0] == [];
    MasksEmpty();
    solutions := Backtrack(n, 0, 0, 0, 0, board, solutions);
    ghost var half := solutions;
    if n > 1 {
      solutions := MirrorPass(n, solutions, board[0]);
    }
    PruningAssembled(n, half, board[0], solutions);
  }

  /** The search leaves the renderings of the left half and `board[0]` at
      n // 2 - 1, so the centre-column test never skips a mirror. */
  lemma PruningAssembled(n: nat, half: seq<seq<string>>, b0: int, result: seq<seq<string>>)
    requires n > 0 && half == Pictures(n, Pruned(n, [])) && (n / 2 > 0 ==> b0 == n / 2 - 1)
    requires n > 1 ==> result == half + (if n % 2 == 1 && b0 == n / 2 then [] else ReversedAll(half))
    requires n <= 1 ==> result == half
    ensures result == Pictures(n, PruningResult(n))
  {
    assert Pruned(n, []) == PrunedHalf(n);
    if n > 1 {
      ReversedPictures(n, PrunedHalf(n));
      PicturesConcat(n, PrunedHalf(n), MirrorAll(n, PrunedHalf(n)));
    } else {
      assert PrunedHalf(n) == [];
    }
  }

  // ---------------------------------------------------------------------
  // What the pruned search does and does not find.

  /** Every board it returns is a solution. */
  lemma PruningSound(n: nat)
    ensures forall s :: s in PruningResult(n) ==> Valid(n, s)
  {
    if n > 1 {
      BranchesSound(n, [], 0, n / 2);
      forall s | s in MirrorAll(n, PrunedHalf(n)) ensures Valid(n, s) {
        var k :| 0 <= k < |PrunedHalf(n)| && MirrorAll(n, PrunedHalf(n))[k] == s;
        assert PrunedHalf(n)[k] in PrunedHalf(n);
        MirrorValid(n, PrunedHalf(n)[k]);
      }
    }
  }

  /** For even n > 1 it returns as many boards as there are solutions. */
  lemma PruningCountEven(n: nat)
    requires n > 1 && n % 2 == 0
    ensures |PruningResult(n)| == |AllSolutions(n)|
  {
    SymmetricCount(n);
  }

  /** For odd n no returned board has its first queen in the centre column:
      the first row never tries it, and mirroring maps the left half to the
      right half. */
  lemma PruningNoCentre(n: nat)
    requires n % 2 == 1
    ensures forall s :: s in PruningResult(n) ==> |s| == n && s[0] != n / 2
  {
    if n > 1 {
      BranchesExtend(n, [], 0, n / 2);
      forall s | s in MirrorAll(n, PrunedHalf(n)) ensures s[0] != n / 2 {
        var k :| 0 <= k < |PrunedHalf(n)| && MirrorAll(n, PrunedHalf(n))[k] == s;
        assert PrunedHalf(n)[k] in PrunedHalf(n);
      }
    }
  }

  /** So a solution of an odd board with its first queen in the centre
      column is never returned. */
  lemma PruningMissesCentre(n: nat, s: seq<int>)
    requires n % 2 == 1 && Valid(n, s) && s[0] == n / 2
    ensures s in AllSolutions(n) && s !in PruningResult(n)
  {
    AllSolutionsExactly(n);
    PruningNoCentre(n);
  }

  /** [2, 0, 3, 1, 4] solves n == 5 with its first queen in the centre. */
  lemma CentreFive()
    ensures Valid(5, [2, 0, 3, 1, 4])
  {
    var s := [2, 0, 3, 1, 4];
    assert s[0] == 2 && s[1] == 0 && s[2] == 3 && s[3] == 1 && s[4] == 4;
    forall i, j | 0 <= i < j < 5 ensures s[i] != s[j] && Abs(s[i] - s[j]) != j - i {
      assert i == 0 || i == 1 || i == 2 || i == 3;
      assert j == 1 || j == 2 || j == 3 || j == 4;
    }
  }

  /** For instance [2, 0, 3, 1, 4] for n == 5. */
  lemma PruningMissesFive()
    ensures exists s :: s in AllSolutions(5) && s !in PruningResult(5)
  {
    CentreFive();
    PruningMissesCentre(5, [2, 0, 3, 1, 4]);
  }

  /** And for n == 1 the only solution is lost: the first row may try no
      column at all. */
  lemma PruningMissesOne()
    ensures PruningResult(1) == [] && AllSolutions(1) == [[0]]
  {
    CountOne();
  }

  /** The pruning as evidently intended: the first row tries the left half
      with the centre column of an odd board, and only the solutions whose
      first queen is off the centre are mirrored. */
  ghost function IntendedPruningResult(n: nat): seq<seq<int>> {
    if n == 0 then [] else LeftHalf(n) + MirrorAll(n, OffCentre(n, LeftHalf(n)))
  }

  /** It returns every solution exactly once on every non-empty board. */
  lemma IntendedPruningComplete(n: nat)
    requires n > 0
    ensures NoDup(IntendedPruningResult(n))
    ensures forall s :: s in IntendedPruningResult(n) <==> Valid(n, s)
  {
    MirrorCompletes(n);
  }
}
