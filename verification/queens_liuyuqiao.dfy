/** The set-based solver `NQueens` and the bitmask solver
    `NQueensOptimized`, with the validity check of their unit tests.  Boards
    are row -> column lists; both solvers search the columns of each row in
    ascending order (the bitmask one by taking the lowest free bit), so both
    report the solutions in the order of `AllSolutions`. */
module LiuYuQiaoQueens {
  import opened QueensSpec
  import opened QueenSearch
  import opened Bits
  import opened QueenMasks

  class NQueens {
    const n: nat
    var solutions: seq<seq<int>>
    var solutionCount: int
    var cols: set<int>
    var diag1: set<int>
    var diag2: set<int>

    constructor (n: nat)
      ensures this.n == n && solutions == [] && solutionCount == 0
      ensures cols == {} && diag1 == {} && diag2 == {}
    {
      this.n := n;
      solutions := [];
      solutionCount := 0;
      cols := {};
      diag1 := {};
      diag2 := {};
    }

    /** The three sets hold exactly the keys of the queens placed in p. */
    ghost predicate Marks(p: seq<int>)
      reads this`cols, this`diag1, this`diag2
    {
      cols == ColKeys(p) && diag1 == DiffKeys(p) && diag2 == SumKeys(p)
    }

    /** `is_safe`: the column and both diagonal keys are free. */
    predicate IsSafe(row: int, col: int)
      reads this`cols, this`diag1, this`diag2
    {
      col !in cols && row - col !in diag1 && row + col !in diag2
    }

    method PlaceQueen(row: int, col: int)
      modifies this
      ensures cols == old(cols) + {col} && diag1 == old(diag1) + {row - col} && diag2 == old(diag2) + {row + col}
      ensures solutions == old(solutions) && solutionCount == old(solutionCount)
    {
      cols := cols + {col};
      diag1 := diag1 + {row - col};
      diag2 := diag2 + {row + col};
    }

    method RemoveQueen(row: int, col: int)
      modifies this
      ensures cols == old(cols) - {col} && diag1 == old(diag1) - {row - col} && diag2 == old(diag2) - {row + col}
      ensures solutions == old(solutions) && solutionCount == old(solutionCount)
    {
      cols := cols - {col};
      diag1 := diag1 - {row - col};
      diag2 := diag2 - {row + col};
    }

    /** `backtrack`: from the conflict-free placement p of rows 0..row-1
        (held in board and in the sets), searches the columns of each row in
        ascending order.  Finding all, it appends every completion of p, in
        search order, counts them and leaves the sets as it found them.
        Finding one, it counts the first completion, appends nothing, and
        returns with that completion still on the board and in the sets. */
    method Backtrack(row: nat, board: array<int>, findAll: bool, ghost p: seq<int>) returns (found: bool)
      requires board.Length == n && row == |p| <= n && board[..row] == p
      requires Partial(n, p) && Marks(p)
      modifies this, board
      ensures board[..row] == p
      ensures Reported(solutions, solutionCount, old(solutions), old(solutionCount), Completions(n, p), findAll, found)
      ensures findAll || !found ==> Marks(p)
      ensures !findAll && found ==> board[..] == Completions(n, p)[0] && Marks(board[..])
      decreases n - row, 2
    {
      if row == n {
        assert board[..] == p;
        solutionCount := solutionCount + 1;
        if findAll {
          solutions := solutions + [board[..]];
        }
        return true;
      }
      found := false;
      var col := 0;
      while col < n
        invariant 0 <= col <= n && board[..row] == p && Marks(p)
        invariant Reported(solutions, solutionCount, old(solutions), old(solutionCount), Branches(n, p, 0, col), findAll, found)
        invariant !findAll ==> !found
      {
        var stop;
        found, stop := Column(row, col, board, findAll, found, old(solutions), old(solutionCount), p);
        if stop {
          return true;
        }
        col := col + 1;
      }
    }

    /** One pass of `for col in range(self.n)`: tries `col` when it is safe.
        `stop` is set when a find-one search has found its solution and
        returns at once, without taking the queens off. */
    method Column(row: nat, col: nat, board: array<int>, findAll: bool, found0: bool,
                  ghost sols0: seq<seq<int>>, ghost count0: int, ghost p: seq<int>) returns (found: bool, stop: bool)
      requires board.Length == n && row == |p| < n && col < n && board[..row] == p
      requires Partial(n, p) && Marks(p)
      requires Reported(solutions, solutionCount, sols0, count0, Branches(n, p, 0, col), findAll, found0)
      requires !findAll ==> !found0
      modifies this, board
      ensures board[..row] == p
      ensures !stop ==> Marks(p) && (!findAll ==> !found)
      ensures !stop ==> Reported(solutions, solutionCount, sols0, count0, Branches(n, p, 0, col + 1), findAll, found)
      ensures stop ==> !findAll && Reported(solutions, solutionCount, sols0, count0, Completions(n, p), false, true)
      ensures stop ==> board[..] == Completions(n, p)[0] && Marks(board[..])
      decreases n - row, 1
    {
      BranchesSnoc(n, p, col);
      KeysSafe(p, col);
      found, stop := found0, false;
      if IsSafe(row, col) {
        assert SafeAt(p, col);
        ghost var sols1, count1 := solutions, solutionCount;
        var sub := Trial(row, col, board, findAll, p);
        if sub && !findAll {
          assert Branches(n, p, 0, col) == [] && Completions(n, p + [col]) != [];
          FirstFound(n, p, col);
          ReportedFirst(sols0, count0, sols1, count1, solutions, solutionCount,
                        Completions(n, p + [col]), Completions(n, p));
          return true, true;
        }
        ReportedStep(sols0, count0, sols1, count1, solutions, solutionCount,
                     Branches(n, p, 0, col), Completions(n, p + [col]), findAll, found0, sub);
        found := found0 || sub;
      }
    }

    /** Places the queen of row `row` in the safe column `col`, searches on,
        and takes the queen off again unless a find-one search has stopped. */
    method Trial(row: nat, col: nat, board: array<int>, findAll: bool, ghost p: seq<int>) returns (sub: bool)
      requires board.Length == n && row == |p| < n && col < n && board[..row] == p
      requires Partial(n, p) && Marks(p) && SafeAt(p, col)
      modifies this, board
      ensures board[..row] == p
      ensures Reported(solutions, solutionCount, old(solutions), old(solutionCount), Completions(n, p + [col]), findAll, sub)
      ensures findAll || !sub ==> Marks(p)
      ensures !findAll && sub ==> board[..] == Completions(n, p + [col])[0] && Marks(board[..])
      decreases n - row, 0
    {
      ghost var q := p + [col];
      board[row] := col;
      assert board[..row + 1] == q;
      PlaceQueen(row, col);
      KeysSnoc(p, col);
      assert Marks(q);
      SafeExtends(n, p, col);
      assert Partial(n, q);
      sub := Backtrack(row + 1, board, findAll, q);
      assert board[..row] == board[..row + 1][..row];
      if sub && !findAll {
        return;
      }
      RemoveQueen(row, col);
      KeysRestore(p, col);
    }

    /** `solve`: clears the solutions, the count and the sets, then searches
        from the empty board.  Finding all, it returns every solution in
        search order and their number; finding one, it returns an empty list
        (the append is guarded by `find_all`) and a count of 1 when a
        solution exists.  Nothing depends on an earlier call. */
    method Solve(findAll: bool) returns (sols: seq<seq<int>>, count: int)
      modifies this
      ensures sols == solutions && count == solutionCount
      ensures findAll ==> sols == AllSolutions(n) && count == |AllSolutions(n)|
      ensures !findAll ==> sols == [] && count == (if AllSolutions(n) == [] then 0 else 1)
    {
      solutions := [];
      solutionCount := 0;
      cols := {};
      diag1 := {};
      diag2 := {};
      var board := new int[n](_ => -1);
      assert board[..0] == [];
      var _ := Backtrack(0, board, findAll, []);
      sols, count := solutions, solutionCount;
    }
  }

  /** `pos = available & -available`, `col = bin(pos).count('0') - 1` and
      `available &= available - 1`: the lowest free column, and the free
      columns above it. */
  method LowestFree(ghost n: nat, ghost p: seq<int>, ghost lo: nat, available: nat) returns (col: nat, rest: nat)
    requires available > 0
    requires forall c: nat :: Bit(available, c) <==> lo <= c < n && SafeAt(p, c)
    ensures lo <= col < n && SafeAt(p, col) && rest < available
    ensures forall c: nat :: lo <= c < col ==> !SafeAt(p, c)
    ensures forall c: nat :: Bit(rest, c) <==> col + 1 <= c < n && SafeAt(p, c)
  {
    var pos := LowBit(available);
    TakeLowest(n, p, lo, available);
    rest := ClearLowest(available);
    col := CountChar(Bin(pos), '0') - 1;
  }

  /** `NQueensOptimized`: the same search over row-relative bit masks. */
  class NQueensOptimized {
    const n: nat
    const allOnes: nat
    var solutions: seq<seq<int>>
    var solutionCount: int

    constructor (n: nat)
      ensures this.n == n && allOnes == Ones(n) && solutions == [] && solutionCount == 0
    {
      this.n := n;
      allOnes := Ones(n);
      solutions := [];
      solutionCount := 0;
    }

    /** `backtrack_bitwise`: `cols`, `diag1` and `diag2` are the masks of
        the placement p on the board; the free columns are
        `all_ones & ~(cols | diag1 | diag2)`, taken lowest bit first, the
        column of bit `pos` being `bin(pos).count('0') - 1`.  Reports the
        completions of p exactly as `NQueens.Backtrack` does. */
    method BacktrackBitwise(row: nat, cols: nat, diag1: nat, diag2: nat, board: array<int>, findAll: bool,
                            ghost p: seq<int>)
      returns (found: bool)
      requires allOnes == Ones(n) && board.Length == n && row == |p| <= n && board[..row] == p
      requires Partial(n, p) && MasksOf(p, cols, diag1, diag2)
      modifies this, board
      ensures board[..row] == p
      ensures Reported(solutions, solutionCount, old(solutions), old(solutionCount), Completions(n, p), findAll, found)
      ensures !findAll && found ==> board[..] == Completions(n, p)[0]
      decreases n - row, 2
    {
      if row == n {
        assert board[..] == p;
        solutionCount := solutionCount + 1;
        if findAll {
          solutions := solutions + [board[..]];
        }
        return true;
      }
      var available: nat := AndNot(allOnes, Or(Or(cols, diag1), diag2));
      forall c: nat ensures Bit(available, c) <==> 0 <= c < n && SafeAt(p, c) {
        FreeBit(n, p, cols, diag1, diag2, c);
      }
      found := false;
      ghost var lo: nat := 0;
      while available != 0
        invariant lo <= n && board[..row] == p
        invariant forall c: nat :: Bit(available, c) <==> lo <= c < n && SafeAt(p, c)
        invariant Reported(solutions, solutionCount, old(solutions), old(solutionCount), Branches(n, p, 0, lo), findAll, found)
        invariant !findAll ==> !found
        decreases available
      {
        var stop;
        available, found, stop, lo := BitColumn(row, cols, diag1, diag2, available, board, findAll, found,
                                                p, lo, old(solutions), old(solutionCount));
        if stop {
          return true;
        }
      }
      EmptyFree(n, p, lo);
      BranchesSkip(n, p, lo, n, n);
      BranchesSplit(n, p, 0, lo, n);
    }

    /** One pass of the `while available` loop: takes the lowest free bit
        `pos` (a single set bit, so `bin(pos).count('0') - 1` is its index,
        the lowest safe column left), clears it from `available`, and tries
        that column.  The columns skipped on the way are the unsafe ones. */
    method BitColumn(row: nat, cols: nat, diag1: nat, diag2: nat, available: nat, board: array<int>,
                     findAll: bool, found0: bool, ghost p: seq<int>, ghost lo: nat, ghost sols0: seq<seq<int>>,
                     ghost count0: int)
      returns (rest: nat, found: bool, stop: bool, ghost lo': nat)
      requires allOnes == Ones(n) && board.Length == n && row == |p| < n && board[..row] == p
      requires Partial(n, p) && MasksOf(p, cols, diag1, diag2)
      requires available > 0 && lo <= n
      requires forall c: nat :: Bit(available, c) <==> lo <= c < n && SafeAt(p, c)
      requires Reported(solutions, solutionCount, sols0, count0, Branches(n, p, 0, lo), findAll, found0)
      requires !findAll ==> !found0
      modifies this, board
      ensures board[..row] == p
      ensures rest < available && lo' <= n
      ensures !stop ==> forall c: nat :: Bit(rest, c) <==> lo' <= c < n && SafeAt(p, c)
      ensures !stop ==> Reported(solutions, solutionCount, sols0, count0, Branches(n, p, 0, lo'), findAll, found)
      ensures !stop ==> !findAll ==> !found
      ensures stop ==> !findAll && Reported(solutions, solutionCount, sols0, count0, Completions(n, p), false, true)
      ensures stop ==> board[..] == Completions(n, p)[0]
      decreases n - row, 1
    {
      var col;
      col, rest := LowestFree(n, p, lo, available);
      BranchesJump(n, p, lo, col);
      lo' := col + 1;
      found, stop := found0, false;
      ghost var sols1, count1 := solutions, solutionCount;
      var sub := BitTrial(row, col, cols, diag1, diag2, board, findAll, p);
      if sub && !findAll {
        assert Branches(n, p, 0, col) == [] && Completions(n, p + [col]) != [];
        FirstFound(n, p, col);
        ReportedFirst(sols0, count0, sols1, count1, solutions, solutionCount,
                      Completions(n, p + [col]), Completions(n, p));
        return rest, true, true, lo';
      }
      ReportedStep(sols0, count0, sols1, count1, solutions, solutionCount,
                   Branches(n, p, 0, col), Completions(n, p + [col]), findAll, found0, sub);
      found := found0 || sub;
    }

    /** One pass of the `while available` loop after `pos` is taken: places
        the queen at `col` and recurses with the updated masks. */
    method BitTrial(row: nat, col: nat, cols: nat, diag1: nat, diag2: nat, board: array<int>, findAll: bool,
                    ghost p: seq<int>)
      returns (sub: bool)
      requires allOnes == Ones(n) && board.Length == n && row == |p| < n && col < n && board[..row] == p
      requires Partial(n, p) && MasksOf(p, cols, diag1, diag2) && SafeAt(p, col)
      modifies this, board
      ensures board[..row] == p
      ensures Reported(solutions, solutionCount, old(solutions), old(solutionCount), Completions(n, p + [col]), findAll, sub)
      ensures !findAll && sub ==> board[..] == Completions(n, p + [col])[0]
      decreases n - row, 0
    {
      board[row] := col;
      assert board[..row + 1] == p + [col];
      var pos := Pow2(col);
      MasksStep(p, cols, diag1, diag2, col);
      SafeExtends(n, p, col);
      sub := BacktrackBitwise(row + 1, Or(cols, pos), 2 * Or(diag1, pos), Or(diag2, pos) / 2, board, findAll, p + [col]);
      assert board[..row] == board[..row + 1][..row];
    }

    /** `solve_bitwise`: the same results as `NQueens.Solve`. */
    method SolveBitwise(findAll: bool) returns (sols: seq<seq<int>>, count: int)
      requires allOnes == Ones(n)
      modifies this
      ensures sols == solutions && count == solutionCount
      ensures findAll ==> sols == AllSolutions(n) && count == |AllSolutions(n)|
      ensures !findAll ==> sols == [] && count == (if AllSolutions(n) == [] then 0 else 1)
    {
      solutions := [];
      solutionCount := 0;
      var board := new int[n](_ => -1);
      assert board[..0] == [];
      MasksEmpty();
      var _ := BacktrackBitwise(0, 0, 0, 0, board, findAll, []);
      sols, count := solutions, solutionCount;
    }
  }
}
