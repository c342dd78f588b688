/** WangWenjie's `solve_n_queens`: a row -> column list `queens` shared by
    two searches, a plain backtracking one and a shifting-bitmask one.
    Both answer "go on" (True) or "stop" (False): a complete placement
    answers `not find_one`, and the first False unwinds every level.
    `queens[row]` is written but never reset; only rows below `row` are
    ever read, so stale entries above it do not matter. */
module WangWenjieQueens {
  import opened QueensSpec
  import opened QueenSearch
  import opened Bits
  import opened QueenMasks

  /** `is_safe`: no earlier row r has `queens[r] == col` or
      `abs(queens[r] - col) == abs(r - row)`. */
  method IsSafe(queens: array<int>, row: nat, col: int) returns (safe: bool)
    requires row <= queens.Length
    ensures safe <==> SafeAt(queens[..row], col)
  {
    for r := 0 to row
      invariant forall i :: 0 <= i < r ==> queens[i] != col && Abs(queens[i] - col) != row - i
    {
      var c := queens[r];
      if c == col || Abs(c - col) == Abs(r - row) {
        assert queens[..row][r] == c;
        return false;
      }
    }
    return true;
  }

  /** What a search from p stores: every completion, or with `find_one`
      the first only. */
  function Stored(findOne: bool, xs: seq<seq<int>>): seq<seq<int>> {
    if findOne then First(xs) else xs
  }

  /** `solve_backtrack(row)` with `queens[:row]` the conflict-free
      placement p: appends copies of the completions of p it reaches and
      answers False ("stop") exactly when `find_one` is set and p has a
      completion.  The first row entries are left alone. */
  method SolveBacktrack(queens: array<int>, row: nat, n: nat, findOne: bool, solutions: seq<seq<int>>,
                        ghost p: seq<int>)
    returns (solutions': seq<seq<int>>, goOn: bool)
    requires queens.Length == n && row == |p| <= n && queens[..row] == p && Partial(n, p)
    modifies queens
    ensures queens[..row] == p
    ensures goOn <==> !findOne || Completions(n, p) == []
    ensures solutions' == solutions + Stored(findOne, Completions(n, p))
    decreases n - row, 1
  {
    if row == n {
      assert queens[..] == p;
      solutions' := solutions + [queens[..]];
      return solutions', !findOne;
    }
    solutions' := solutions;
    for col := 0 to n
      invariant queens[..row] == p
      invariant solutions' == solutions + Stored(findOne, Branches(n, p, 0, col))
      invariant findOne ==> Branches(n, p, 0, col) == []
    {
      BranchesSnoc(n, p, col);
      var sub;
      solutions', sub := Column(queens, row, n, findOne, col, solutions', p);
      if !sub {
        FirstFound(n, p, col);
        return solutions', false;
      }
    }
    return solutions', true;
  }

  /** One pass of `for col in range(n)` in row |p|: a safe column gets the
      queen and the search goes on; `goOn` is false when that search found
      the one solution asked for. */
  method Column(queens: array<int>, row: nat, n: nat, findOne: bool, col: nat, solutions: seq<seq<int>>,
                ghost p: seq<int>)
    returns (solutions': seq<seq<int>>, goOn: bool)
    requires queens.Length == n && row == |p| < n && col < n && queens[..row] == p && Partial(n, p)
    modifies queens
    ensures queens[..row] == p
    ensures !goOn ==> findOne && SafeAt(p, col) && Completions(n, p + [col]) != []
    ensures !goOn ==> solutions' == solutions + First(Completions(n, p + [col]))
    ensures goOn ==> solutions' == solutions + Stored(findOne, if SafeAt(p, col) then Completions(n, p + [col]) else [])
    ensures goOn && findOne && SafeAt(p, col) ==> Completions(n, p + [col]) == []
    decreases n - row, 0
  {
    var safe := IsSafe(queens, row, col);
    if !safe {
      return solutions, true;
    }
    queens[row] := col;
    assert queens[..row + 1] == p + [col];
    SafeExtends(n, p, col);
    solutions', goOn := SolveBacktrack(queens, row + 1, n, findOne, solutions, p + [col]);
    assert queens[..row] == queens[..row + 1][..row];
  }

  /** `solve_bits(row, cols, ld, rd)` with `queens[:row]` the conflict-free
      placement p whose masks are cols, ld (shifted left once per row) and
      rd (shifted right): the same answers and stored solutions as
      `solve_backtrack`. */
  method SolveBits(queens: array<int>, row: nat, cols: nat, ld: nat, rd: nat, n: nat, findOne: bool,
                   solutions: seq<seq<int>>, ghost p: seq<int>)
    returns (solutions': seq<seq<int>>, goOn: bool)
    requires queens.Length == n && row == |p| <= n && queens[..row] == p && Partial(n, p)
    requires MasksOf(p, cols, ld, rd)
    modifies queens
    ensures queens[..row] == p
    ensures goOn <==> !findOne || Completions(n, p) == []
    ensures solutions' == solutions + Stored(findOne, Completions(n, p))
    decreases n - row, 1
  {
    if row == n {
      assert queens[..] == p;
      solutions' := solutions + [queens[..]];
      return solutions', !findOne;
    }
    var available: nat := AndNot(Ones(n), Or(Or(cols, ld), rd));
    forall c: nat ensures Bit(available, c) <==> c < n && SafeAt(p, c) {
      FreeBit(n, p, cols, ld, rd, c);
    }
    solutions' := solutions;
    ghost var lo: nat := 0;
    while available != 0
      invariant lo <= n && queens[..row] == p
      invariant forall c: nat :: Bit(available, c) <==> lo <= c < n && SafeAt(p, c)
      invariant solutions' == solutions + Stored(findOne, Branches(n, p, 0, lo))
      invariant findOne ==> Branches(n, p, 0, lo) == []
      decreases available
    {
      ghost var lo0 := lo;
      var rest;
      solutions', goOn, rest, lo := BitColumn(queens, row, cols, ld, rd, n, findOne, available, solutions', p, lo);
      if !goOn {
        return;
      }
      BranchesSplit(n, p, 0, lo0, lo);
      available := rest;
    }
    EmptyFree(n, p, lo);
    BranchesSkip(n, p, lo, n, n);
    BranchesSplit(n, p, 0, lo, n);
    return solutions', true;
  }

  /** One pass of the `while available` loop: `pos` is the lowest free bit,
      `bin(pos).count('0') - 1` its column; the queen goes there and the
      search goes on, and `available &= ~pos` drops the bit.  The columns
      skipped on the way are the unsafe ones. */
  method BitColumn(queens: array<int>, row: nat, cols: nat, ld: nat, rd: nat, n: nat, findOne: bool,
                   available: nat, solutions: seq<seq<int>>, ghost p: seq<int>, ghost lo: nat)
    returns (solutions': seq<seq<int>>, goOn: bool, rest: nat, ghost lo': nat)
    requires queens.Length == n && row == |p| < n && queens[..row] == p && Partial(n, p)
    requires MasksOf(p, cols, ld, rd)
    requires available > 0 && lo <= n
    requires forall c: nat :: Bit(available, c) <==> lo <= c < n && SafeAt(p, c)
    requires findOne ==> Branches(n, p, 0, lo) == []
    modifies queens
    ensures queens[..row] == p
    ensures rest < available && lo < lo' <= n
    ensures !goOn ==> findOne && Completions(n, p) != [] && solutions' == solutions + First(Completions(n, p))
    ensures goOn ==> forall c: nat :: Bit(rest, c) <==> lo' <= c < n && SafeAt(p, c)
    ensures goOn ==> solutions' == solutions + Stored(findOne, Branches(n, p, lo, lo'))
    ensures goOn && findOne ==> Branches(n, p, lo, lo') == []
    decreases n - row, 0
  {
    var pos, col;
    pos, col, rest := LowestFree(n, p, lo, available);
    lo' := col + 1;
    BranchesSkip(n, p, lo, col, col + 1);
    BranchesSingle(n, p, col);
    assert Branches(n, p, lo, lo') == Completions(n, p + [col]);
    queens[row] := col;
    assert queens[..row + 1] == p + [col];
    MasksStep(p, cols, ld, rd, col);
    SafeExtends(n, p, col);
    solutions', goOn := SolveBits(queens, row + 1, Or(cols, pos), 2 * Or(ld, pos), Or(rd, pos) / 2, n, findOne,
                                  solutions, p + [col]);
    assert queens[..row] == queens[..row + 1][..row];
    if !goOn {
      BranchesSplit(n, p, 0, lo, col);
      BranchesSkip(n, p, lo, col, col);
      FirstFound(n, p, col);
      return solutions', false, 0, lo';
    }
  }

  /** `pos = available & -available`, `col = bin(pos).count('0') - 1` and
      `available &= ~pos`: the lowest free column, its bit, and the free
      columns above it. */
  method LowestFree(ghost n: nat, ghost p: seq<int>, ghost lo: nat, available: nat) returns (pos: nat, col: nat, rest: nat)
    requires available > 0
    requires forall c: nat :: Bit(available, c) <==> lo <= c < n && SafeAt(p, c)
    ensures lo <= col < n && SafeAt(p, col) && pos == Pow2(col) && rest < available
    ensures forall c: nat :: lo <= c < col ==> !SafeAt(p, c)
    ensures forall c: nat :: Bit(rest, c) <==> col + 1 <= c < n && SafeAt(p, c)
  {
    pos := LowBit(available);
    ghost var k := LowIndex(available);
    TakeLowest(n, p, lo, available);
    BinZerosIndex(k);
    col := CountChar(Bin(pos), '0') - 1;
    LowIndexBit(available);
    AndNotSingle(available, k);
    rest := AndNot(available, pos);
    assert rest == ClearLowest(available);
  }

  /** `solve_n_queens`: `'bits'` runs the bitmask search, anything else the
      plain one; both give every solution in search order, or with
      `find_one` the first only. */
  method SolveNQueens(n: nat, findOne: bool, optimization: string) returns (solutions: seq<seq<int>>)
    ensures solutions == Stored(findOne, AllSolutions(n))
  {
    var queens := new int[n](_ => -1);
    assert queens[..0] == [];
    var goOn;
    if optimization == "bits" {
      MasksEmpty();
      solutions, goOn := SolveBits(queens, 0, 0, 0, 0, n, findOne, [], []);
    } else {
      solutions, goOn := SolveBacktrack(queens, 0, n, findOne, [], []);
    }
  }
}
