/** fanshengjie's `n_queens2.py`: the plain list solver with an
    absolute-value conflict test, and a "heuristic" variant that scores
    every column of a row by its number of conflicts, tries the columns in
    the order of a stable sort by that score, and so finds the same
    solutions in the same order. */
module FanshengjieQueens2 {
  import opened Lists
  import opened QueensSpec
  import opened QueenSearch

  /** The queen of row i attacks (row, col): same column, or the column
      distance equals the row distance. */
  predicate Attacks(b: seq<int>, row: int, col: int, i: nat)
    requires i < |b|
  {
    b[i] == col || Abs(b[i] - col) == Abs(i - row)
  }

  /** The number of rows below k whose queen attacks (row, col). */
  function Conflicts(b: seq<int>, row: int, col: int, k: nat): (c: nat)
    requires k <= |b|
    ensures c <= k
  {
    if k == 0 then 0 else Conflicts(b, row, col, k - 1) + (if Attacks(b, row, col, k - 1) then 1 else 0)
  }

  /** No conflict is counted exactly when no earlier row attacks the cell. */
  lemma {:induction false} ConflictsZero(b: seq<int>, row: nat, col: int, k: nat)
    requires k <= row <= |b|
    ensures Conflicts(b, row, col, k) == 0 <==> forall i :: 0 <= i < k ==> b[i] != col && Abs(b[i] - col) != row - i
  {
    if k > 0 {
      ConflictsZero(b, row, col, k - 1);
    }
  }

  /** On the first `row` entries the conflict count is 0 exactly when the
      column is safe. */
  lemma ConflictsSafe(b: seq<int>, row: nat, col: int)
    requires row <= |b|
    ensures Conflicts(b, row, col, row) == 0 <==> SafeAt(b[..row], col)
  {
    ConflictsZero(b, row, col, row);
    assert forall i :: 0 <= i < row ==> b[..row][i] == b[i];
  }

  // ---------------------------------------------------------------------
  // `sorted(..., key=lambda x: x[1])`, a stable sort by score.

  type Scored = (int, nat)

  predicate SortedByScore(xs: seq<Scored>) {
    forall i, j :: 0 <= i < j < |xs| ==> xs[i].1 <= xs[j].1
  }

  /** Inserts x after every element whose score is not larger. */
  function Insert(ys: seq<Scored>, x: Scored): (r: seq<Scored>)
    ensures multiset(r) == multiset(ys) + multiset{x}
  {
    if ys == [] then [x]
    else if ys[|ys| - 1].1 <= x.1 then ys + [x]
    else
      assert ys == ys[..|ys| - 1] + [ys[|ys| - 1]];
      Insert(ys[..|ys| - 1], x) + [ys[|ys| - 1]]
  }

  lemma {:induction false} InsertSorted(ys: seq<Scored>, x: Scored)
    requires SortedByScore(ys)
    ensures SortedByScore(Insert(ys, x))
    decreases |ys|
  {
    if ys != [] && ys[|ys| - 1].1 > x.1 {
      var init, last := ys[..|ys| - 1], ys[|ys| - 1];
      InsertSorted(init, x);
      var r := Insert(init, x);
      forall e | e in r ensures e.1 <= last.1 {
        assert e in multiset(r);
        if e != x {
          assert e in init;
        }
      }
      forall i, j | 0 <= i < j < |r + [last]| ensures (r + [last])[i].1 <= (r + [last])[j].1 {
        if j == |r| {
          assert (r + [last])[i] == r[i] && r[i] in r;
        }
      }
    }
  }

  /** A stable sort by score: insertion from the left. */
  function SortByScore(xs: seq<Scored>): (r: seq<Scored>)
    ensures multiset(r) == multiset(xs)
    ensures SortedByScore(r)
  {
    if xs == [] then []
    else
      assert xs == xs[..|xs| - 1] + [xs[|xs| - 1]];
      var r := SortByScore(xs[..|xs| - 1]);
      InsertSorted(r, xs[|xs| - 1]);
      Insert(r, xs[|xs| - 1])
  }

  /** The score-0 entries, in order. */
  function Zeros(xs: seq<Scored>): seq<Scored> {
    if xs == [] then []
    else Zeros(xs[..|xs| - 1]) + (if xs[|xs| - 1].1 == 0 then [xs[|xs| - 1]] else [])
  }

  lemma ZerosOne(x: Scored)
    ensures Zeros([x]) == if x.1 == 0 then [x] else []
  {
    var none: seq<Scored> := [];
    assert [x][..0] == none;
  }

  lemma {:induction false} ZerosInsert(ys: seq<Scored>, x: Scored)
    ensures Zeros(Insert(ys, x)) == Zeros(ys) + Zeros([x])
    decreases |ys|
  {
    if ys != [] && ys[|ys| - 1].1 > x.1 {
      var init, last := ys[..|ys| - 1], ys[|ys| - 1];
      var r := Insert(init, x) + [last];
      assert Insert(ys, x) == r;
      ZerosInsert(init, x);
      assert r[..|r| - 1] == Insert(init, x) && r[|r| - 1] == last;
      assert Zeros(r) == Zeros(init) + Zeros([x]);
      assert Zeros(ys) == Zeros(init);
    } else if ys != [] {
      var r := ys + [x];
      assert r[..|r| - 1] == ys;
      ZerosOne(x);
    } else {
      ZerosOne(x);
    }
  }

  /** The stable sort keeps the score-0 entries in their original order. */
  lemma {:induction false} ZerosSort(xs: seq<Scored>)
    ensures Zeros(SortByScore(xs)) == Zeros(xs)
    decreases |xs|
  {
    if xs != [] {
      var init, last := xs[..|xs| - 1], xs[|xs| - 1];
      ZerosSort(init);
      ZerosInsert(SortByScore(init), last);
      ZerosOne(last);
    }
  }

  // ---------------------------------------------------------------------
  // The heuristic column order.

  /** The scores of columns 0..k-1 of row `row`. */
  function Scores(b: seq<int>, row: nat, k: nat): (r: seq<Scored>)
    requires row <= |b|
    ensures |r| == k && forall j :: 0 <= j < k ==> r[j] == (j, Conflicts(b, row, j, row))
  {
    seq(k, j => (j, Conflicts(b, row, j, row)))
  }

  /** What trying column c of row |p| reports. */
  ghost function Cell(n: nat, p: seq<int>, c: int): seq<seq<int>>
    requires |p| < n
  {
    if 0 <= c < n && SafeAt(p, c) then Completions(n, p + [c]) else []
  }

  /** What trying the columns of the scored list in order reports. */
  ghost function Tried(n: nat, p: seq<int>, xs: seq<Scored>): seq<seq<int>>
    requires |p| < n
  {
    if xs == [] then [] else Tried(n, p, xs[..|xs| - 1]) + Cell(n, p, xs[|xs| - 1].0)
  }

  /** Scores agree with safety: score 0 exactly for the safe columns. */
  ghost predicate Honest(n: nat, p: seq<int>, xs: seq<Scored>) {
    forall e :: e in xs ==> (e.1 == 0 <==> 0 <= e.0 < n && SafeAt(p, e.0))
  }

  /** Columns with a positive score report nothing. */
  lemma {:induction false} TriedZeros(n: nat, p: seq<int>, xs: seq<Scored>)
    requires |p| < n && Honest(n, p, xs)
    ensures Tried(n, p, xs) == Tried(n, p, Zeros(xs))
    decreases |xs|
  {
    if xs != [] {
      var init, last := xs[..|xs| - 1], xs[|xs| - 1];
      assert last in xs;
      TriedZeros(n, p, init);
      assert Tried(n, p, xs) == Tried(n, p, init) + Cell(n, p, last.0);
      if last.1 == 0 {
        var z := Zeros(init) + [last];
        assert z[..|z| - 1] == Zeros(init) && z[|z| - 1] == last;
        assert Zeros(xs) == z;
      } else {
        assert Zeros(xs) == Zeros(init);
      }
    }
  }

  /** Trying columns 0..k-1 in ascending order is the plain search of those
      columns. */
  lemma {:induction false} TriedScores(n: nat, p: seq<int>, b: seq<int>, k: nat)
    requires |p| < n && |p| <= |b| && b[..|p|] == p && k <= n
    ensures Tried(n, p, Scores(b, |p|, k)) == Branches(n, p, 0, k)
  {
    if k > 0 {
      TriedScores(n, p, b, k - 1);
      assert Scores(b, |p|, k)[..k - 1] == Scores(b, |p|, k - 1);
      BranchesSnoc(n, p, k - 1);
    }
  }

  /** Sorting the scored columns changes neither the solutions found nor
      their order: the safe columns are exactly the score-0 ones, and the
      stable sort keeps them ascending. */
  lemma HeuristicOrder(n: nat, p: seq<int>, b: seq<int>)
    requires |p| < n && |b| == n && b[..|p|] == p
    ensures Tried(n, p, SortByScore(Scores(b, |p|, n))) == Completions(n, p)
  {
    var xs := Scores(b, |p|, n);
    var ys := SortByScore(xs);
    forall e | e in xs ensures e.1 == 0 <==> 0 <= e.0 < n && SafeAt(p, e.0) {
      var j :| 0 <= j < n && xs[j] == e;
      ConflictsSafe(b, |p|, j);
    }
    forall e | e in ys ensures e.1 == 0 <==> 0 <= e.0 < n && SafeAt(p, e.0) {
      assert e in multiset(ys);
    }
    TriedZeros(n, p, xs);
    TriedZeros(n, p, ys);
    ZerosSort(xs);
    TriedScores(n, p, b, n);
  }

  class NQueensSolver {
    var solutions: seq<seq<int>>
    var board: seq<int>
    var n: nat

    constructor ()
      ensures solutions == [] && board == [] && n == 0
    {
      solutions := [];
      board := [];
      n := 0;
    }

    /** `is_valid`: no earlier row shares the column or lies on a diagonal,
        tested with absolute differences. */
    method IsValid(row: nat, col: int) returns (ok: bool)
      requires row <= |board|
      ensures ok <==> SafeAt(board[..row], col)
    {
      for i := 0 to row
        invariant forall k :: 0 <= k < i ==> !Attacks(board, row, col, k)
      {
        if board[i] == col || Abs(board[i] - col) == Abs(i - row) {
          return false;
        }
      }
      ok := true;
      forall k | 0 <= k < row ensures board[..row][k] != col && Abs(board[..row][k] - col) != row - k {
        assert !Attacks(board, row, col, k);
        assert board[..row][k] == board[k];
      }
    }

    /** `get_conflict_count`: the number of earlier rows attacking
        (row, col); it is 0 exactly when the column is valid. */
    method GetConflictCount(row: nat, col: int) returns (conflict: nat)
      requires row <= |board|
      ensures conflict == Conflicts(board, row, col, row)
      ensures conflict == 0 <==> SafeAt(board[..row], col)
    {
      conflict := 0;
      for i := 0 to row
        invariant conflict == Conflicts(board, row, col, i)
      {
        if board[i] == col || Abs(board[i] - col) == Abs(i - row) {
          conflict := conflict + 1;
        }
      }
      ConflictsSafe(board, row, col);
    }

    /** `backtrack`: appends a copy of every completion of p in search order
        and sets each tried entry back to -1. */
    method Backtrack(row: nat, ghost p: seq<int>)
      requires |board| == n && row == |p| <= n && Partial(n, p) && Shows(board, p)
      modifies this
      ensures n == old(n) && board == old(board)
      ensures solutions == old(solutions) + Completions(n, p)
      decreases n - row, 1
    {
      if row == n {
        assert board[..|p|] == board;
        solutions := solutions + [board];
        return;
      }
      for col := 0 to n
        invariant n == old(n) && board == old(board)
        invariant solutions == old(solutions) + Branches(n, p, 0, col)
      {
        Trial(row, col, p);
        BranchesSnoc(n, p, col);
        AppendAssoc(old(solutions), Branches(n, p, 0, col), if SafeAt(p, col) then Completions(n, p + [col]) else []);
      }
    }

    /** One pass of `for col in range(self.n)`. */
    method Trial(row: nat, col: nat, ghost p: seq<int>)
      requires |board| == n && row == |p| < n && col < n && Partial(n, p) && Shows(board, p)
      modifies this
      ensures n == old(n) && board == old(board)
      ensures solutions == old(solutions) + (if SafeAt(p, col) then Completions(n, p + [col]) else [])
      decreases n - row, 0
    {
      var ok := IsValid(row, col);
      if ok {
        ShowsPlace(board, p, col);
        SafeExtends(n, p, col);
        board := board[row := col];
        Backtrack(row + 1, p + [col]);
        board := board[row := -1];
      }
    }

    /** `backtrack_with_heuristic`: scores every column, sorts the columns by
        score (stable), and tries them in that order; it reports the same
        completions, in the same order, as `backtrack`. */
    method BacktrackWithHeuristic(row: nat, ghost p: seq<int>)
      requires |board| == n && row == |p| <= n && Partial(n, p) && Shows(board, p)
      modifies this
      ensures n == old(n) && board == old(board)
      ensures solutions == old(solutions) + Completions(n, p)
      decreases n - row, 2
    {
      if row == n {
        assert board[..|p|] == board;
        solutions := solutions + [board];
        return;
      }
      var colsWithConflict := ScoreColumns(row);
      var sortedCols := SortByScore(colsWithConflict);
      forall e | e in sortedCols ensures 0 <= e.0 < n {
        assert e in multiset(colsWithConflict);
      }
      TrySorted(row, sortedCols, p);
      HeuristicOrder(n, p, board);
    }

    /** `cols_with_conflict`: each column of the row with its score. */
    method ScoreColumns(row: nat) returns (colsWithConflict: seq<Scored>)
      requires row <= |board|
      ensures colsWithConflict == Scores(board, row, n)
    {
      colsWithConflict := [];
      for col := 0 to n
        invariant colsWithConflict == Scores(board, row, col)
      {
        var conflict := GetConflictCount(row, col);
        colsWithConflict := colsWithConflict + [(col, conflict)];
      }
    }

    /** The loop over `sorted_cols`. */
    method TrySorted(row: nat, sortedCols: seq<Scored>, ghost p: seq<int>)
      requires |board| == n && row == |p| < n && Partial(n, p) && Shows(board, p)
      requires forall e :: e in sortedCols ==> 0 <= e.0 < n
      modifies this
      ensures n == old(n) && board == old(board)
      ensures solutions == old(solutions) + Tried(n, p, sortedCols)
      decreases n - row, 1, 0
    {
      for k := 0 to |sortedCols|
        invariant n == old(n) && board == old(board)
        invariant solutions == old(solutions) + Tried(n, p, sortedCols[..k])
      {
        assert sortedCols[k] in sortedCols;
        var col := sortedCols[k].0;
        HeuristicTrial(row, col, p);
        assert sortedCols[..k + 1][..k] == sortedCols[..k];
        AppendAssoc(old(solutions), Tried(n, p, sortedCols[..k]), Cell(n, p, col));
      }
      assert sortedCols[..|sortedCols|] == sortedCols;
    }

    /** One pass of `for col, _ in sorted_cols`. */
    method HeuristicTrial(row: nat, col: nat, ghost p: seq<int>)
      requires |board| == n && row == |p| < n && col < n && Partial(n, p) && Shows(board, p)
      modifies this
      ensures n == old(n) && board == old(board)
      ensures solutions == old(solutions) + Cell(n, p, col)
      decreases n - row, 0
    {
      var ok := IsValid(row, col);
      if ok {
        ShowsPlace(board, p, col);
        SafeExtends(n, p, col);
        board := board[row := col];
        BacktrackWithHeuristic(row + 1, p + [col]);
        board := board[row := -1];
      }
    }

    /** `solve_original`: resets the list and the solutions and records every
        solution in search order. */
    method SolveOriginal(n: nat)
      modifies this
      ensures this.n == n && board == seq(n, _ => -1)
      ensures solutions == AllSolutions(n)
    {
      this.n := n;
      board := seq(n, _ => -1);
      solutions := [];
      ShowsEmpty(n);
      Backtrack(0, []);
    }

    /** `solve_heuristic`: the same reset, then the heuristic search, which
        records the same list as `solve_original`. */
    method SolveHeuristic(n: nat)
      modifies this
      ensures this.n == n && board == seq(n, _ => -1)
      ensures solutions == AllSolutions(n)
    {
      this.n := n;
      board := seq(n, _ => -1);
      solutions := [];
      ShowsEmpty(n);
      BacktrackWithHeuristic(0, []);
    }
  }
}
