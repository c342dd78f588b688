/** GuYunfei's two solvers.  `solve_n_queens_standard` keeps a row -> column
    list `queens`, a list of column flags and two `defaultdict(bool)`
    diagonal tables; `solve_n_queens_bitwise` passes the three masks by
    value and takes the free columns lowest bit first.  Both store copies of
    `queens` and render them with `format_solutions`, whose rows mix
    2-character empty cells with a 3-character queen cell. */
module GuYunfeiQueens {
  import opened Lists
  import opened QueensSpec
  import opened QueenSearch
  import opened QueenText
  import opened Bits
  import opened QueenMasks

  // ---------------------------------------------------------------------
  // `format_solutions`.

  /** Row text: `'Q  '` in the queen's column, `'* '` in every other one. */
  function RowText(n: nat, c: int): string {
    Join(Cells(n, c, "Q  ", "* "))
  }

  /** One formatted solution, a string per row. */
  function Formatted(n: nat, s: seq<int>): (rows: seq<string>)
    ensures |rows| == |s|
  {
    seq(|s|, i requires 0 <= i < |s| => RowText(n, s[i]))
  }

  function FormattedAll(n: nat, xs: seq<seq<int>>): (fs: seq<seq<string>>)
    ensures |fs| == |xs| && forall k :: 0 <= k < |xs| ==> fs[k] == Formatted(n, xs[k])
  {
    seq(|xs|, k requires 0 <= k < |xs| => Formatted(n, xs[k]))
  }

  /** `format_solutions`: for every stored column list, n rows built as
      `['* '] * n` with the queen's cell overwritten by `'Q  '`, joined. */
  method FormatSolutions(solutionsIndices: seq<seq<int>>, n: nat) returns (formatted: seq<seq<string>>)
    requires forall k :: 0 <= k < |solutionsIndices| ==> |solutionsIndices[k]| == n && InRange(n, solutionsIndices[k])
    ensures formatted == FormattedAll(n, solutionsIndices)
  {
    formatted := [];
    for k := 0 to |solutionsIndices|
      invariant formatted == FormattedAll(n, solutionsIndices[..k])
    {
      var solIndices := solutionsIndices[k];
      var solution: seq<string> := [];
      for i := 0 to n
        invariant solution == Formatted(n, solIndices[..i])
      {
        var row := seq(n, _ => "* ");
        row := row[solIndices[i] := "Q  "];
        assert row == Cells(n, solIndices[i], "Q  ", "* ");
        solution := solution + [Join(row)];
        assert solIndices[..i + 1] == solIndices[..i] + [solIndices[i]];
      }
      assert solIndices[..n] == solIndices;
      formatted := formatted + [solution];
      assert solutionsIndices[..k + 1] == solutionsIndices[..k] + [solIndices];
    }
    assert solutionsIndices[..|solutionsIndices|] == solutionsIndices;
  }

  /** A formatted solution is n strings of 2n + 1 characters: the `'* '`
      cells before column s[i], then `'Q  '`, then `'* '` cells, so the only
      'Q' of row i is at index 2 * s[i]. */
  lemma FormattedRows(n: nat, s: seq<int>)
    requires Valid(n, s)
    ensures |Formatted(n, s)| == n
    ensures forall i :: 0 <= i < n ==>
      Formatted(n, s)[i] == Times(s[i], "* ") + "Q  " + Times(n - s[i] - 1, "* ")
    ensures forall i, j :: 0 <= i < n && 0 <= j < |Formatted(n, s)[i]| ==>
      |Formatted(n, s)[i]| == 2 * n + 1 && (Formatted(n, s)[i][j] == 'Q' <==> j == 2 * s[i])
  {
    forall i | 0 <= i < n
      ensures Formatted(n, s)[i] == Times(s[i], "* ") + "Q  " + Times(n - s[i] - 1, "* ")
      ensures |Formatted(n, s)[i]| == 2 * n + 1
      ensures forall j :: 0 <= j < |Formatted(n, s)[i]| ==> (Formatted(n, s)[i][j] == 'Q' <==> j == 2 * s[i])
    {
      RowPieces(n, s[i], "Q  ", "* ");
      RowQueen(n, s[i], "Q  ", "* ");
    }
  }

  /** Every solution the search reports can be formatted. */
  lemma Formattable(n: nat, xs: seq<seq<int>>)
    requires forall s :: s in xs ==> Valid(n, s)
    ensures forall k :: 0 <= k < |xs| ==> |xs[k]| == n && InRange(n, xs[k])
  {
    forall k | 0 <= k < |xs| ensures |xs[k]| == n && InRange(n, xs[k]) {
      assert xs[k] in xs;
    }
  }

  // ---------------------------------------------------------------------
  // `solve_n_queens_standard`.

  /** The variables the nested functions of `solve_n_queens_standard`
      share. */
  class StandardSearch {
    const n: nat
    const outputAll: bool
    var solutions: seq<seq<int>>
    var cols: seq<bool>
    var hills: map<int, bool>
    var dales: map<int, bool>
    var queens: seq<int>

    constructor (n: nat, outputAll: bool)
      ensures this.n == n && this.outputAll == outputAll && solutions == []
      ensures cols == seq(n, _ => false) && hills == map[] && dales == map[]
      ensures queens == seq(n, _ => -1)
    {
      this.n := n;
      this.outputAll := outputAll;
      solutions := [];
      cols := seq(n, _ => false);
      hills, dales := map[], map[];
      queens := seq(n, _ => -1);
    }

    /** The flags and `queens` record the partial placement p. */
    ghost predicate Records(p: seq<int>)
      reads this
    {
      |queens| == n && Shows(queens, p) && FlagsShow(n, cols, hills, dales, p)
    }

    /** `is_not_under_attack`: neither the column nor either diagonal is
        flagged. */
    predicate IsNotUnderAttack(row: int, col: int)
      reads this
      requires 0 <= col < |cols|
    {
      !(cols[col] || Flag(hills, row - col) || Flag(dales, row + col))
    }

    /** On flags recording p, the test of column col of row |p| is the
        no-attack condition. */
    lemma NotUnderAttackSafe(p: seq<int>, col: int)
      requires Records(p) && 0 <= col < n
      ensures IsNotUnderAttack(|p|, col) <==> SafeAt(p, col)
    {
      FlagsSafe(n, cols, hills, dales, p, col);
    }

    /** `place_queen`: records the column and raises the three flags, so
        that `queens` and the flags record p + [col]. */
    method PlaceQueen(row: int, col: int, ghost p: seq<int>)
      requires row == |p| < n && 0 <= col < n && Records(p)
      modifies `queens, `cols, `hills, `dales
      ensures queens == old(queens)[row := col] && cols == old(cols)[col := true]
      ensures hills == old(hills)[row - col := true] && dales == old(dales)[row + col := true]
      ensures Records(p + [col])
    {
      FlagsPlace(n, cols, hills, dales, p, col);
      ShowsPlace(queens, p, col);
      queens := queens[row := col];
      cols := cols[col := true];
      hills := hills[row - col := true];
      dales := dales[row + col := true];
    }

    /** `remove_queen`: resets the entry to -1 and lowers the three flags,
        so that `queens` and the flags record p again. */
    method RemoveQueen(row: int, col: int, ghost p: seq<int>)
      requires row == |p| < n && 0 <= col < n && Records(p + [col]) && SafeAt(p, col)
      modifies `queens, `cols, `hills, `dales
      ensures queens == old(queens)[row := -1] && cols == old(cols)[col := false]
      ensures hills == old(hills)[row - col := false] && dales == old(dales)[row + col := false]
      ensures Records(p)
    {
      FlagsRemove(n, cols, hills, dales, p, col);
      assert queens[row := -1][..row] == queens[..row + 1][..row];
      queens := queens[row := -1];
      cols := cols[col := false];
      hills := hills[row - col := false];
      dales := dales[row + col := false];
    }

    /** `backtrack(row)` with the partial placement p of rows 0..row-1
        recorded.  With `output_all` it stores a copy of every completion
        of p, in search order, returns False and leaves flags and `queens`
        as it found them.  Without it, it stores the first completion only
        and returns True exactly when there is one, leaving that completion
        recorded.  At row == n (only reached for n == 0) the loop is empty. */
    method Backtrack(row: nat, ghost p: seq<int>) returns (found: bool)
      requires row == |p| && (row < n || row == n == 0) && Partial(n, p) && Records(p)
      modifies this
      ensures found <==> !outputAll && |p| < n && Completions(n, p) != []
      ensures |p| == n ==> solutions == old(solutions)
      ensures |p| < n && outputAll ==> solutions == old(solutions) + Completions(n, p)
      ensures |p| < n && !outputAll ==> solutions == old(solutions) + First(Completions(n, p))
      ensures !found ==> queens == old(queens) && cols == old(cols) && Records(p)
      ensures found ==> Records(Completions(n, p)[0])
      decreases n - row, 1
    {
      for col := 0 to n
        invariant queens == old(queens) && cols == old(cols) && Records(p)
        invariant |p| < n && outputAll ==> solutions == old(solutions) + Branches(n, p, 0, col)
        invariant |p| < n && !outputAll ==> solutions == old(solutions) && Branches(n, p, 0, col) == []
        invariant |p| == n ==> solutions == old(solutions)
      {
        var stop := Column(row, col, p);
        BranchesSnoc(n, p, col);
        if stop {
          FirstFound(n, p, col);
          return true;
        }
      }
      if |p| < n {
        BranchesAll(n, p);
      }
      return false;
    }

    /** One pass of `for col in range(n)` in row |p| < n: a safe column gets
        the queen; on the last row a copy of `queens` is stored, otherwise
        the search goes on.  `stop` is the early return of a search without
        `output_all` that has found its solution: the queens stay on.
        Otherwise the queen is removed and flags and `queens` are as before. */
    method Column(row: nat, col: nat, ghost p: seq<int>) returns (stop: bool)
      requires row == |p| < n && col < n && Partial(n, p) && Records(p)
      modifies this
      ensures stop ==> !outputAll && SafeAt(p, col) && Completions(n, p + [col]) != []
      ensures stop ==> solutions == old(solutions) + [Completions(n, p + [col])[0]]
      ensures stop ==> Records(Completions(n, p + [col])[0])
      ensures !stop ==> queens == old(queens) && cols == old(cols) && Records(p)
      ensures !stop && outputAll ==>
        solutions == old(solutions) + (if SafeAt(p, col) then Completions(n, p + [col]) else [])
      ensures !stop && !outputAll ==>
        solutions == old(solutions) && (SafeAt(p, col) ==> Completions(n, p + [col]) == [])
      decreases n - row, 0
    {
      NotUnderAttackSafe(p, col);
      if !IsNotUnderAttack(row, col) {
        return false;
      }
      ghost var q := p + [col];
      ghost var queens0, cols0 := queens, cols;
      SafeExtends(n, p, col);
      PlaceQueen(row, col, p);
      if row + 1 == n {
        assert queens == q by {
          assert queens[..|q|] == q;
        }
        solutions := solutions + [queens];
        assert Completions(n, q) == [q];
        if !outputAll {
          return true;
        }
      } else {
        var found := Backtrack(row + 1, q);
        if found && !outputAll {
          return true;
        }
      }
      RemoveQueen(row, col, p);
      ShowsPlace(queens0, p, col);
      UpdateBack(cols0, col, true);
      return false;
    }
  }

  /** `solve_n_queens_standard`: the formatted solutions and their number
      (the elapsed time is not modelled).  With `output_all` every solution
      in search order, without it the first one only; none for n == 0. */
  method SolveStandard(n: nat, outputAll: bool) returns (formatted: seq<seq<string>>, count: nat)
    ensures outputAll ==> formatted == FormattedAll(n, if n == 0 then [] else AllSolutions(n))
    ensures !outputAll ==> formatted == FormattedAll(n, if n == 0 then [] else First(AllSolutions(n)))
    ensures count == |formatted|
  {
    var search := new StandardSearch(n, outputAll);
    FlagsEmpty(n);
    ShowsEmpty(n);
    var _ := search.Backtrack(0, []);
    var solutions := search.solutions;
    AllSolutionsExactly(n);
    Formattable(n, solutions);
    formatted := FormatSolutions(solutions, n);
    count := |solutions|;
  }

  // ---------------------------------------------------------------------
  // `solve_n_queens_bitwise`.

  /** The free columns `all_ones & ~(cols | hills | dales)`, with `hills`
      the mask shifted right once per row and `dales` the one shifted left:
      bit c is set exactly when column c < n is safe. */
  lemma SpotsBit(n: nat, p: seq<int>, cols: nat, hills: nat, dales: nat, c: nat)
    requires MasksOf(p, cols, dales, hills)
    ensures Bit(AndNot(Ones(n), Or(Or(cols, hills), dales)), c) <==> c < n && SafeAt(p, c)
  {
    FreeBit(n, p, cols, dales, hills, c);
    AndNotBit(Ones(n), Or(Or(cols, hills), dales), c);
    AndNotBit(Ones(n), Or(Or(cols, dales), hills), c);
    OrBit(Or(cols, hills), dales, c);
    OrBit(cols, hills, c);
    OrBit(Or(cols, dales), hills, c);
    OrBit(cols, dales, c);
  }

  /** `pos = available_spots & -available_spots`, `available_spots -= pos`
      and `col = pos.bit_length() - 1`: the lowest free column of row |p|,
      its bit, and the free columns above it.  The columns lo..col-1
      skipped add no branch. */
  method LowestSpot(n: nat, ghost p: seq<int>, ghost lo: nat, availableSpots: nat)
    returns (rest: nat, pos: nat, col: nat)
    requires |p| < n && availableSpots > 0
    requires forall c: nat :: Bit(availableSpots, c) <==> lo <= c < n && SafeAt(p, c)
    ensures lo <= col < n && SafeAt(p, col) && pos == Pow2(col) && rest < availableSpots
    ensures forall c: nat :: Bit(rest, c) <==> col + 1 <= c < n && SafeAt(p, c)
    ensures Branches(n, p, lo, col + 1) == Completions(n, p + [col])
    ensures Branches(n, p, 0, col) == Branches(n, p, 0, lo)
  {
    pos := LowBit(availableSpots);
    LowestBranch(n, p, lo, availableSpots);
    rest := ClearLowest(availableSpots);
    col := BitLength(pos) - 1;
  }

  /** The variables the nested `backtrack` of `solve_n_queens_bitwise`
      shares: the stored column lists and `queens`, which is written row by
      row and never reset. */
  class BitwiseSearch {
    const n: nat
    const outputAll: bool
    const allOnes: nat
    var solutions: seq<seq<int>>
    var queens: seq<int>

    constructor (n: nat, outputAll: bool)
      ensures this.n == n && this.outputAll == outputAll && allOnes == Ones(n)
      ensures solutions == [] && queens == seq(n, _ => -1)
    {
      this.n := n;
      this.outputAll := outputAll;
      allOnes := Ones(n);
      solutions := [];
      queens := seq(n, _ => -1);
    }

    /** `backtrack(row, cols_mask, hills_mask, dales_mask)` with the masks
        of the partial placement p, which is the first row entries of
        `queens`.  With `output_all` it stores a copy of every completion of
        p in search order and returns False.  Without it the leaf answers
        True once exactly one solution is stored, so the first completion is
        stored and the search stops there; True means one was found. */
    method Backtrack(row: nat, colsMask: nat, hillsMask: nat, dalesMask: nat, ghost p: seq<int>)
      returns (stop: bool)
      requires allOnes == Ones(n) && |queens| == n && row == |p| <= n && queens[..row] == p
      requires Partial(n, p) && MasksOf(p, colsMask, dalesMask, hillsMask)
      requires !outputAll ==> solutions == []
      modifies this
      ensures |queens| == n && queens[..row] == p
      ensures stop <==> !outputAll && Completions(n, p) != []
      ensures outputAll ==> solutions == old(solutions) + Completions(n, p)
      ensures !outputAll ==> solutions == First(Completions(n, p))
      decreases n - row, 2
    {
      if row == n {
        assert queens == p;
        solutions := solutions + [queens];
        return |solutions| == 1 && !outputAll;
      }
      var availableSpots: nat := AndNot(allOnes, Or(Or(colsMask, hillsMask), dalesMask));
      forall c: nat ensures Bit(availableSpots, c) <==> c < n && SafeAt(p, c) {
        SpotsBit(n, p, colsMask, hillsMask, dalesMask, c);
      }
      AndNotBound(allOnes, Or(Or(colsMask, hillsMask), dalesMask));
      ghost var lo: nat := 0;
      while availableSpots != 0
        invariant lo <= n && availableSpots <= allOnes
        invariant |queens| == n && queens[..row] == p
        invariant forall c: nat :: Bit(availableSpots, c) <==> lo <= c < n && SafeAt(p, c)
        invariant outputAll ==> solutions == old(solutions) + Branches(n, p, 0, lo)
        invariant !outputAll ==> solutions == [] && Branches(n, p, 0, lo) == []
        decreases availableSpots
      {
        ghost var lo0 := lo;
        availableSpots, stop, lo := Spot(row, colsMask, hillsMask, dalesMask, availableSpots, p, lo);
        if stop {
          return true;
        }
        BranchesSplit(n, p, 0, lo0, lo);
        AppendAssoc(old(solutions), Branches(n, p, 0, lo0), Branches(n, p, lo0, lo));
      }
      EmptyFree(n, p, lo);
      BranchesSkip(n, p, lo, n, n);
      BranchesSplit(n, p, 0, lo, n);
      return false;
    }

    /** One pass of the `while available_spots` loop: `pos` is the lowest
        free bit, `available_spots -= pos` drops it, `pos.bit_length() - 1`
        is its column; the queen goes there and the search goes on with
        `cols | pos`, `(hills | pos) >> 1` and `(dales | pos) << 1`.  The
        columns skipped on the way are the unsafe ones. */
    method Spot(row: nat, colsMask: nat, hillsMask: nat, dalesMask: nat, availableSpots: nat,
                ghost p: seq<int>, ghost lo: nat)
      returns (rest: nat, stop: bool, ghost lo': nat)
      requires allOnes == Ones(n) && |queens| == n && row == |p| < n && queens[..row] == p
      requires Partial(n, p) && MasksOf(p, colsMask, dalesMask, hillsMask)
      requires availableSpots > 0 && lo <= n
      requires forall c: nat :: Bit(availableSpots, c) <==> lo <= c < n && SafeAt(p, c)
      requires !outputAll ==> solutions == [] && Branches(n, p, 0, lo) == []
      modifies this
      ensures |queens| == n && queens[..row] == p
      ensures rest < availableSpots && lo < lo' <= n
      ensures stop ==> !outputAll && Completions(n, p) != [] && solutions == First(Completions(n, p))
      ensures !stop ==> forall c: nat :: Bit(rest, c) <==> lo' <= c < n && SafeAt(p, c)
      ensures !stop && outputAll ==> solutions == old(solutions) + Branches(n, p, lo, lo')
      ensures !stop && !outputAll ==> solutions == [] && Branches(n, p, lo, lo') == []
      decreases n - row, 1
    {
      var pos, col;
      rest, pos, col := LowestSpot(n, p, lo, availableSpots);
      lo' := col + 1;
      stop := Place(row, col, pos, colsMask, hillsMask, dalesMask, p);
      if stop {
        FirstFound(n, p, col);
      }
    }

    /** The queen of row |p| goes to the safe column col (`pos` its bit) and
        the search goes on from there. */
    method Place(row: nat, col: nat, pos: nat, colsMask: nat, hillsMask: nat, dalesMask: nat, ghost p: seq<int>)
      returns (stop: bool)
      requires allOnes == Ones(n) && |queens| == n && row == |p| < n && queens[..row] == p && col < n
      requires pos == Pow2(col) && Partial(n, p) && MasksOf(p, colsMask, dalesMask, hillsMask) && SafeAt(p, col)
      requires !outputAll ==> solutions == []
      modifies this
      ensures |queens| == n && queens[..row] == p
      ensures stop <==> !outputAll && Completions(n, p + [col]) != []
      ensures outputAll ==> solutions == old(solutions) + Completions(n, p + [col])
      ensures !outputAll ==> solutions == First(Completions(n, p + [col]))
      decreases n - row, 0
    {
      queens := queens[row := col];
      assert queens[..row + 1] == p + [col];
      MasksStep(p, colsMask, dalesMask, hillsMask, col);
      SafeExtends(n, p, col);
      stop := Backtrack(row + 1, Or(colsMask, pos), Or(hillsMask, pos) / 2, 2 * Or(dalesMask, pos), p + [col]);
      assert queens[..row] == queens[..row + 1][..row];
    }
  }

  /** `solve_n_queens_bitwise`: for n >= 1 the same results as the
      standard solver, formatted the same way.  At n = 0 the search stores
      the empty placement at once (row == n), so one empty solution comes
      back where the standard solver returns none.  The elapsed time is not
      modelled. */
  method SolveBitwise(n: nat, outputAll: bool) returns (formatted: seq<seq<string>>, count: nat)
    ensures outputAll ==> formatted == FormattedAll(n, AllSolutions(n))
    ensures !outputAll ==> formatted == FormattedAll(n, First(AllSolutions(n)))
    ensures count == |formatted|
  {
    var search := new BitwiseSearch(n, outputAll);
    MasksEmpty();
    var _ := search.Backtrack(0, 0, 0, 0, []);
    var solutions := search.solutions;
    AllSolutionsExactly(n);
    Formattable(n, solutions);
    formatted := FormatSolutions(solutions, n);
    count := |solutions|;
  }
}
