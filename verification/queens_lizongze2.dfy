/** lizongze's `NQ2.py`: the set-based backtracking of `NQ.py` again, and a
    bitmask counter that places the first queen in the left half only,
    doubles, and adds the centre column for odd n. */
module LizongzeQueens2 {
  import opened Lists
  import opened QueensSpec
  import opened QueenSearch
  import opened Bits
  import opened QueenMasks
  import LizongzeQueens

  /** `solve_n_queens_backtracking`: the same nested search as `NQ.py`. */
  method SolveNQueensBacktracking(n: nat, findAll: bool) returns (solutions: seq<seq<int>>)
    ensures findAll ==> solutions == AllSolutions(n)
    ensures !findAll ==> solutions == First(AllSolutions(n))
  {
    var search := new LizongzeQueens.Search(n, findAll);
    assert ColKeys([]) == {} && DiffKeys([]) == {} && SumKeys([]) == {};
    var found := search.Backtrack(0, []);
    solutions := search.solutions;
  }

  // ---------------------------------------------------------------------
  // `total_n_queens_bit`.

  /** Every column below n is used by some row. */
  ghost predicate AllColumns(n: nat, p: seq<int>) {
    forall c :: 0 <= c < n ==> c in p
  }

  /** A conflict-free placement in range uses every column exactly when it
      has n rows. */
  lemma FullRows(n: nat, p: seq<int>)
    requires Partial(n, p)
    ensures AllColumns(n, p) <==> |p| == n
  {
    assert NoDup(p);
    var range := seq(n, j => j);
    if AllColumns(n, p) {
      assert NoDup(range);
      SubsetShorter(range, p);
    }
    if |p| == n {
      forall c | 0 <= c < n ensures c in p {
        if c !in p {
          var others := seq(n - 1, j => if j < c then j else j + 1);
          forall x | x in p ensures x in others {
            var i :| 0 <= i < |p| && p[i] == x;
            assert others[if x < c then x else x - 1] == x;
          }
          assert NoDup(others);
          SubsetShorter(p, others);
        }
      }
    }
  }

  /** The leaf test `cols == all_ones` holds exactly when every row is
      placed. */
  lemma ColsFull(n: nat, p: seq<int>, cols: nat, diag1: nat, diag2: nat)
    requires Partial(n, p) && MasksOf(p, cols, diag1, diag2)
    ensures cols == Ones(n) <==> |p| == n
  {
    FullRows(n, p);
    if |p| == n {
      forall c: nat ensures Bit(cols, c) <==> Bit(Ones(n), c) {
        OnesBit(n, c);
        if c < n {
          assert c in p;
        }
      }
      BitsEqual(cols, Ones(n));
    }
    if cols == Ones(n) {
      forall c | 0 <= c < n ensures c in p {
        OnesBit(n, c);
        assert Bit(cols, c);
      }
    }
  }

  /** The nested `backtrack(cols, diag1, diag2)` of `total_n_queens_bit`,
      for the masks of the conflict-free placement p: the number of
      completions of p.  Each pass of the loop takes the lowest free bit
      (`available & -available`) and subtracts it, so the loop runs once per
      free column. */
  method Count(n: nat, allOnes: nat, cols: nat, diag1: nat, diag2: nat, ghost p: seq<int>)
    returns (count: nat, ghost passes: nat)
    requires allOnes == Ones(n) && Partial(n, p) && MasksOf(p, cols, diag1, diag2)
    ensures count == |Completions(n, p)|
    ensures |p| < n ==> passes == PopCount(Free(n, cols, diag1, diag2))
    decreases n - |p|, 1
  {
    ColsFull(n, p, cols, diag1, diag2);
    if cols == allOnes {
      return 1, 0;
    }
    count := 0;
    passes := 0;
    var available := AndNot(allOnes, Or(Or(cols, diag1), diag2));
    forall c: nat ensures Bit(available, c) <==> 0 <= c < n && SafeAt(p, c) {
      FreeBit(n, p, cols, diag1, diag2, c);
    }
    ghost var lo: nat := 0;
    while available != 0
      invariant lo <= n
      invariant forall c: nat :: Bit(available, c) <==> lo <= c < n && SafeAt(p, c)
      invariant count == |Branches(n, p, 0, lo)|
      invariant passes + PopCount(available) == PopCount(Free(n, cols, diag1, diag2))
      decreases available
    {
      ghost var lo0 := lo;
      var sub;
      PopCountClear(available);
      sub, available, lo := CountColumn(n, allOnes, cols, diag1, diag2, available, p, lo);
      count := count + sub;
      passes := passes + 1;
      BranchesSplit(n, p, 0, lo0, lo);
    }
    EmptyFree(n, p, lo);
    BranchesSkip(n, p, lo, n, n);
    BranchesSplit(n, p, 0, lo, n);
  }

  /** One pass of the `while available` loop of the counter. */
  method CountColumn(n: nat, allOnes: nat, cols: nat, diag1: nat, diag2: nat, available: nat,
                     ghost p: seq<int>, ghost lo: nat)
    returns (sub: nat, rest: nat, ghost lo': nat)
    requires allOnes == Ones(n) && |p| < n && lo <= n && available > 0
    requires Partial(n, p) && MasksOf(p, cols, diag1, diag2)
    requires forall c: nat :: Bit(available, c) <==> lo <= c < n && SafeAt(p, c)
    ensures lo < lo' <= n && rest == available - LowBit(available)
    ensures forall c: nat :: Bit(rest, c) <==> lo' <= c < n && SafeAt(p, c)
    ensures sub == |Branches(n, p, lo, lo')|
    decreases n - |p|, 0
  {
    var bit := LowBit(available);
    ghost var k := LowIndex(available);
    TakeLowest(n, p, lo, available);
    rest := ClearLowest(available);
    MasksStep(p, cols, diag1, diag2, k);
    SafeExtends(n, p, k);
    ghost var passes;
    sub, passes := Count(n, allOnes, Or(cols, bit), 2 * Or(diag1, bit), Or(diag2, bit) / 2, p + [k]);
    lo' := k + 1;
    BranchesSkip(n, p, lo, k, k + 1);
    BranchesSingle(n, p, k);
  }

  /** The masks after the first queen alone is in column i:
      `(bit, bit << 1, bit >> 1)`. */
  lemma FirstQueenMasks(i: nat)
    ensures MasksOf([i], Pow2(i), 2 * Pow2(i), Pow2(i) / 2)
  {
    MasksEmpty();
    MasksStep([], 0, 0, 0, i);
    assert [] + [i] == [i];
  }

  /** `total_n_queens_bit`: twice the count with the first queen in each
      left-half column, plus the count with it in the centre column for
      odd n.  That is the number of solutions for every n > 0; for n = 0
      the loop and the odd case are both skipped and the answer is 0. */
  method TotalNQueensBit(n: nat) returns (count: nat)
    ensures n > 0 ==> count == 2 * |Branches(n, [], 0, n / 2)| + (if n % 2 == 1 then |Completions(n, [n / 2])| else 0)
    ensures count == if n == 0 then 0 else |AllSolutions(n)|
  {
    var allOnes := Ones(n);
    count := 0;
    var half := n / 2;
    for i := 0 to half
      invariant if n == 0 then count == 0 else count == |Branches(n, [], 0, i)|
    {
      var bit := Pow2(i);
      FirstQueenMasks(i);
      assert [] + [i] == [i];
      var sub;
      ghost var passes;
      sub, passes := Count(n, allOnes, bit, 2 * bit, bit / 2, [i]);
      count := count + sub;
      BranchesSnoc(n, [], i);
    }
    count := count * 2;
    if n % 2 == 1 {
      var i := half;
      var bit := Pow2(i);
      FirstQueenMasks(i);
      var sub;
      ghost var passes;
      sub, passes := Count(n, allOnes, bit, 2 * bit, bit / 2, [i]);
      count := count + sub;
    }
    if n > 0 {
      BitCountMatches(n);
    }
  }

  /** The counter agrees with the backtracking solver on every n > 0. */
  lemma BitCountMatches(n: nat)
    requires n > 0
    ensures 2 * |Branches(n, [], 0, n / 2)| + (if n % 2 == 1 then |Completions(n, [n / 2])| else 0) == |AllSolutions(n)|
  {
    SymmetricCount(n);
    BranchesSingle(n, [], n / 2);
    assert [] + [n / 2] == [n / 2];
  }
}
