/** The validity check and the expectations of the unit tests of the
    set-based and bitmask solvers. */
module LiuYuQiaoQueensTest {
  import opened QueensSpec
  import opened QueenCounts
  import opened LiuYuQiaoQueens

  /** `known_solutions`: the solution counts the tests expect. */
  const KnownSolutions: map<nat, nat> := map[4 := 2, 5 := 10, 6 := 4, 7 := 40, 8 := 92]

  /** `is_valid_solution`: the length must be n, every entry must lie in
      [0, n), and no later row may share a column or a diagonal with an
      earlier one; each loop returns False at its first failure. */
  function IsValidSolution(solution: seq<int>, n: int): (ok: bool)
    ensures |solution| != n ==> !ok
    ensures (exists i :: 0 <= i < |solution| && (solution[i] < 0 || solution[i] >= n)) ==> !ok
    ensures ok <==> Valid(n, solution)
  {
    if |solution| != n then false
    else
      InRangeFrom(solution, n, 0) && NoConflictFrom(solution, 0)
  }

  /** `for col in solution` from entry k on. */
  function InRangeFrom(s: seq<int>, n: int, k: nat): (ok: bool)
    requires k <= |s|
    ensures ok <==> forall i :: k <= i < |s| ==> 0 <= s[i] < n
    decreases |s| - k
  {
    if k == |s| then true
    else if s[k] < 0 || s[k] >= n then false
    else InRangeFrom(s, n, k + 1)
  }

  /** `for i in range(n)` from row i on. */
  function NoConflictFrom(s: seq<int>, i: nat): (ok: bool)
    requires i <= |s|
    ensures ok <==> forall a, b :: i <= a < b < |s| ==> s[a] != s[b] && Abs(s[a] - s[b]) != b - a
    decreases |s| - i
  {
    if i == |s| then true
    else PairsFrom(s, i, i + 1) && NoConflictFrom(s, i + 1)
  }

  /** `for j in range(i + 1, n)` from column j on: `abs(i - j)` is `j - i`. */
  function PairsFrom(s: seq<int>, i: nat, j: nat): (ok: bool)
    requires i < j <= |s|
    ensures ok <==> forall b :: j <= b < |s| ==> s[i] != s[b] && Abs(s[i] - s[b]) != b - i
    decreases |s| - j
  {
    if j == |s| then true
    else if s[i] == s[j] then false
    else if Abs(s[i] - s[j]) == Abs(i - j) then false
    else PairsFrom(s, i, j + 1)
  }

  /** Every solution the solvers report for any n passes the check, and
      every board that passes it is among them. */
  lemma SolutionsPassCheck(n: nat)
    ensures forall s :: s in AllSolutions(n) <==> IsValidSolution(s, n)
  {
    AllSolutionsExactly(n);
  }

  /** Every entry of the table is the number of solutions of its board. */
  lemma KnownCounts(n: nat)
    requires n in KnownSolutions
    ensures |AllSolutions(n)| == KnownSolutions[n]
  {
    if n == 4 {
      CountFour();
    } else if n == 5 {
      CountFive();
    } else if n == 6 {
      CountSix();
    } else if n == 7 {
      CountSeven();
    } else {
      CountEight();
    }
  }

  /** `test_basic_functionality`: the set-based solver finds as many
      solutions as the table says, and reports that count. */
  method BasicFunctionality(n: nat) returns (solutions: seq<seq<int>>, count: int)
    requires n in KnownSolutions
    ensures count == KnownSolutions[n] && |solutions| == KnownSolutions[n]
  {
    var solver := new NQueens(n);
    solutions, count := solver.Solve(true);
    KnownCounts(n);
  }

  /** `test_single_solution`: on the boards of size 4 to 8 the search for
      one solution succeeds and returns at most one placement. */
  method SingleSolution(n: nat) returns (solutions: seq<seq<int>>, count: int)
    requires 4 <= n <= 8
    ensures count >= 1 && |solutions| <= 1
  {
    var solver := new NQueens(n);
    solutions, count := solver.Solve(false);
    KnownCounts(n);
  }

  /** `test_bitwise_optimization`: the bitmask solver finds as many
      solutions as the table says. */
  method BitwiseOptimization(n: nat) returns (solutions: seq<seq<int>>, count: int)
    requires n in KnownSolutions
    ensures count == KnownSolutions[n]
  {
    var solver := new NQueensOptimized(n);
    solutions, count := solver.SolveBitwise(true);
    KnownCounts(n);
  }

  /** `test_solution_validity`: every placement the set-based solver
      reports passes `is_valid_solution`. */
  method SolutionValidity(n: nat) returns (solutions: seq<seq<int>>, count: int)
    ensures forall s :: s in solutions ==> IsValidSolution(s, n)
  {
    var solver := new NQueens(n);
    solutions, count := solver.Solve(true);
    SolutionsPassCheck(n);
  }

  /** `test_performance_comparison`: both solvers count the 92 solutions of
      the 8 x 8 board. */
  method PerformanceComparison() returns (count1: int, count2: int)
    ensures count1 == count2 == 92
  {
    var standard := new NQueens(8);
    var solutions1;
    solutions1, count1 := standard.Solve(true);
    var optimized := new NQueensOptimized(8);
    var solutions2;
    solutions2, count2 := optimized.SolveBitwise(true);
    CountEight();
  }
}
