# N-Queens solvers and the 100-prisoners cycle strategy, in Dafny

This project models two groups of student programs from one course
repository and proves what they compute.

**N-Queens.** Each solver places one queen per row of an n x n board and
backtracks. The model keeps each solver's own working state:
- a row -> column list with -1 for an empty row;
- a 0/1 grid or a `'.'`/`'Q'` grid;
- column and diagonal sets, flag arrays, defaultdicts or bitmasks.

Every solver is proved against one reference search, `QueensSpec`:
- `Completions(n, p)` lists, in the order a column-by-column search meets
  them, every solution that extends the partial placement `p`;
- `AllSolutions(n)` is `Completions(n, [])`;
- `Valid(n, s)` is the reference check of a finished placement: length n,
  entries in `[0, n)`, no two queens on one column or diagonal.

It is proved that the search reports exactly the valid placements, each
once (`AllSolutionsExactly`, `CompletionsNoDup`). A solver's `ensures` ties
what it stores to that search:
- `old(solutions) + Completions(n, p)` when it collects every solution;
- the first element only, in find-one mode;
- the solver's own variant, where it prunes, mirrors or reorders.

Several solvers do not compute the textbook answer. The model follows
their code:
- `TanZheYaoQueens` adds mirror images only for odd n (see Findings);
- `DglwQueens` never tries the centre column of an odd board and mirrors
  the shared `board[0]` (see Findings);
- `YanghaoyuanQueens` appends two lists that are not solutions;
- `RootQueens` never stops early;
- `LiuYuQiaoQueens` returns an empty list in find-one mode.

Lemmas state what each of these does.

**100 prisoners.** Prisoner p opens box p, then the box named on each
slip, for at most K boxes. The random arrangement is a parameter, and the
precondition is that it is a permutation:
- of `0..N-1` (`IsPerm`);
- or of `1..N` (`IsPerm1`), with `Shift` mapping it to the 0-based form.

`Perms` defines:
- `Iter(f, t, x)`, the box reached after t slips;
- `CycleLen(f, x)`, the length of the cycle through x;
- `MaxCycle`, `SuccessCount` and `AllSucceed`.

It proves the central fact of the strategy:
- prisoner p finds their number within K boxes exactly when the cycle
  through p has at most K boxes;
- so everybody succeeds exactly when the longest cycle has at most K
  boxes.

Every script's loops are proved against these functions.

Shared modules:

| module | file | what it holds |
|---|---|---|
| `Lists` | `lists.dfy` | small sequence helpers |
| `Bits` | `bits.dfy` | Python integers used as bitmasks, with `bin()` and `bit_length()` |
| `QueensSpec` | `queens_spec.dfy` | the reference queens search |
| `QueenCounts` | `queen_counts.dfy` | the solution counts of the boards of size 4 to 8 |
| `QueenSearch` | `queen_search.dfy` | column-loop lemmas, key sets, flag tables |
| `QueenMasks` | `queen_masks.dfy` | column and diagonal masks |
| `QueenSymmetry` | `queen_symmetry.dfy` | first-row halving and mirroring |
| `QueenText` | `queen_text.dfy` | string formatting of boards |
| `QueenGrid` | `queen_grid.dfy` | 0/1 grids |
| `QueenInput` | `queen_input.dfy` | board-size validation |
| `Perms` | `perms.dfy` | permutations and cycles |

There is one module per source file, named after its author and problem
(`LiuYuQiaoQueens`, `DglwPrisoners`, ...).

## Model

| member | source | states |
|---|---|---|
| QueensSpec.AllSolutionsExactly | 01_2023141461086_LiuYuQiao/test_n_queens.py:68-97 | the search from the empty board reports a placement exactly when `is_valid_solution` accepts it: length n, every entry in range, no two rows sharing a column or a diagonal |
| QueensSpec.CompletionsSound | 01_2023141461086_LiuYuQiao/test_n_queens.py:57-66 | every placement the search reports from a conflict-free partial placement is a valid solution |
| QueensSpec.CompletionsComplete | 01_2023141461086_LiuYuQiao/n_queens.py:89-104 | every valid solution that extends the partial placement p is reported by the search from p |
| QueensSpec.CompletionsNoDup | 01_2023141461086_LiuYuQiao/n_queens.py:89-104 | the search never reports the same placement twice |
| QueensSpec.FirstColumnExactly | 01_2023141461156_lizongze/NQ2.py:68-80 | the search from the one-queen placement [c] reports exactly the solutions whose first queen is in column c |
| QueensSpec.MirrorInvolution | 01-2023141470277-fanshengjie/n_queens1.py:115-119 | mirroring `[n-1-c for c in s]` twice gives the placement back |
| QueensSpec.MirrorValid | 01-2023141470277-fanshengjie/n_queens1.py:115-119 | the mirror image of a solution is a solution |
| QueensSpec.MirrorFirstColumn | 01_2023141461156_lizongze/NQ2.py:68-80 | the mirrors of the solutions starting in column c are exactly the solutions starting in column n-1-c |
| QueensSpec.MirrorColumnCount | 01_2023141461156_lizongze/NQ2.py:68-80 | columns c and n-1-c of the first row have equally many solutions |
| QueensSpec.SymmetricCount | 01_2023141461156_lizongze/NQ2.py:68-80 | the number of solutions is twice the count with the first queen left of the centre, plus the centre-column count for odd n |
| QueensSpec.MirrorLeavesHalf | 01-2023141470277-fanshengjie/n_queens1.py:120-128 | the mirror of a solution that starts in the left half (centre included) starts at or right of column n / 2; it starts in the same column only for the centre column of an odd board |
| QueenSearch.BranchesSnoc | 01_2023141461086_LiuYuQiao/n_queens.py:89-104 | one more pass of `for col in range(n)` appends exactly the completions through that column when it is safe, and nothing otherwise |
| QueenSearch.BranchesJump | 01_2023141461086_LiuYuQiao/n_queens.py:208-222 | jumping from column lo to the lowest free column k skips only unsafe columns, and column k adds its own completions |
| QueenSearch.BranchesAll | 01_2023141461086_LiuYuQiao/n_queens.py:89-106 | after the last column of the row, the completions found are all the completions of p |
| QueenSearch.FirstFound | 01_2023141461086_LiuYuQiao/n_queens.py:96-101 | the first column with a completion provides the first completion of p, which is what a find-one search stops at |
| QueenSearch.KeysSafe | 01_2023141461086_LiuYuQiao/n_queens.py:30-44 | on key sets recording p, a column of the next row is safe exactly when `col`, `row - col` and `row + col` are all absent from the sets |
| QueenSearch.KeysSnoc | 01_2023141461086_LiuYuQiao/n_queens.py:46-56 | `place_queen` adds exactly the three keys of the new queen, so the sets record p + [c] |
| QueenSearch.KeysRestore | 01_2023141461086_LiuYuQiao/n_queens.py:58-68 | `remove_queen` right after `place_queen` on a safe square gives back the three sets of p |
| QueenSearch.ReportedStep | 01_2023141461086_LiuYuQiao/n_queens.py:83-104 | two consecutive searches report, in `solutions` and `solution_count`, the concatenation of what each found, unless a find-one search has already stopped |
| QueenSearch.ReportedFirst | 01_2023141461086_LiuYuQiao/n_queens.py:84-86 | a find-one search whose first completion arrives has counted exactly one solution and, in that mode, appended none |
| QueenSearch.ShowsPlace | 01-2023141470277-fanshengjie/n_queens1.py:52-57 | writing `board[row] = col` shows p + [c], and writing -1 back restores the list exactly |
| QueenSearch.ShowsEmpty | 01-2023141470277-fanshengjie/n_queens1.py:59-73 | the fresh list `[-1] * n` shows the empty placement |
| QueenSearch.FlagsEmpty | 01_2023141461129_GuYunfei/n_queens.py:58-62 | fresh column flags and empty diagonal defaultdicts record no queen |
| QueenSearch.FlagsSafe | 01_2023141461129_GuYunfei/n_queens.py:64-65 | on flags recording p, `is_not_under_attack` is exactly the no-conflict condition |
| QueenSearch.FlagsPlace | 01_2023141461129_GuYunfei/n_queens.py:67-71 | raising the three flags of a queen records p + [c] |
| QueenSearch.FlagsRemove | 01_2023141461129_GuYunfei/n_queens.py:73-78 | lowering the three flags of a safe queen records p again |
| QueenMasks.MasksEmpty | 01_2023141461086_LiuYuQiao/n_queens.py:242-243 | the zero masks record the empty placement |
| QueenMasks.MasksStep | 01_2023141461086_LiuYuQiao/n_queens.py:217-220 | or-ing the queen's bit into `cols`, `diag1` and `diag2` and shifting `diag1` left and `diag2` right once gives the masks of p + [c] for the next row |
| QueenMasks.FreeBit | 01_2023141461086_LiuYuQiao/n_queens.py:205 | bit c of `all_ones` with the bits of all three masks cleared is set exactly when c < n and column c is safe |
| QueenMasks.FreeBelow | 01_2023141461086_LiuYuQiao/n_queens.py:205 | the free mask has no bit at or above n |
| QueenMasks.TakeLowest | 01_2023141461086_LiuYuQiao/n_queens.py:208-214 | `available & -available` is the single bit 2^k of the lowest free column k; `bin(pos).count('0') - 1` and `pos.bit_length() - 1` both give k; clearing it leaves the safe columns above k |
| QueenMasks.LowestBranch | 01_2023141461086_LiuYuQiao/n_queens.py:208-222 | taking the lowest free column k skips only unsafe columns, and k contributes the completions of p + [k] |
| QueenMasks.EmptyFree | 01_2023141461086_LiuYuQiao/n_queens.py:208 | when no free bit is left, no column from lo upward is safe |
| QueenSymmetry.FirstRowExactly | 01-2023141470277-fanshengjie/n_queens1.py:86-99 | the search over first-row columns lo..hi-1 reports exactly the solutions whose first queen is in that range |
| QueenSymmetry.OffCentre | 01-2023141470277-fanshengjie/n_queens1.py:120-128 | the filter `sol[0] != n // 2` never lengthens the list |
| QueenSymmetry.OffCentreMembers | 01-2023141470277-fanshengjie/n_queens1.py:120-128 | the filter keeps exactly the listed placements whose first queen is not in column n // 2 |
| QueenSymmetry.OffCentreNoDup | 01-2023141470277-fanshengjie/n_queens1.py:120-128 | filtering keeps a duplicate-free list duplicate-free |
| QueenSymmetry.OffCentreEven | 01-2023141470277-fanshengjie/n_queens1.py:115-119 | for even n no left-half solution starts in column n / 2, so nothing is filtered |
| QueenSymmetry.MirrorCompletes | 01-2023141470277-fanshengjie/n_queens1.py:115-128 | the left-half solutions followed by the mirrors of the off-centre ones are every solution, each exactly once, and no mirror repeats an original |
| QueenSymmetry.MirroredRightHalf | 01-2023141470277-fanshengjie/n_queens1.py:120-128 | the mirrors of the off-centre left-half solutions are exactly the solutions whose first queen is in the right half |
| QueenSymmetry.OffCentreConcat | 01-2023141470277-fanshengjie/n_queens1.py:120-128 | filtering distributes over concatenation |
| QueenSymmetry.MirrorAllConcat | 01-2023141470277-fanshengjie/n_queens1.py:115-119 | mirroring a list distributes over concatenation |
| QueenText.Cells | 01_2023141461129_GuYunfei/n_queens.py:45-46 | `row = [empty] * n; row[c] = queen` holds the queen's cell at c and the empty cell everywhere else |
| QueenText.RowPieces | 01_2023141461129_GuYunfei/n_queens.py:45-47 | a joined row is c empty cells, the queen's cell, then n - c - 1 empty cells |
| QueenText.RowQueen | 01_2023141461156_lizongze/NQ2.py:82-87 | a joined row has length (n-1) times the empty-cell width plus the queen width, and its only 'Q' at c times the empty-cell width, so the column can be read back |
| QueenText.CharGrid | 01_2022151470059_YouZhixuan/n_queens.py:3-5 | the character grid of a placement has n rows of n characters |
| QueenText.CharGridsConcat | 01_2023141490366_WangShiyi/Nqueen.py:18-43 | the grids of a concatenation are the concatenated grids |
| QueenText.CharGridPlace | 01_2022151470059_YouZhixuan/n_queens.py:11-23 | writing 'Q' into the next row's cell draws p + [c], and writing '.' back draws p again |
| QueenText.CharGridRows | 01_2022151470059_YouZhixuan/n_queens.py:33-35 | the grid of a solution has exactly one 'Q' per row, at the queen's column, and '.' elsewhere |
| QueenGrid.Board | 01_2023141461101_Zhaoweiyi/N_queens.py:41-46 | the 0/1 grid of a placement is n by n |
| QueenGrid.BoardsConcat | 01_2023141461101_Zhaoweiyi/N_queens.py:39-54 | the grids of a concatenation are the concatenated grids |
| QueenGrid.BoardRows | 01_2023141461101_Zhaoweiyi/N_queens.py:41-46 | a stored solution grid has exactly one 1 per row, at the queen's column, and every cell is 0 or 1 |
| QueenGrid.BoardInjective | 01_2023141461101_Zhaoweiyi/N_queens.py:41-46 | different solutions have different grids, so the placement can be read back from its grid |
| QueenGrid.HoldsCells | 01_2023141461101_Zhaoweiyi/N_queens.py:41-46 | the snapshot of a grid array that shows p is the grid of p |
| QueenGrid.ClearAboveSafe | 01_2023141461101_Zhaoweiyi/N_queens.py:14-37 | on a grid showing p, the upward column and diagonal scans find no 1 exactly when the square is safe |
| QueenGrid.HoldsPlace | 01_2023141461101_Zhaoweiyi/N_queens.py:50-54 | setting the next row's cell to 1 shows p + [col], and setting it back to 0 shows p |
| QueenInput.GetUserInput | 01_2023141461129_GuYunfei/n_queens.py:11-21 | the prompt returns the first answer that passes `is_valid_n` (n >= 4); every earlier answer was refused |
| QueenInput.CountThree | 01_2023141461129_GuYunfei/n_queens.py:6-8 | the 3 x 3 board has no solution |
| QueenInput.RejectedSizes | 01_2023141461129_GuYunfei/n_queens.py:6-8 | of the sizes `is_valid_n` refuses, 2 and 3 have no solution while 0 and 1 have exactly one |
| LiuYuQiaoQueens.NQueens.constructor | 01_2023141461086_LiuYuQiao/n_queens.py:14-28 | a new solver has the given n, no solutions, a zero count and empty column and diagonal sets |
| LiuYuQiaoQueens.NQueens.PlaceQueen | 01_2023141461086_LiuYuQiao/n_queens.py:46-56 | `place_queen` adds `col`, `row - col` and `row + col` to the three sets and changes nothing else |
| LiuYuQiaoQueens.NQueens.RemoveQueen | 01_2023141461086_LiuYuQiao/n_queens.py:58-68 | `remove_queen` takes those three keys out of the sets and changes nothing else |
| LiuYuQiaoQueens.NQueens.Backtrack | 01_2023141461086_LiuYuQiao/n_queens.py:70-106 | from a conflict-free placement p, finding all appends every completion of p in search order, counts each and restores the sets; finding one counts only the first completion, appends nothing, and leaves that solution on the board and in the sets |
| LiuYuQiaoQueens.NQueens.Column | 01_2023141461086_LiuYuQiao/n_queens.py:89-104 | one pass of the column loop extends the report by the completions through that column, or stops the find-one search at its first solution |
| LiuYuQiaoQueens.NQueens.Trial | 01_2023141461086_LiuYuQiao/n_queens.py:96-104 | placing a safe queen, searching on and removing it reports the completions of p + [col] and gives the sets of p back, unless the find-one search stopped |
| LiuYuQiaoQueens.NQueens.Solve | 01_2023141461086_LiuYuQiao/n_queens.py:108-129 | after the reset, finding all returns every solution and their number; finding one returns an empty list and a count of 1 exactly when a solution exists, else 0 |
| LiuYuQiaoQueens.LowestFree | 01_2023141461086_LiuYuQiao/n_queens.py:208-214 | the lowest set bit of `available` names the lowest safe column at or above lo; clearing it leaves exactly the safe columns above it |
| LiuYuQiaoQueens.NQueensOptimized.constructor | 01_2023141461086_LiuYuQiao/n_queens.py:178-180 | `all_ones` has the n lowest bits set; no solutions and a zero count |
| LiuYuQiaoQueens.NQueensOptimized.BacktrackBitwise | 01_2023141461086_LiuYuQiao/n_queens.py:182-227 | with masks recording p, reports exactly what `backtrack` reports from p, in both modes |
| LiuYuQiaoQueens.NQueensOptimized.BitColumn | 01_2023141461086_LiuYuQiao/n_queens.py:208-225 | one pass of the `while available` loop skips only unsafe columns and extends the report by the completions through the lowest free column |
| LiuYuQiaoQueens.NQueensOptimized.BitTrial | 01_2023141461086_LiuYuQiao/n_queens.py:217-225 | recursing with the updated masks reports the completions of p + [col] |
| LiuYuQiaoQueens.NQueensOptimized.SolveBitwise | 01_2023141461086_LiuYuQiao/n_queens.py:229-246 | gives the same solutions and count as `solve` in both modes |
| LiuYuQiaoQueensTest.IsValidSolution | 01_2023141461086_LiuYuQiao/test_n_queens.py:68-97 | returns False when the length is not n and when some entry lies outside [0, n); otherwise True exactly when no two rows share a column or a diagonal |
| LiuYuQiaoQueensTest.InRangeFrom | 01_2023141461086_LiuYuQiao/test_n_queens.py:83-85 | the range loop passes exactly when every remaining entry lies in [0, n) |
| LiuYuQiaoQueensTest.NoConflictFrom | 01_2023141461086_LiuYuQiao/test_n_queens.py:88-95 | the outer pair loop passes exactly when no two rows from i on conflict |
| LiuYuQiaoQueensTest.PairsFrom | 01_2023141461086_LiuYuQiao/test_n_queens.py:89-95 | the inner loop passes exactly when row i conflicts with no row from j on |
| LiuYuQiaoQueensTest.SolutionsPassCheck | 01_2023141461086_LiuYuQiao/test_n_queens.py:57-66 | every reported solution passes `is_valid_solution`, and every placement that passes it is reported |
| LiuYuQiaoQueensTest.KnownCounts | 01_2023141461086_LiuYuQiao/test_n_queens.py:15-21 | every entry of `known_solutions` (2, 10, 4, 40, 92 for n = 4..8) is the number of solutions of its board |
| LiuYuQiaoQueensTest.BasicFunctionality | 01_2023141461086_LiuYuQiao/test_n_queens.py:23-33 | the set-based solver, finding all, returns as many solutions as the table says and reports that count |
| LiuYuQiaoQueensTest.SingleSolution | 01_2023141461086_LiuYuQiao/test_n_queens.py:35-45 | for n = 4..8, finding one gives a count of at least 1 and at most one listed solution |
| LiuYuQiaoQueensTest.BitwiseOptimization | 01_2023141461086_LiuYuQiao/test_n_queens.py:47-55 | the bitmask solver reports the count the table says |
| LiuYuQiaoQueensTest.SolutionValidity | 01_2023141461086_LiuYuQiao/test_n_queens.py:57-66 | every solution the set-based solver returns passes `is_valid_solution` |
| LiuYuQiaoQueensTest.PerformanceComparison | 01_2023141461086_LiuYuQiao/test_n_queens.py:99-116 | both solvers report the same count on the 8 x 8 board, 92 |
| QueenCounts.ListedExactly | 01_2023141461086_LiuYuQiao/test_n_queens.py:15-21 | a repeat-free list holding exactly the valid placements has as many entries as the search reports, and the same ones |
| QueenCounts.ListedColumn | 01_2023141461086_LiuYuQiao/test_n_queens.py:15-21 | the same for the placements starting in one column |
| QueenCounts.FirstRowLength | 01_2023141461156_lizongze/NQ2.py:68-80 | the first-row search over columns 0..k-1 reports the column-(k-1) solutions after those of the columns before |
| QueenCounts.CountFour | 01_2023141461086_LiuYuQiao/test_n_queens.py:16 | the 4 x 4 board has exactly the 2 listed solutions |
| QueenCounts.CountFive | 01_2023141461086_LiuYuQiao/test_n_queens.py:17 | the 5 x 5 board has exactly the 10 listed solutions |
| QueenCounts.CountSix | 01_2023141461086_LiuYuQiao/test_n_queens.py:18 | the 6 x 6 board has exactly the 4 listed solutions |
| QueenCounts.CountSeven | 01_2023141461086_LiuYuQiao/test_n_queens.py:19 | the 7 x 7 board has 40 solutions |
| QueenCounts.CountEight | 01_2023141461086_LiuYuQiao/test_n_queens.py:20 | the 8 x 8 board has 92 solutions |
| QueenCounts.SevenColumn | 01_2023141461086_LiuYuQiao/test_n_queens.py:19 | the solutions of the 7 x 7 board starting in column c (c = 0..3) are as many as listed |
| QueenCounts.EightColumn | 01_2023141461086_LiuYuQiao/test_n_queens.py:20 | the solutions of the 8 x 8 board starting in column c (c = 0..3) are as many as listed |
| Lists.Reverse | 01_2023141490340_KangZuCheng/N-Queens.py:47 | `s[::-1]` (also `row[::-1]` in the dglw solver and `solution[::-1]` in the yanghaoyuan solver) has the same length and holds the entries in reverse order |
| KangZuChengQueens.Horizontal | 01_2023141490340_KangZuCheng/N-Queens.py:44-47 | the left-right flip takes cell (a, b) from cell (a, n-1-b) |
| KangZuChengQueens.Vertical | 01_2023141490340_KangZuCheng/N-Queens.py:49-51 | the top-bottom flip takes row a from row n-1-a |
| KangZuChengQueens.Diagonal | 01_2023141490340_KangZuCheng/N-Queens.py:53-57 | the main-diagonal reflection takes cell (a, b) from cell (b, a) |
| KangZuChengQueens.AntiDiagonal | 01_2023141490340_KangZuCheng/N-Queens.py:59-64 | the anti-diagonal reflection takes cell (a, b) from cell (n-1-b, n-1-a) |
| KangZuChengQueens.Rotate90 | 01_2023141490340_KangZuCheng/N-Queens.py:66-71 | the quarter turn moves cell (i, j) to (j, n-1-i) |
| KangZuChengQueens.Rotate180 | 01_2023141490340_KangZuCheng/N-Queens.py:73-78 | the half turn moves cell (i, j) to (n-1-i, n-1-j) |
| KangZuChengQueens.Rotate270 | 01_2023141490340_KangZuCheng/N-Queens.py:80-85 | the three-quarter turn moves cell (i, j) to (n-1-j, i) |
| KangZuChengQueens.Image | 01_2023141490340_KangZuCheng/N-Queens.py:40-87 | every symmetry name, and an unknown one, gives an n x n grid |
| KangZuChengQueens.Syms | 01_2023141490340_KangZuCheng/N-Queens.py:96-105 | the list `is_unique` builds has eight n x n grids: the solution, then its seven images in order |
| KangZuChengQueens.HorizontalTwice | 01_2023141490340_KangZuCheng/N-Queens.py:44-47 | flipping left-right twice gives the grid back |
| KangZuChengQueens.VerticalTwice | 01_2023141490340_KangZuCheng/N-Queens.py:49-51 | flipping top-bottom twice gives the grid back |
| KangZuChengQueens.Rotate270Undoes90 | 01_2023141490340_KangZuCheng/N-Queens.py:66-85 | `rotate_270` undoes `rotate_90` |
| KangZuChengQueens.Rotate180IsFlips | 01_2023141490340_KangZuCheng/N-Queens.py:44-51 | `rotate_180` equals a top-bottom flip followed by a left-right flip |
| KangZuChengQueens.HorizontalBoard | 01_2023141490340_KangZuCheng/N-Queens.py:44-47 | on a placement's grid the left-right flip is the column mirror c to n-1-c |
| KangZuChengQueens.DiagonalTwice | 01_2023141490340_KangZuCheng/N-Queens.py:53-57 | reflecting in the main diagonal twice gives the grid back |
| KangZuChengQueens.AntiDiagonalTwice | 01_2023141490340_KangZuCheng/N-Queens.py:59-64 | reflecting in the anti-diagonal twice gives the grid back |
| KangZuChengQueens.Rotate180Twice | 01_2023141490340_KangZuCheng/N-Queens.py:73-78 | two half turns give the grid back |
| KangZuChengQueens.Rotate90Undoes270 | 01_2023141490340_KangZuCheng/N-Queens.py:66-85 | `rotate_90` undoes `rotate_270` |
| KangZuChengQueens.FlipAfterVertical | 01_2023141490340_KangZuCheng/N-Queens.py:44-51 | a half turn after the top-bottom flip is the left-right flip |
| KangZuChengQueens.FlipAfterDiagonal | 01_2023141490340_KangZuCheng/N-Queens.py:44-71 | a quarter turn after the main-diagonal reflection is the left-right flip |
| KangZuChengQueens.FlipAfterAntiDiagonal | 01_2023141490340_KangZuCheng/N-Queens.py:44-85 | a three-quarter turn after the anti-diagonal reflection is the left-right flip |
| KangZuChengQueens.FlipAfterRotate90 | 01_2023141490340_KangZuCheng/N-Queens.py:44-71 | the anti-diagonal reflection after a quarter turn is the left-right flip |
| KangZuChengQueens.FlipAfterRotate180 | 01_2023141490340_KangZuCheng/N-Queens.py:44-78 | the top-bottom flip after a half turn is the left-right flip |
| KangZuChengQueens.FlipAfterRotate270 | 01_2023141490340_KangZuCheng/N-Queens.py:44-85 | the main-diagonal reflection after a three-quarter turn is the left-right flip |
| KangZuChengQueens.DiagonalByFlips | 01_2023141490340_KangZuCheng/N-Queens.py:44-64 | the main-diagonal reflection is the anti-diagonal reflection, then the top-bottom flip, then the left-right flip |
| KangZuChengQueens.Rotate90ByFlips | 01_2023141490340_KangZuCheng/N-Queens.py:44-71 | the quarter turn is the main-diagonal reflection followed by the left-right flip |
| KangZuChengQueens.Rotate270ByFlips | 01_2023141490340_KangZuCheng/N-Queens.py:49-85 | the three-quarter turn is the main-diagonal reflection followed by the top-bottom flip |
| KangZuChengQueens.SymsAre | 01_2023141490340_KangZuCheng/N-Queens.py:96-105 | the eight grids `is_unique` lists are the grid, then the seven named transforms in order |
| KangZuChengQueens.SymsUndo | 01_2023141490340_KangZuCheng/N-Queens.py:96-105 | from each of the eight images, one of the eight transforms gives the grid back and another gives its left-right flip |
| KangZuChengQueens.VerticalBoard | 01_2023141490340_KangZuCheng/N-Queens.py:49-51 | on a placement's grid the top-bottom flip is the grid of the reversed placement |
| KangZuChengQueens.AntiDiagonalBoard | 01_2023141490340_KangZuCheng/N-Queens.py:59-64 | on a solution's grid the anti-diagonal reflection is the grid of the solution's anti-diagonal reflection |
| KangZuChengQueens.HorizontalSolution | 01_2023141490340_KangZuCheng/N-Queens.py:44-47 | the left-right flip of a solution grid is a solution grid |
| KangZuChengQueens.VerticalSolution | 01_2023141490340_KangZuCheng/N-Queens.py:49-51 | the top-bottom flip of a solution grid is a solution grid |
| KangZuChengQueens.AntiDiagonalSolution | 01_2023141490340_KangZuCheng/N-Queens.py:59-64 | the anti-diagonal reflection of a solution grid is a solution grid |
| KangZuChengQueens.DiagonalSolution | 01_2023141490340_KangZuCheng/N-Queens.py:53-57 | the main-diagonal reflection of a solution grid is a solution grid |
| KangZuChengQueens.QuarterTurnSolution | 01_2023141490340_KangZuCheng/N-Queens.py:66-71 | both quarter turns of a solution grid are solution grids |
| KangZuChengQueens.HalfTurnSolution | 01_2023141490340_KangZuCheng/N-Queens.py:73-78 | the half turn of a solution grid is a solution grid |
| KangZuChengQueens.SymsSolution | 01_2023141490340_KangZuCheng/N-Queens.py:96-105 | all eight images of a solution grid are solution grids |
| KangZuChengQueens.ApplySymmetry | 01_2023141490340_KangZuCheng/N-Queens.py:40-87 | `apply_symmetry` returns the named image and leaves its input alone |
| KangZuChengQueens.FlipRows | 01_2023141490340_KangZuCheng/N-Queens.py:44-47 | the "horizontal" branch yields the left-right flip |
| KangZuChengQueens.SwapDiagonal | 01_2023141490340_KangZuCheng/N-Queens.py:53-57 | the in-place swaps of the "diagonal" branch yield the main-diagonal reflection |
| KangZuChengQueens.SwapAntiDiagonal | 01_2023141490340_KangZuCheng/N-Queens.py:59-64 | the in-place swaps of the "anti_diagonal" branch yield the anti-diagonal reflection |
| KangZuChengQueens.Turn90 | 01_2023141490340_KangZuCheng/N-Queens.py:66-71 | the "rotate_90" branch fills a fresh grid with the quarter turn |
| KangZuChengQueens.Turn180 | 01_2023141490340_KangZuCheng/N-Queens.py:73-78 | the "rotate_180" branch fills a fresh grid with the half turn |
| KangZuChengQueens.Turn270 | 01_2023141490340_KangZuCheng/N-Queens.py:80-85 | the "rotate_270" branch fills a fresh grid with the three-quarter turn |
| KangZuChengQueens.Symmetries | 01_2023141490340_KangZuCheng/N-Queens.py:96-105 | the seven images are built in the listed order |
| KangZuChengQueens.IsUnique | 01_2023141490340_KangZuCheng/N-Queens.py:90-113 | True exactly when no image of the grid equals a kept grid; in particular True for an empty list, and False when any image is kept |
| KangZuChengQueens.AnyKept | 01_2023141490340_KangZuCheng/N-Queens.py:108-111 | the nested loops answer True exactly when some image is among the kept grids |
| KangZuChengQueens.EndCol | 01_2023141490340_KangZuCheng/N-Queens.py:135 | the columns a row tries never go past n |
| KangZuChengQueens.KeepAll | 01_2023141490340_KangZuCheng/N-Queens.py:128-131 | the find-all fold only appends to the kept list, at most one grid per placement met, and keeps every grid n x n |
| KangZuChengQueens.KeepAllConcat | 01_2023141490340_KangZuCheng/N-Queens.py:136-145 | keeping over two consecutive searches is keeping over the first, then over the second |
| KangZuChengQueens.SearchOneConcat | 01_2023141490340_KangZuCheng/N-Queens.py:136-145 | a find-one search over two consecutive parts stops in the first part when it can, and otherwise in the second |
| KangZuChengQueens.SearchOneMiss | 01_2023141490340_KangZuCheng/N-Queens.py:128-131 | a find-one search that meets no unique grid keeps nothing |
| KangZuChengQueens.SearchOneFirst | 01_2023141490340_KangZuCheng/N-Queens.py:153-162 | with nothing kept yet, find-one mode keeps the grid of the first placement met, so at most one grid |
| KangZuChengQueens.IsSafe | 01_2023141490340_KangZuCheng/N-Queens.py:20-37 | `is_safe` answers False exactly when a 1 is in column col above the row, on either upward diagonal, or on the square itself |
| KangZuChengQueens.CopyBoard | 01_2023141490340_KangZuCheng/N-Queens.py:120-125 | the leaf's copy holds the grid's cells |
| KangZuChengQueens.Backtrack | 01_2023141490340_KangZuCheng/N-Queens.py:116-145 | finding all keeps every unique grid met, returns False and restores the grid; finding one returns True exactly when a unique grid was met and then keeps only that grid |
| KangZuChengQueens.Column | 01_2023141490340_KangZuCheng/N-Queens.py:136-143 | one pass of the column loop searches through that column when it is safe, and clears the square unless a find-one search succeeded |
| KangZuChengQueens.KeepAllFrom | 01_2023141490340_KangZuCheng/N-Queens.py:128-131 | every grid kept is the grid of a placement the search met |
| KangZuChengQueens.Expand | 01_2023141490340_KangZuCheng/N-Queens.py:165-194 | the expansion holds no grid twice, and its grids are exactly the kept grids and their seven images |
| KangZuChengQueens.ImagesSnoc | 01_2023141490340_KangZuCheng/N-Queens.py:172-194 | each further kept grid adds exactly its eight images to the set seen |
| KangZuChengQueens.KeepAllCovers | 01_2023141490340_KangZuCheng/N-Queens.py:126-131 | every placement the find-all search meets has one of its eight images among the kept grids |
| KangZuChengQueens.ImagesAreSolutions | 01_2023141490340_KangZuCheng/N-Queens.py:162-194 | the eight images of the grids kept from the first-row half are exactly the grids of all solutions |
| KangZuChengQueens.SolutionGridsCount | 01_2023141490340_KangZuCheng/N-Queens.py:162-194 | a list of all solution grids without repeats has one entry per solution |
| KangZuChengQueens.SolveNQueens | 01_2023141490340_KangZuCheng/N-Queens.py:148-196 | nothing below 4; find-one gives at most the grid of the first solution in the first-row half; find-all gives each image of a kept grid exactly once, and these are exactly the grids of all solutions, as many as there are solutions |
| ZhaoweiyiQueens.NQueensSolver.constructor | 01_2023141461101_Zhaoweiyi/N_queens.py:8-12 | a new solver has n = 0, no solutions and a zero count |
| ZhaoweiyiQueens.NQueensSolver.IsSafe | 01_2023141461101_Zhaoweiyi/N_queens.py:14-37 | `is_safe` answers False exactly when a 1 is in column col above the row, on either upward diagonal, or on the square itself |
| ZhaoweiyiQueens.NQueensSolver.SolveUtil | 01_2023141461101_Zhaoweiyi/N_queens.py:39-54 | from a grid showing p, appends a snapshot of the grid of every completion of p in search order, counts each, and leaves the grid showing p |
| ZhaoweiyiQueens.NQueensSolver.Column | 01_2023141461101_Zhaoweiyi/N_queens.py:50-54 | one pass of the column loop stores and counts the completions through that column when it is safe, then resets the square |
| ZhaoweiyiQueens.NQueensSolver.SolveNQueens | 01_2023141461101_Zhaoweiyi/N_queens.py:56-69 | stores the grid of every solution in search order, whatever `find_all` says, and `total_solutions` equals their number |
| ZhaoweiyiQueens.SnapshotsOneQueenPerRow | 01_2023141461101_Zhaoweiyi/N_queens.py:41-46 | every stored snapshot has exactly one 1 per row |
| RootQueens.IsSafe | n_queens.py:2-18 | `is_safe` answers False exactly when a 1 is in column col above the row, on either upward diagonal, or on the square itself |
| RootQueens.SolveUtil | n_queens.py:20-36 | from a grid showing p, appends the grid of every completion of p and restores the grid; the result is True exactly when single-solution mode is on and p has a completion, and the search never stops early |
| RootQueens.Column | n_queens.py:29-34 | one pass of the column loop searches through a safe column and clears the square again |
| RootQueens.SolveNQueens | n_queens.py:38-48 | below 4, no solutions and 0; otherwise the grids of all solutions and their number, in either mode |
| FanshengjieQueens.NQueensSolver.constructor | 01-2023141470277-fanshengjie/n_queens.py:11-15 | a new solver has n = 0, an empty board and no solutions |
| FanshengjieQueens.NQueensSolver.IsValid | 01-2023141470277-fanshengjie/n_queens.py:17-34 | on a list of in-range columns, `is_valid` answers True exactly when no earlier row attacks (row, col) |
| FanshengjieQueens.NQueensSolver.Backtrack | 01-2023141470277-fanshengjie/n_queens.py:36-49 | from a list showing p, appends a copy of every completion of p in search order and leaves the list as it found it |
| FanshengjieQueens.NQueensSolver.Trial | 01-2023141470277-fanshengjie/n_queens.py:44-49 | one pass of the column loop appends the completions through a safe column and sets the entry back to -1 |
| FanshengjieQueens.NQueensSolver.Solve | 01-2023141470277-fanshengjie/n_queens.py:51-61 | resets the list to n entries -1 and stores every solution in search order, whatever `find_all` says |
| FanshengjieQueens1.NQueensSolver.constructor | 01-2023141470277-fanshengjie/n_queens1.py:12-17 | a new solver has n = 0, an empty board and no solutions |
| FanshengjieQueens1.NQueensSolver.IsValid | 01-2023141470277-fanshengjie/n_queens1.py:19-39 | on a list of in-range columns, `is_valid` answers True exactly when no earlier row attacks (row, col) |
| FanshengjieQueens1.NQueensSolver.Backtrack | 01-2023141470277-fanshengjie/n_queens1.py:41-57 | from a list showing p, appends a copy of every completion of p in search order and leaves the list as it found it |
| FanshengjieQueens1.NQueensSolver.Trial | 01-2023141470277-fanshengjie/n_queens1.py:52-57 | one pass of the column loop appends the completions through a safe column and sets the entry back to -1 |
| FanshengjieQueens1.NQueensSolver.Solve | 01-2023141470277-fanshengjie/n_queens1.py:59-73 | resets the list and stores every solution in search order, whatever `find_all` says |
| FanshengjieQueens1.NQueensSolver.BacktrackOptimized | 01-2023141470277-fanshengjie/n_queens1.py:75-99 | the first row tries columns below n // 2 for even n and up to n // 2 for odd n, later rows every column; it appends what that half search finds and restores the list |
| FanshengjieQueens1.NQueensSolver.OptimizedTrial | 01-2023141470277-fanshengjie/n_queens1.py:88-99 | one pass of either column loop appends the completions through a safe column |
| FanshengjieQueens1.NQueensSolver.SolveOptimized | 01-2023141470277-fanshengjie/n_queens1.py:101-131 | stores the half-search solutions, then the mirrors of all of them for even n, or of those not starting in the centre column for odd n |
| FanshengjieQueens1.NQueensSolver.AppendMirrors | 01-2023141470277-fanshengjie/n_queens1.py:117-119 | the mirroring loop appends `[n - 1 - c for c in s]` for each listed solution, in order |
| FanshengjieQueens1.MirrorAllSnoc | 01-2023141470277-fanshengjie/n_queens1.py:126-128 | each pass of the mirroring loop appends the mirror of the next solution |
| FanshengjieQueens1.OptimizedExactly | 01-2023141470277-fanshengjie/n_queens1.py:101-131 | for n > 0 the optimised solver returns every solution exactly once, as many as the plain solver |
| FanshengjieQueens1.OptimizedEven | 01-2023141470277-fanshengjie/n_queens1.py:115-119 | for even n the final list is exactly twice the half search |
| FanshengjieQueens1.OptimizedOddMirrorsNew | 01-2023141470277-fanshengjie/n_queens1.py:120-128 | for odd n no appended mirror equals a half-search solution |
| FanshengjieQueens1.OptimizedEmptyBoard | 01-2023141470277-fanshengjie/n_queens1.py:115-119 | for n = 0 the even branch stores the empty placement twice |
| FanshengjieQueens2.Conflicts | 01-2023141470277-fanshengjie/n_queens2.py:24-30 | the conflict count of a cell never exceeds the number of rows scanned |
| FanshengjieQueens2.ConflictsZero | 01-2023141470277-fanshengjie/n_queens2.py:24-30 | the count is 0 exactly when none of the scanned rows attacks the cell |
| FanshengjieQueens2.ConflictsSafe | 01-2023141470277-fanshengjie/n_queens2.py:17-30 | `get_conflict_count` is 0 exactly when `is_valid` holds |
| FanshengjieQueens2.Insert | 01-2023141470277-fanshengjie/n_queens2.py:50 | inserting into the sorted list keeps the same entries plus the new one |
| FanshengjieQueens2.InsertSorted | 01-2023141470277-fanshengjie/n_queens2.py:50 | inserting keeps the list sorted by score |
| FanshengjieQueens2.SortByScore | 01-2023141470277-fanshengjie/n_queens2.py:50 | `sorted(..., key=score)` is a permutation of its input, sorted by score |
| FanshengjieQueens2.ZerosOne | 01-2023141470277-fanshengjie/n_queens2.py:50 | a single entry is kept by the score-0 filter exactly when its score is 0 |
| FanshengjieQueens2.ZerosInsert | 01-2023141470277-fanshengjie/n_queens2.py:50 | insertion places a score-0 entry after every score-0 entry already there |
| FanshengjieQueens2.ZerosSort | 01-2023141470277-fanshengjie/n_queens2.py:50 | the stable sort keeps the score-0 columns in their original ascending order |
| FanshengjieQueens2.Scores | 01-2023141470277-fanshengjie/n_queens2.py:49 | `cols_with_conflict` pairs each column 0..n-1 with its conflict count |
| FanshengjieQueens2.TriedZeros | 01-2023141470277-fanshengjie/n_queens2.py:51-55 | columns with a positive score are unsafe and report nothing |
| FanshengjieQueens2.TriedScores | 01-2023141470277-fanshengjie/n_queens2.py:37-41 | trying the columns in ascending order is the plain column search |
| FanshengjieQueens2.HeuristicOrder | 01-2023141470277-fanshengjie/n_queens2.py:43-55 | trying the sorted columns finds the same completions, in the same order, as the plain column loop |
| FanshengjieQueens2.NQueensSolver.constructor | 01-2023141470277-fanshengjie/n_queens2.py:11-15 | a new solver has n = 0, an empty board and no solutions |
| FanshengjieQueens2.NQueensSolver.IsValid | 01-2023141470277-fanshengjie/n_queens2.py:17-22 | `is_valid` answers True exactly when no earlier row shares the column or a diagonal |
| FanshengjieQueens2.NQueensSolver.GetConflictCount | 01-2023141470277-fanshengjie/n_queens2.py:24-30 | returns the number of attacking earlier rows, which is 0 exactly when the column is valid |
| FanshengjieQueens2.NQueensSolver.Backtrack | 01-2023141470277-fanshengjie/n_queens2.py:32-41 | appends every completion of p in search order and restores the list |
| FanshengjieQueens2.NQueensSolver.Trial | 01-2023141470277-fanshengjie/n_queens2.py:37-41 | one pass of the column loop appends the completions through a safe column |
| FanshengjieQueens2.NQueensSolver.BacktrackWithHeuristic | 01-2023141470277-fanshengjie/n_queens2.py:43-55 | reports the same completions, in the same order, as `backtrack`, and restores the list |
| FanshengjieQueens2.NQueensSolver.ScoreColumns | 01-2023141470277-fanshengjie/n_queens2.py:49 | builds the list of each column with its conflict count |
| FanshengjieQueens2.NQueensSolver.TrySorted | 01-2023141470277-fanshengjie/n_queens2.py:51-55 | the loop over `sorted_cols` appends the completions through each safe column in list order |
| FanshengjieQueens2.NQueensSolver.HeuristicTrial | 01-2023141470277-fanshengjie/n_queens2.py:52-55 | one pass over a sorted column searches through it when it is valid and resets the entry |
| FanshengjieQueens2.NQueensSolver.SolveOriginal | 01-2023141470277-fanshengjie/n_queens2.py:57-64 | resets the state and stores every solution in search order |
| FanshengjieQueens2.NQueensSolver.SolveHeuristic | 01-2023141470277-fanshengjie/n_queens2.py:66-73 | resets the state and stores the same list as `solve_original` |
| TanZheYaoQueens.IsSafe | 01_2023141461153_TanZheYao/01_2023141461153_TanZheYao_n_queens.py:5-20 | `is_safe` answers True exactly when no earlier row shares the column or a diagonal |
| TanZheYaoQueens.MaxCol | 01_2023141461153_TanZheYao/01_2023141461153_TanZheYao_n_queens.py:42-45 | the number of columns a row tries never exceeds n |
| TanZheYaoQueens.SearchedDeeper | 01_2023141461153_TanZheYao/01_2023141461153_TanZheYao_n_queens.py:46-51 | below the first row every column is tried, as in the plain search |
| TanZheYaoQueens.FirstBelow | 01_2023141461153_TanZheYao/01_2023141461153_TanZheYao_n_queens.py:46-50 | the first placement met is the first completion through the first column that has any |
| TanZheYaoQueens.Backtrack | 01_2023141461153_TanZheYao/01_2023141461153_TanZheYao_n_queens.py:37-52 | finding all appends every placement met, returns False and restores the list; finding one returns True exactly when a placement is met, appends only the first and leaves the list showing it |
| TanZheYaoQueens.Trial | 01_2023141461153_TanZheYao/01_2023141461153_TanZheYao_n_queens.py:46-51 | one pass of the column loop either stops the find-one search at its first solution or appends the completions through that column and resets the entry |
| TanZheYaoQueens.SolveNQueens | 01_2023141461153_TanZheYao/01_2023141461153_TanZheYao_n_queens.py:22-67 | the count is the list length; find-one gives the first solution met; find-all gives every solution, or with `use_symmetry` the left-half solutions plus, for odd n only, the mirrors of the off-centre ones |
| TanZheYaoQueens.MirrorsOffCentre | 01_2023141461153_TanZheYao/01_2023141461153_TanZheYao_n_queens.py:60-64 | the mirror loop collects the mirror of each solution whose first queen is off the centre column, in order |
| TanZheYaoQueens.MirrorStep | 01_2023141461153_TanZheYao/01_2023141461153_TanZheYao_n_queens.py:61-64 | each pass of the mirror loop appends one mirror or nothing |
| TanZheYaoQueens.WithMirrorsOdd | 01_2023141461153_TanZheYao/01_2023141461153_TanZheYao_n_queens.py:57-65 | for odd n the symmetric search returns every solution exactly once |
| TanZheYaoQueens.WithMirrorsEven | 01_2023141461153_TanZheYao/01_2023141461153_TanZheYao_n_queens.py:57-65 | for even n no mirrors are added: the list holds only the solutions starting in the left half, each once |
| TanZheYaoQueens.MirrorMissingFour | 01_2023141461153_TanZheYao/01_2023141461153_TanZheYao_n_queens.py:59 | for n = 4 the solution [2, 0, 3, 1] is missing from the symmetric result |
| TanZheYaoQueens.WithMirrorsIntendedComplete | 01_2023141461153_TanZheYao/01_2023141461153_TanZheYao_n_queens.py:57-65 | adding the mirrors for every board larger than 1 returns every solution exactly once |
| LizongzeQueens.Search.constructor | 01_2023141461156_lizongze/NQ.py:14-18 | the search starts with no solutions, empty sets and a list of n entries -1 |
| LizongzeQueens.Search.Backtrack | 01_2023141461156_lizongze/NQ.py:20-43 | from p, appends every completion of p (find all) or only the first (find one) and gives the sets back unchanged, even after an early stop; it answers True at a complete placement and, finding one, exactly when p has a completion |
| LizongzeQueens.Search.Column | 01_2023141461156_lizongze/NQ.py:25-42 | a column whose key is taken is skipped; otherwise the queen is placed, searched on and its keys removed before the stop check |
| LizongzeQueens.Search.Place | 01_2023141461156_lizongze/NQ.py:29-32 | adding the three keys and setting the list entry makes the sets and list show p + [c] |
| LizongzeQueens.Search.Remove | 01_2023141461156_lizongze/NQ.py:37-39 | removing the three keys makes the sets show p again |
| LizongzeQueens.SolveNQueens | 01_2023141461156_lizongze/NQ.py:5-46 | every solution in search order, or in find-one mode the first solution only (none when there is none) |
| LizongzeQueens.Dots | 01_2023141461156_lizongze/NQ.py:54 | `"." * k` has k dots, and none for k <= 0 |
| LizongzeQueens.FormatSolution | 01_2023141461156_lizongze/NQ.py:49-54 | one string per row |
| LizongzeQueens.FormatRows | 01_2023141461156_lizongze/NQ.py:49-54 | on in-range columns, row r is n characters long with its only 'Q' at index sol[r] |
| LizongzeQueens2.SolveNQueensBacktracking | 01_2023141461156_lizongze/NQ2.py:6-42 | every solution in search order, or in find-one mode the first solution only |
| LizongzeQueens2.FullRows | 01_2023141461156_lizongze/NQ2.py:53-54 | a conflict-free placement uses every column exactly when it has n rows |
| LizongzeQueens2.ColsFull | 01_2023141461156_lizongze/NQ2.py:53-54 | the leaf test `cols == all_ones` holds exactly when every row is placed |
| LizongzeQueens2.Count | 01_2023141461156_lizongze/NQ2.py:52-66 | the nested counter returns the number of completions of p, after one loop pass per free column |
| LizongzeQueens2.CountColumn | 01_2023141461156_lizongze/NQ2.py:58-65 | one pass takes the lowest free bit, subtracts it, and adds the completions through that column |
| LizongzeQueens2.FirstQueenMasks | 01_2023141461156_lizongze/NQ2.py:72-73 | `(bit, bit << 1, bit >> 1)` are the masks of the first queen alone in column i |
| LizongzeQueens2.TotalNQueensBit | 01_2023141461156_lizongze/NQ2.py:44-80 | returns twice the left-half count plus, for odd n, the centre count, which is the number of solutions for every n, and 0 for n = 0 |
| LizongzeQueens2.BitCountMatches | 01_2023141461156_lizongze/NQ2.py:68-80 | the symmetric count equals the number of solutions the backtracking solver returns |
| GuozhengQueens.Picture | 01_2023141461076_guozheng/n_queens.py:49-55 | `add_solution` stores one string per row |
| GuozhengQueens.Pictures | 01_2023141461076_guozheng/n_queens.py:49-55 | the stored solutions are the pictures of the placements, in order |
| GuozhengQueens.PicturesConcat | 01_2023141461076_guozheng/n_queens.py:55 | the pictures of two consecutive batches are the two lists of pictures joined |
| GuozhengQueens.PictureRows | 01_2023141461076_guozheng/n_queens.py:49-55 | a stored solution has n rows of 3n characters, whose only 'Q' is at index 3 * s[i] |
| GuozhengQueens.Search.constructor | 01_2023141461076_guozheng/n_queens.py:75-79 | no solutions, no flags raised, and every entry of `queens` -1 |
| GuozhengQueens.Search.NotUnderAttackSafe | 01_2023141461076_guozheng/n_queens.py:31-32 | on flags recording p, `is_not_under_attack` is exactly the no-attack condition |
| GuozhengQueens.Search.PlaceQueen | 01_2023141461076_guozheng/n_queens.py:35-39 | `place_queen` records the column and raises the three flags, and nothing else |
| GuozhengQueens.Search.RemoveQueen | 01_2023141461076_guozheng/n_queens.py:42-46 | `remove_queen` resets the entry to -1 and lowers the three flags, and nothing else |
| GuozhengQueens.Search.AddSolution | 01_2023141461076_guozheng/n_queens.py:49-55 | appends the picture of the current placement |
| GuozhengQueens.Search.Backtrack | 01_2023141461076_guozheng/n_queens.py:58-73 | with `output_all`, stores every completion of p, returns False and restores the flags; without it, stores the first completion, returns True exactly when one exists, and leaves that solution's flags raised |
| GuozhengQueens.Search.Column | 01_2023141461076_guozheng/n_queens.py:59-72 | one pass of the column loop stores the completions through a safe column, or stops at the first one when not everything is asked for |
| GuozhengQueens.SolveNQueens | 01_2023141461076_guozheng/n_queens.py:20-86 | every solution's picture in search order, or the first one only; none for n = 0; the count is the list length |
| GuYunfeiQueens.Formatted | 01_2023141461129_GuYunfei/n_queens.py:43-48 | one formatted solution has one string per row |
| GuYunfeiQueens.FormattedAll | 01_2023141461129_GuYunfei/n_queens.py:42-48 | the formatted list holds the formatting of each stored solution, in order |
| GuYunfeiQueens.FormatSolutions | 01_2023141461129_GuYunfei/n_queens.py:39-49 | `format_solutions` formats every stored column list in order |
| GuYunfeiQueens.FormattedRows | 01_2023141461129_GuYunfei/n_queens.py:43-48 | a formatted solution has n rows of 2n + 1 characters, whose only 'Q' is at index 2 * s[i] |
| GuYunfeiQueens.Formattable | 01_2023141461129_GuYunfei/n_queens.py:46 | every reported solution has n in-range entries, so `row[sol_indices[i]]` never fails |
| GuYunfeiQueens.StandardSearch.constructor | 01_2023141461129_GuYunfei/n_queens.py:58-62 | no solutions, no flags raised, and every entry of `queens` -1 |
| GuYunfeiQueens.StandardSearch.NotUnderAttackSafe | 01_2023141461129_GuYunfei/n_queens.py:64-65 | on flags recording p, `is_not_under_attack` is exactly the no-attack condition |
| GuYunfeiQueens.StandardSearch.PlaceQueen | 01_2023141461129_GuYunfei/n_queens.py:67-71 | `place_queen` sets `queens[row]` and raises the three flags; the state then records p + [col] |
| GuYunfeiQueens.StandardSearch.RemoveQueen | 01_2023141461129_GuYunfei/n_queens.py:73-78 | `remove_queen` resets `queens[row]` to -1 and lowers exactly those flags; the state records p again |
| GuYunfeiQueens.StandardSearch.Backtrack | 01_2023141461129_GuYunfei/n_queens.py:80-93 | with `output_all`, stores a copy of every completion of p, returns False and restores the state; without it, stores the first completion and returns True exactly when one exists |
| GuYunfeiQueens.StandardSearch.Column | 01_2023141461129_GuYunfei/n_queens.py:82-92 | one pass of the column loop stores the completions through a safe column, or stops at the first one when not everything is asked for |
| GuYunfeiQueens.SolveStandard | 01_2023141461129_GuYunfei/n_queens.py:53-101 | every solution formatted in search order, or the first one only; none for n = 0; the count is the list length |
| GuYunfeiQueens.SpotsBit | 01_2023141461129_GuYunfei/n_queens.py:122 | bit c of `available_spots` is set exactly when c < n and column c is safe, so it stays within `all_ones` |
| GuYunfeiQueens.LowestSpot | 01_2023141461129_GuYunfei/n_queens.py:126-130 | `pos` is the single bit of the lowest free column, `pos.bit_length() - 1` is that column, and the remaining spots are the safe columns above it |
| GuYunfeiQueens.BitwiseSearch.constructor | 01_2023141461129_GuYunfei/n_queens.py:109-113 | no solutions, `queens` all -1, and `all_ones` the n lowest bits |
| GuYunfeiQueens.BitwiseSearch.Backtrack | 01_2023141461129_GuYunfei/n_queens.py:115-135 | with `output_all`, stores every completion of p in search order and returns False; without it, stores the first completion only and returns True exactly when one exists |
| GuYunfeiQueens.BitwiseSearch.Spot | 01_2023141461129_GuYunfei/n_queens.py:125-133 | one pass of the `while available_spots` loop skips only unsafe columns and searches through the lowest free one, with hills shifted right and dales shifted left |
| GuYunfeiQueens.BitwiseSearch.Place | 01_2023141461129_GuYunfei/n_queens.py:131-133 | placing the queen in a safe column and searching on reports the completions of p + [col] |
| GuYunfeiQueens.SolveBitwise | 01_2023141461129_GuYunfei/n_queens.py:105-142 | every solution formatted in search order, or the first one only, with the count the list length; for n >= 1 this is what the standard solver returns, while for n = 0 the bitwise search stores one empty solution at once (line 117) |
| YouZhixuanQueens.ChessBoard.constructor | 01_2022151470059_YouZhixuan/n_queens.py:3-9 | an all-'.' grid and zero masks |
| YouZhixuanQueens.ChessBoard.PlaceQueen | 01_2022151470059_YouZhixuan/n_queens.py:11-16 | `place_queen` writes 'Q' and sets bits col, row - col + size - 1 and row + col, and nothing else |
| YouZhixuanQueens.ChessBoard.RemoveQueen | 01_2022151470059_YouZhixuan/n_queens.py:18-23 | `remove_queen` writes '.' and clears those three bits, and nothing else |
| YouZhixuanQueens.ChessBoard.SafeIff | 01_2022151470059_YouZhixuan/n_queens.py:25-31 | on a board showing p, `is_safe` is exactly the no-attack condition |
| YouZhixuanQueens.ChessBoard.PlaceShows | 01_2022151470059_YouZhixuan/n_queens.py:11-16 | placing the next row's queen on a safe square makes the board show p + [col] |
| YouZhixuanQueens.MasksPlace | 01_2022151470059_YouZhixuan/n_queens.py:14-16 | setting the three bits of the square marks p + [col] |
| YouZhixuanQueens.PlaceRemove | 01_2022151470059_YouZhixuan/n_queens.py:11-23 | `remove_queen` right after `place_queen` on a free square gives back the grid and all three masks exactly |
| YouZhixuanQueens.Backtrack | 01_2022151470059_YouZhixuan/n_queens.py:48-64 | appends the grid of every completion of p, or of the first only; returns True exactly when a find-one search has found it; otherwise the board and masks are restored |
| YouZhixuanQueens.Column | 01_2022151470059_YouZhixuan/n_queens.py:58-63 | one pass of the column loop searches through a safe column and removes the queen unless the search stopped |
| YouZhixuanQueens.ChessBoard.GetSolution | 01_2022151470059_YouZhixuan/n_queens.py:33-35 | on a board showing placement p, the rows joined into strings are the rows of p's character grid ('Q' at each queen, '.' elsewhere) |
| YouZhixuanQueens.ValidateInput | 01_2022151470059_YouZhixuan/n_queens.py:69-79 | refuses exactly the sizes below 4 with a `ValueError` |
| YouZhixuanQueens.SolveNQueens | 01_2022151470059_YouZhixuan/n_queens.py:37-79 | sizes below 4 raise ValueError; otherwise the grids of every solution in search order, or of the first one only |
| DglwQueens.RowText | 01_2023141461051_dglw/n_queens.py:37-44 | a rendered row has n characters |
| DglwQueens.Picture | 01_2023141461051_dglw/n_queens.py:36-45 | a rendering has one row per queen |
| DglwQueens.Pictures | 01_2023141461051_dglw/n_queens.py:45 | the stored renderings are those of the placements, in order |
| DglwQueens.PicturesConcat | 01_2023141461051_dglw/n_queens.py:45 | renderings of two consecutive batches are the two lists joined |
| DglwQueens.PictureRows | 01_2023141461051_dglw/n_queens.py:36-45 | the rendering of a solution is n rows of n characters, with 'Q' exactly at the queen's column and '_' elsewhere |
| DglwQueens.PictureInjective | 01_2023141461051_dglw/n_queens.py:36-45 | different solutions have different renderings |
| DglwQueens.Repeat | 01_2023141461051_dglw/n_queens.py:104 | `'_' * k` has k characters, none for k < 0 |
| DglwQueens.RowPieces | 01_2023141461051_dglw/n_queens.py:104 | `'_' * col + 'Q' + '_' * (n - col - 1)` is the row with the queen in column col |
| DglwQueens.RepeatAll | 01_2023141461051_dglw/n_queens.py:104 | every character of `'_' * k` is '_' |
| DglwQueens.ReversedRows | 01_2023141461051_dglw/n_queens.py:146 | `[row[::-1] for row in sol]` reverses each row |
| DglwQueens.ReversedAll | 01_2023141461051_dglw/n_queens.py:140-147 | the mirroring loop's copies are the row-reversed renderings, in order |
| DglwQueens.ReversedPicture | 01_2023141461051_dglw/n_queens.py:146 | reversing every row of a rendering renders the column mirror |
| DglwQueens.ReversedPictures | 01_2023141461051_dglw/n_queens.py:140-147 | reversing every rendering of a list renders the mirrored list |
| DglwQueens.IsValid | 01_2023141461051_dglw/n_queens.py:9-29 | `is_valid` answers True exactly when no 1 is in column col above the row or on either upward diagonal |
| DglwQueens.Render | 01_2023141461051_dglw/n_queens.py:36-44 | the rendering loop turns a grid showing s into the rendering of s |
| DglwQueens.SolveUtil | 01_2023141461051_dglw/n_queens.py:33-51 | from a grid showing p, appends the rendering of every completion of p and restores the grid |
| DglwQueens.Column | 01_2023141461051_dglw/n_queens.py:47-51 | one pass of the column loop renders the completions through a safe column and clears the square |
| DglwQueens.SolveNQueens | 01_2023141461051_dglw/n_queens.py:54-59 | the renderings of all solutions, in search order |
| DglwQueens.Limit | 01_2023141461051_dglw/n_queens.py:112-115 | a row never tries more than n columns |
| DglwQueens.PrunedDeep | 01_2023141461051_dglw/n_queens.py:109-132 | below the first row the search is not pruned |
| DglwQueens.RenderColumns | 01_2023141461051_dglw/n_queens.py:102-104 | rendering the one-dimensional board gives the rendering of the placement |
| DglwQueens.Backtrack | 01_2023141461051_dglw/n_queens.py:95-132 | with masks of p, appends the renderings of what the first-row-pruned search reports from p; on the empty board it leaves `board[0]` at n // 2 - 1 |
| DglwQueens.LoopDone | 01_2023141461051_dglw/n_queens.py:117 | when `available` is empty, no column left in range is safe; on the empty board every column below the limit has been tried |
| DglwQueens.Available | 01_2023141461051_dglw/n_queens.py:109-115 | bit c of `available` is set exactly when c is below the row's limit (n // 2 in the first row, n otherwise) and column c is safe |
| DglwQueens.PrunedColumn | 01_2023141461051_dglw/n_queens.py:117-132 | one pass of the loop writes the lowest free column into `board[row]`, searches through it, and clears its bit |
| DglwQueens.LowestColumn | 01_2023141461051_dglw/n_queens.py:119-120 | `bin(p - 1).count('1')` is the lowest free column, whose bit is `p`; clearing it leaves the safe columns above |
| DglwQueens.MirrorPass | 01_2023141461051_dglw/n_queens.py:137-147 | appends the row-reversed copy of each earlier rendering, unless n is odd and the shared `board[0]` equals n // 2 |
| DglwQueens.SolveWithPruning | 01_2023141461051_dglw/n_queens.py:87-149 | returns the renderings of the pruned search followed, for n > 1, by their mirrors |
| DglwQueens.PruningAssembled | 01_2023141461051_dglw/n_queens.py:134-149 | the search result, the value `board[0]` holds afterwards, and the mirror pass make up that list |
| DglwQueens.PruningSound | 01_2023141461051_dglw/n_queens.py:87-149 | every board it returns is a solution |
| DglwQueens.PruningCountEven | 01_2023141461051_dglw/n_queens.py:87-149 | for even n > 1 it returns as many boards as there are solutions |
| DglwQueens.PruningNoCentre | 01_2023141461051_dglw/n_queens.py:112-115 | for odd n no returned board starts in the centre column |
| DglwQueens.PruningMissesCentre | 01_2023141461051_dglw/n_queens.py:114 | a solution of an odd board starting in the centre column is never returned |
| DglwQueens.CentreFive | 01_2023141461051_dglw/n_queens.py:114 | [2, 0, 3, 1, 4] solves the 5 x 5 board |
| DglwQueens.PruningMissesFive | 01_2023141461051_dglw/n_queens.py:114 | for n = 5 some solution is missing from the result |
| DglwQueens.PruningMissesOne | 01_2023141461051_dglw/n_queens.py:114 | for n = 1 the only solution is lost |
| DglwQueens.IntendedPruningComplete | 01_2023141461051_dglw/n_queens.py:109-147 | the pruning as intended (centre column tried, off-centre solutions mirrored) returns every solution of a non-empty board exactly once |
| WangWenjieQueens.IsSafe | 01_2022141090107_WangWenjie/n_queen.py:3-9 | `is_safe` answers True exactly when no earlier row shares the column or a diagonal |
| WangWenjieQueens.SolveBacktrack | 01_2022141090107_WangWenjie/n_queen.py:20-29 | appends every completion of p, or with `find_one` only the first; answers False exactly when `find_one` is set and p has a completion |
| WangWenjieQueens.Column | 01_2022141090107_WangWenjie/n_queen.py:24-28 | one pass of the column loop searches through a safe column and stops when that search found the one solution asked for |
| WangWenjieQueens.SolveBits | 01_2022141090107_WangWenjie/n_queen.py:32-56 | with masks of p, the same answers and stored solutions as `solve_backtrack` |
| WangWenjieQueens.BitColumn | 01_2022141090107_WangWenjie/n_queen.py:40-54 | one pass of the `while available` loop skips only unsafe columns and searches through the lowest free one |
| WangWenjieQueens.LowestFree | 01_2022141090107_WangWenjie/n_queen.py:42-43 | `bin(pos).count('0') - 1` is the lowest free column, whose bit is `pos`; clearing it leaves the safe columns above |
| WangWenjieQueens.SolveNQueens | 01_2022141090107_WangWenjie/n_queen.py:11-64 | either search gives every solution in search order, or with `find_one` the first only |
| YanghaoyuanQueens.IsNotUnderAttack | 01_2023141461079_yanghaoyuan/01_2023141461079_yanghaoyuan_Nqueen.py:11-27 | answers True exactly when no earlier row shares the column or a diagonal |
| YanghaoyuanQueens.PlaceQueen | 01_2023141461079_yanghaoyuan/01_2023141461079_yanghaoyuan_Nqueen.py:29-44 | appends a copy of every completion of p, in search order |
| YanghaoyuanQueens.PlaceColumn | 01_2023141461079_yanghaoyuan/01_2023141461079_yanghaoyuan_Nqueen.py:40-44 | one pass of the column loop searches through a safe column |
| YanghaoyuanQueens.Descending | 01_2023141461079_yanghaoyuan/01_2023141461079_yanghaoyuan_Nqueen.py:60 | `[n - 1 - row for row, col in enumerate(solution)]` has the solution's length |
| YanghaoyuanQueens.AddNew | 01_2023141461079_yanghaoyuan/01_2023141461079_yanghaoyuan_Nqueen.py:53-54 | `if x not in solutions: solutions.append(x)` leaves x present and adds nothing else |
| QueenSymmetry.ReverseValid | 01_2023141461079_yanghaoyuan/01_2023141461079_yanghaoyuan_Nqueen.py:52 | turning a solution upside down gives a solution |
| YanghaoyuanQueens.DiagonalsInvalid | 01_2023141461079_yanghaoyuan/01_2023141461079_yanghaoyuan_Nqueen.py:60 | for n >= 2 neither `[n-1, ..., 0]` nor `[0, ..., n-1]` is a solution, and they differ |
| YanghaoyuanQueens.DiagonalImages | 01_2023141461079_yanghaoyuan/01_2023141461079_yanghaoyuan_Nqueen.py:50-62 | the two diagonals are each other's reversal and mirror, and the line-60 image of either is `[n-1, ..., 0]` |
| YanghaoyuanQueens.SmallBoard | 01_2023141461079_yanghaoyuan/01_2023141461079_yanghaoyuan_Nqueen.py:60 | on boards of size 0 and 1 the line-60 image of a solution is the solution itself |
| YanghaoyuanQueens.Expected | 01_2023141461079_yanghaoyuan/01_2023141461079_yanghaoyuan_Nqueen.py:50-62 | each pass of the loop adds at most its three images, and the walk adds at most two lists in all |
| YanghaoyuanQueens.ExpectedStep | 01_2023141461079_yanghaoyuan/01_2023141461079_yanghaoyuan_Nqueen.py:50-62 | one pass over entry i adds its three images when they are not yet present |
| YanghaoyuanQueens.StepSolution | 01_2023141461079_yanghaoyuan/01_2023141461079_yanghaoyuan_Nqueen.py:50-62 | a pass over a solution adds nothing but, the first time, `[n-1, ..., 0]` |
| YanghaoyuanQueens.StepDiagonal | 01_2023141461079_yanghaoyuan/01_2023141461079_yanghaoyuan_Nqueen.py:50-62 | the passes over the appended diagonals add `[0, ..., n-1]` once and then nothing |
| YanghaoyuanQueens.AddSymmetricSolutions | 01_2023141461079_yanghaoyuan/01_2023141461079_yanghaoyuan_Nqueen.py:46-62 | on the closed solution list, `add_symmetric_solutions` appends exactly the extra lists |
| YanghaoyuanQueens.ExtraFacts | 01_2023141461079_yanghaoyuan/01_2023141461079_yanghaoyuan_Nqueen.py:46-62 | the finished list is closed under the three images, its solutions are exactly the search's, and two non-solutions are added whenever a solution exists and n >= 2 |
| YanghaoyuanQueens.AllClosed | 01_2023141461079_yanghaoyuan/01_2023141461079_yanghaoyuan_Nqueen.py:52-58 | the search's solution list is closed under reversal and mirroring |
| YanghaoyuanQueens.SolveNQueens | 01_2023141461079_yanghaoyuan/01_2023141461079_yanghaoyuan_Nqueen.py:1-68 | every solution in search order, then the extra lists |
| YanghaoyuanQueens.DiagonalsAppended | 01_2023141461079_yanghaoyuan/01_2023141461079_yanghaoyuan_Nqueen.py:60 | once a solution exists and n >= 2, the list ends with the two diagonals, neither a solution |
| YanghaoyuanQueens.FourSolution | 01_2023141461079_yanghaoyuan/01_2023141461079_yanghaoyuan_Nqueen.py:1-68 | [1, 3, 0, 2] solves the 4 x 4 board |
| YanghaoyuanQueens.FourByFour | 01_2023141461079_yanghaoyuan/01_2023141461079_yanghaoyuan_Nqueen.py:60 | for n = 4 the list ends with [3, 2, 1, 0] and [0, 1, 2, 3], neither a solution |
| YanghaoyuanQueens.DiagonalsFour | 01_2023141461079_yanghaoyuan/01_2023141461079_yanghaoyuan_Nqueen.py:60 | for n = 4 the diagonals are [3, 2, 1, 0] and [0, 1, 2, 3] |
| QueenSymmetry.IndexOf | 01_2023141461079_yanghaoyuan/01_2023141461079_yanghaoyuan_Nqueen.py:60 | the first row holding column c, or the length when there is none |
| QueenSymmetry.AntiDiagonal | 01_2023141461079_yanghaoyuan/01_2023141461079_yanghaoyuan_Nqueen.py:59-62 | the anti-diagonal reflection of a placement keeps its length (its rows are stated by `AntiDiagonalRows`) |
| QueenSymmetry.AntiDiagonalRows | 01_2023141461079_yanghaoyuan/01_2023141461079_yanghaoyuan_Nqueen.py:59-62 | row r of the reflection holds n - 1 - k, where k is the row of the queen in column n - 1 - r |
| QueenSymmetry.EveryColumn | 01_2023141461079_yanghaoyuan/01_2023141461079_yanghaoyuan_Nqueen.py:59-62 | a solution uses every column |
| QueenSymmetry.AntiDiagonalValid | 01_2023141461079_yanghaoyuan/01_2023141461079_yanghaoyuan_Nqueen.py:59-62 | the reflection of a solution is a solution |
| YanghaoyuanQueens.AllClosedIntended | 01_2023141461079_yanghaoyuan/01_2023141461079_yanghaoyuan_Nqueen.py:50-62 | the solution list is closed under reversal, mirroring and the anti-diagonal reflection |
| YanghaoyuanQueens.AddSymmetricSolutionsIntended | 01_2023141461079_yanghaoyuan/01_2023141461079_yanghaoyuan_Nqueen.py:46-62 | with the reflection as third image, the pass adds nothing to the closed list |
| YanghaoyuanQueens.SolveNQueensIntended | 01_2023141461079_yanghaoyuan/01_2023141461079_yanghaoyuan_Nqueen.py:1-68 | the corrected solver returns exactly the solutions, each once |
| LrzQueens.FlagsEmpty | 01_2023141490258_LRZ/n_queens.cpp:8-10 | the zeroed flag arrays record no queen |
| LrzQueens.FlagsSafe | 01_2023141490258_LRZ/n_queens.cpp:37-42 | on flags recording p, the three flags of the next row's square y are down exactly when column y - 1 is safe |
| LrzQueens.FlagsPlace | 01_2023141490258_LRZ/n_queens.cpp:25-28 | setting the three flags records p + [y - 1] |
| LrzQueens.FlagsRemove | 01_2023141490258_LRZ/n_queens.cpp:30-32 | clearing the three flags of a safe square records p again |
| LrzQueens.Globals.constructor | 01_2023141490258_LRZ/n_queens.cpp:4-10 | the globals start zeroed |
| LrzQueens.Globals.IsSafe | 01_2023141490258_LRZ/n_queens.cpp:37-42 | on flags recording p, `is_safe` is exactly the no-attack condition |
| LrzQueens.Globals.Print | 01_2023141490258_LRZ/n_queens.cpp:44-58 | `print` only increments `count` |
| LrzQueens.Globals.NQueens | 01_2023141490258_LRZ/n_queens.cpp:17-35 | adds the number of completions of p to `count` and leaves the flags as it found them |
| LrzQueens.Globals.Column | 01_2023141490258_LRZ/n_queens.cpp:23-34 | one pass of the column loop marks a safe square, searches on and unmarks it |
| LrzQueens.Globals.Place | 01_2023141490258_LRZ/n_queens.cpp:25-28 | the queen of the next row goes to column y; the flags record p + [y - 1] |
| LrzQueens.Globals.Unplace | 01_2023141490258_LRZ/n_queens.cpp:30-32 | the queen leaves; the flags record p again |
| LrzQueens.Globals.Mark | 01_2023141490258_LRZ/n_queens.cpp:25-32 | setting or clearing the three flags of one square, and recording the column when placing |
| LrzQueens.Run | 01_2023141490258_LRZ/n_queens.cpp:60-73 | -1 for a size outside 4..20; otherwise 0 and a total equal to the number of solutions |
| LiBinbinQueens.IsSafe | 01_2023141480243_LiBinbin/n_queens.py:1-7 | `is_safe` answers True exactly when no earlier queen shares the column or a diagonal |
| LiBinbinQueens.SolveUtil | 01_2023141480243_LiBinbin/n_queens.py:10-21 | appends a copy of every completion of p in search order; `limit` changes nothing |
| LiBinbinQueens.TryColumn | 01_2023141480243_LiBinbin/n_queens.py:18-21 | one pass of the column loop searches through a safe column |
| LiBinbinQueens.SolveNQueens | 01_2023141480243_LiBinbin/n_queens.py:33-48 | below 4 the message "N must be at least 4."; otherwise every solution, in search order, and their number |
| WangShiyiQueens.FlagsEmpty | 01_2023141490366_WangShiyi/Nqueen.py:7-11 | the fresh flag lists record no queen |
| WangShiyiQueens.FlagsSafe | 01_2023141490366_WangShiyi/Nqueen.py:29 | on flags recording p, the test of line 29 is exactly the no-attack condition |
| WangShiyiQueens.FlagsPlace | 01_2023141490366_WangShiyi/Nqueen.py:30-32 | raising the three flags records p + [y] |
| WangShiyiQueens.Globals.constructor | 01_2023141490366_WangShiyi/Nqueen.py:5-13 | an all-'.' grid, every flag down and N = 0 |
| WangShiyiQueens.Globals.Dfs | 01_2023141490366_WangShiyi/Nqueen.py:18-43 | prints the grid of every completion of p in search order, adds their number to N, and restores grid and flags |
| WangShiyiQueens.Globals.Column | 01_2023141490366_WangShiyi/Nqueen.py:27-43 | one pass of the column loop searches through a free square and frees it again |
| WangShiyiQueens.Globals.Place | 01_2023141490366_WangShiyi/Nqueen.py:30-34 | the queen goes on the grid and the flags; they now record p + [y] |
| WangShiyiQueens.Globals.Unplace | 01_2023141490366_WangShiyi/Nqueen.py:39-43 | the queen comes off; grid and flags are back as before |
| WangShiyiQueens.Script | 01_2023141490366_WangShiyi/Nqueen.py:46-51 | "invalid input" below 4; otherwise every solution's grid is printed and N is their number |
| Perms.Shift | 02_2023141490258_LRZ/100prisoners.py:25-27 | a 1-based arrangement read through `boxes[i - 1]` is the 0-based permutation with every entry one lower |
| Perms.Iter | 02_2023141461076_guozheng/The100PrisonersProblem.py:24-26 | following the slips from any box stays inside the N boxes |
| Perms.IterAdd | 02_2023141461076_guozheng/The100PrisonersProblem.py:24-26 | a+b openings are a openings after b openings |
| Perms.ReturnExists | 02_2023141461129_GuYunfei/prisoner_simulation.py:44-46 | the chain from any box comes back to it within N openings, so every walk closes |
| Perms.CycleLen | 02_2023141461129_GuYunfei/prisoner_simulation.py:44-46 | the cycle length is between 1 and N, brings the chain back, and no shorter positive count does |
| Perms.ReturnsWithin | 100prisoners.py:26-35 | the slip naming prisoner p turns up within K openings from box p exactly when p's cycle is at most K long |
| Perms.CycleLenOnCycle | 02_2023141470277_fanshengjie/prinsoner100.py:65-66 | every box reached from x lies on a cycle of the same length, so a long cycle fails each of its prisoners |
| Perms.SuccessCount | 02_2023141461076_guozheng/The100PrisonersProblem.py:20-30 | the number of successful prisoners among the first m never exceeds m |
| Perms.MaxCycleUpTo | 02_2023141461129_GuYunfei/prisoner_simulation.py:35-50 | the longest cycle among boxes below m bounds every one of them and is attained (0 for no boxes) |
| Perms.MaxCycleBounds | 02_2023141461129_GuYunfei/prisoner_simulation.py:35-50 | a non-empty arrangement has a longest cycle between 1 and N |
| Perms.AllSucceedMaxCycle | 02_2023141461129_GuYunfei/prisoner_simulation.py:78 | everyone succeeds exactly when the longest cycle is at most K, for K >= 0 or a non-empty arrangement |
| Perms.SuccessCountAll | 02_2023141461076_guozheng/The100PrisonersProblem.py:55 | the count of the first m prisoners reaches m exactly when each of them succeeds |
| Perms.CountIsAll | 02_2023141461076_guozheng/The100PrisonersProblem.py:55 | a round's success count equals N exactly when every prisoner succeeds |
| Perms.WalkFresh | 02_2023141461086_LiuYuQiao/main.py:48-52 | before the walk from an unvisited box closes, each box it reaches is new |
| Perms.FinishCycle | 02_2023141461086_LiuYuQiao/main.py:48-52 | after a whole cycle is marked the visited boxes are again a union of cycles, all new ones on cycles as long as the start's |
| Perms.MaxCycleIs | 02_2023141461129_GuYunfei/prisoner_simulation.py:48-50 | an attained upper bound on all cycle lengths is the longest cycle |
| Perms.WalkContinue | 02_2023141461086_LiuYuQiao/main.py:48-52 | an unvisited box on the walk means the cycle has not closed; marking it adds exactly one visited box |
| Perms.WalkStop | 02_2023141461086_LiuYuQiao/main.py:48 | the walk meets a visited box exactly when it has gone once round the cycle |
| Perms.CycleDone | 02_2023141461129_GuYunfei/prisoner_simulation.py:40-46 | walking the cycle of the first unvisited box covers every box up to it and keeps the visited boxes whole cycles |
| Perms.MaxVisitedDone | 02_2023141461129_GuYunfei/prisoner_simulation.py:40-50 | once every box is covered the running maximum is the longest cycle |
| Perms.ChainStep | 02_2023141461051_dglw/100_prisoners.py:98-104 | the slip in the box reached after step openings names x exactly when x's cycle has length step + 1 |
| Perms.WinningRounds | 02_2023141461079_yanghaoyuan/02_2023141461079_yanghaoyuan_100.py:64-65 | the number of winning arrangements is at most the number of rounds |
| Perms.LongVisitedAll | 02_2023141470277_fanshengjie/prinsoner100.py:65-68 | once every box is visited, the boxes on cycles longer than K are exactly the failing prisoners |
| Perms.AllSucceedLeaders | 02_2023141461086_LiuYuQiao/main.py:54-63 | everyone succeeds exactly when every cycle, listed once from its smallest box, is at most K long |
| Perms.CountTrueSuccess | 02_2023141461079_yanghaoyuan/02_2023141461079_yanghaoyuan_100.py:58-64 | flags that say exactly who succeeds count the successful prisoners |
| Perms.CycleMinOnCycle | 02_2023141461086_LiuYuQiao/main.py:40-42 | all boxes of a cycle share its smallest box, the one the scan reaches it from |
| Perms.OnCycleOfMin | 02_2023141461086_LiuYuQiao/main.py:40-42 | every box lies on the cycle walked from the smallest box of its cycle |
| Perms.VisitedBelowStep | 02_2023141461086_LiuYuQiao/main.py:40-54 | the first unvisited box leads its cycle, and after its walk the visited boxes are those whose cycle starts at or below it |
| Perms.LeaderLengthsMember | one_hundred.py:93-101 | every listed length is the cycle length of some leading box |
| Perms.LeaderInLengths | one_hundred.py:93-101 | every leading box has its cycle length listed |
| DglwPrisoners.FoundAfter | 02_2023141461051_dglw/100_prisoners.py:99 | the flags after one attempt are the old ones or-ed with "the held box holds my number", so no flag is lost |
| DglwPrisoners.NextBoxes | 02_2023141461051_dglw/100_prisoners.py:104 | every prisoner moves to the box named in the held box, and stays within the boxes |
| DglwPrisoners.AttemptStep | 02_2023141461051_dglw/100_prisoners.py:97-104 | one attempt turns the state after t attempts into the state after t + 1: flags set exactly for cycles of length at most t + 1 |
| DglwPrisoners.StartAttempts | 02_2023141461051_dglw/100_prisoners.py:94-96 | prisoners at their own boxes with no flag set is the state after zero attempts |
| DglwPrisoners.FoundEarly | 02_2023141461051_dglw/100_prisoners.py:100-102 | all flags set after t <= K attempts means everyone succeeds with K |
| DglwPrisoners.FoundAtEnd | 02_2023141461051_dglw/100_prisoners.py:106 | after all K attempts the flags are all set exactly when everyone succeeds, and they count the successful prisoners |
| DglwPrisoners.Attempt | 02_2023141461051_dglw/100_prisoners.py:97-104 | one pass of the loop moves from the state after t attempts to the state after t + 1 and keeps every set flag |
| DglwPrisoners.CycleSearchStrategy | 02_2023141461051_dglw/100_prisoners.py:85-106 | True exactly when every prisoner's cycle is at most `attempts` long, early return included |
| DglwPrisoners.CycleSearchStrategyCount | 02_2023141461051_dglw/100_prisoners.py:219-228 | the number of successful prisoners, between 0 and N, and N exactly when everyone succeeds |
| FanShengjiePrisoners.CycleRound | 02_2023141470277_fanshengjie/prinsoner100.py:50-69 | the round's success count is the number of successful prisoners, N minus the total length of cycles longer than K; success exactly when everyone wins; cycle lengths add up to N |
| FanShengjiePrisoners.DecomposeAll | 02_2023141470277_fanshengjie/prinsoner100.py:55-66 | the start loop takes the fresh state to every cycle walked with its failures totalled |
| FanShengjiePrisoners.DecomposeDone | 02_2023141470277_fanshengjie/prinsoner100.py:68-69 | after the last start, `total_failures` is N minus the successful prisoners and is 0 exactly when everyone succeeds |
| FanShengjiePrisoners.DecomposeFrom | 02_2023141470277_fanshengjie/prinsoner100.py:55-66 | one start either skips a visited box or walks its cycle and adds its length when longer than K, keeping the invariant |
| FanShengjiePrisoners.DecomposeCycle | 02_2023141470277_fanshengjie/prinsoner100.py:65-66 | a newly walked cycle adds its length to the failures exactly when it is longer than K |
| FanShengjiePrisoners.WalkCycle | 02_2023141470277_fanshengjie/prinsoner100.py:57-62 | the walk counts exactly the cycle length of `start`, marks that cycle, and the boxes it marks are failing prisoners exactly when it is long |
| GuozhengPrisoners.LoopStrategy | 02_2023141461076_guozheng/The100PrisonersProblem.py:20-30 | returns the number of prisoners whose cycle is at most K long |
| GuozhengPrisoners.LoopRound | 02_2023141461076_guozheng/The100PrisonersProblem.py:48-55 | the round's count is the number of successful prisoners, and it equals N exactly when everyone succeeds |
| GuozhengPrisoners.SimulateLoopRounds | 02_2023141461076_guozheng/The100PrisonersProblem.py:45-55 | one count and one all-succeeded flag per round, each as the round's cycles decide |
| GuYunfeiPrisoners.GetParams | 02_2023141461129_GuYunfei/prisoner_simulation.py:9-33 | the accepted answer is the first that meets N > 0, 0 < K <= N and T > 0; every earlier one fails the test |
| GuYunfeiPrisoners.FindMaxCycleLength | 02_2023141461129_GuYunfei/prisoner_simulation.py:35-50 | the longest cycle of the arrangement, between 1 and N when N > 0 |
| GuYunfeiPrisoners.WalkCycle | 02_2023141461129_GuYunfei/prisoner_simulation.py:43-47 | the walk from an unvisited box counts its cycle length and marks exactly that cycle |
| GuYunfeiPrisoners.RoundSucceeds | 02_2023141461129_GuYunfei/prisoner_simulation.py:78 | `max_cycle_length <= K` holds exactly when every prisoner succeeds |
| GuYunfeiPrisoners.FullBudgetSucceeds | 02_2023141461129_GuYunfei/prisoner_simulation.py:84-86 | with K >= N every round succeeds |
| HundredPrisoners.SimulateStrategyLoop | 100prisoners.py:21-36 | True exactly when every prisoner finds their number within K openings |
| HundredPrisoners.FollowLoop | 100prisoners.py:27-33 | the prisoner finds their number exactly when their cycle is at most K long |
| HundredPrisoners.LoopSuccessCount | 100prisoners.py:52-61 | the loop tally is the number of winning arrangements |
| KangZuChengPrisoners.StrategyCycle | 02_2023141490340_KangZuCheng/100.py:24-31 | True exactly when the prisoner's cycle is at most k long |
| KangZuChengPrisoners.AllFind | 02_2023141490340_KangZuCheng/100.py:39-44 | the round succeeds exactly when every prisoner does |
| KangZuChengPrisoners.RunSimulation | 02_2023141490340_KangZuCheng/100.py:34-47 | the success count is the number of winning arrangements, at most t |
| LiBinbinPrisoners.CyclicSearchStrategy | 02_2023141480243_LiBinbin/prisoners_simulation.py:19-34 | returns the number of successful prisoners |
| LiBinbinPrisoners.FollowSlips | 02_2023141480243_LiBinbin/prisoners_simulation.py:27-32 | the prisoner finds their number exactly when their cycle is at most K long |
| LiBinbinPrisoners.CyclicSuccessCount | 02_2023141480243_LiBinbin/prisoners_simulation.py:71-87 | the tally of rounds whose count equals N is the number of winning arrangements |
| LiuYuQiaoPrisoners.UpToFirstLong | 02_2023141461086_LiuYuQiao/main.py:56-61 | the cut list is a prefix of the list |
| LiuYuQiaoPrisoners.UpToFirstLongAt | 02_2023141461086_LiuYuQiao/main.py:56-61 | a prefix ending at the first element above K is exactly where the list is cut |
| LiuYuQiaoPrisoners.UpToFirstLongAll | 02_2023141461086_LiuYuQiao/main.py:63 | a list with nothing above K is returned whole |
| LiuYuQiaoPrisoners.ReportedLengthsShape | 02_2023141461086_LiuYuQiao/main.py:54-63 | the reported lengths are all at most K except a last one above K when someone fails, and are all the cycle lengths when everyone succeeds |
| LiuYuQiaoPrisoners.RecordStep | 02_2023141461086_LiuYuQiao/main.py:74-76 | recording one more round extends both the outcomes and the lengths by that round's |
| LiuYuQiaoPrisoners.PrisonerSimulation.constructor | 02_2023141461086_LiuYuQiao/main.py:7-21 | stores N, K, T, a fresh all-False success array of length T, and an empty length list |
| LiuYuQiaoPrisoners.PrisonerSimulation.Strategy2Loop | 02_2023141461086_LiuYuQiao/main.py:35-63 | the lengths up to the first cycle longer than K; True exactly when everyone succeeds, and then the lengths add up to N |
| LiuYuQiaoPrisoners.PrisonerSimulation.RunSimulation | 02_2023141461086_LiuYuQiao/main.py:65-76 | the success array holds each round's outcome and the length list grows by each round's reported lengths, in order |
| LiuYuQiaoPrisoners.PrisonerSimulation.PlayRound | 02_2023141461086_LiuYuQiao/main.py:67-76 | one round extends the recorded outcomes and lengths by that round's |
| LiuYuQiaoPrisoners.CycleScan | 02_2023141461086_LiuYuQiao/main.py:37-63 | the same lengths and verdict as `strategy2_loop` for any K |
| LiuYuQiaoPrisoners.ScanBox | 02_2023141461086_LiuYuQiao/main.py:40-61 | one prisoner either keeps the scan invariant or ends it early with the reported lengths and a failure |
| LiuYuQiaoPrisoners.ScanFails | 02_2023141461086_LiuYuQiao/main.py:56-61 | the first cycle longer than K ends the scan with the reported lengths, and someone fails |
| LiuYuQiaoPrisoners.ScanSucceeds | 02_2023141461086_LiuYuQiao/main.py:63 | a scan with no long cycle means everyone succeeds and the lengths add up to N |
| LiuYuQiaoPrisoners.ScanStep | 02_2023141461086_LiuYuQiao/main.py:44-54 | the walked cycle is led by its smallest box, its length is the next listed, and the length sum keeps counting visited boxes |
| LiuYuQiaoPrisoners.WalkLoop | 02_2023141461086_LiuYuQiao/main.py:48-52 | the walk counts the cycle length, marks that cycle and lists its boxes in opening order |
| LizongzePrisoners.LoopRound | 02_2023141461156_lizongze/100prisoner.py:5-27 | with the loop strategy the round's count is the number of successful prisoners |
| LizongzePrisoners.FollowLoop | 02_2023141461156_lizongze/100prisoner.py:21-26 | the prisoner finds their number exactly when their cycle is at most K long |
| LizongzePrisoners.RunSimulation | 02_2023141461156_lizongze/100prisoner.py:29-48 | per-round counts of successful prisoners and the number of rounds where all N succeed |
| LrzPrisoners.SimulateChainChoice | 02_2023141490258_LRZ/100prisoners.py:18-31 | True exactly when every prisoner finds their number within `chances` openings |
| LrzPrisoners.FollowChain | 02_2023141490258_LRZ/100prisoners.py:23-28 | the prisoner finds their number exactly when their cycle is at most `chances` long |
| LrzPrisoners.ChainSuccessCount | 02_2023141490258_LRZ/100prisoners.py:40-44 | the chain tally is the number of winning arrangements |
| OneHundredPrisoners.PrisonerSimulator.constructor | one_hundred.py:8-10 | stores N and K |
| OneHundredPrisoners.PrisonerSimulator.LoopStrategy | one_hundred.py:30-43 | True exactly when all N prisoners succeed |
| OneHundredPrisoners.PrisonerSimulator.Simulate | one_hundred.py:45-56 | one result per round, True exactly when that round is won |
| OneHundredPrisoners.PrisonerSimulator.LoopLengthDistribution | one_hundred.py:87-101 | every round's cycle lengths, once per cycle from its smallest box, round after round; they add up to N times T |
| OneHundredPrisoners.FollowLoop | one_hundred.py:35-40 | the prisoner finds their number exactly when their cycle is at most K long |
| OneHundredPrisoners.SumRounds | one_hundred.py:90-101 | appending a round whose lengths add up to N keeps the total at N per round |
| OneHundredPrisoners.CycleLengths | one_hundred.py:92-101 | one round's lengths are the cycle lengths in order of the cycles' smallest boxes, adding up to N |
| OneHundredPrisoners.CensusDone | one_hundred.py:93-101 | after the last box the lengths are the listed cycle lengths and add up to N |
| OneHundredPrisoners.CensusStep | one_hundred.py:93-101 | one pass of the box loop keeps the census invariant |
| OneHundredPrisoners.CountLoop | one_hundred.py:97-100 | the walk counts the cycle length of `start` and marks that cycle |
| TanZheYaoPrisoners.CycleStrategy | 02_2023141461153_TanZheYao/02_2023141461153_TanZheYao_100prisoners.py:17-26 | True exactly when the prisoner's cycle is at most K long |
| TanZheYaoPrisoners.CycleRound | 02_2023141461153_TanZheYao/02_2023141461153_TanZheYao_100prisoners.py:32-44 | the round succeeds exactly when every prisoner does |
| TanZheYaoPrisoners.Simulate | 02_2023141461153_TanZheYao/02_2023141461153_TanZheYao_100prisoners.py:28-47 | the success count is the number of winning arrangements |
| TanZheYaoPrisoners.MaxCycleOf | 02_2023141461153_TanZheYao/02_2023141461153_TanZheYao_100prisoners.py:56-70 | the longest cycle of the 1-based arrangement |
| TanZheYaoPrisoners.WalkCycle | 02_2023141461153_TanZheYao/02_2023141461153_TanZheYao_100prisoners.py:65-68 | the walk counts the cycle length of box i and marks that cycle |
| TanZheYaoPrisoners.MarkBox | 02_2023141461153_TanZheYao/02_2023141461153_TanZheYao_100prisoners.py:66-67 | one step marks a new box and moves to the next box of the cycle |
| TanZheYaoPrisoners.DistributionRound | 02_2023141461153_TanZheYao/02_2023141461153_TanZheYao_100prisoners.py:54-74 | the round's longest cycle, and success at most K exactly when everyone wins, whenever K >= 0 or there is at least one prisoner |
| TanZheYaoPrisoners.SuccessDistribution | 02_2023141461153_TanZheYao/02_2023141461153_TanZheYao_100prisoners.py:49-74 | the list of longest cycles, and the count of rounds within K is the number of winning arrangements, whenever K >= 0 or every round has a prisoner |
| WangShiyiPrisoners.StrategyCycle | 02_2023141490366_WangShiyi/ThreePrayers.py:18-25 | True exactly when the prisoner's cycle is at most `max_attempts` long |
| WangShiyiPrisoners.RunSimulation | 02_2023141490366_WangShiyi/ThreePrayers.py:27-33 | True exactly when every prisoner succeeds |
| WangShiyiPrisoners.CompareCycle | 02_2023141490366_WangShiyi/ThreePrayers.py:54-60 | the cycle tally is the number of winning arrangements |
| YanghaoyuanPrisoners.LoopRound | 02_2023141461079_yanghaoyuan/02_2023141461079_yanghaoyuan_100.py:51-65 | `found[p]` is set exactly when prisoner p succeeds, and the round succeeds exactly when everyone does |
| YanghaoyuanPrisoners.LoopStrategy | 02_2023141461079_yanghaoyuan/02_2023141461079_yanghaoyuan_100.py:35-66 | the success count is the number of winning arrangements |
| ZhaoweiyiPrisoners.PrisonerProblemSimulator.constructor | 02_2023141461101_Zhaoweiyi/prisoner_problem.py:10-24 | stores N and K with an empty list of cycle lengths |
| ZhaoweiyiPrisoners.PrisonerProblemSimulator.CycleStrategy | 02_2023141461101_Zhaoweiyi/prisoner_problem.py:45-82 | True exactly when everyone succeeds; then the longest cycle is returned and appended, otherwise 0 and nothing recorded |
| ZhaoweiyiPrisoners.CycleWalk | 02_2023141461101_Zhaoweiyi/prisoner_problem.py:52-79 | gives up exactly when someone fails; on success returns the longest cycle |
| ZhaoweiyiPrisoners.FollowCycle | 02_2023141461101_Zhaoweiyi/prisoner_problem.py:60-75 | the prisoner's cycle closes within K steps exactly when it is at most K long, and then the whole cycle is marked |
| ZhaoweiyiPrisoners.ProgressCycle | 02_2023141461101_Zhaoweiyi/prisoner_problem.py:68-71 | a closed cycle updates the running maximum and keeps the scan invariant |
| ZhaoweiyiPrisoners.FailedPrisoner | 02_2023141461101_Zhaoweiyi/prisoner_problem.py:78-79 | a prisoner whose cycle is longer than K means the round fails |
| ZhaoweiyiPrisoners.ProgressDone | 02_2023141461101_Zhaoweiyi/prisoner_problem.py:81-82 | a finished scan means everyone succeeds and the running maximum is the longest cycle |
| Bits.LowBit | 01_2023141461086_LiuYuQiao/n_queens.py:210 | `x & -x` is the power of two at the lowest set bit, and no larger than x |
| Bits.OrBit | 01_2023141461086_LiuYuQiao/n_queens.py:220-222 | a bit of `x or y` is set exactly when it is set in x or in y |
| Bits.AndNotBit | 01_2023141461086_LiuYuQiao/n_queens.py:205 | a bit of `x and not y` is set exactly when it is set in x and not in y |
| Bits.ShlBit | 01_2023141461086_LiuYuQiao/n_queens.py:221 | shifting left moves every bit up one place |
| Bits.ShrBit | 01_2023141461086_LiuYuQiao/n_queens.py:222 | shifting right moves every bit down one place |
| Bits.ClearLowBit | 01_2023141461086_LiuYuQiao/n_queens.py:211 | clearing the lowest bit removes exactly that bit and makes the mask smaller |
| Bits.ClearLowest | 01_2023141461086_LiuYuQiao/n_queens.py:211 | `x & (x - 1)` is x minus its lowest set bit `x & -x` |
| Bits.AndPredecessor | 01_2023141461051_dglw/n_queens.py:132 | `x & (x - 1)` equals `x - (x & -x)` for every positive x |
| Bits.AndNotSingle | 01_2022141090107_WangWenjie/n_queen.py:54 | clearing a set single bit subtracts it |
| Bits.BinZerosIndex | 01_2023141461086_LiuYuQiao/n_queens.py:214 | `bin(pos).count('0') - 1` is the index of the single set bit |
| Bits.BitLengthIndex | 01_2023141461129_GuYunfei/n_queens.py:130 | `pos.bit_length() - 1` is the index of the single set bit |
| Bits.BinOnesIndex | 01_2023141461051_dglw/n_queens.py:120 | `bin(p - 1).count('1')` is the index of the single set bit p |
| Bits.PopCountClear | 01_2023141461156_lizongze/NQ2.py:58-65 | removing the lowest bit lowers the number of set bits by one |
| Bits.TestBit | 01_2022151470059_YouZhixuan/n_queens.py:27-31 | `x & (1 << k)` is non-zero exactly when bit k is set |
| Bits.SetClear | 01_2022151470059_YouZhixuan/n_queens.py:11-23 | setting then clearing a clear bit gives the mask back |

## Left out

- Console and file I/O: every prompt loop (`input()`, `sys.argv`), the file readers and writers, and every `print_*` renderer. What a prompt loop decides is kept where it matters (`QueenInput.GetUserInput`, `GuYunfeiPrisoners.GetParams`), with the typed answers as a parameter. `LrzQueens.Globals.Print` keeps only the count.
- Timing, plotting, progress bars, benchmarks and the unittest runner. `01_2023141480243_LiBinbin/n_queens_timing.py` and `01_2023141461051_dglw/time.py` are not part of this model. Solvers that also return an elapsed time are modelled without it.
- Randomness: every shuffled arrangement is a parameter with a permutation precondition (`IsPerm` or `IsPerm1`). A simulation over T rounds takes the list of T arrangements. The random strategies themselves are not modelled, since their outcome depends only on the random choices.
- Floating point: success rates, means, the theoretical formulas (`1 - sum(1/i)`), `analyze_parameters` and the fit in the Zhaoweiyi solver. `GuYunfeiPrisoners.FullBudgetSucceeds` states the one exact case used there, K >= N.
- Module-level script execution is modelled as a method over explicit state, for example `WangShiyiQueens.Script` and `LrzPrisoners.ChainSuccessCount`. The reading of the size at the top of the WangShiyi script is a parameter.
- Numpy arrays are sequences: `boxes[current_boxes - 1]` and `found |= ...` are element-wise maps (`DglwPrisoners.NextBoxes`, `DglwPrisoners.FoundAfter`).
- The `TypeError` of `validate_input` in the YouZhixuan solver has no counterpart, because sizes are integers in the model. The same holds for the integer checks of `is_valid_n`.
- Python's `sorted` in `01-2023141470277-fanshengjie/n_queens2.py` is modelled as a stable insertion sort by score (`FanshengjieQueens2.SortByScore`), not as Timsort. Only the result is the same.
- defaultdict entries that a lookup creates are not modelled. The tables are maps, and a missing key reads as False (`Flag`), which is what the solver observes.
- C `int` overflow of the LRZ `count` is not modelled, and neither are C array bounds beyond the sizes `main` accepts. The model's arrays are sized for the accepted range 4..20.
- YanghaoyuanQueens.AddSymmetricSolutions: requires the list to be closed under reversal and mirroring, which is true of the search result it is called on. On an arbitrary list its termination argument would be different.
- KangZuChengQueens.Image: its contract states only that each transform gives an n x n grid. The effect of each named transform is stated by the separate lemmas on cells and involutions listed above.

## Findings

| source | as written | input that shows it | evidently intended | confidence | as-written member | corrected member |
|---|---|---|---|---|---|---|
| 01_2023141461079_yanghaoyuan/01_2023141461079_yanghaoyuan_Nqueen.py:60 | the third image is `[n - 1 - row for row, col in enumerate(solution)]`, the list n-1, ..., 0 whatever the solution | n = 4: the result ends with [3, 2, 1, 0] and [0, 1, 2, 3], neither a solution | the reflection of the solution in the anti-diagonal, which is again a solution | not executed | YanghaoyuanQueens.FourByFour | YanghaoyuanQueens.SolveNQueensIntended |
| 01_2023141461153_TanZheYao/01_2023141461153_TanZheYao_n_queens.py:59 | mirror images are added only when `n % 2 == 1`, so under `use_symmetry` an even board gets only the solutions starting in its left half | n = 4: only [1, 3, 0, 2] is returned; its mirror [2, 0, 3, 1] is missing | the mirrors of the off-centre solutions for every n > 1 (the centre test only matters for odd n) | not executed | TanZheYaoQueens.MirrorMissingFour | TanZheYaoQueens.WithMirrorsIntendedComplete |
| 01_2023141461051_dglw/n_queens.py:113-114 | the first row is limited to the lowest `n // 2` columns, so the centre column of an odd board is never tried, and the mirror loop tests the shared `board[0]` instead of each solution's own first queen | n = 5: [2, 0, 3, 1, 4] is never returned; n = 1 returns nothing | the first row tries `(n + 1) // 2` columns and only solutions whose own first queen is off the centre are mirrored | not executed | DglwQueens.PruningMissesFive | DglwQueens.IntendedPruningComplete |
