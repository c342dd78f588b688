/** The solution counts of the boards of size 4 to 8: 2, 10, 4, 40 and 92.
    Each count is proved by listing the solutions. A case split on the
    first rows shows that every valid placement is listed, every listed
    placement is checked row pair by row pair, and the search, being sound,
    complete and free of repeats, then reports exactly as many placements
    as the list holds. For 7 and 8 only the first-row columns of the left
    half (and the centre of the 7 x 7 board) are listed; the mirror symmetry
    of the count gives the rest. */
module QueenCounts {
  import opened Lists
  import opened QueensSpec

  /** The 2 solutions of the 4 x 4 board, in search order. */
  const Four: seq<seq<int>> := [
    [1, 3, 0, 2], [2, 0, 3, 1]
  ]

  /** The 10 solutions of the 5 x 5 board, in search order. */
  const Five: seq<seq<int>> := [
    [0, 2, 4, 1, 3], [0, 3, 1, 4, 2], [1, 3, 0, 2, 4], [1, 4, 2, 0, 3],
    [2, 0, 3, 1, 4], [2, 4, 1, 3, 0], [3, 0, 2, 4, 1], [3, 1, 4, 2, 0],
    [4, 1, 3, 0, 2], [4, 2, 0, 3, 1]
  ]

  /** The 4 solutions of the 6 x 6 board, in search order. */
  const Six: seq<seq<int>> := [
    [1, 3, 5, 0, 2, 4], [2, 5, 1, 4, 0, 3], [3, 0, 4, 1, 5, 2],
    [4, 2, 0, 5, 3, 1]
  ]

  /** The solutions of the 7 x 7 board whose first queen is in column c,
      for the columns c = 0..3 of the left half and the centre, in search order. */
  const SevenFrom: seq<seq<seq<int>>> := [
    [
      [0, 2, 4, 6, 1, 3, 5], [0, 3, 6, 2, 5, 1, 4], [0, 4, 1, 5, 2, 6, 3], [0, 5, 3, 1, 6, 4, 2]
    ],
    [
      [1, 3, 0, 6, 4, 2, 5], [1, 3, 5, 0, 2, 4, 6], [1, 4, 0, 3, 6, 2, 5], [1, 4, 2, 0, 6, 3, 5],
      [1, 4, 6, 3, 0, 2, 5], [1, 5, 2, 6, 3, 0, 4], [1, 6, 4, 2, 0, 5, 3]
    ],
    [
      [2, 0, 5, 1, 4, 6, 3], [2, 0, 5, 3, 1, 6, 4], [2, 4, 6, 1, 3, 5, 0], [2, 5, 1, 4, 0, 3, 6],
      [2, 6, 1, 3, 5, 0, 4], [2, 6, 3, 0, 4, 1, 5]
    ],
    [
      [3, 0, 2, 5, 1, 6, 4], [3, 0, 4, 1, 5, 2, 6], [3, 1, 6, 4, 2, 0, 5], [3, 5, 0, 2, 4, 6, 1],
      [3, 6, 2, 5, 1, 4, 0], [3, 6, 4, 1, 5, 0, 2]
    ]
  ]

  /** The solutions of the 8 x 8 board whose first queen is in column c,
      for the columns c = 0..3 of the left half, in search order. */
  const EightFrom: seq<seq<seq<int>>> := [
    [
      [0, 4, 7, 5, 2, 6, 1, 3], [0, 5, 7, 2, 6, 3, 1, 4], [0, 6, 3, 5, 7, 1, 4, 2],
      [0, 6, 4, 7, 1, 3, 5, 2]
    ],
    [
      [1, 3, 5, 7, 2, 0, 6, 4], [1, 4, 6, 0, 2, 7, 5, 3], [1, 4, 6, 3, 0, 7, 5, 2],
      [1, 5, 0, 6, 3, 7, 2, 4], [1, 5, 7, 2, 0, 3, 6, 4], [1, 6, 2, 5, 7, 4, 0, 3],
      [1, 6, 4, 7, 0, 3, 5, 2], [1, 7, 5, 0, 2, 4, 6, 3]
    ],
    EightFrom2Low + EightFrom2High,
    EightFrom3Low + EightFrom3High
  ]

  /** The solutions starting in column 2, split in two halves for the proof. */
  const EightFrom2Low: seq<seq<int>> := [
    [2, 0, 6, 4, 7, 1, 3, 5], [2, 4, 1, 7, 0, 6, 3, 5], [2, 4, 1, 7, 5, 3, 6, 0],
    [2, 4, 6, 0, 3, 1, 7, 5], [2, 4, 7, 3, 0, 6, 1, 5], [2, 5, 1, 4, 7, 0, 6, 3],
    [2, 5, 1, 6, 0, 3, 7, 4], [2, 5, 1, 6, 4, 0, 7, 3]
  ]

  const EightFrom2High: seq<seq<int>> := [
    [2, 5, 3, 0, 7, 4, 6, 1], [2, 5, 3, 1, 7, 4, 6, 0], [2, 5, 7, 0, 3, 6, 4, 1],
    [2, 5, 7, 0, 4, 6, 1, 3], [2, 5, 7, 1, 3, 0, 6, 4], [2, 6, 1, 7, 4, 0, 3, 5],
    [2, 6, 1, 7, 5, 3, 0, 4], [2, 7, 3, 6, 0, 5, 1, 4]
  ]

  /** The solutions starting in column 3, split in two halves for the proof. */
  const EightFrom3Low: seq<seq<int>> := [
    [3, 0, 4, 7, 1, 6, 2, 5], [3, 0, 4, 7, 5, 2, 6, 1], [3, 1, 4, 7, 5, 0, 2, 6],
    [3, 1, 6, 2, 5, 7, 0, 4], [3, 1, 6, 2, 5, 7, 4, 0], [3, 1, 6, 4, 0, 7, 5, 2],
    [3, 1, 7, 4, 6, 0, 2, 5], [3, 1, 7, 5, 0, 2, 4, 6], [3, 5, 0, 4, 1, 7, 2, 6]
  ]

  const EightFrom3High: seq<seq<int>> := [
    [3, 5, 7, 1, 6, 0, 2, 4], [3, 5, 7, 2, 0, 6, 4, 1], [3, 6, 0, 7, 4, 1, 5, 2],
    [3, 6, 2, 7, 1, 4, 0, 5], [3, 6, 4, 1, 5, 0, 2, 7], [3, 6, 4, 2, 0, 5, 7, 1],
    [3, 7, 0, 2, 5, 1, 6, 4], [3, 7, 0, 4, 6, 1, 5, 2], [3, 7, 4, 2, 0, 6, 1, 5]
  ]

  // ---------------------------------------------------------------------
  // From a list of exactly the solutions to the count.

  /** A repeat-free list of exactly the solutions holds the placements the
      search reports, and as many. */
  lemma ListedExactly(n: nat, xs: seq<seq<int>>)
    requires NoDup(xs)
    requires forall s :: s in xs <==> Valid(n, s)
    ensures forall s :: s in AllSolutions(n) <==> s in xs
    ensures |AllSolutions(n)| == |xs|
  {
    AllSolutionsExactly(n);
    CompletionsNoDup(n, []);
    SameElementsSameLength(AllSolutions(n), xs);
  }

  /** The same for the solutions whose first queen is in column c. */
  lemma ListedColumn(n: nat, c: nat, xs: seq<seq<int>>)
    requires c < n
    requires NoDup(xs)
    requires forall s :: s in xs <==> Valid(n, s) && s[0] == c
    ensures |Completions(n, [c])| == |xs|
  {
    FirstColumnExactly(n, c);
    CompletionsNoDup(n, [c]);
    SameElementsSameLength(Completions(n, [c]), xs);
  }

  /** The first-row search over the columns 0..k-1 reports the solutions of
      each of those columns in turn. */
  lemma {:induction false} FirstRowLength(n: nat, k: nat)
    requires 0 < k <= n
    ensures |Branches(n, [], 0, k)| == |Branches(n, [], 0, k - 1)| + |Completions(n, [k - 1])|
  {
    BranchesSplit(n, [], 0, k - 1, k);
    BranchesSingle(n, [], k - 1);
    assert [] + [k - 1] == [k - 1];
  }

  // ---------------------------------------------------------------------
  // `Valid` without quantifiers, for a fixed board size.

  /** Two queens d rows apart share neither a column nor a diagonal. */
  predicate Apart(x: int, y: int, d: int) {
    x != y && x - y != d && y - x != d
  }

  /** Placements whose row pairs are all apart are conflict free. */
  lemma ApartConflictFree(s: seq<int>)
    requires forall i, j :: 0 <= i < j < |s| ==> Apart(s[i], s[j], j - i)
    ensures ConflictFree(s)
  {
    forall i, j | 0 <= i < j < |s| ensures s[i] != s[j] && Abs(s[i] - s[j]) != j - i {
      ApartAbs(s[i], s[j], j - i);
    }
  }

  lemma ApartAbs(x: int, y: int, d: int)
    requires Apart(x, y, d)
    ensures x != y && Abs(x - y) != d
  {
  }

  /** `Valid(4, s)` written out entry by entry and row pair by row pair. */
  predicate Rows4(s: seq<int>) {
    |s| == 4 &&
    0 <= s[0] < 4 && 0 <= s[1] < 4 && 0 <= s[2] < 4 && 0 <= s[3] < 4 &&
    Apart(s[0], s[1], 1) && Apart(s[0], s[2], 2) && Apart(s[0], s[3], 3) && Apart(s[1], s[2], 1) &&
    Apart(s[1], s[3], 2) && Apart(s[2], s[3], 1)
  }

  lemma ValidRows4(s: seq<int>)
    requires Valid(4, s)
    ensures Rows4(s)
  {
    forall i | 0 <= i < 4 ensures 0 <= s[i] < 4 { }
    forall i, j | 0 <= i < j < 4 ensures Apart(s[i], s[j], j - i) { }
  }

  lemma RowsValid4(s: seq<int>)
    requires Rows4(s)
    ensures Valid(4, s)
  {
    RowsInRange4(s);
    RowsConflictFree4(s);
  }

  lemma RowsInRange4(s: seq<int>)
    requires Rows4(s)
    ensures InRange(4, s)
  {
    forall i | 0 <= i < 4 ensures 0 <= s[i] < 4 {
      if i <= 0 { assert i == 0; }
      else if i <= 1 { assert i == 1; }
      else if i <= 2 { assert i == 2; }
      else { assert i == 3; }
    }
  }

  lemma RowsConflictFree4(s: seq<int>)
    requires Rows4(s)
    ensures ConflictFree(s)
  {
    forall i, j | 0 <= i < j < 4 ensures Apart(s[i], s[j], j - i) {
      RowApart4(s, i, j);
    }
    ApartConflictFree(s);
  }

  lemma RowApart4(s: seq<int>, i: int, j: int)
    requires Rows4(s) && 0 <= i < j < 4
    ensures Apart(s[i], s[j], j - i)
  {
    if i <= 0 {
      if j <= 1 { assert i == 0 && j == 1; }
      else if j <= 2 { assert i == 0 && j == 2; }
      else { assert i == 0 && j == 3; }
    }
    else if i <= 1 {
      if j <= 2 { assert i == 1 && j == 2; }
      else { assert i == 1 && j == 3; }
    }
    else {
      assert i == 2 && j == 3;
    }
  }

  /** `Valid(5, s)` written out entry by entry and row pair by row pair. */
  predicate Rows5(s: seq<int>) {
    |s| == 5 &&
    0 <= s[0] < 5 && 0 <= s[1] < 5 && 0 <= s[2] < 5 && 0 <= s[3] < 5 && 0 <= s[4] < 5 &&
    Apart(s[0], s[1], 1) && Apart(s[0], s[2], 2) && Apart(s[0], s[3], 3) && Apart(s[0], s[4], 4) &&
    Apart(s[1], s[2], 1) && Apart(s[1], s[3], 2) && Apart(s[1], s[4], 3) && Apart(s[2], s[3], 1) &&
    Apart(s[2], s[4], 2) && Apart(s[3], s[4], 1)
  }

  lemma ValidRows5(s: seq<int>)
    requires Valid(5, s)
    ensures Rows5(s)
  {
    forall i | 0 <= i < 5 ensures 0 <= s[i] < 5 { }
    forall i, j | 0 <= i < j < 5 ensures Apart(s[i], s[j], j - i) { }
  }

  lemma RowsValid5(s: seq<int>)
    requires Rows5(s)
    ensures Valid(5, s)
  {
    RowsInRange5(s);
    RowsConflictFree5(s);
  }

  lemma RowsInRange5(s: seq<int>)
    requires Rows5(s)
    ensures InRange(5, s)
  {
    forall i | 0 <= i < 5 ensures 0 <= s[i] < 5 {
      if i <= 0 { assert i == 0; }
      else if i <= 1 { assert i == 1; }
      else if i <= 2 { assert i == 2; }
      else if i <= 3 { assert i == 3; }
      else { assert i == 4; }
    }
  }

  lemma RowsConflictFree5(s: seq<int>)
    requires Rows5(s)
    ensures ConflictFree(s)
  {
    forall i, j | 0 <= i < j < 5 ensures Apart(s[i], s[j], j - i) {
      RowApart5(s, i, j);
    }
    ApartConflictFree(s);
  }

  lemma RowApart5(s: seq<int>, i: int, j: int)
    requires Rows5(s) && 0 <= i < j < 5
    ensures Apart(s[i], s[j], j - i)
  {
    if i <= 0 {
      if j <= 1 { assert i == 0 && j == 1; }
      else if j <= 2 { assert i == 0 && j == 2; }
      else if j <= 3 { assert i == 0 && j == 3; }
      else { assert i == 0 && j == 4; }
    }
    else if i <= 1 {
      if j <= 2 { assert i == 1 && j == 2; }
      else if j <= 3 { assert i == 1 && j == 3; }
      else { assert i == 1 && j == 4; }
    }
    else if i <= 2 {
      if j <= 3 { assert i == 2 && j == 3; }
      else { assert i == 2 && j == 4; }
    }
    else {
      assert i == 3 && j == 4;
    }
  }

  /** `Valid(6, s)` written out entry by entry and row pair by row pair. */
  predicate Rows6(s: seq<int>) {
    |s| == 6 &&
    0 <= s[0] < 6 && 0 <= s[1] < 6 && 0 <= s[2] < 6 && 0 <= s[3] < 6 && 0 <= s[4] < 6 && 0 <= s[5] < 6 &&
    Apart(s[0], s[1], 1) && Apart(s[0], s[2], 2) && Apart(s[0], s[3], 3) && Apart(s[0], s[4], 4) &&
    Apart(s[0], s[5], 5) && Apart(s[1], s[2], 1) && Apart(s[1], s[3], 2) && Apart(s[1], s[4], 3) &&
    Apart(s[1], s[5], 4) && Apart(s[2], s[3], 1) && Apart(s[2], s[4], 2) && Apart(s[2], s[5], 3) &&
    Apart(s[3], s[4], 1) && Apart(s[3], s[5], 2) && Apart(s[4], s[5], 1)
  }

  lemma ValidRows6(s: seq<int>)
    requires Valid(6, s)
    ensures Rows6(s)
  {
    forall i | 0 <= i < 6 ensures 0 <= s[i] < 6 { }
    forall i, j | 0 <= i < j < 6 ensures Apart(s[i], s[j], j - i) { }
  }

  lemma RowsValid6(s: seq<int>)
    requires Rows6(s)
    ensures Valid(6, s)
  {
    RowsInRange6(s);
    RowsConflictFree6(s);
  }

  lemma RowsInRange6(s: seq<int>)
    requires Rows6(s)
    ensures InRange(6, s)
  {
    forall i | 0 <= i < 6 ensures 0 <= s[i] < 6 {
      if i <= 0 { assert i == 0; }
      else if i <= 1 { assert i == 1; }
      else if i <= 2 { assert i == 2; }
      else if i <= 3 { assert i == 3; }
      else if i <= 4 { assert i == 4; }
      else { assert i == 5; }
    }
  }

  lemma RowsConflictFree6(s: seq<int>)
    requires Rows6(s)
    ensures ConflictFree(s)
  {
    forall i, j | 0 <= i < j < 6 ensures Apart(s[i], s[j], j - i) {
      RowApart6(s, i, j);
    }
    ApartConflictFree(s);
  }

  lemma RowApart6(s: seq<int>, i: int, j: int)
    requires Rows6(s) && 0 <= i < j < 6
    ensures Apart(s[i], s[j], j - i)
  {
    if i <= 0 {
      if j <= 1 { assert i == 0 && j == 1; }
      else if j <= 2 { assert i == 0 && j == 2; }
      else if j <= 3 { assert i == 0 && j == 3; }
      else if j <= 4 { assert i == 0 && j == 4; }
      else { assert i == 0 && j == 5; }
    }
    else if i <= 1 {
      if j <= 2 { assert i == 1 && j == 2; }
      else if j <= 3 { assert i == 1 && j == 3; }
      else if j <= 4 { assert i == 1 && j == 4; }
      else { assert i == 1 && j == 5; }
    }
    else if i <= 2 {
      if j <= 3 { assert i == 2 && j == 3; }
      else if j <= 4 { assert i == 2 && j == 4; }
      else { assert i == 2 && j == 5; }
    }
    else if i <= 3 {
      if j <= 4 { assert i == 3 && j == 4; }
      else { assert i == 3 && j == 5; }
    }
    else {
      assert i == 4 && j == 5;
    }
  }

  /** `Valid(7, s)` written out entry by entry and row pair by row pair. */
  predicate Rows7(s: seq<int>) {
    |s| == 7 &&
    0 <= s[0] < 7 && 0 <= s[1] < 7 && 0 <= s[2] < 7 && 0 <= s[3] < 7 && 0 <= s[4] < 7 && 0 <= s[5] < 7 && 0 <= s[6] < 7 &&
    Apart(s[0], s[1], 1) && Apart(s[0], s[2], 2) && Apart(s[0], s[3], 3) && Apart(s[0], s[4], 4) &&
    Apart(s[0], s[5], 5) && Apart(s[0], s[6], 6) && Apart(s[1], s[2], 1) && Apart(s[1], s[3], 2) &&
    Apart(s[1], s[4], 3) && Apart(s[1], s[5], 4) && Apart(s[1], s[6], 5) && Apart(s[2], s[3], 1) &&
    Apart(s[2], s[4], 2) && Apart(s[2], s[5], 3) && Apart(s[2], s[6], 4) && Apart(s[3], s[4], 1) &&
    Apart(s[3], s[5], 2) && Apart(s[3], s[6], 3) && Apart(s[4], s[5], 1) && Apart(s[4], s[6], 2) &&
    Apart(s[5], s[6], 1)
  }

  lemma ValidRows7(s: seq<int>)
    requires Valid(7, s)
    ensures Rows7(s)
  {
    forall i | 0 <= i < 7 ensures 0 <= s[i] < 7 { }
    forall i, j | 0 <= i < j < 7 ensures Apart(s[i], s[j], j - i) { }
  }

  lemma RowsValid7(s: seq<int>)
    requires Rows7(s)
    ensures Valid(7, s)
  {
    RowsInRange7(s);
    RowsConflictFree7(s);
  }

  lemma RowsInRange7(s: seq<int>)
    requires Rows7(s)
    ensures InRange(7, s)
  {
    forall i | 0 <= i < 7 ensures 0 <= s[i] < 7 {
      if i <= 0 { assert i == 0; }
      else if i <= 1 { assert i == 1; }
      else if i <= 2 { assert i == 2; }
      else if i <= 3 { assert i == 3; }
      else if i <= 4 { assert i == 4; }
      else if i <= 5 { assert i == 5; }
      else { assert i == 6; }
    }
  }

  lemma RowsConflictFree7(s: seq<int>)
    requires Rows7(s)
    ensures ConflictFree(s)
  {
    forall i, j | 0 <= i < j < 7 ensures Apart(s[i], s[j], j - i) {
      RowApart7(s, i, j);
    }
    ApartConflictFree(s);
  }

  lemma RowApart7(s: seq<int>, i: int, j: int)
    requires Rows7(s) && 0 <= i < j < 7
    ensures Apart(s[i], s[j], j - i)
  {
    if i <= 0 {
      if j <= 1 { assert i == 0 && j == 1; }
      else if j <= 2 { assert i == 0 && j == 2; }
      else if j <= 3 { assert i == 0 && j == 3; }
      else if j <= 4 { assert i == 0 && j == 4; }
      else if j <= 5 { assert i == 0 && j == 5; }
      else { assert i == 0 && j == 6; }
    }
    else if i <= 1 {
      if j <= 2 { assert i == 1 && j == 2; }
      else if j <= 3 { assert i == 1 && j == 3; }
      else if j <= 4 { assert i == 1 && j == 4; }
      else if j <= 5 { assert i == 1 && j == 5; }
      else { assert i == 1 && j == 6; }
    }
    else if i <= 2 {
      if j <= 3 { assert i == 2 && j == 3; }
      else if j <= 4 { assert i == 2 && j == 4; }
      else if j <= 5 { assert i == 2 && j == 5; }
      else { assert i == 2 && j == 6; }
    }
    else if i <= 3 {
      if j <= 4 { assert i == 3 && j == 4; }
      else if j <= 5 { assert i == 3 && j == 5; }
      else { assert i == 3 && j == 6; }
    }
    else if i <= 4 {
      if j <= 5 { assert i == 4 && j == 5; }
      else { assert i == 4 && j == 6; }
    }
    else {
      assert i == 5 && j == 6;
    }
  }

  /** `Valid(8, s)` written out entry by entry and row pair by row pair. */
  predicate Rows8(s: seq<int>) {
    |s| == 8 &&
    0 <= s[0] < 8 && 0 <= s[1] < 8 && 0 <= s[2] < 8 && 0 <= s[3] < 8 && 0 <= s[4] < 8 && 0 <= s[5] < 8 && 0 <= s[6] < 8 && 0 <= s[7] < 8 &&
    Apart(s[0], s[1], 1) && Apart(s[0], s[2], 2) && Apart(s[0], s[3], 3) && Apart(s[0], s[4], 4) &&
    Apart(s[0], s[5], 5) && Apart(s[0], s[6], 6) && Apart(s[0], s[7], 7) && Apart(s[1], s[2], 1) &&
    Apart(s[1], s[3], 2) && Apart(s[1], s[4], 3) && Apart(s[1], s[5], 4) && Apart(s[1], s[6], 5) &&
    Apart(s[1], s[7], 6) && Apart(s[2], s[3], 1) && Apart(s[2], s[4], 2) && Apart(s[2], s[5], 3) &&
    Apart(s[2], s[6], 4) && Apart(s[2], s[7], 5) && Apart(s[3], s[4], 1) && Apart(s[3], s[5], 2) &&
    Apart(s[3], s[6], 3) && Apart(s[3], s[7], 4) && Apart(s[4], s[5], 1) && Apart(s[4], s[6], 2) &&
    Apart(s[4], s[7], 3) && Apart(s[5], s[6], 1) && Apart(s[5], s[7], 2) && Apart(s[6], s[7], 1)
  }

  lemma ValidRows8(s: seq<int>)
    requires Valid(8, s)
    ensures Rows8(s)
  {
    forall i | 0 <= i < 8 ensures 0 <= s[i] < 8 { }
    forall i, j | 0 <= i < j < 8 ensures Apart(s[i], s[j], j - i) { }
  }

  lemma RowsValid8(s: seq<int>)
    requires Rows8(s)
    ensures Valid(8, s)
  {
    RowsInRange8(s);
    RowsConflictFree8(s);
  }

  lemma RowsInRange8(s: seq<int>)
    requires Rows8(s)
    ensures InRange(8, s)
  {
    forall i | 0 <= i < 8 ensures 0 <= s[i] < 8 {
      if i <= 0 { assert i == 0; }
      else if i <= 1 { assert i == 1; }
      else if i <= 2 { assert i == 2; }
      else if i <= 3 { assert i == 3; }
      else if i <= 4 { assert i == 4; }
      else if i <= 5 { assert i == 5; }
      else if i <= 6 { assert i == 6; }
      else { assert i == 7; }
    }
  }

  lemma RowsConflictFree8(s: seq<int>)
    requires Rows8(s)
    ensures ConflictFree(s)
  {
    forall i, j | 0 <= i < j < 8 ensures Apart(s[i], s[j], j - i) {
      RowApart8(s, i, j);
    }
    ApartConflictFree(s);
  }

  lemma RowApart8(s: seq<int>, i: int, j: int)
    requires Rows8(s) && 0 <= i < j < 8
    ensures Apart(s[i], s[j], j - i)
  {
    if i <= 0 {
      if j <= 1 { assert i == 0 && j == 1; }
      else if j <= 2 { assert i == 0 && j == 2; }
      else if j <= 3 { assert i == 0 && j == 3; }
      else if j <= 4 { assert i == 0 && j == 4; }
      else if j <= 5 { assert i == 0 && j == 5; }
      else if j <= 6 { assert i == 0 && j == 6; }
      else { assert i == 0 && j == 7; }
    }
    else if i <= 1 {
      if j <= 2 { assert i == 1 && j == 2; }
      else if j <= 3 { assert i == 1 && j == 3; }
      else if j <= 4 { assert i == 1 && j == 4; }
      else if j <= 5 { assert i == 1 && j == 5; }
      else if j <= 6 { assert i == 1 && j == 6; }
      else { assert i == 1 && j == 7; }
    }
    else if i <= 2 {
      if j <= 3 { assert i == 2 && j == 3; }
      else if j <= 4 { assert i == 2 && j == 4; }
      else if j <= 5 { assert i == 2 && j == 5; }
      else if j <= 6 { assert i == 2 && j == 6; }
      else { assert i == 2 && j == 7; }
    }
    else if i <= 3 {
      if j <= 4 { assert i == 3 && j == 4; }
      else if j <= 5 { assert i == 3 && j == 5; }
      else if j <= 6 { assert i == 3 && j == 6; }
      else { assert i == 3 && j == 7; }
    }
    else if i <= 4 {
      if j <= 5 { assert i == 4 && j == 5; }
      else if j <= 6 { assert i == 4 && j == 6; }
      else { assert i == 4 && j == 7; }
    }
    else if i <= 5 {
      if j <= 6 { assert i == 5 && j == 6; }
      else { assert i == 5 && j == 7; }
    }
    else {
      assert i == 6 && j == 7;
    }
  }

  // ---------------------------------------------------------------------
  // Boards of size 4, 5 and 6: one case split over the whole placement.

  lemma FourListed(s: seq<int>)
    requires Rows4(s)
    ensures s in Four
  {
    assert s == [s[0], s[1], s[2], s[3]];
  }

  /** The 4 x 4 board has exactly the 2 solutions listed in `Four`. */
  lemma CountFour()
    ensures forall s :: s in AllSolutions(4) <==> s in Four
    ensures |AllSolutions(4)| == 2
  {
    forall s | Valid(4, s) ensures s in Four {
      ValidRows4(s);
      FourListed(s);
    }
    forall s | s in Four ensures Valid(4, s) {
      RowsValid4(s);
    }
    ListedExactly(4, Four);
  }

  lemma FiveListed(s: seq<int>)
    requires Rows5(s)
    ensures s in Five
  {
    assert s == [s[0], s[1], s[2], s[3], s[4]];
  }

  /** The 5 x 5 board has exactly the 10 solutions listed in `Five`. */
  lemma CountFive()
    ensures forall s :: s in AllSolutions(5) <==> s in Five
    ensures |AllSolutions(5)| == 10
  {
    forall s | Valid(5, s) ensures s in Five {
      ValidRows5(s);
      FiveListed(s);
    }
    forall s | s in Five ensures Valid(5, s) {
      RowsValid5(s);
    }
    ListedExactly(5, Five);
  }

  lemma SixListed(s: seq<int>)
    requires Rows6(s)
    ensures s in Six
  {
    assert s == [s[0], s[1], s[2], s[3], s[4], s[5]];
  }

  /** The 6 x 6 board has exactly the 4 solutions listed in `Six`. */
  lemma CountSix()
    ensures forall s :: s in AllSolutions(6) <==> s in Six
    ensures |AllSolutions(6)| == 4
  {
    forall s | Valid(6, s) ensures s in Six {
      ValidRows6(s);
      SixListed(s);
    }
    forall s | s in Six ensures Valid(6, s) {
      RowsValid6(s);
    }
    ListedExactly(6, Six);
  }

  // ---------------------------------------------------------------------
  // The 7 x 7 board: one case split per first column.

  lemma SevenAt0(s: seq<int>)
    requires Rows7(s) && s[0] == 0
    ensures s in SevenFrom[0]
  {
    assert s == [s[0], s[1], s[2], s[3], s[4], s[5], s[6]];
  }

  lemma SevenAt1(s: seq<int>)
    requires Rows7(s) && s[0] == 1
    ensures s in SevenFrom[1]
  {
    assert s == [s[0], s[1], s[2], s[3], s[4], s[5], s[6]];
  }

  lemma SevenAt2(s: seq<int>)
    requires Rows7(s) && s[0] == 2
    ensures s in SevenFrom[2]
  {
    assert s == [s[0], s[1], s[2], s[3], s[4], s[5], s[6]];
  }

  lemma SevenAt3(s: seq<int>)
    requires Rows7(s) && s[0] == 3
    ensures s in SevenFrom[3]
  {
    assert s == [s[0], s[1], s[2], s[3], s[4], s[5], s[6]];
  }

  lemma SevenColumn(c: nat)
    requires c < 4
    ensures |Completions(7, [c])| == |SevenFrom[c]|
  {
    SevenComplete(c);
    SevenChecked(c);
    ListedColumn(7, c, SevenFrom[c]);
  }

  lemma SevenComplete(c: nat)
    requires c < 4
    ensures forall s :: Valid(7, s) && s[0] == c ==> s in SevenFrom[c]
  {
    if c <= 0 { SevenComplete0(); }
    else if c <= 1 { SevenComplete1(); }
    else if c <= 2 { SevenComplete2(); }
    else { SevenComplete3(); }
  }

  lemma SevenComplete0()
    ensures forall s :: Valid(7, s) && s[0] == 0 ==> s in SevenFrom[0]
  {
    forall s | Valid(7, s) && s[0] == 0 ensures s in SevenFrom[0] {
      ValidRows7(s);
      SevenAt0(s);
    }
  }

  lemma SevenComplete1()
    ensures forall s :: Valid(7, s) && s[0] == 1 ==> s in SevenFrom[1]
  {
    forall s | Valid(7, s) && s[0] == 1 ensures s in SevenFrom[1] {
      ValidRows7(s);
      SevenAt1(s);
    }
  }

  lemma SevenComplete2()
    ensures forall s :: Valid(7, s) && s[0] == 2 ==> s in SevenFrom[2]
  {
    forall s | Valid(7, s) && s[0] == 2 ensures s in SevenFrom[2] {
      ValidRows7(s);
      SevenAt2(s);
    }
  }

  lemma SevenComplete3()
    ensures forall s :: Valid(7, s) && s[0] == 3 ==> s in SevenFrom[3]
  {
    forall s | Valid(7, s) && s[0] == 3 ensures s in SevenFrom[3] {
      ValidRows7(s);
      SevenAt3(s);
    }
  }

  lemma SevenChecked(c: nat)
    requires c < 4
    ensures NoDup(SevenFrom[c])
    ensures forall s :: s in SevenFrom[c] ==> Valid(7, s) && s[0] == c
  {
    if c <= 0 { SevenChecked0(); }
    else if c <= 1 { SevenChecked1(); }
    else if c <= 2 { SevenChecked2(); }
    else { SevenChecked3(); }
  }

  lemma SevenChecked0()
    ensures NoDup(SevenFrom[0])
    ensures forall s :: s in SevenFrom[0] ==> Valid(7, s) && s[0] == 0
  {
    SevenDistinct0();
    forall s | s in SevenFrom[0] ensures Valid(7, s) && s[0] == 0 {
      RowsValid7(s);
    }
  }

  lemma SevenDistinct0()
    ensures NoDup(SevenFrom[0])
  {
  }

  lemma SevenChecked1()
    ensures NoDup(SevenFrom[1])
    ensures forall s :: s in SevenFrom[1] ==> Valid(7, s) && s[0] == 1
  {
    SevenDistinct1();
    forall s | s in SevenFrom[1] ensures Valid(7, s) && s[0] == 1 {
      RowsValid7(s);
    }
  }

  lemma SevenDistinct1()
    ensures NoDup(SevenFrom[1])
  {
  }

  lemma SevenChecked2()
    ensures NoDup(SevenFrom[2])
    ensures forall s :: s in SevenFrom[2] ==> Valid(7, s) && s[0] == 2
  {
    SevenDistinct2();
    forall s | s in SevenFrom[2] ensures Valid(7, s) && s[0] == 2 {
      RowsValid7(s);
    }
  }

  lemma SevenDistinct2()
    ensures NoDup(SevenFrom[2])
  {
  }

  lemma SevenChecked3()
    ensures NoDup(SevenFrom[3])
    ensures forall s :: s in SevenFrom[3] ==> Valid(7, s) && s[0] == 3
  {
    SevenDistinct3();
    forall s | s in SevenFrom[3] ensures Valid(7, s) && s[0] == 3 {
      RowsValid7(s);
    }
  }

  lemma SevenDistinct3()
    ensures NoDup(SevenFrom[3])
  {
  }

  /** The 7 x 7 board has 40 solutions: twice the 17 starting in columns
      0..2, and the 6 starting in the centre column. */
  lemma CountSeven()
    ensures |AllSolutions(7)| == 40
  {
    SevenColumn(0);
    SevenColumn(1);
    SevenColumn(2);
    SevenColumn(3);
    FirstRowLength(7, 1);
    FirstRowLength(7, 2);
    FirstRowLength(7, 3);
    FirstRowLength(7, 4);
    SymmetricCount(7);
  }

  // ---------------------------------------------------------------------
  // The 8 x 8 board: one case split per column range of the second row.

  lemma EightAt04(s: seq<int>)
    requires Rows8(s) && s[0] == 0 && s[1] <= 4
    ensures s in EightFrom[0]
  {
    assert s == [s[0], s[1], s[2], s[3], s[4], s[5], s[6], s[7]];
  }

  lemma EightAt05(s: seq<int>)
    requires Rows8(s) && s[0] == 0 && 4 < s[1] && s[1] <= 5
    ensures s in EightFrom[0]
  {
    assert s == [s[0], s[1], s[2], s[3], s[4], s[5], s[6], s[7]];
  }

  lemma EightAt06(s: seq<int>)
    requires Rows8(s) && s[0] == 0 && 5 < s[1]
    ensures s in EightFrom[0]
  {
    assert s == [s[0], s[1], s[2], s[3], s[4], s[5], s[6], s[7]];
  }

  lemma EightAt0(s: seq<int>)
    requires Rows8(s) && s[0] == 0
    ensures s in EightFrom[0]
  {
    if s[1] <= 4 { EightAt04(s); }
    else if s[1] <= 5 { EightAt05(s); }
    else { EightAt06(s); }
  }

  lemma EightAt13(s: seq<int>)
    requires Rows8(s) && s[0] == 1 && s[1] <= 3
    ensures s in EightFrom[1]
  {
    assert s == [s[0], s[1], s[2], s[3], s[4], s[5], s[6], s[7]];
  }

  lemma EightAt14(s: seq<int>)
    requires Rows8(s) && s[0] == 1 && 3 < s[1] && s[1] <= 4
    ensures s in EightFrom[1]
  {
    assert s == [s[0], s[1], s[2], s[3], s[4], s[5], s[6], s[7]];
  }

  lemma EightAt15(s: seq<int>)
    requires Rows8(s) && s[0] == 1 && 4 < s[1] && s[1] <= 5
    ensures s in EightFrom[1]
  {
    assert s == [s[0], s[1], s[2], s[3], s[4], s[5], s[6], s[7]];
  }

  lemma EightAt16(s: seq<int>)
    requires Rows8(s) && s[0] == 1 && 5 < s[1] && s[1] <= 6
    ensures s in EightFrom[1]
  {
    assert s == [s[0], s[1], s[2], s[3], s[4], s[5], s[6], s[7]];
  }

  lemma EightAt17(s: seq<int>)
    requires Rows8(s) && s[0] == 1 && 6 < s[1]
    ensures s in EightFrom[1]
  {
    assert s == [s[0], s[1], s[2], s[3], s[4], s[5], s[6], s[7]];
  }

  lemma EightAt1(s: seq<int>)
    requires Rows8(s) && s[0] == 1
    ensures s in EightFrom[1]
  {
    if s[1] <= 3 { EightAt13(s); }
    else if s[1] <= 4 { EightAt14(s); }
    else if s[1] <= 5 { EightAt15(s); }
    else if s[1] <= 6 { EightAt16(s); }
    else { EightAt17(s); }
  }

  lemma EightAt20(s: seq<int>)
    requires Rows8(s) && s[0] == 2 && s[1] <= 0
    ensures s in EightFrom[2]
  {
    assert s == [s[0], s[1], s[2], s[3], s[4], s[5], s[6], s[7]];
  }

  lemma EightAt24(s: seq<int>)
    requires Rows8(s) && s[0] == 2 && 0 < s[1] && s[1] <= 4
    ensures s in EightFrom[2]
  {
    assert s == [s[0], s[1], s[2], s[3], s[4], s[5], s[6], s[7]];
  }

  lemma EightAt25(s: seq<int>)
    requires Rows8(s) && s[0] == 2 && 4 < s[1] && s[1] <= 5
    ensures s in EightFrom[2]
  {
    assert s == [s[0], s[1], s[2], s[3], s[4], s[5], s[6], s[7]];
  }

  lemma EightAt26(s: seq<int>)
    requires Rows8(s) && s[0] == 2 && 5 < s[1] && s[1] <= 6
    ensures s in EightFrom[2]
  {
    assert s == [s[0], s[1], s[2], s[3], s[4], s[5], s[6], s[7]];
  }

  lemma EightAt27(s: seq<int>)
    requires Rows8(s) && s[0] == 2 && 6 < s[1]
    ensures s in EightFrom[2]
  {
    assert s == [s[0], s[1], s[2], s[3], s[4], s[5], s[6], s[7]];
  }

  lemma EightAt2(s: seq<int>)
    requires Rows8(s) && s[0] == 2
    ensures s in EightFrom[2]
  {
    if s[1] <= 0 { EightAt20(s); }
    else if s[1] <= 4 { EightAt24(s); }
    else if s[1] <= 5 { EightAt25(s); }
    else if s[1] <= 6 { EightAt26(s); }
    else { EightAt27(s); }
  }

  lemma EightAt30(s: seq<int>)
    requires Rows8(s) && s[0] == 3 && s[1] <= 0
    ensures s in EightFrom[3]
  {
    assert s == [s[0], s[1], s[2], s[3], s[4], s[5], s[6], s[7]];
  }

  lemma EightAt31(s: seq<int>)
    requires Rows8(s) && s[0] == 3 && 0 < s[1] && s[1] <= 1
    ensures s in EightFrom[3]
  {
    assert s == [s[0], s[1], s[2], s[3], s[4], s[5], s[6], s[7]];
  }

  lemma EightAt35(s: seq<int>)
    requires Rows8(s) && s[0] == 3 && 1 < s[1] && s[1] <= 5
    ensures s in EightFrom[3]
  {
    assert s == [s[0], s[1], s[2], s[3], s[4], s[5], s[6], s[7]];
  }

  lemma EightAt36(s: seq<int>)
    requires Rows8(s) && s[0] == 3 && 5 < s[1] && s[1] <= 6
    ensures s in EightFrom[3]
  {
    assert s == [s[0], s[1], s[2], s[3], s[4], s[5], s[6], s[7]];
  }

  lemma EightAt37(s: seq<int>)
    requires Rows8(s) && s[0] == 3 && 6 < s[1]
    ensures s in EightFrom[3]
  {
    assert s == [s[0], s[1], s[2], s[3], s[4], s[5], s[6], s[7]];
  }

  lemma EightAt3(s: seq<int>)
    requires Rows8(s) && s[0] == 3
    ensures s in EightFrom[3]
  {
    if s[1] <= 0 { EightAt30(s); }
    else if s[1] <= 1 { EightAt31(s); }
    else if s[1] <= 5 { EightAt35(s); }
    else if s[1] <= 6 { EightAt36(s); }
    else { EightAt37(s); }
  }

  lemma EightColumn(c: nat)
    requires c < 4
    ensures |Completions(8, [c])| == |EightFrom[c]|
  {
    EightComplete(c);
    EightChecked(c);
    ListedColumn(8, c, EightFrom[c]);
  }

  lemma EightComplete(c: nat)
    requires c < 4
    ensures forall s :: Valid(8, s) && s[0] == c ==> s in EightFrom[c]
  {
    if c <= 0 { EightComplete0(); }
    else if c <= 1 { EightComplete1(); }
    else if c <= 2 { EightComplete2(); }
    else { EightComplete3(); }
  }

  lemma EightComplete0()
    ensures forall s :: Valid(8, s) && s[0] == 0 ==> s in EightFrom[0]
  {
    forall s | Valid(8, s) && s[0] == 0 ensures s in EightFrom[0] {
      ValidRows8(s);
      EightAt0(s);
    }
  }

  lemma EightComplete1()
    ensures forall s :: Valid(8, s) && s[0] == 1 ==> s in EightFrom[1]
  {
    forall s | Valid(8, s) && s[0] == 1 ensures s in EightFrom[1] {
      ValidRows8(s);
      EightAt1(s);
    }
  }

  lemma EightComplete2()
    ensures forall s :: Valid(8, s) && s[0] == 2 ==> s in EightFrom[2]
  {
    forall s | Valid(8, s) && s[0] == 2 ensures s in EightFrom[2] {
      ValidRows8(s);
      EightAt2(s);
    }
  }

  lemma EightComplete3()
    ensures forall s :: Valid(8, s) && s[0] == 3 ==> s in EightFrom[3]
  {
    forall s | Valid(8, s) && s[0] == 3 ensures s in EightFrom[3] {
      ValidRows8(s);
      EightAt3(s);
    }
  }

  lemma EightChecked(c: nat)
    requires c < 4
    ensures NoDup(EightFrom[c])
    ensures forall s :: s in EightFrom[c] ==> Valid(8, s) && s[0] == c
  {
    if c <= 0 { EightChecked0(); }
    else if c <= 1 { EightChecked1(); }
    else if c <= 2 { EightChecked2(); }
    else { EightChecked3(); }
  }

  lemma EightChecked0()
    ensures NoDup(EightFrom[0])
    ensures forall s :: s in EightFrom[0] ==> Valid(8, s) && s[0] == 0
  {
    EightDistinct0();
    forall s | s in EightFrom[0] ensures Valid(8, s) && s[0] == 0 {
      RowsValid8(s);
    }
  }

  lemma EightDistinct0()
    ensures NoDup(EightFrom[0])
  {
  }

  lemma EightChecked1()
    ensures NoDup(EightFrom[1])
    ensures forall s :: s in EightFrom[1] ==> Valid(8, s) && s[0] == 1
  {
    EightDistinct1();
    forall s | s in EightFrom[1] ensures Valid(8, s) && s[0] == 1 {
      RowsValid8(s);
    }
  }

  lemma EightDistinct1()
    ensures NoDup(EightFrom[1])
  {
  }

  lemma EightChecked2()
    ensures NoDup(EightFrom[2])
    ensures forall s :: s in EightFrom[2] ==> Valid(8, s) && s[0] == 2
  {
    EightDistinct2();
    EightPlaced2Low();
    EightPlaced2High();
  }

  lemma EightPlaced2Low()
    ensures forall s :: s in EightFrom2Low ==> Valid(8, s) && s[0] == 2
  {
    forall s | s in EightFrom2Low ensures Valid(8, s) && s[0] == 2 {
      RowsValid8(s);
    }
  }

  lemma EightPlaced2High()
    ensures forall s :: s in EightFrom2High ==> Valid(8, s) && s[0] == 2
  {
    forall s | s in EightFrom2High ensures Valid(8, s) && s[0] == 2 {
      RowsValid8(s);
    }
  }

  lemma EightDistinct2()
    ensures NoDup(EightFrom[2])
  {
  }

  lemma EightChecked3()
    ensures NoDup(EightFrom[3])
    ensures forall s :: s in EightFrom[3] ==> Valid(8, s) && s[0] == 3
  {
    EightDistinct3();
    EightPlaced3Low();
    EightPlaced3High();
  }

  lemma EightPlaced3Low()
    ensures forall s :: s in EightFrom3Low ==> Valid(8, s) && s[0] == 3
  {
    forall s | s in EightFrom3Low ensures Valid(8, s) && s[0] == 3 {
      RowsValid8(s);
    }
  }

  lemma EightPlaced3High()
    ensures forall s :: s in EightFrom3High ==> Valid(8, s) && s[0] == 3
  {
    forall s | s in EightFrom3High ensures Valid(8, s) && s[0] == 3 {
      RowsValid8(s);
    }
  }

  lemma EightDistinct3()
    ensures NoDup(EightFrom[3])
  {
  }

  /** The 8 x 8 board has 92 solutions: twice the 46 starting in columns
      0..3. */
  lemma CountEight()
    ensures |AllSolutions(8)| == 92
  {
    EightColumn(0);
    EightColumn(1);
    EightColumn(2);
    EightColumn(3);
    FirstRowLength(8, 1);
    FirstRowLength(8, 2);
    FirstRowLength(8, 3);
    FirstRowLength(8, 4);
    SymmetricCount(8);
  }
}
