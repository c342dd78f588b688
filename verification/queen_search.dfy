/** What the backtracking solvers share beyond the reference search tree:
    the column-by-column unfolding of a row's branches, the first solution a
    find-one search stops at, and the key sets (`col`, `row - col`,
    `row + col`) the solvers use to remember which lines are attacked. */
module QueenSearch {
  import opened QueensSpec

  /** Trying one more column of row |p| appends that column's completions. */
  lemma BranchesSnoc(n: nat, p: seq<int>, c: nat)
    requires |p| < n && c < n
    ensures Branches(n, p, 0, c + 1) == Branches(n, p, 0, c) + (if SafeAt(p, c) then Completions(n, p + [c]) else [])
  {
    BranchesSplit(n, p, 0, c, c + 1);
    BranchesSingle(n, p, c);
  }

  /** When the columns lo..k-1 of row |p| are all unsafe, the branches
      below k are those below lo, and column k adds its own completions. */
  lemma BranchesJump(n: nat, p: seq<int>, lo: nat, k: nat)
    requires |p| < n && lo <= k < n
    requires forall c: nat :: lo <= c < k ==> !SafeAt(p, c)
    ensures Branches(n, p, 0, k) == Branches(n, p, 0, lo)
    ensures Branches(n, p, 0, k + 1) == Branches(n, p, 0, lo) + if SafeAt(p, k) then Completions(n, p + [k]) else []
  {
    BranchesSplit(n, p, 0, lo, k);
    BranchesSkip(n, p, lo, k, k);
    BranchesSnoc(n, p, k);
  }

  /** Once every column of the row has been tried, the branches are all the
      completions of p. */
  lemma BranchesAll(n: nat, p: seq<int>)
    requires |p| < n
    ensures Completions(n, p) == Branches(n, p, 0, n)
  {
  }

  /** The first column c of row |p| that has a completion supplies the first
      completion of p. */
  lemma FirstFound(n: nat, p: seq<int>, c: nat)
    requires |p| < n && c < n && SafeAt(p, c)
    requires Branches(n, p, 0, c) == [] && Completions(n, p + [c]) != []
    ensures Completions(n, p) != [] && Completions(n, p)[0] == Completions(n, p + [c])[0]
  {
    BranchesSplit(n, p, 0, c, n);
    BranchesSplit(n, p, c, c + 1, n);
    BranchesSingle(n, p, c);
  }

  // ---------------------------------------------------------------------
  // Attacked lines as key sets.

  /** The occupied columns. */
  function ColKeys(p: seq<int>): set<int> {
    set i | 0 <= i < |p| :: p[i]
  }

  /** The occupied `row - col` diagonals. */
  function DiffKeys(p: seq<int>): set<int> {
    set i | 0 <= i < |p| :: i - p[i]
  }

  /** The occupied `row + col` anti-diagonals. */
  function SumKeys(p: seq<int>): set<int> {
    set i | 0 <= i < |p| :: i + p[i]
  }

  /** Column c of row |p| is safe exactly when its column and both of its
      diagonal keys are free. */
  lemma KeysSafe(p: seq<int>, c: int)
    ensures SafeAt(p, c) <==> c !in ColKeys(p) && |p| - c !in DiffKeys(p) && |p| + c !in SumKeys(p)
  {
    var r := |p|;
    if !SafeAt(p, c) {
      var i :| 0 <= i < |p| && !(p[i] != c && Abs(p[i] - c) != |p| - i);
      if p[i] == c {
        assert c in ColKeys(p);
      } else if p[i] - c == r - i {
        assert i + p[i] == r + c;
        assert r + c in SumKeys(p);
      } else {
        assert i - p[i] == r - c;
        assert r - c in DiffKeys(p);
      }
    }
    if c in ColKeys(p) {
      var i :| 0 <= i < |p| && p[i] == c;
    }
    if r - c in DiffKeys(p) {
      var i :| 0 <= i < |p| && i - p[i] == r - c;
      assert Abs(p[i] - c) == r - i;
    }
    if r + c in SumKeys(p) {
      var i :| 0 <= i < |p| && i + p[i] == r + c;
      assert Abs(p[i] - c) == r - i;
    }
  }

  /** Placing the queen of row |p| in column c adds exactly its three keys. */
  lemma KeysSnoc(p: seq<int>, c: int)
    ensures ColKeys(p + [c]) == ColKeys(p) + {c}
    ensures DiffKeys(p + [c]) == DiffKeys(p) + {|p| - c}
    ensures SumKeys(p + [c]) == SumKeys(p) + {|p| + c}
  {
    var q := p + [c];
    assert forall i :: 0 <= i < |p| ==> q[i] == p[i];
    assert q[|p|] == c;
  }

  /** Removing the keys a safe placement added gives back the sets of p: a
      `remove_queen` right after `place_queen` restores them. */
  lemma KeysRestore(p: seq<int>, c: int)
    requires SafeAt(p, c)
    ensures ColKeys(p + [c]) - {c} == ColKeys(p)
    ensures DiffKeys(p + [c]) - {|p| - c} == DiffKeys(p)
    ensures SumKeys(p + [c]) - {|p| + c} == SumKeys(p)
  {
    KeysSafe(p, c);
    KeysSnoc(p, c);
  }

  // ---------------------------------------------------------------------
  // What a search has reported.

  /** A search that came across the completions xs has left the solution
      list and counter (sols0, count0 before it) at (sols, count): finding
      all, it appended and counted every one of them; finding one, it
      appended nothing and counted one when there was one.  `found` says
      whether there was any. */
  ghost predicate Reported<T>(sols: seq<T>, count: int, sols0: seq<T>, count0: int,
                              xs: seq<T>, findAll: bool, found: bool)
  {
    (found <==> xs != []) &&
    (findAll ==> sols == sols0 + xs && count == count0 + |xs|) &&
    (!findAll ==> sols == sols0 && count == count0 + (if found then 1 else 0))
  }

  /** Two searches in a row report the concatenation of what each found,
      as long as a find-one search has not yet stopped. */
  lemma ReportedStep<T>(sols0: seq<T>, count0: int, sols1: seq<T>, count1: int,
                        sols2: seq<T>, count2: int, xs: seq<T>, ys: seq<T>,
                        findAll: bool, found: bool, sub: bool)
    requires Reported(sols1, count1, sols0, count0, xs, findAll, found) && (!findAll ==> !found)
    requires Reported(sols2, count2, sols1, count1, ys, findAll, sub) && (!findAll ==> !sub)
    ensures Reported(sols2, count2, sols0, count0, xs + ys, findAll, found || sub)
  {
    if findAll {
      assert sols2 == sols0 + (xs + ys);
    }
  }

  /** A find-one search that found nothing so far and then a first
      completion has reported exactly one. */
  lemma ReportedFirst<T>(sols0: seq<T>, count0: int, sols1: seq<T>, count1: int,
                         sols2: seq<T>, count2: int, ys: seq<T>, zs: seq<T>)
    requires Reported(sols1, count1, sols0, count0, [], false, false)
    requires Reported(sols2, count2, sols1, count1, ys, false, true) && zs != []
    ensures Reported(sols2, count2, sols0, count0, zs, false, true)
  {
  }

  // ---------------------------------------------------------------------
  // A row -> column list with -1 for the rows not yet placed.

  /** The list shows the partial placement p in its first |p| entries and
      -1 in every later one. */
  ghost predicate Shows(board: seq<int>, p: seq<int>) {
    |p| <= |board| && board[..|p|] == p && forall i :: |p| <= i < |board| ==> board[i] == -1
  }

  /** Setting the entry of row |p| shows the extended placement; setting it
      back to -1 gives the list back. */
  lemma ShowsPlace(board: seq<int>, p: seq<int>, c: int)
    requires Shows(board, p) && |p| < |board|
    ensures Shows(board[|p| := c], p + [c])
    ensures board[|p| := c][|p| := -1] == board
  {
    assert board[|p| := c][..|p| + 1] == p + [c];
  }

  /** A fresh list of n entries -1 shows the empty placement. */
  lemma ShowsEmpty(n: nat)
    ensures Shows(seq(n, _ => -1), [])
  {
  }

  // ---------------------------------------------------------------------
  // Attacked lines as flag tables: a list of column flags and two
  // `defaultdict(bool)` tables keyed by `row - col` and `row + col`.

  /** `d[k]` of a `defaultdict(bool)`: False for a key never set. */
  function Flag(d: map<int, bool>, k: int): bool {
    k in d && d[k]
  }

  /** The column flags and the two diagonal tables mark exactly the lines
      the queens of p attack. */
  ghost predicate FlagsShow(n: nat, cols: seq<bool>, hills: map<int, bool>, dales: map<int, bool>, p: seq<int>) {
    |cols| == n &&
    (forall c :: 0 <= c < n ==> (cols[c] <==> c in ColKeys(p))) &&
    (forall k :: Flag(hills, k) <==> k in DiffKeys(p)) &&
    (forall k :: Flag(dales, k) <==> k in SumKeys(p))
  }

  /** Fresh tables mark nothing. */
  lemma FlagsEmpty(n: nat)
    ensures FlagsShow(n, seq(n, _ => false), map[], map[], [])
  {
  }

  /** On tables marking p, the flag test of column c of row |p| is the
      no-attack condition. */
  lemma FlagsSafe(n: nat, cols: seq<bool>, hills: map<int, bool>, dales: map<int, bool>, p: seq<int>, c: int)
    requires FlagsShow(n, cols, hills, dales, p) && 0 <= c < n
    ensures !(cols[c] || Flag(hills, |p| - c) || Flag(dales, |p| + c)) <==> SafeAt(p, c)
  {
    KeysSafe(p, c);
  }

  /** Raising the three flags of the queen of row |p| marks p + [c]. */
  lemma FlagsPlace(n: nat, cols: seq<bool>, hills: map<int, bool>, dales: map<int, bool>, p: seq<int>, c: int)
    requires FlagsShow(n, cols, hills, dales, p) && 0 <= c < n
    ensures FlagsShow(n, cols[c := true], hills[|p| - c := true], dales[|p| + c := true], p + [c])
  {
    KeysSnoc(p, c);
  }

  /** Lowering the three flags of a safe queen again marks p. */
  lemma FlagsRemove(n: nat, cols: seq<bool>, hills: map<int, bool>, dales: map<int, bool>, p: seq<int>, c: int)
    requires FlagsShow(n, cols, hills, dales, p + [c]) && 0 <= c < n && SafeAt(p, c)
    ensures FlagsShow(n, cols[c := false], hills[|p| - c := false], dales[|p| + c := false], p)
  {
    KeysRestore(p, c);
    KeysSafe(p, c);
  }
}
