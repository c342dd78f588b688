/** The N-Queens problem as the submissions share it: one queen per row, a
    placement is the sequence of the queens' columns, row by row.  Every
    backtracking solver of the corpus is proved against `Completions`, the
    depth-first search tree that tries the columns of each row in ascending
    order. */
module QueensSpec {
  import opened Lists

  function Abs(x: int): nat { if x < 0 then -x else x }

  /** Column `c` of row |p| is attacked by no queen of the partial placement
      `p` (no shared column, no shared diagonal). */
  predicate SafeAt(p: seq<int>, c: int) {
    forall i :: 0 <= i < |p| ==> p[i] != c && Abs(p[i] - c) != |p| - i
  }

  predicate InRange(n: int, s: seq<int>) {
    forall i :: 0 <= i < |s| ==> 0 <= s[i] < n
  }

  predicate ConflictFree(s: seq<int>) {
    forall i, j :: 0 <= i < j < |s| ==> s[i] != s[j] && Abs(s[i] - s[j]) != j - i
  }

  /** A complete solution of the n-queens problem. */
  predicate Valid(n: int, s: seq<int>) {
    |s| == n && InRange(n, s) && ConflictFree(s)
  }

  /** A conflict-free placement of the first |p| rows. */
  predicate Partial(n: int, p: seq<int>) {
    |p| <= n && InRange(n, p) && ConflictFree(p)
  }

  /** The complete placements reached from the partial placement `p`, in the
      order a depth-first search that tries columns 0..n-1 finds them. */
  function Completions(n: nat, p: seq<int>): seq<seq<int>>
    requires |p| <= n
    decreases n - |p|, 1, 0
  {
    if |p| == n then [p] else Branches(n, p, 0, n)
  }

  /** The completions reached by placing the queen of row |p| in one of the
      columns lo..hi-1, tried in ascending order. */
  function Branches(n: nat, p: seq<int>, lo: nat, hi: nat): seq<seq<int>>
    requires |p| < n && lo <= hi <= n
    decreases n - |p|, 0, hi - lo
  {
    if lo == hi then []
    else (if SafeAt(p, lo) then Completions(n, p + [lo]) else []) + Branches(n, p, lo + 1, hi)
  }

  /** Every solution of the n-queens problem, in the order of the plain
      left-to-right backtracking search (lexicographic order). */
  function AllSolutions(n: nat): seq<seq<int>> {
    Completions(n, [])
  }

  /** The first solution a find-one search reports, if any. */
  function First(xs: seq<seq<int>>): seq<seq<int>> {
    if xs == [] then [] else [xs[0]]
  }

  /** Left-right mirror of a placement: column c becomes n-1-c. */
  function Mirror(n: int, s: seq<int>): (m: seq<int>)
    ensures |m| == |s|
  {
    seq(|s|, i requires 0 <= i < |s| => n - 1 - s[i])
  }

  function MirrorAll(n: int, xs: seq<seq<int>>): (ms: seq<seq<int>>)
    ensures |ms| == |xs|
    ensures forall i :: 0 <= i < |xs| ==> ms[i] == Mirror(n, xs[i])
  {
    if xs == [] then [] else [Mirror(n, xs[0])] + MirrorAll(n, xs[1..])
  }

  // ---------------------------------------------------------------------
  // The search tree: splitting, skipping, prefixes.

  lemma {:induction false} BranchesSplit(n: nat, p: seq<int>, lo: nat, mid: nat, hi: nat)
    requires |p| < n && lo <= mid <= hi <= n
    ensures Branches(n, p, lo, hi) == Branches(n, p, lo, mid) + Branches(n, p, mid, hi)
    decreases mid - lo
  {
    if lo < mid {
      BranchesSplit(n, p, lo + 1, mid, hi);
    }
  }

  /** Columns that are not safe contribute nothing. */
  lemma {:induction false} BranchesSkip(n: nat, p: seq<int>, lo: nat, mid: nat, hi: nat)
    requires |p| < n && lo <= mid <= hi <= n
    requires forall c :: lo <= c < mid ==> !SafeAt(p, c)
    ensures Branches(n, p, lo, hi) == Branches(n, p, mid, hi)
    decreases mid - lo
  {
    if lo < mid {
      BranchesSkip(n, p, lo + 1, mid, hi);
    }
  }

  lemma {:induction false} BranchesSingle(n: nat, p: seq<int>, c: nat)
    requires |p| < n && c < n
    ensures Branches(n, p, c, c + 1) == if SafeAt(p, c) then Completions(n, p + [c]) else []
  {
    assert Branches(n, p, c + 1, c + 1) == [];
  }

  /** Every reported placement extends the partial placement it started from. */
  lemma {:induction false} CompletionsExtend(n: nat, p: seq<int>)
    requires |p| <= n
    ensures forall s :: s in Completions(n, p) ==> |s| == n && s[..|p|] == p
    decreases n - |p|, 1, 0
  {
    if |p| < n {
      BranchesExtend(n, p, 0, n);
    }
  }

  lemma {:induction false} BranchesExtend(n: nat, p: seq<int>, lo: nat, hi: nat)
    requires |p| < n && lo <= hi <= n
    ensures forall s :: s in Branches(n, p, lo, hi) ==> |s| == n && s[..|p|] == p && lo <= s[|p|] < hi
    decreases n - |p|, 0, hi - lo
  {
    if lo < hi {
      var q := p + [lo];
      CompletionsExtend(n, q);
      BranchesExtend(n, p, lo + 1, hi);
      forall s | s in Completions(n, q)
        ensures s[..|p|] == p && s[|p|] == lo
      {
        assert s[..|q|] == q;
        assert s[..|p|] == s[..|q|][..|p|];
      }
    }
  }

  // ---------------------------------------------------------------------
  // Soundness and completeness against the reference predicate.

  lemma SafeExtends(n: int, p: seq<int>, c: int)
    requires Partial(n, p) && |p| < n && 0 <= c < n && SafeAt(p, c)
    ensures Partial(n, p + [c])
  {
    var q := p + [c];
    forall i, j | 0 <= i < j < |q|
      ensures q[i] != q[j] && Abs(q[i] - q[j]) != j - i
    {
      if j == |p| {
        assert q[i] == p[i] && q[j] == c;
      } else {
        assert q[i] == p[i] && q[j] == p[j];
      }
    }
  }

  /** Every placement the search reports is a complete, conflict-free solution. */
  lemma {:induction false} CompletionsSound(n: nat, p: seq<int>)
    requires Partial(n, p)
    ensures forall s :: s in Completions(n, p) ==> Valid(n, s)
    decreases n - |p|, 1, 0
  {
    if |p| < n {
      BranchesSound(n, p, 0, n);
    }
  }

  lemma {:induction false} BranchesSound(n: nat, p: seq<int>, lo: nat, hi: nat)
    requires Partial(n, p) && |p| < n && lo <= hi <= n
    ensures forall s :: s in Branches(n, p, lo, hi) ==> Valid(n, s)
    decreases n - |p|, 0, hi - lo
  {
    if lo < hi {
      if SafeAt(p, lo) {
        SafeExtends(n, p, lo);
        CompletionsSound(n, p + [lo]);
      }
      BranchesSound(n, p, lo + 1, hi);
    }
  }

  lemma PrefixSafe(n: int, s: seq<int>, k: nat)
    requires Valid(n, s) && k < n
    ensures SafeAt(s[..k], s[k])
  {
    var p := s[..k];
    forall i | 0 <= i < |p|
      ensures p[i] != s[k] && Abs(p[i] - s[k]) != |p| - i
    {
      assert p[i] == s[i];
    }
  }

  /** Every solution that extends `p` is reported by the search from `p`. */
  lemma {:induction false} CompletionsComplete(n: nat, p: seq<int>, s: seq<int>)
    requires |p| <= n && Valid(n, s) && s[..|p|] == p
    ensures s in Completions(n, p)
    decreases n - |p|, 1, 0
  {
    if |p| == n {
      assert s == s[..|p|];
    } else {
      BranchesComplete(n, p, 0, n, s);
    }
  }

  lemma {:induction false} BranchesComplete(n: nat, p: seq<int>, lo: nat, hi: nat, s: seq<int>)
    requires |p| < n && lo <= hi <= n && Valid(n, s) && s[..|p|] == p && lo <= s[|p|] < hi
    ensures s in Branches(n, p, lo, hi)
    decreases n - |p|, 0, hi - lo
  {
    if s[|p|] == lo {
      PrefixSafe(n, s, |p|);
      assert s[..|p| + 1] == p + [lo];
      CompletionsComplete(n, p + [lo], s);
    } else {
      BranchesComplete(n, p, lo + 1, hi, s);
    }
  }

  /** The search from the empty board reports exactly the solutions. */
  lemma AllSolutionsExactly(n: nat)
    ensures forall s :: s in AllSolutions(n) <==> Valid(n, s)
  {
    CompletionsSound(n, []);
    forall s | Valid(n, s) ensures s in AllSolutions(n) {
      CompletionsComplete(n, [], s);
    }
  }

  /** The search from the one-queen placement [c] reports exactly the solutions
      whose first queen is in column c. */
  lemma FirstColumnExactly(n: nat, c: int)
    requires 0 <= c < n
    ensures forall s :: s in Completions(n, [c]) <==> Valid(n, s) && s[0] == c
  {
    CompletionsSound(n, [c]);
    CompletionsExtend(n, [c]);
    forall s | Valid(n, s) && s[0] == c ensures s in Completions(n, [c]) {
      assert s[..1] == [c];
      CompletionsComplete(n, [c], s);
    }
  }

  // ---------------------------------------------------------------------
  // No placement is reported twice.

  lemma {:induction false} CompletionsNoDup(n: nat, p: seq<int>)
    requires |p| <= n
    ensures NoDup(Completions(n, p))
    decreases n - |p|, 1, 0
  {
    if |p| < n {
      BranchesNoDup(n, p, 0, n);
    }
  }

  lemma {:induction false} BranchesNoDup(n: nat, p: seq<int>, lo: nat, hi: nat)
    requires |p| < n && lo <= hi <= n
    ensures NoDup(Branches(n, p, lo, hi))
    decreases n - |p|, 0, hi - lo
  {
    if lo < hi {
      var head := if SafeAt(p, lo) then Completions(n, p + [lo]) else [];
      if SafeAt(p, lo) {
        CompletionsNoDup(n, p + [lo]);
        CompletionsExtend(n, p + [lo]);
      }
      BranchesNoDup(n, p, lo + 1, hi);
      BranchesExtend(n, p, lo + 1, hi);
      forall x | x in head ensures x !in Branches(n, p, lo + 1, hi) {
        assert x[..|p| + 1] == p + [lo];
        assert x[|p|] == lo;
      }
      NoDupConcat(head, Branches(n, p, lo + 1, hi));
    }
  }

  // ---------------------------------------------------------------------
  // Mirror symmetry.

  lemma MirrorInvolution(n: int, s: seq<int>)
    ensures Mirror(n, Mirror(n, s)) == s
  {
  }

  lemma MirrorValid(n: int, s: seq<int>)
    requires Valid(n, s)
    ensures Valid(n, Mirror(n, s))
  {
    var m := Mirror(n, s);
    forall i, j | 0 <= i < j < |m|
      ensures m[i] != m[j] && Abs(m[i] - m[j]) != j - i
    {
      assert Abs(m[i] - m[j]) == Abs(s[i] - s[j]);
    }
  }

  lemma MirrorInjective(n: int, s: seq<int>, t: seq<int>)
    requires Mirror(n, s) == Mirror(n, t)
    ensures s == t
  {
    MirrorInvolution(n, s);
    MirrorInvolution(n, t);
  }

  lemma MirrorAllNoDup(n: int, xs: seq<seq<int>>)
    requires NoDup(xs)
    ensures NoDup(MirrorAll(n, xs))
  {
    var ms := MirrorAll(n, xs);
    forall i, j | 0 <= i < j < |ms| ensures ms[i] != ms[j] {
      if ms[i] == ms[j] {
        MirrorInjective(n, xs[i], xs[j]);
      }
    }
  }

  /** The mirror image of the solutions with first queen in column c are the
      solutions with first queen in column n-1-c. */
  lemma MirrorFirstColumn(n: nat, c: int)
    requires 0 <= c < n
    ensures forall s :: s in MirrorAll(n, Completions(n, [c])) <==> s in Completions(n, [n - 1 - c])
  {
    var xs := Completions(n, [c]);
    FirstColumnExactly(n, c);
    FirstColumnExactly(n, n - 1 - c);
    forall s | s in MirrorAll(n, xs) ensures s in Completions(n, [n - 1 - c]) {
      var k :| 0 <= k < |xs| && MirrorAll(n, xs)[k] == s;
      assert xs[k] in xs;
      MirrorValid(n, xs[k]);
    }
    forall s | s in Completions(n, [n - 1 - c]) ensures s in MirrorAll(n, xs) {
      var t := Mirror(n, s);
      MirrorValid(n, s);
      MirrorInvolution(n, s);
      assert t in xs;
      var k :| 0 <= k < |xs| && xs[k] == t;
      assert MirrorAll(n, xs)[k] == s;
    }
  }

  lemma MirrorColumnCount(n: nat, c: int)
    requires 0 <= c < n
    ensures |Completions(n, [c])| == |Completions(n, [n - 1 - c])|
  {
    CompletionsNoDup(n, [c]);
    CompletionsNoDup(n, [n - 1 - c]);
    MirrorAllNoDup(n, Completions(n, [c]));
    MirrorFirstColumn(n, c);
    SameElementsSameLength(MirrorAll(n, Completions(n, [c])), Completions(n, [n - 1 - c]));
  }

  lemma {:induction false} FirstRowBranchesLength(n: nat, lo: nat, hi: nat)
    requires 0 < n && lo <= hi <= n
    ensures |Branches(n, [], lo, hi)| == |Branches(n, [], n - hi, n - lo)|
    decreases hi - lo
  {
    if lo < hi {
      FirstRowBranchesLength(n, lo + 1, hi);
      BranchesSplit(n, [], n - hi, n - lo - 1, n - lo);
      BranchesSingle(n, [], n - lo - 1);
      assert [] + [lo] == [lo];
      assert [] + [n - lo - 1] == [n - lo - 1];
      MirrorColumnCount(n, lo);
    }
  }

  /** Counting by symmetry: the solutions whose first queen is in the left half
      are as many as those in the right half, so the total is twice the left
      half plus, for odd n, those with the first queen in the centre column. */
  lemma SymmetricCount(n: nat)
    requires 0 < n
    ensures |AllSolutions(n)| == 2 * |Branches(n, [], 0, n / 2)| + |Branches(n, [], n / 2, n - n / 2)|
  {
    var h := n / 2;
    BranchesSplit(n, [], 0, h, n);
    BranchesSplit(n, [], h, n - h, n);
    FirstRowBranchesLength(n, 0, h);
  }

  /** A placement whose first queen is in the centre column of an odd board is
      its own mirror in column 0 only; any other mirror leaves the left half. */
  lemma MirrorLeavesHalf(n: nat, s: seq<int>)
    requires Valid(n, s) && 0 < n && s[0] < n / 2 + n % 2
    ensures Mirror(n, s)[0] >= n / 2
    ensures Mirror(n, s)[0] == s[0] <==> n % 2 == 1 && s[0] == n / 2
  {
  }

  // ---------------------------------------------------------------------
  // Small boards, by unfolding the search.

  lemma CountOne()
    ensures AllSolutions(1) == [[0]]
  {
    assert [] + [0] == [0];
    assert Completions(1, [0]) == [[0]];
    assert Branches(1, [], 0, 1) == Completions(1, [0]) + Branches(1, [], 1, 1);
  }

  lemma CountTwo()
    ensures AllSolutions(2) == []
  {
    var p0, p1 := [0], [1];
    assert p0[0] == 0 && p1[0] == 1;
    assert !SafeAt(p0, 0) && !SafeAt(p0, 1);
    assert !SafeAt(p1, 0) && !SafeAt(p1, 1);
    BranchesSkip(2, [0], 0, 2, 2);
    BranchesSkip(2, [1], 0, 2, 2);
    assert [] + [0] == [0] && [] + [1] == [1];
    assert Branches(2, [], 0, 2) == Completions(2, [0]) + Branches(2, [], 1, 2);
    assert Branches(2, [], 1, 2) == Completions(2, [1]) + Branches(2, [], 2, 2);
  }
}
