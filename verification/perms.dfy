/** The 100-prisoners problem on a fixed arrangement.  `f[b]` is the number
    written on the slip in box b (0-based); prisoner p opens box p, then the
    box named by each slip, and succeeds when the slip bearing p turns up
    within K openings.  Everything is stated through the cycle of the
    permutation that contains p. */
module Perms {
  import opened Lists

  /** The slips form a permutation of 0..|f|-1. */
  predicate IsPerm(f: seq<int>) {
    (forall i :: 0 <= i < |f| ==> 0 <= f[i] < |f|) && NoDup(f)
  }

  /** The slips form a permutation of 1..|b| (boxes and prisoners numbered
      from 1 in the source). */
  predicate IsPerm1(b: seq<int>) {
    (forall i :: 0 <= i < |b| ==> 1 <= b[i] <= |b|) && NoDup(b)
  }

  /** The 0-based permutation behind a 1-based one. */
  function Shift(b: seq<int>): (f: seq<int>)
    ensures |f| == |b|
    ensures forall i :: 0 <= i < |b| ==> f[i] == b[i] - 1
    ensures IsPerm1(b) ==> IsPerm(f)
  {
    var f := seq(|b|, i requires 0 <= i < |b| => b[i] - 1);
    assert IsPerm1(b) ==> NoDup(f) by {
      if IsPerm1(b) {
        forall i, j | 0 <= i < j < |f| ensures f[i] != f[j] {
          assert b[i] != b[j];
        }
      }
    }
    f
  }

  /** The box reached after k openings starting at box x. */
  function Iter(f: seq<int>, k: nat, x: int): (r: int)
    requires IsPerm(f) && 0 <= x < |f|
    ensures 0 <= r < |f|
  {
    if k == 0 then x else f[Iter(f, k - 1, x)]
  }

  lemma {:induction false} IterAdd(f: seq<int>, a: nat, b: nat, x: int)
    requires IsPerm(f) && 0 <= x < |f|
    ensures Iter(f, a + b, x) == Iter(f, a, Iter(f, b, x))
  {
    if a > 0 {
      IterAdd(f, a - 1, b, x);
    }
  }

  lemma {:induction false} IterInjective(f: seq<int>, k: nat, x: int, y: int)
    requires IsPerm(f) && 0 <= x < |f| && 0 <= y < |f|
    ensures Iter(f, k, x) == Iter(f, k, y) ==> x == y
  {
    if k > 0 {
      IterInjective(f, k - 1, x, y);
    }
  }

  /** Pigeonhole: among the first |f| + 1 boxes of a chain two coincide, so
      the chain comes back to its start within |f| openings. */
  lemma ReturnExists(f: seq<int>, x: int)
    requires IsPerm(f) && 0 <= x < |f|
    ensures exists k :: 1 <= k <= |f| && Iter(f, k, x) == x
  {
    var chain := seq(|f| + 1, k requires 0 <= k <= |f| => Iter(f, k, x));
    if NoDup(chain) {
      RangeShorter(chain, |f|);
      assert false;
    }
    var i, j :| 0 <= i < j < |chain| && chain[i] == chain[j];
    IterAdd(f, i, j - i, x);
    assert Iter(f, i, Iter(f, j - i, x)) == Iter(f, i, x);
    IterInjective(f, i, Iter(f, j - i, x), x);
  }

  function FirstReturn(f: seq<int>, x: int, k: nat): (r: nat)
    requires IsPerm(f) && 0 <= x < |f| && 1 <= k
    requires forall j :: 1 <= j < k ==> Iter(f, j, x) != x
    requires exists j :: k <= j <= |f| && Iter(f, j, x) == x
    ensures k <= r <= |f| && Iter(f, r, x) == x
    ensures forall j :: 1 <= j < r ==> Iter(f, j, x) != x
    decreases |f| - k
  {
    if Iter(f, k, x) == x then k else FirstReturn(f, x, k + 1)
  }

  /** The length of the cycle through x: the first k >= 1 that brings the
      chain from x back to x. */
  function CycleLen(f: seq<int>, x: int): (len: nat)
    requires IsPerm(f) && 0 <= x < |f|
    ensures 1 <= len <= |f| && Iter(f, len, x) == x
    ensures forall j :: 1 <= j < len ==> Iter(f, j, x) != x
  {
    ReturnExists(f, x);
    FirstReturn(f, x, 1)
  }

  /** Prisoner p finds the slip p within K openings exactly when the cycle
      through box p is at most K long. */
  lemma ReturnsWithin(f: seq<int>, x: int, k: int)
    requires IsPerm(f) && 0 <= x < |f|
    ensures (exists j :: 1 <= j <= k && Iter(f, j, x) == x) <==> CycleLen(f, x) <= k
  {
    var len := CycleLen(f, x);
    if len <= k {
      assert 1 <= len <= k && Iter(f, len, x) == x;
    }
  }

  /** Every box of a cycle lies on a cycle of the same length. */
  lemma CycleLenOnCycle(f: seq<int>, k: nat, x: int)
    requires IsPerm(f) && 0 <= x < |f|
    ensures CycleLen(f, Iter(f, k, x)) == CycleLen(f, x)
  {
    var y := Iter(f, k, x);
    var len, m := CycleLen(f, x), CycleLen(f, y);
    IterAdd(f, len, k, x);
    IterAdd(f, k, len, x);
    assert Iter(f, len, y) == y;
    IterAdd(f, m, k, x);
    IterAdd(f, k, m, x);
    assert Iter(f, k, Iter(f, m, x)) == Iter(f, k, x);
    IterInjective(f, k, Iter(f, m, x), x);
  }

  // ---------------------------------------------------------------------
  // Success of the loop strategy.

  predicate Succeeds(f: seq<int>, k: int, p: int)
    requires IsPerm(f) && 0 <= p < |f|
  {
    CycleLen(f, p) <= k
  }

  /** Number of prisoners 0..m-1 who succeed. */
  function SuccessCount(f: seq<int>, k: int, m: nat): (r: nat)
    requires IsPerm(f) && m <= |f|
    ensures r <= m
  {
    if m == 0 then 0 else SuccessCount(f, k, m - 1) + (if Succeeds(f, k, m - 1) then 1 else 0)
  }

  predicate AllSucceed(f: seq<int>, k: int)
    requires IsPerm(f)
  {
    forall p :: 0 <= p < |f| ==> Succeeds(f, k, p)
  }

  /** The longest cycle among boxes 0..m-1 (0 when m == 0). */
  function MaxCycleUpTo(f: seq<int>, m: nat): (r: nat)
    requires IsPerm(f) && m <= |f|
    ensures forall p :: 0 <= p < m ==> CycleLen(f, p) <= r
    ensures m == 0 ==> r == 0
    ensures m > 0 ==> exists p :: 0 <= p < m && CycleLen(f, p) == r
  {
    if m == 0 then 0
    else
      var r := MaxCycleUpTo(f, m - 1);
      if CycleLen(f, m - 1) > r then CycleLen(f, m - 1) else r
  }

  /** The longest cycle of the permutation. */
  function MaxCycle(f: seq<int>): nat
    requires IsPerm(f)
  {
    MaxCycleUpTo(f, |f|)
  }

  /** Success counts and outcomes read on a 1-based arrangement. */
  function SuccessCount1(b: seq<int>, k: int, m: nat): nat
    requires IsPerm1(b) && m <= |b|
  {
    SuccessCount(Shift(b), k, m)
  }

  predicate AllSucceed1(b: seq<int>, k: int)
    requires IsPerm1(b)
  {
    AllSucceed(Shift(b), k)
  }

  /** The longest cycle of a 1-based arrangement. */
  function MaxCycle1(b: seq<int>): nat
    requires IsPerm1(b)
  {
    MaxCycle(Shift(b))
  }

  lemma MaxCycleBounds(f: seq<int>)
    requires IsPerm(f) && |f| > 0
    ensures 1 <= MaxCycle(f) <= |f|
  {
  }

  /** Everyone succeeds exactly when no cycle is longer than K (for a
      negative K this needs at least one prisoner, who then fails). */
  lemma AllSucceedMaxCycle(f: seq<int>, k: int)
    requires IsPerm(f) && (0 <= k || |f| > 0)
    ensures AllSucceed(f, k) <==> MaxCycle(f) <= k
  {
    if |f| > 0 {
      MaxCycleBounds(f);
    }
    if |f| > 0 && AllSucceed(f, k) {
      var p :| 0 <= p < |f| && CycleLen(f, p) == MaxCycle(f);
      assert Succeeds(f, k, p);
    }
  }

  lemma {:induction false} SuccessCountAll(f: seq<int>, k: int, m: nat)
    requires IsPerm(f) && m <= |f|
    ensures SuccessCount(f, k, m) == m <==> forall p :: 0 <= p < m ==> Succeeds(f, k, p)
  {
    if m > 0 {
      SuccessCountAll(f, k, m - 1);
    }
  }

  /** Counting the successful prisoners reaches N exactly when all succeed. */
  lemma CountIsAll(f: seq<int>, k: int)
    requires IsPerm(f)
    ensures SuccessCount(f, k, |f|) == |f| <==> AllSucceed(f, k)
  {
    SuccessCountAll(f, k, |f|);
  }

  // ---------------------------------------------------------------------
  // Walking cycles with a `visited` array.

  /** Every visited box leads to a visited box: the visited boxes are a union
      of whole cycles. */
  predicate Closed(f: seq<int>, vis: seq<bool>)
    requires IsPerm(f) && |vis| == |f|
  {
    forall x :: 0 <= x < |f| && vis[x] ==> vis[f[x]]
  }

  /** Box y is among the first `len` boxes of the chain from s. */
  predicate InPrefix(f: seq<int>, s: int, len: nat, y: int)
    requires IsPerm(f) && 0 <= s < |f|
  {
    exists j :: 0 <= j < len && Iter(f, j, s) == y
  }

  /** `vis` is `vis0` with the first `len` boxes of the chain from s marked. */
  predicate Marked(f: seq<int>, vis0: seq<bool>, s: int, len: nat, vis: seq<bool>)
    requires IsPerm(f) && 0 <= s < |f|
  {
    |vis0| == |f| && |vis| == |f| &&
    forall x :: 0 <= x < |f| ==> (vis[x] <==> vis0[x] || InPrefix(f, s, len, x))
  }

  function CountTrue(vis: seq<bool>): (r: nat)
    ensures r <= |vis|
  {
    if vis == [] then 0 else CountTrue(vis[..|vis| - 1]) + (if vis[|vis| - 1] then 1 else 0)
  }

  lemma MarkedStart(f: seq<int>, vis0: seq<bool>, s: int)
    requires IsPerm(f) && 0 <= s < |f| && |vis0| == |f|
    ensures Marked(f, vis0, s, 0, vis0)
  {
  }

  lemma MarkStep(f: seq<int>, vis0: seq<bool>, s: int, len: nat, vis: seq<bool>)
    requires IsPerm(f) && 0 <= s < |f|
    requires Marked(f, vis0, s, len, vis)
    ensures Marked(f, vis0, s, len + 1, vis[Iter(f, len, s) := true])
  {
    var y := Iter(f, len, s);
    forall x | 0 <= x < |f|
      ensures vis[y := true][x] <==> vis0[x] || InPrefix(f, s, len + 1, x)
    {
      if x == y {
        assert InPrefix(f, s, len + 1, x);
      } else if InPrefix(f, s, len + 1, x) {
        var j :| 0 <= j < len + 1 && Iter(f, j, s) == x;
        assert j < len;
      }
    }
  }

  lemma {:induction false} ClosedIter(f: seq<int>, vis: seq<bool>, k: nat, y: int)
    requires IsPerm(f) && |vis| == |f| && Closed(f, vis) && 0 <= y < |f| && vis[y]
    ensures vis[Iter(f, k, y)]
  {
    if k > 0 {
      ClosedIter(f, vis, k - 1, y);
    }
  }

  /** Before the chain from an unvisited box closes, every box it reaches is
      new: not visited before the walk, and not reached earlier in the walk. */
  lemma WalkFresh(f: seq<int>, vis0: seq<bool>, s: int, len: nat)
    requires IsPerm(f) && 0 <= s < |f| && |vis0| == |f| && Closed(f, vis0) && !vis0[s]
    requires len < CycleLen(f, s)
    ensures !vis0[Iter(f, len, s)]
    ensures !InPrefix(f, s, len, Iter(f, len, s))
  {
    var y := Iter(f, len, s);
    var cl := CycleLen(f, s);
    if vis0[y] {
      ClosedIter(f, vis0, cl - len, y);
      IterAdd(f, cl - len, len, s);
      assert false;
    }
    forall j | 0 <= j < len ensures Iter(f, j, s) != y {
      PrefixDistinct(f, s, j, len);
    }
  }

  lemma PrefixDistinct(f: seq<int>, s: int, j: nat, len: nat)
    requires IsPerm(f) && 0 <= s < |f| && j < len < CycleLen(f, s)
    ensures Iter(f, j, s) != Iter(f, len, s)
  {
    IterAdd(f, j, len - j, s);
    IterInjective(f, j, Iter(f, len - j, s), s);
  }

  /** Marking one more new box raises the visited count by one. */
  lemma {:induction false} CountTrueSet(vis: seq<bool>, y: int)
    requires 0 <= y < |vis| && !vis[y]
    ensures CountTrue(vis[y := true]) == CountTrue(vis) + 1
  {
    var w := vis[y := true];
    if y < |vis| - 1 {
      assert w[..|w| - 1] == vis[..|vis| - 1][y := true];
      CountTrueSet(vis[..|vis| - 1], y);
    } else {
      assert w[..|w| - 1] == vis[..|vis| - 1];
    }
  }

  lemma {:induction false} CountTrueAll(vis: seq<bool>)
    requires forall x :: 0 <= x < |vis| ==> vis[x]
    ensures CountTrue(vis) == |vis|
  {
    if vis != [] {
      CountTrueAll(vis[..|vis| - 1]);
    }
  }

  lemma {:induction false} CountTrueNone(n: nat)
    ensures CountTrue(seq(n, _ => false)) == 0
  {
    if n > 0 {
      assert seq(n, _ => false)[..n - 1] == seq(n - 1, _ => false);
      CountTrueNone(n - 1);
    }
  }

  /** Once the whole cycle through s is marked, the visited boxes are again a
      union of cycles, s is visited, and every newly visited box lies on a
      cycle of the same length as s. */
  lemma FinishCycle(f: seq<int>, vis0: seq<bool>, s: int, vis: seq<bool>)
    requires IsPerm(f) && 0 <= s < |f| && |vis0| == |f| && Closed(f, vis0)
    requires Marked(f, vis0, s, CycleLen(f, s), vis)
    ensures Closed(f, vis) && vis[s]
    ensures forall x :: 0 <= x < |f| && vis[x] && !vis0[x] ==> CycleLen(f, x) == CycleLen(f, s)
  {
    var cl := CycleLen(f, s);
    assert InPrefix(f, s, cl, s) by { assert Iter(f, 0, s) == s; }
    forall x | 0 <= x < |f| && vis[x] ensures vis[f[x]] {
      if !vis0[x] {
        var j :| 0 <= j < cl && Iter(f, j, s) == x;
        assert Iter(f, j + 1, s) == f[x];
        if j + 1 < cl {
          assert InPrefix(f, s, cl, f[x]);
        } else {
          assert InPrefix(f, s, cl, f[x]);
        }
      }
    }
    forall x | 0 <= x < |f| && vis[x] && !vis0[x] ensures CycleLen(f, x) == cl {
      var j :| 0 <= j < cl && Iter(f, j, s) == x;
      CycleLenOnCycle(f, j, s);
    }
  }

  /** The longest cycle, recognised from an upper bound that is attained. */
  lemma MaxCycleIs(f: seq<int>, m: nat)
    requires IsPerm(f)
    requires forall x :: 0 <= x < |f| ==> CycleLen(f, x) <= m
    requires |f| == 0 ==> m == 0
    requires |f| > 0 ==> exists x :: 0 <= x < |f| && CycleLen(f, x) == m
    ensures MaxCycle(f) == m
  {
  }

  // ---------------------------------------------------------------------
  // Cycle decomposition: `for s in range(N): if not visited[s]: walk`.

  /** The boxes below `upto` are visited and the visited boxes are whole
      cycles. */
  ghost predicate Decomposed(f: seq<int>, vis: seq<bool>, upto: int)
    requires IsPerm(f)
  {
    |vis| == |f| && 0 <= upto <= |f| && Closed(f, vis) && forall x :: 0 <= x < upto ==> vis[x]
  }

  lemma DecomposedStart(f: seq<int>)
    requires IsPerm(f)
    ensures Decomposed(f, seq(|f|, _ => false), 0)
  {
  }

  lemma DecomposedSkip(f: seq<int>, vis: seq<bool>, s: int)
    requires IsPerm(f) && 0 <= s < |f| && Decomposed(f, vis, s) && vis[s]
    ensures Decomposed(f, vis, s + 1)
  {
  }

  /** One step of `while not visited[current]`: the box is new, so the walk
      has not closed yet, and marking it adds one visited box. */
  lemma WalkContinue(f: seq<int>, vis0: seq<bool>, s: int, len: nat, vis: seq<bool>)
    requires IsPerm(f) && 0 <= s < |f| && |vis0| == |f| && Closed(f, vis0) && !vis0[s]
    requires Marked(f, vis0, s, len, vis) && len <= CycleLen(f, s) && !vis[Iter(f, len, s)]
    ensures len < CycleLen(f, s)
    ensures Marked(f, vis0, s, len + 1, vis[Iter(f, len, s) := true])
    ensures CountTrue(vis[Iter(f, len, s) := true]) == CountTrue(vis) + 1
    ensures Iter(f, len + 1, s) == f[Iter(f, len, s)]
  {
    assert Iter(f, 0, s) == s;
    MarkStep(f, vis0, s, len, vis);
    CountTrueSet(vis, Iter(f, len, s));
  }

  /** The walk from the unvisited box s has marked the first `len` boxes of
      its cycle, one new visited box each. */
  ghost predicate Walked(f: seq<int>, vis0: seq<bool>, s: int, len: nat, vis: seq<bool>)
    requires IsPerm(f) && 0 <= s < |f|
  {
    |vis0| == |f| && Closed(f, vis0) && !vis0[s] && len <= CycleLen(f, s) &&
    Marked(f, vis0, s, len, vis) && CountTrue(vis) == CountTrue(vis0) + len
  }

  lemma WalkedStep(f: seq<int>, vis0: seq<bool>, s: int, len: nat, vis: seq<bool>)
    requires IsPerm(f) && 0 <= s < |f| && Walked(f, vis0, s, len, vis) && !vis[Iter(f, len, s)]
    ensures len < CycleLen(f, s) && Iter(f, len + 1, s) == f[Iter(f, len, s)]
    ensures Walked(f, vis0, s, len + 1, vis[Iter(f, len, s) := true])
  {
    WalkContinue(f, vis0, s, len, vis);
  }

  /** One pass of a `while not visited[current]` walk over a 0-based
      arrangement: `visited[current] = True` and on to `boxes[current]`. */
  method MarkBox(f: seq<int>, visited: array<bool>, current: int, ghost vis0: seq<bool>, ghost s: int, ghost len: nat)
    returns (next: int)
    requires IsPerm(f) && visited.Length == |f| && 0 <= s < |f|
    requires current == Iter(f, len, s) && Walked(f, vis0, s, len, visited[..]) && !visited[current]
    modifies visited
    ensures len < CycleLen(f, s) && 0 <= next < |f| && next == Iter(f, len + 1, s)
    ensures Walked(f, vis0, s, len + 1, visited[..])
  {
    WalkedStep(f, vis0, s, len, visited[..]);
    ghost var before := visited[..];
    visited[current] := true;
    assert visited[..] == before[current := true];
    next := f[current];
  }

  /** The walk stops at a visited box exactly when it has gone once round the
      cycle. */
  lemma WalkStop(f: seq<int>, vis0: seq<bool>, s: int, len: nat, vis: seq<bool>)
    requires IsPerm(f) && 0 <= s < |f| && |vis0| == |f| && Closed(f, vis0) && !vis0[s]
    requires Marked(f, vis0, s, len, vis) && len <= CycleLen(f, s) && vis[Iter(f, len, s)]
    ensures len == CycleLen(f, s)
  {
    if len < CycleLen(f, s) {
      WalkFresh(f, vis0, s, len);
    }
  }

  /** After a whole cycle is walked from the unvisited box s, the boxes up to
      s are covered and the visited boxes are again whole cycles. */
  lemma CycleDone(f: seq<int>, vis0: seq<bool>, s: int, vis: seq<bool>)
    requires IsPerm(f) && 0 <= s < |f| && Decomposed(f, vis0, s) && !vis0[s]
    requires Marked(f, vis0, s, CycleLen(f, s), vis)
    ensures Decomposed(f, vis, s + 1)
    ensures forall x :: 0 <= x < |f| && vis0[x] ==> vis[x]
    ensures forall x :: 0 <= x < |f| && vis[x] && !vis0[x] ==> CycleLen(f, x) == CycleLen(f, s)
  {
    FinishCycle(f, vis0, s, vis);
  }

  /** `m` is the longest cycle among the visited boxes (0 when none). */
  ghost predicate MaxVisited(f: seq<int>, vis: seq<bool>, m: int)
    requires IsPerm(f) && |vis| == |f|
  {
    (forall x :: 0 <= x < |f| && vis[x] ==> CycleLen(f, x) <= m) &&
    (m == 0 || exists x :: 0 <= x < |f| && vis[x] && CycleLen(f, x) == m)
  }

  lemma MaxVisitedStart(f: seq<int>)
    requires IsPerm(f)
    ensures MaxVisited(f, seq(|f|, _ => false), 0)
  {
  }

  lemma MaxVisitedCycle(f: seq<int>, vis0: seq<bool>, s: int, vis: seq<bool>, m: int)
    requires IsPerm(f) && 0 <= s < |f| && Decomposed(f, vis0, s) && !vis0[s]
    requires Marked(f, vis0, s, CycleLen(f, s), vis) && MaxVisited(f, vis0, m)
    ensures MaxVisited(f, vis, if CycleLen(f, s) > m then CycleLen(f, s) else m)
  {
    CycleDone(f, vis0, s, vis);
    FinishCycle(f, vis0, s, vis);
    if m != 0 && CycleLen(f, s) <= m {
      var x :| 0 <= x < |f| && vis0[x] && CycleLen(f, x) == m;
      assert vis[x];
    }
  }

  lemma MaxVisitedDone(f: seq<int>, vis: seq<bool>, m: int)
    requires IsPerm(f) && Decomposed(f, vis, |f|) && MaxVisited(f, vis, m)
    ensures m == MaxCycle(f)
  {
    if |f| > 0 {
      assert CycleLen(f, 0) <= m;
    }
    MaxCycleIs(f, m);
  }

  // ---------------------------------------------------------------------
  // Following the chain for one prisoner.

  /** One more opening: the slip in the box reached after `step` openings
      names x exactly when the cycle through x has length step + 1. */
  lemma ChainStep(f: seq<int>, x: int, step: nat)
    requires IsPerm(f) && 0 <= x < |f| && step < CycleLen(f, x)
    ensures Iter(f, step + 1, x) == f[Iter(f, step, x)]
    ensures f[Iter(f, step, x)] == x <==> CycleLen(f, x) == step + 1
  {
  }

  // ---------------------------------------------------------------------
  // Counting over rounds.

  /** Number of arrangements (0-based) in which every prisoner succeeds. */
  function WinningRounds(rounds: seq<seq<int>>, k: int): (r: nat)
    requires forall i :: 0 <= i < |rounds| ==> IsPerm(rounds[i])
    ensures r <= |rounds|
  {
    if rounds == [] then 0
    else WinningRounds(rounds[..|rounds| - 1], k) + (if AllSucceed(rounds[|rounds| - 1], k) then 1 else 0)
  }

  /** Number of arrangements (1-based) in which every prisoner succeeds. */
  function WinningRounds1(rounds: seq<seq<int>>, k: int): (r: nat)
    requires forall i :: 0 <= i < |rounds| ==> IsPerm1(rounds[i])
    ensures r <= |rounds|
  {
    if rounds == [] then 0
    else
      WinningRounds1(rounds[..|rounds| - 1], k) + (if AllSucceed1(rounds[|rounds| - 1], k) then 1 else 0)
  }

  /** Counting the winning rounds one arrangement at a time. */
  lemma WinningRoundsStep(rounds: seq<seq<int>>, r: int, k: int)
    requires forall i :: 0 <= i < |rounds| ==> IsPerm(rounds[i])
    requires 0 <= r < |rounds|
    ensures WinningRounds(rounds[..r + 1], k) ==
            WinningRounds(rounds[..r], k) + (if AllSucceed(rounds[r], k) then 1 else 0)
  {
    assert rounds[..r + 1][..r] == rounds[..r];
  }

  lemma WinningRounds1Step(rounds: seq<seq<int>>, r: int, k: int)
    requires forall i :: 0 <= i < |rounds| ==> IsPerm1(rounds[i])
    requires 0 <= r < |rounds|
    ensures WinningRounds1(rounds[..r + 1], k) ==
            WinningRounds1(rounds[..r], k) + (if AllSucceed1(rounds[r], k) then 1 else 0)
  {
    assert rounds[..r + 1][..r] == rounds[..r];
  }

  // ---------------------------------------------------------------------
  // Prisoners whose cycle is too long.

  /** Number of visited boxes among 0..m-1 whose cycle is longer than K. */
  function LongVisited(f: seq<int>, k: int, vis: seq<bool>, m: nat): nat
    requires IsPerm(f) && |vis| == |f| && m <= |f|
  {
    if m == 0 then 0
    else LongVisited(f, k, vis, m - 1) + (if vis[m - 1] && CycleLen(f, m - 1) > k then 1 else 0)
  }

  lemma {:induction false} LongVisitedSet(f: seq<int>, k: int, vis: seq<bool>, y: int, m: nat)
    requires IsPerm(f) && |vis| == |f| && 0 <= y < |f| && !vis[y] && m <= |f|
    ensures LongVisited(f, k, vis[y := true], m) ==
            LongVisited(f, k, vis, m) + (if y < m && CycleLen(f, y) > k then 1 else 0)
  {
    if m > 0 {
      LongVisitedSet(f, k, vis, y, m - 1);
    }
  }

  lemma {:induction false} LongVisitedNone(f: seq<int>, k: int, m: nat)
    requires IsPerm(f) && m <= |f|
    ensures LongVisited(f, k, seq(|f|, _ => false), m) == 0
  {
    if m > 0 {
      LongVisitedNone(f, k, m - 1);
    }
  }

  /** Once every box is visited, the long-cycle boxes are exactly the
      prisoners who fail. */
  lemma {:induction false} LongVisitedAll(f: seq<int>, k: int, vis: seq<bool>, m: nat)
    requires IsPerm(f) && |vis| == |f| && m <= |f| && forall x :: 0 <= x < |f| ==> vis[x]
    ensures LongVisited(f, k, vis, m) == m - SuccessCount(f, k, m)
  {
    if m > 0 {
      LongVisitedAll(f, k, vis, m - 1);
    }
  }

  function Sum(xs: seq<int>): int {
    if xs == [] then 0 else Sum(xs[..|xs| - 1]) + xs[|xs| - 1]
  }

  lemma SumSnoc(xs: seq<int>, x: int)
    ensures Sum(xs + [x]) == Sum(xs) + x
  {
    assert (xs + [x])[..|xs|] == xs;
  }

  // ---------------------------------------------------------------------
  // The smallest box of a cycle.

  /** The chain from x repeats with period CycleLen(x). */
  lemma IterReduce(f: seq<int>, k: nat, x: int) returns (r: nat)
    requires IsPerm(f) && 0 <= x < |f|
    ensures r < CycleLen(f, x) && Iter(f, k, x) == Iter(f, r, x)
  {
    var len := CycleLen(f, x);
    if k < len {
      r := k;
    } else {
      IterAdd(f, k - len, len, x);
      r := IterReduce(f, k - len, x);
    }
  }

  /** Where the smallest of the first k boxes of the chain from x occurs. */
  function MinIndex(f: seq<int>, x: int, k: nat): (j: nat)
    requires IsPerm(f) && 0 <= x < |f| && k >= 1
    ensures j < k
  {
    if k == 1 then 0
    else
      var j := MinIndex(f, x, k - 1);
      if Iter(f, k - 1, x) < Iter(f, j, x) then k - 1 else j
  }

  lemma {:induction false} MinIndexLe(f: seq<int>, x: int, k: nat, i: nat)
    requires IsPerm(f) && 0 <= x < |f| && i < k
    ensures Iter(f, MinIndex(f, x, k), x) <= Iter(f, i, x)
  {
    if i < k - 1 {
      MinIndexLe(f, x, k - 1, i);
    }
  }

  /** The smallest box on the cycle through x. */
  function CycleMin(f: seq<int>, x: int): (m: int)
    requires IsPerm(f) && 0 <= x < |f|
    ensures 0 <= m < |f|
  {
    Iter(f, MinIndex(f, x, CycleLen(f, x)), x)
  }

  /** No box of the chain from x is smaller than CycleMin(x). */
  lemma CycleMinBelow(f: seq<int>, x: int, k: nat)
    requires IsPerm(f) && 0 <= x < |f|
    ensures CycleMin(f, x) <= Iter(f, k, x)
  {
    var r := IterReduce(f, k, x);
    MinIndexLe(f, x, CycleLen(f, x), r);
  }

  lemma CycleMinLe(f: seq<int>, k: nat, x: int)
    requires IsPerm(f) && 0 <= x < |f|
    ensures CycleMin(f, x) <= CycleMin(f, Iter(f, k, x))
  {
    var y := Iter(f, k, x);
    var j := MinIndex(f, y, CycleLen(f, y));
    IterAdd(f, j, k, x);
    CycleMinBelow(f, x, j + k);
  }

  /** From any box of the chain from x some further openings lead back to x. */
  lemma BackToStart(f: seq<int>, k: nat, x: int) returns (a: nat)
    requires IsPerm(f) && 0 <= x < |f|
    ensures Iter(f, a, Iter(f, k, x)) == x
  {
    var r := IterReduce(f, k, x);
    a := CycleLen(f, x) - r;
    IterAdd(f, a, r, x);
  }

  /** Every box of a cycle has the same smallest box. */
  lemma CycleMinOnCycle(f: seq<int>, k: nat, x: int)
    requires IsPerm(f) && 0 <= x < |f|
    ensures CycleMin(f, Iter(f, k, x)) == CycleMin(f, x)
  {
    CycleMinLe(f, k, x);
    var a := BackToStart(f, k, x);
    CycleMinLe(f, a, Iter(f, k, x));
  }

  /** A box lies on the cycle through the smallest box of its cycle. */
  lemma OnCycleOfMin(f: seq<int>, y: int)
    requires IsPerm(f) && 0 <= y < |f|
    ensures InPrefix(f, CycleMin(f, y), CycleLen(f, CycleMin(f, y)), y)
  {
    var len := CycleLen(f, y);
    var j := MinIndex(f, y, len);
    var s := CycleMin(f, y);
    CycleLenOnCycle(f, j, y);
    IterAdd(f, len - j, j, y);
    assert Iter(f, len - j, s) == y;
    if j == 0 {
      assert Iter(f, 0, s) == y;
    }
  }

  lemma InPrefixCycleMin(f: seq<int>, s: int, y: int)
    requires IsPerm(f) && 0 <= s < |f| && InPrefix(f, s, CycleLen(f, s), y)
    ensures 0 <= y < |f| && CycleMin(f, y) == CycleMin(f, s)
  {
    var j :| 0 <= j < CycleLen(f, s) && Iter(f, j, s) == y;
    CycleMinOnCycle(f, j, s);
  }

  /** Box x is the smallest box of its cycle. */
  predicate Leader(f: seq<int>, x: int)
    requires IsPerm(f) && 0 <= x < |f|
  {
    CycleMin(f, x) == x
  }

  /** The entries of lens[..m] whose flag in keep is set, in order. */
  function Picked(lens: seq<int>, keep: seq<bool>, m: nat): seq<int>
    requires m <= |lens| && m <= |keep|
  {
    if m == 0 then []
    else Picked(lens, keep, m - 1) + (if keep[m - 1] then [lens[m - 1]] else [])
  }

  /** The length of every box's cycle, box by box. */
  function CycleLens(f: seq<int>): (r: seq<int>)
    requires IsPerm(f)
    ensures |r| == |f|
  {
    seq(|f|, x requires 0 <= x < |f| && IsPerm(f) => CycleLen(f, x))
  }

  /** Which boxes lead their cycle, box by box. */
  function Leaders(f: seq<int>): (r: seq<bool>)
    requires IsPerm(f)
    ensures |r| == |f|
  {
    seq(|f|, x requires 0 <= x < |f| && IsPerm(f) => Leader(f, x))
  }

  /** The cycle lengths listed once per cycle, in the order of the cycles'
      smallest boxes, for the cycles whose smallest box is below m. */
  function LeaderLengths(f: seq<int>, m: nat): seq<int>
    requires IsPerm(f) && m <= |f|
  {
    Picked(CycleLens(f), Leaders(f), m)
  }

  /** The visited boxes are exactly those whose cycle's smallest box is below m. */
  ghost predicate VisitedBelow(f: seq<int>, vis: seq<bool>, m: int)
    requires IsPerm(f)
  {
    |vis| == |f| && 0 <= m <= |f| && forall y :: 0 <= y < |f| ==> (vis[y] <==> CycleMin(f, y) < m)
  }

  lemma LeaderLengthsNext(f: seq<int>, p: int)
    requires IsPerm(f) && 0 <= p < |f|
    ensures LeaderLengths(f, p + 1) == LeaderLengths(f, p) + (if Leader(f, p) then [CycleLen(f, p)] else [])
  {
    assert CycleLens(f)[p] == CycleLen(f, p) && Leaders(f)[p] == Leader(f, p);
  }

  lemma VisitedBelowStart(f: seq<int>)
    requires IsPerm(f)
    ensures VisitedBelow(f, seq(|f|, _ => false), 0)
  {
  }

  lemma VisitedBelowClosed(f: seq<int>, vis: seq<bool>, m: int)
    requires IsPerm(f) && VisitedBelow(f, vis, m)
    ensures Decomposed(f, vis, m)
  {
    forall x | 0 <= x < |f| && vis[x] ensures vis[f[x]] {
      CycleMinOnCycle(f, 1, x);
      assert Iter(f, 1, x) == f[Iter(f, 0, x)];
    }
    forall x | 0 <= x < m ensures vis[x] {
      CycleMinBelow(f, x, 0);
    }
  }

  /** Walking the cycle of the first unvisited box s: s leads its cycle, and
      afterwards the visited boxes are those whose smallest box is below s + 1. */
  lemma VisitedBelowStep(f: seq<int>, vis0: seq<bool>, s: int, vis: seq<bool>)
    requires IsPerm(f) && 0 <= s < |f| && VisitedBelow(f, vis0, s) && !vis0[s]
    requires Marked(f, vis0, s, CycleLen(f, s), vis)
    ensures Leader(f, s) && VisitedBelow(f, vis, s + 1)
  {
    CycleMinBelow(f, s, 0);
    forall y | 0 <= y < |f| ensures vis[y] <==> CycleMin(f, y) < s + 1 {
      if InPrefix(f, s, CycleLen(f, s), y) {
        InPrefixCycleMin(f, s, y);
      }
      if CycleMin(f, y) == s {
        OnCycleOfMin(f, y);
      }
    }
  }

  lemma VisitedBelowSkip(f: seq<int>, vis: seq<bool>, s: int)
    requires IsPerm(f) && 0 <= s < |f| && VisitedBelow(f, vis, s) && vis[s]
    ensures !Leader(f, s) && VisitedBelow(f, vis, s + 1)
  {
    CycleMinBelow(f, s, 0);
    forall y | 0 <= y < |f| && CycleMin(f, y) == s ensures false {
      OnCycleOfMin(f, y);
      InPrefixCycleMin(f, s, y);
    }
  }

  lemma LeaderLengthsPrefix(f: seq<int>, m: nat, n: nat)
    requires IsPerm(f) && m <= n <= |f|
    ensures LeaderLengths(f, m) <= LeaderLengths(f, n)
  {
    PickedPrefix(CycleLens(f), Leaders(f), m, n);
  }

  /** Picking from a shorter prefix gives a prefix. */
  lemma {:induction false} PickedPrefix(lens: seq<int>, keep: seq<bool>, m: nat, n: nat)
    requires m <= n <= |lens| && n <= |keep|
    ensures Picked(lens, keep, m) <= Picked(lens, keep, n)
  {
    if m < n {
      PickedPrefix(lens, keep, m, n - 1);
      var a, b, c := Picked(lens, keep, m), Picked(lens, keep, n - 1), Picked(lens, keep, n);
      assert c[..|b|] == b;
      assert c[..|a|] == c[..|b|][..|a|];
    }
  }

  /** Every picked entry comes from a flagged position below m. */
  lemma {:induction false} PickedMember(lens: seq<int>, keep: seq<bool>, m: nat, i: int)
    requires m <= |lens| && m <= |keep| && 0 <= i < |Picked(lens, keep, m)|
    ensures exists s :: 0 <= s < m && keep[s] && Picked(lens, keep, m)[i] == lens[s]
  {
    if i < |Picked(lens, keep, m - 1)| {
      PickedMember(lens, keep, m - 1, i);
    }
  }

  /** Every flagged position below m has its entry picked. */
  lemma {:induction false} PickedIn(lens: seq<int>, keep: seq<bool>, m: nat, s: int)
    requires m <= |lens| && m <= |keep| && 0 <= s < m && keep[s]
    ensures exists i :: 0 <= i < |Picked(lens, keep, m)| && Picked(lens, keep, m)[i] == lens[s]
  {
    var prev := Picked(lens, keep, m - 1);
    if s < m - 1 {
      PickedIn(lens, keep, m - 1, s);
      var i :| 0 <= i < |prev| && prev[i] == lens[s];
      assert Picked(lens, keep, m)[i] == lens[s];
    } else {
      assert Picked(lens, keep, m)[|prev|] == lens[s];
    }
  }

  /** Every listed length is the length of the cycle of some leader. */
  lemma LeaderLengthsMember(f: seq<int>, m: nat, i: int)
    requires IsPerm(f) && m <= |f| && 0 <= i < |LeaderLengths(f, m)|
    ensures exists s :: 0 <= s < m && Leader(f, s) && LeaderLengths(f, m)[i] == CycleLen(f, s)
  {
    PickedMember(CycleLens(f), Leaders(f), m, i);
    var s :| 0 <= s < m && Leaders(f)[s] && LeaderLengths(f, m)[i] == CycleLens(f)[s];
    assert Leader(f, s) && LeaderLengths(f, m)[i] == CycleLen(f, s);
  }

  /** Every leader below m has its cycle length listed. */
  lemma LeaderInLengths(f: seq<int>, m: nat, s: int)
    requires IsPerm(f) && m <= |f| && 0 <= s < m && Leader(f, s)
    ensures exists i :: 0 <= i < |LeaderLengths(f, m)| && LeaderLengths(f, m)[i] == CycleLen(f, s)
  {
    assert Leaders(f)[s] && CycleLens(f)[s] == CycleLen(f, s);
    PickedIn(CycleLens(f), Leaders(f), m, s);
    var i :| 0 <= i < |Picked(CycleLens(f), Leaders(f), m)| && Picked(CycleLens(f), Leaders(f), m)[i] == CycleLens(f)[s];
    assert LeaderLengths(f, m)[i] == CycleLen(f, s);
  }

  /** Everyone succeeds exactly when every cycle, listed once per cycle, is at
      most K long. */
  lemma AllSucceedLeaders(f: seq<int>, k: int)
    requires IsPerm(f)
    ensures AllSucceed(f, k) <==> forall i :: 0 <= i < |LeaderLengths(f, |f|)| ==> LeaderLengths(f, |f|)[i] <= k
  {
    var ls := LeaderLengths(f, |f|);
    if AllSucceed(f, k) {
      forall i | 0 <= i < |ls| ensures ls[i] <= k {
        LeaderLengthsMember(f, |f|, i);
        var s :| 0 <= s < |f| && Leader(f, s) && ls[i] == CycleLen(f, s);
        assert Succeeds(f, k, s);
      }
    }
    if forall i :: 0 <= i < |ls| ==> ls[i] <= k {
      forall p | 0 <= p < |f| ensures Succeeds(f, k, p) {
        var s := CycleMin(f, p);
        OnCycleOfMin(f, p);
        InPrefixCycleMin(f, s, p);
        var j :| 0 <= j < CycleLen(f, s) && Iter(f, j, s) == p;
        CycleLenOnCycle(f, j, s);
        LeaderInLengths(f, |f|, s);
      }
    }
  }

  /** Counting the `found` flags that say exactly who succeeds. */
  lemma {:induction false} CountTrueSuccess(f: seq<int>, k: int, found: seq<bool>, m: nat)
    requires IsPerm(f) && |found| == |f| && m <= |f|
    requires forall i :: 0 <= i < |f| ==> (found[i] <==> Succeeds(f, k, i))
    ensures CountTrue(found[..m]) == SuccessCount(f, k, m)
  {
    if m > 0 {
      assert found[..m][..m - 1] == found[..m - 1];
      CountTrueSuccess(f, k, found, m - 1);
    }
  }
}
