/** The cycle strategy of the prisoner simulator that records, per round, the
    longest cycle it walked. */
module ZhaoweiyiPrisoners {
  import opened Perms

  class PrisonerProblemSimulator {
    var n: int
    var k: int
    var cycleLengths: seq<int>

    constructor (n: int, k: int)
      ensures this.n == n && this.k == k && cycleLengths == []
    {
      this.n := n;
      this.k := k;
      cycleLengths := [];
    }

    /** `cycle_strategy`: runs the walk and, when the round succeeds, records
        its longest cycle. */
    method CycleStrategy(boxes: seq<int>) returns (ok: bool, maxLen: int)
      requires IsPerm(boxes) && |boxes| == n
      modifies this
      ensures ok <==> AllSucceed(boxes, k)
      ensures ok ==> maxLen == MaxCycle(boxes) && cycleLengths == old(cycleLengths) + [maxLen]
      ensures !ok ==> maxLen == 0 && cycleLengths == old(cycleLengths)
      ensures n == old(n) && k == old(k)
    {
      ok, maxLen := CycleWalk(boxes, k);
      if ok {
        cycleLengths := cycleLengths + [maxLen];
      }
    }
  }

  /** The walk of `cycle_strategy`: every cycle is walked once, from its
      smallest prisoner, marking the boxes it opens; the round is given up as
      soon as a cycle does not close within K boxes. */
  method CycleWalk(boxes: seq<int>, k: int) returns (ok: bool, maxLen: int)
    requires IsPerm(boxes)
    ensures ok <==> AllSucceed(boxes, k)
    ensures ok ==> maxLen == MaxCycle(boxes)
    ensures !ok ==> maxLen == 0
  {
    var maxCycle := 0;
    var n := |boxes|;
    var visited := new bool[n](_ => false);
    var prisoner := 0;
    while prisoner < n
      invariant 0 <= prisoner <= n && visited.Length == n
      invariant Progress(boxes, k, visited[..], prisoner, maxCycle)
    {
      if visited[prisoner] {
        ProgressSkip(boxes, k, visited[..], prisoner, maxCycle);
        prisoner := prisoner + 1;
        continue;
      }
      ghost var vis0 := visited[..];
      var cycleFound := FollowCycle(boxes, k, visited, prisoner);
      if cycleFound {
        ProgressCycle(boxes, k, vis0, visited[..], prisoner, maxCycle);
        var cycleLength := CycleLen(boxes, prisoner);
        maxCycle := if maxCycle < cycleLength then cycleLength else maxCycle;
      }
      if !cycleFound {
        FailedPrisoner(boxes, k, prisoner);
        return false, 0;
      }
      prisoner := prisoner + 1;
    }
    ProgressDone(boxes, k, visited[..], maxCycle);
    return true, maxCycle;
  }

  /** The step loop of `cycle_strategy` for one prisoner whose box is not yet
      visited: follows the chain for at most K boxes, marking each opened box,
      and stops when the slip names the prisoner. */
  method FollowCycle(boxes: seq<int>, k: int, visited: array<bool>, prisoner: int) returns (found: bool)
    requires IsPerm(boxes) && visited.Length == |boxes| && 0 <= prisoner < |boxes|
    requires Closed(boxes, visited[..]) && !visited[prisoner]
    modifies visited
    ensures found <==> CycleLen(boxes, prisoner) <= k
    ensures found ==> Marked(boxes, old(visited[..]), prisoner, CycleLen(boxes, prisoner), visited[..])
  {
    ghost var vis0 := visited[..];
    ghost var cl := CycleLen(boxes, prisoner);
    var current := prisoner;
    var step := 0;
    while step < k
      invariant 0 <= step && (step <= k || step == 0)
      invariant current == Iter(boxes, step, prisoner) && step < cl
      invariant Marked(boxes, vis0, prisoner, step, visited[..])
    {
      WalkFresh(boxes, vis0, prisoner, step);
      ghost var before := visited[..];
      MarkStep(boxes, vis0, prisoner, step, before);
      visited[current] := true;
      assert visited[..] == before[current := true];
      var nextBox := boxes[current];
      assert nextBox == Iter(boxes, step + 1, prisoner);
      if nextBox == prisoner {
        assert cl == step + 1;
        return true;
      }
      assert step + 1 != cl;
      current := nextBox;
      step := step + 1;
    }
    return false;
  }

  /** After the prisoners below `upto` are handled, the visited boxes are whole
      cycles covering them, all of length at most `maxCycle` <= K, and
      `maxCycle` is the length of one of them (or 0 when none is visited). */
  ghost predicate Progress(f: seq<int>, k: int, vis: seq<bool>, upto: int, maxCycle: int)
    requires IsPerm(f)
  {
    |vis| == |f| && 0 <= upto <= |f| && Closed(f, vis) &&
    (forall x :: 0 <= x < upto ==> vis[x]) &&
    (forall x :: 0 <= x < |f| && vis[x] ==> CycleLen(f, x) <= maxCycle <= k) &&
    (maxCycle == 0 || exists x :: 0 <= x < |f| && vis[x] && CycleLen(f, x) == maxCycle)
  }

  lemma ProgressCycle(f: seq<int>, k: int, vis0: seq<bool>, vis: seq<bool>, p: int, maxCycle: int)
    requires IsPerm(f) && 0 <= p < |f| && Progress(f, k, vis0, p, maxCycle) && !vis0[p]
    requires Marked(f, vis0, p, CycleLen(f, p), vis) && CycleLen(f, p) <= k
    ensures Progress(f, k, vis, p + 1, if maxCycle < CycleLen(f, p) then CycleLen(f, p) else maxCycle)
  {
    FinishCycle(f, vis0, p, vis);
    assert forall x :: 0 <= x < |f| && vis0[x] ==> vis[x];
    if maxCycle < CycleLen(f, p) {
      assert vis[p];
    } else if maxCycle != 0 {
      var x :| 0 <= x < |f| && vis0[x] && CycleLen(f, x) == maxCycle;
      assert vis[x];
    }
  }

  lemma ProgressSkip(f: seq<int>, k: int, vis: seq<bool>, p: int, maxCycle: int)
    requires IsPerm(f) && 0 <= p < |f| && Progress(f, k, vis, p, maxCycle) && vis[p]
    ensures Progress(f, k, vis, p + 1, maxCycle)
  {
  }

  lemma FailedPrisoner(f: seq<int>, k: int, p: int)
    requires IsPerm(f) && 0 <= p < |f| && !(CycleLen(f, p) <= k)
    ensures !AllSucceed(f, k)
  {
    assert !Succeeds(f, k, p);
  }

  lemma ProgressDone(f: seq<int>, k: int, vis: seq<bool>, maxCycle: int)
    requires IsPerm(f) && Progress(f, k, vis, |f|, maxCycle)
    ensures AllSucceed(f, k) && maxCycle == MaxCycle(f)
  {
    if |f| > 0 {
      assert CycleLen(f, 0) <= maxCycle;
    }
    MaxCycleIs(f, maxCycle);
  }
}
