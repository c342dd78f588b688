/** The simulation object that runs the loop strategy by decomposing each
    arrangement into cycles and keeps every round's outcome and the cycle
    lengths it saw.  `boxes[b]` is the slip in box b, a permutation of
    0..N-1. */
module LiuYuQiaoPrisoners {
  import opened Lists
  import opened Perms

  /** The list cut just after its first element above K (the whole list when
      there is none). */
  function UpToFirstLong(xs: seq<int>, k: int): (r: seq<int>)
    ensures r <= xs
  {
    if xs == [] then []
    else if xs[0] > k then [xs[0]]
    else [xs[0]] + UpToFirstLong(xs[1..], k)
  }

  /** A list ending at its first element above K is where the cut falls. */
  lemma {:induction false} UpToFirstLongAt(xs: seq<int>, ys: seq<int>, k: int)
    requires xs <= ys && |xs| > 0 && xs[|xs| - 1] > k
    requires forall i :: 0 <= i < |xs| - 1 ==> xs[i] <= k
    ensures UpToFirstLong(ys, k) == xs
  {
    if |xs| > 1 {
      UpToFirstLongAt(xs[1..], ys[1..], k);
    }
  }

  /** With no element above K nothing is cut. */
  lemma {:induction false} UpToFirstLongAll(xs: seq<int>, k: int)
    requires forall i :: 0 <= i < |xs| ==> xs[i] <= k
    ensures UpToFirstLong(xs, k) == xs
  {
    if xs != [] {
      UpToFirstLongAll(xs[1..], k);
    }
  }

  /** The lengths `strategy2_loop` reports for one arrangement. */
  function ReportedLengths(boxes: seq<int>, k: int): seq<int>
    requires IsPerm(boxes)
  {
    UpToFirstLong(LeaderLengths(boxes, |boxes|), k)
  }

  /** The reported lengths end at the first cycle longer than K when someone
      fails, and are all the cycle lengths, each at most K, otherwise. */
  lemma ReportedLengthsShape(boxes: seq<int>, k: int)
    requires IsPerm(boxes)
    ensures var r := ReportedLengths(boxes, k);
      !AllSucceed(boxes, k) ==> |r| > 0 && r[|r| - 1] > k && AtMost(r[..|r| - 1], k)
    ensures AllSucceed(boxes, k) ==> ReportedLengths(boxes, k) == LeaderLengths(boxes, |boxes|)
  {
    AllSucceedLeaders(boxes, k);
    UpToFirstLongShape(LeaderLengths(boxes, |boxes|), k);
  }

  lemma {:induction false} UpToFirstLongShape(xs: seq<int>, k: int)
    ensures var r := UpToFirstLong(xs, k);
      (r == xs && AtMost(xs, k)) || (|r| > 0 && r[|r| - 1] > k && AtMost(r[..|r| - 1], k))
  {
    if xs != [] && xs[0] <= k {
      UpToFirstLongShape(xs[1..], k);
      var r := UpToFirstLong(xs[1..], k);
      assert UpToFirstLong(xs, k) == [xs[0]] + r;
      if r == xs[1..] && AtMost(xs[1..], k) {
        assert [xs[0]] + xs[1..] == xs;
      } else {
        assert ([xs[0]] + r)[..|r|] == [xs[0]] + r[..|r| - 1];
      }
    }
  }

  /** The lengths gathered by `run_simulation` over the given rounds. */
  function AllReported(rounds: seq<seq<int>>, k: int): seq<int>
    requires forall i :: 0 <= i < |rounds| ==> IsPerm(rounds[i])
  {
    if rounds == [] then []
    else AllReported(rounds[..|rounds| - 1], k) + ReportedLengths(rounds[|rounds| - 1], k)
  }

  /** Whether everyone succeeds, round by round. */
  function Outcomes(rounds: seq<seq<int>>, k: int): (r: seq<bool>)
    requires forall i :: 0 <= i < |rounds| ==> IsPerm(rounds[i])
    ensures |r| == |rounds|
  {
    if rounds == [] then []
    else Outcomes(rounds[..|rounds| - 1], k) + [AllSucceed(rounds[|rounds| - 1], k)]
  }

  lemma AllReportedStep(rounds: seq<seq<int>>, r: int, k: int)
    requires forall i :: 0 <= i < |rounds| ==> IsPerm(rounds[i])
    requires 0 <= r < |rounds|
    ensures AllReported(rounds[..r + 1], k) == AllReported(rounds[..r], k) + ReportedLengths(rounds[r], k)
    ensures Outcomes(rounds[..r + 1], k) == Outcomes(rounds[..r], k) + [AllSucceed(rounds[r], k)]
  {
    assert rounds[..r + 1][..r] == rounds[..r];
  }

  /** Recording one more round extends both records by that round. */
  lemma RecordStep(rounds: seq<seq<int>>, r: int, k: int, outcomes: seq<bool>,
                   lengths0: seq<int>, lengths: seq<int>)
    requires forall i :: 0 <= i < |rounds| ==> IsPerm(rounds[i])
    requires 0 <= r < |rounds|
    requires outcomes == Outcomes(rounds[..r], k) && lengths == lengths0 + AllReported(rounds[..r], k)
    ensures outcomes + [AllSucceed(rounds[r], k)] == Outcomes(rounds[..r + 1], k)
    ensures lengths + ReportedLengths(rounds[r], k) == lengths0 + AllReported(rounds[..r + 1], k)
  {
    AllReportedStep(rounds, r, k);
    var a, b := AllReported(rounds[..r], k), ReportedLengths(rounds[r], k);
    AppendAssoc(lengths0, a, b);
  }

  class PrisonerSimulation {
    var n: int
    var k: int
    var t: int
    var strategy2Success: array<bool>
    var strategy2LoopLengths: seq<int>

    constructor (n: int, k: int, t: nat)
      ensures this.n == n && this.k == k && this.t == t
      ensures fresh(strategy2Success) && strategy2Success.Length == t
      ensures forall i :: 0 <= i < t ==> !strategy2Success[i]
      ensures strategy2LoopLengths == []
    {
      this.n := n;
      this.k := k;
      this.t := t;
      strategy2Success := new bool[t](_ => false);
      strategy2LoopLengths := [];
    }

    /** `strategy2_loop`: walks the cycles in the order of their smallest
        box, recording each length, and gives up (returning the lengths so
        far) at the first cycle longer than K. */
    method Strategy2Loop(boxes: seq<int>) returns (ok: bool, loopLengths: seq<int>)
      requires IsPerm(boxes) && |boxes| == n
      ensures loopLengths == ReportedLengths(boxes, k)
      ensures ok <==> AllSucceed(boxes, k)
      ensures ok ==> Sum(loopLengths) == n
    {
      ok, loopLengths := CycleScan(boxes, k);
    }

    /** `run_simulation` over a given list of T arrangements: records each
        round's outcome and appends the lengths it reported. */
    method RunSimulation(rounds: seq<seq<int>>)
      requires |rounds| == t == strategy2Success.Length
      requires forall i :: 0 <= i < |rounds| ==> IsPerm(rounds[i]) && |rounds[i]| == n
      modifies this, strategy2Success
      ensures n == old(n) && k == old(k) && t == old(t) && strategy2Success == old(strategy2Success)
      ensures strategy2Success[..] == Outcomes(rounds, k)
      ensures strategy2LoopLengths == old(strategy2LoopLengths) + AllReported(rounds, k)
    {
      var r := 0;
      while r < |rounds|
        invariant 0 <= r <= |rounds|
        invariant n == old(n) && k == old(k) && t == old(t) && strategy2Success == old(strategy2Success)
        invariant Recorded(rounds, r, old(strategy2LoopLengths))
      {
        PlayRound(rounds, r, old(strategy2LoopLengths));
        r := r + 1;
      }
      assert rounds[..r] == rounds;
      assert strategy2Success[..] == strategy2Success[..r];
    }

    /** The first `r` rounds are recorded: their outcomes fill the first `r`
        slots and their reported lengths follow `lengths0`. */
    ghost predicate Recorded(rounds: seq<seq<int>>, r: int, lengths0: seq<int>)
      requires forall i :: 0 <= i < |rounds| ==> IsPerm(rounds[i])
      reads this, strategy2Success
    {
      0 <= r <= |rounds| && r <= strategy2Success.Length &&
      strategy2Success[..r] == Outcomes(rounds[..r], k) &&
      strategy2LoopLengths == lengths0 + AllReported(rounds[..r], k)
    }

    /** One iteration of `run_simulation`. */
    method PlayRound(rounds: seq<seq<int>>, r: int, ghost lengths0: seq<int>)
      requires 0 <= r < |rounds| == strategy2Success.Length
      requires forall i :: 0 <= i < |rounds| ==> IsPerm(rounds[i])
      requires |rounds[r]| == n
      requires Recorded(rounds, r, lengths0)
      modifies this, strategy2Success
      ensures n == old(n) && k == old(k) && t == old(t) && strategy2Success == old(strategy2Success)
      ensures Recorded(rounds, r + 1, lengths0)
    {
      var ok, loopLengths := Strategy2Loop(rounds[r]);
      ghost var before := strategy2Success[..r];
      RecordStep(rounds, r, k, before, lengths0, strategy2LoopLengths);
      strategy2Success[r] := ok;
      assert strategy2Success[..r + 1] == before + [ok];
      strategy2LoopLengths := strategy2LoopLengths + loopLengths;
    }
  }

  /** The body of `strategy2_loop` for a given K. */
  method CycleScan(boxes: seq<int>, k: int) returns (ok: bool, loopLengths: seq<int>)
    requires IsPerm(boxes)
    ensures loopLengths == ReportedLengths(boxes, k)
    ensures ok <==> AllSucceed(boxes, k)
    ensures ok ==> Sum(loopLengths) == |boxes|
  {
    var n := |boxes|;
    loopLengths := [];
    var visited := new bool[n](_ => false);
    assert visited[..] == seq(n, _ => false);
    VisitedBelowStart(boxes);
    CountTrueNone(n);
    var prisoner := 0;
    while prisoner < n
      invariant 0 <= prisoner <= n && visited.Length == n
      invariant ScanInv(boxes, k, visited[..], prisoner, loopLengths)
    {
      var stop;
      stop, loopLengths := ScanBox(boxes, k, visited, prisoner, loopLengths);
      if stop {
        return false, loopLengths;
      }
      prisoner := prisoner + 1;
    }
    ScanSucceeds(boxes, k, visited[..], loopLengths);
    return true, loopLengths;
  }

  /** What holds after the boxes below p are handled: the visited boxes are
      the cycles led by a box below p, their lengths are listed in order, all
      at most K, and they add up to the number of visited boxes. */
  ghost predicate ScanInv(f: seq<int>, k: int, vis: seq<bool>, p: int, lengths: seq<int>)
    requires IsPerm(f)
  {
    VisitedBelow(f, vis, p) && 0 <= p <= |f| && lengths == LeaderLengths(f, p) &&
    AtMost(lengths, k) && Sum(lengths) == CountTrue(vis)
  }

  /** One pass of the `for prisoner in range(N)` loop of `strategy2_loop`:
      skips a visited box, or walks the cycle it leads; `stop` is the early
      return taken when that cycle is longer than K. */
  method ScanBox(boxes: seq<int>, k: int, visited: array<bool>, prisoner: int, loopLengths: seq<int>)
    returns (stop: bool, lengths: seq<int>)
    requires IsPerm(boxes) && visited.Length == |boxes| && 0 <= prisoner < |boxes|
    requires ScanInv(boxes, k, visited[..], prisoner, loopLengths)
    modifies visited
    ensures stop ==> lengths == ReportedLengths(boxes, k) && !AllSucceed(boxes, k)
    ensures !stop ==> ScanInv(boxes, k, visited[..], prisoner + 1, lengths)
  {
    if visited[prisoner] {
      VisitedBelowSkip(boxes, visited[..], prisoner);
      LeaderLengthsNext(boxes, prisoner);
      return false, loopLengths;
    }
    ghost var vis0 := visited[..];
    VisitedBelowClosed(boxes, vis0, prisoner);
    var loopLength, loopPrisoners := WalkLoop(boxes, visited, prisoner);
    ScanStep(boxes, vis0, visited[..], prisoner, loopLengths);
    AtMostSnoc(loopLengths, loopLength, k);
    lengths := loopLengths + [loopLength];
    if loopLength > k {
      ScanFails(boxes, k, prisoner, lengths);
      return true, lengths;
    }
    return false, lengths;
  }

  /** A cycle longer than K, led by s, ends the scan: the lengths so far are
      the reported ones and someone fails. */
  lemma ScanFails(f: seq<int>, k: int, s: int, lengths: seq<int>)
    requires IsPerm(f) && 0 <= s < |f|
    requires lengths == LeaderLengths(f, s + 1) && |lengths| > 0
    requires AtMost(lengths[..|lengths| - 1], k) && lengths[|lengths| - 1] == CycleLen(f, s) > k
    ensures lengths == ReportedLengths(f, k) && !AllSucceed(f, k)
  {
    LeaderLengthsPrefix(f, s + 1, |f|);
    UpToFirstLongAt(lengths, LeaderLengths(f, |f|), k);
    assert !Succeeds(f, k, s);
  }

  /** A scan that reaches the end without a long cycle: everyone succeeds
      and the lengths add up to N. */
  lemma ScanSucceeds(f: seq<int>, k: int, vis: seq<bool>, lengths: seq<int>)
    requires IsPerm(f) && ScanInv(f, k, vis, |f|, lengths)
    ensures lengths == ReportedLengths(f, k) && AllSucceed(f, k) && Sum(lengths) == |f|
  {
    UpToFirstLongAll(lengths, k);
    AllSucceedLeaders(f, k);
    CountTrueAll(vis);
  }

  ghost predicate AtMost(xs: seq<int>, k: int) {
    forall i :: 0 <= i < |xs| ==> xs[i] <= k
  }

  lemma AtMostSnoc(xs: seq<int>, x: int, k: int)
    requires AtMost(xs, k)
    ensures (xs + [x])[..|xs|] == xs && (xs + [x])[|xs|] == x
    ensures x <= k ==> AtMost(xs + [x], k)
  {
    assert (xs + [x])[..|xs|] == xs;
  }

  /** The first `len` boxes of the chain from s. */
  function Chain(f: seq<int>, s: int, len: nat): (c: seq<int>)
    requires IsPerm(f) && 0 <= s < |f|
    ensures |c| == len
  {
    if len == 0 then [] else Chain(f, s, len - 1) + [Iter(f, len - 1, s)]
  }

  /** The bookkeeping of one cycle of `strategy2_loop`: its smallest box s
      leads it, its length is the next listed length, and the sum of the
      lengths keeps counting the visited boxes. */
  lemma ScanStep(f: seq<int>, vis0: seq<bool>, vis: seq<bool>, s: int, lengths: seq<int>)
    requires IsPerm(f) && 0 <= s < |f| && VisitedBelow(f, vis0, s) && !vis0[s]
    requires Marked(f, vis0, s, CycleLen(f, s), vis)
    requires lengths == LeaderLengths(f, s) && Sum(lengths) == CountTrue(vis0)
    requires CountTrue(vis) == CountTrue(vis0) + CycleLen(f, s)
    ensures VisitedBelow(f, vis, s + 1)
    ensures lengths + [CycleLen(f, s)] == LeaderLengths(f, s + 1)
    ensures Sum(lengths + [CycleLen(f, s)]) == CountTrue(vis)
  {
    VisitedBelowStep(f, vis0, s, vis);
    LeaderLengthsNext(f, s);
    SumSnoc(lengths, CycleLen(f, s));
  }

  /** The `while not visited[current]` walk from an unvisited box: marks the
      whole cycle, listing its boxes in the order they are opened. */
  method WalkLoop(boxes: seq<int>, visited: array<bool>, start: int) returns (loopLength: int, loopPrisoners: seq<int>)
    requires IsPerm(boxes) && visited.Length == |boxes| && 0 <= start < |boxes|
    requires Closed(boxes, visited[..]) && !visited[start]
    modifies visited
    ensures loopLength == CycleLen(boxes, start)
    ensures Marked(boxes, old(visited[..]), start, loopLength, visited[..])
    ensures CountTrue(visited[..]) == CountTrue(old(visited[..])) + loopLength
    ensures loopPrisoners == Chain(boxes, start, loopLength)
  {
    ghost var vis0 := visited[..];
    loopLength := 0;
    loopPrisoners := [];
    var current := start;
    MarkedStart(boxes, vis0, start);
    while !visited[current]
      invariant 0 <= current < |boxes| && current == Iter(boxes, loopLength, start)
      invariant Walked(boxes, vis0, start, loopLength, visited[..])
      invariant loopPrisoners == Chain(boxes, start, loopLength)
      decreases CycleLen(boxes, start) - loopLength
    {
      var next := MarkBox(boxes, visited, current, vis0, start, loopLength);
      loopPrisoners := loopPrisoners + [current];
      current := next;
      loopLength := loopLength + 1;
    }
    WalkStop(boxes, vis0, start, loopLength, visited[..]);
  }
}
