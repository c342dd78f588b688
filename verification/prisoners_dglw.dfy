/** The vectorised cycle strategy: every prisoner follows their chain at the
    same time, one box per attempt, with the array of boxes currently held
    and the array of prisoners who have found their number. Prisoners and
    slips are numbered from 1. */
module DglwPrisoners {
  import opened Perms

  /** The prisoner numbers 1..N, as `np.arange(1, N + 1)` gives them. */
  predicate Numbered(prisoners: seq<int>) {
    forall i :: 0 <= i < |prisoners| ==> prisoners[i] == i + 1
  }

  /** The boxes the prisoners hold are box numbers, 1..N. */
  predicate InBoxRange(current: seq<int>, n: int) {
    forall i :: 0 <= i < |current| ==> 1 <= current[i] <= n
  }

  /** `found | (boxes[current_boxes - 1] == prisoners)`: a prisoner has
      found their number once it is in a box they held. Nobody who had found
      it loses it. */
  function FoundAfter(prisoners: seq<int>, boxes: seq<int>, current: seq<int>, found: seq<bool>): (r: seq<bool>)
    requires |current| == |found| <= |prisoners| && InBoxRange(current, |boxes|)
    ensures |r| == |found|
    ensures forall i :: 0 <= i < |found| && found[i] ==> r[i]
    ensures forall i :: 0 <= i < |found| ==> (r[i] <==> found[i] || boxes[current[i] - 1] == prisoners[i])
  {
    seq(|found|, i requires 0 <= i < |found| => found[i] || boxes[current[i] - 1] == prisoners[i])
  }

  /** `boxes[current_boxes - 1]`: every prisoner opens the box whose number
      is on the slip they just read. */
  function NextBoxes(boxes: seq<int>, current: seq<int>): (r: seq<int>)
    requires IsPerm1(boxes) && InBoxRange(current, |boxes|)
    ensures |r| == |current| && InBoxRange(r, |boxes|)
    ensures forall i :: 0 <= i < |current| ==> r[i] == boxes[current[i] - 1]
  {
    seq(|current|, i requires 0 <= i < |current| => boxes[current[i] - 1])
  }

  /** After t attempts prisoner i has found their number exactly when their
      cycle is at most t long. */
  ghost predicate FoundAt(boxes: seq<int>, t: nat, found: seq<bool>)
    requires IsPerm1(boxes)
  {
    |found| == |boxes| && forall i :: 0 <= i < |boxes| ==> (found[i] <==> CycleLen(Shift(boxes), i) <= t)
  }

  /** After t attempts prisoner i holds the box t steps along their chain,
      and the flags are those of `FoundAt`. */
  ghost predicate AfterAttempts(boxes: seq<int>, t: nat, current: seq<int>, found: seq<bool>)
    requires IsPerm1(boxes)
  {
    |current| == |boxes| && InBoxRange(current, |boxes|) &&
    (forall i :: 0 <= i < |boxes| ==> current[i] - 1 == Iter(Shift(boxes), t, i)) &&
    FoundAt(boxes, t, found)
  }

  /** One attempt: the slip in the held box names prisoner i exactly when
      the cycle of i is t + 1 long. */
  lemma AttemptStep(prisoners: seq<int>, boxes: seq<int>, t: nat, current: seq<int>, found: seq<bool>)
    requires IsPerm1(boxes) && Numbered(prisoners) && |prisoners| == |boxes|
    requires AfterAttempts(boxes, t, current, found)
    ensures AfterAttempts(boxes, t + 1, NextBoxes(boxes, current), FoundAfter(prisoners, boxes, current, found))
  {
    var f := Shift(boxes);
    var found' := FoundAfter(prisoners, boxes, current, found);
    var current' := NextBoxes(boxes, current);
    forall i | 0 <= i < |boxes|
      ensures current'[i] - 1 == Iter(f, t + 1, i)
      ensures found'[i] <==> CycleLen(f, i) <= t + 1
    {
      assert Iter(f, t + 1, i) == f[Iter(f, t, i)];
      if CycleLen(f, i) == t + 1 {
        assert Iter(f, t + 1, i) == i;
      } else if CycleLen(f, i) > t + 1 {
        assert Iter(f, t + 1, i) != i;
      }
    }
  }

  lemma StartAttempts(prisoners: seq<int>, boxes: seq<int>)
    requires IsPerm1(boxes) && Numbered(prisoners) && |prisoners| == |boxes|
    ensures AfterAttempts(boxes, 0, prisoners, seq(|boxes|, _ => false))
  {
  }

  /** Everyone found their number within t <= K attempts: everyone
      succeeds. */
  lemma FoundEarly(boxes: seq<int>, k: int, t: nat, found: seq<bool>)
    requires IsPerm1(boxes) && FoundAt(boxes, t, found) && t <= k
    requires forall i :: 0 <= i < |found| ==> found[i]
    ensures AllSucceed1(boxes, k)
  {
    forall p | 0 <= p < |boxes| ensures Succeeds(Shift(boxes), k, p) {
      assert found[p];
    }
  }

  /** After all K attempts (none when K is negative) the flags say exactly who
      succeeds: all are set iff everyone succeeds, and they count the
      prisoners who succeed. */
  lemma FoundAtEnd(boxes: seq<int>, k: int, found: seq<bool>)
    requires IsPerm1(boxes) && FoundAt(boxes, if k < 0 then 0 else k, found)
    ensures (forall i :: 0 <= i < |found| ==> found[i]) <==> AllSucceed1(boxes, k)
    ensures CountTrue(found) == SuccessCount1(boxes, k, |boxes|)
    ensures CountTrue(found) == |boxes| <==> AllSucceed1(boxes, k)
  {
    var f := Shift(boxes);
    assert forall i :: 0 <= i < |boxes| ==> (found[i] <==> Succeeds(f, k, i));
    CountTrueSuccess(f, k, found, |boxes|);
    assert found[..|boxes|] == found;
    CountIsAll(f, k);
  }

  /** One pass of `for _ in range(attempts)`: updates `found` with the slips
      in the held boxes, then moves every prisoner to the box named there. */
  method Attempt(prisoners: seq<int>, boxes: seq<int>, t: nat, current: seq<int>, found: seq<bool>)
    returns (current': seq<int>, found': seq<bool>)
    requires IsPerm1(boxes) && Numbered(prisoners) && |prisoners| == |boxes|
    requires AfterAttempts(boxes, t, current, found)
    ensures AfterAttempts(boxes, t + 1, current', found')
    ensures forall i :: 0 <= i < |found| && found[i] ==> found'[i]
  {
    AttemptStep(prisoners, boxes, t, current, found);
    found' := FoundAfter(prisoners, boxes, current, found);
    current' := NextBoxes(boxes, current);
  }

  /** `cycle_search_strategy`: returns True as soon as everyone has found
      their number, and otherwise whether everyone has after `attempts`
      rounds; so it returns True exactly when every cycle is at most
      `attempts` long. */
  method CycleSearchStrategy(prisoners: seq<int>, boxes: seq<int>, attempts: int) returns (ok: bool)
    requires Numbered(prisoners) && IsPerm1(boxes) && |boxes| == |prisoners|
    ensures ok <==> AllSucceed1(boxes, attempts)
  {
    var n := |prisoners|;
    var current := prisoners;
    var found := seq(n, _ => false);
    StartAttempts(prisoners, boxes);
    var a := 0;
    while a < attempts
      invariant 0 <= a && (a <= attempts || a == 0)
      invariant AfterAttempts(boxes, a, current, found)
    {
      current, found := Attempt(prisoners, boxes, a, current, found);
      if forall i :: 0 <= i < |found| ==> found[i] {
        FoundEarly(boxes, attempts, a + 1, found);
        return true;
      }
      a := a + 1;
    }
    FoundAtEnd(boxes, attempts, found);
    ok := forall i :: 0 <= i < |found| ==> found[i];
  }

  /** `cycle_search_strategy_count`: the same walk without the early stop;
      returns the number of prisoners who found their number, which is N
      exactly when `cycle_search_strategy` returns True. */
  method CycleSearchStrategyCount(prisoners: seq<int>, boxes: seq<int>, attempts: int) returns (count: int)
    requires Numbered(prisoners) && IsPerm1(boxes) && |boxes| == |prisoners|
    ensures count == SuccessCount1(boxes, attempts, |boxes|)
    ensures 0 <= count <= |boxes|
    ensures count == |boxes| <==> AllSucceed1(boxes, attempts)
  {
    var n := |prisoners|;
    var current := prisoners;
    var found := seq(n, _ => false);
    StartAttempts(prisoners, boxes);
    var a := 0;
    while a < attempts
      invariant 0 <= a && (a <= attempts || a == 0)
      invariant AfterAttempts(boxes, a, current, found)
    {
      current, found := Attempt(prisoners, boxes, a, current, found);
      a := a + 1;
    }
    assert a == if attempts < 0 then 0 else attempts;
    count := CountTrue(found);
    FoundAtEnd(boxes, attempts, found);
  }
}
