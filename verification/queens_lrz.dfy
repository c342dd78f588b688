/** LRZ's C++ counter: global fixed-size arrays `location[21]`, `col[21]`,
    `d1[41]` and `d2[41]`, 1-based rows and columns, a global `count` that
    `print` increments once per complete placement, and a `main` that only
    searches when 4 <= number <= 20 (which keeps every index in bounds).
    Row `now` and column `y` mark `col[y]`, `d1[now + y]` and
    `d2[now - y + number]`. */
module LrzQueens {
  import opened QueensSpec
  import QueenSearch

  /** The flags record the 0-based placement p (row i + 1 holds its queen
      in column p[i] + 1), and nothing else. */
  ghost predicate Flags(number: int, p: seq<int>, col: seq<bool>, d1: seq<bool>, d2: seq<bool>) {
    |col| == 21 && |d1| == 41 && |d2| == 41 &&
    (forall y :: 0 <= y < 21 ==> (col[y] <==> exists i :: 0 <= i < |p| && p[i] + 1 == y)) &&
    (forall k :: 0 <= k < 41 ==> (d1[k] <==> exists i :: 0 <= i < |p| && (i + 1) + (p[i] + 1) == k)) &&
    (forall k :: 0 <= k < 41 ==> (d2[k] <==> exists i :: 0 <= i < |p| && (i + 1) - (p[i] + 1) + number == k))
  }

  lemma FlagsEmpty(number: int)
    ensures Flags(number, [], seq(21, _ => false), seq(41, _ => false), seq(41, _ => false))
  {
  }

  /** `is_safe(now, y)` on flags recording p, with now = |p| + 1: the three
      flags are down exactly when column y - 1 of row |p| is safe. */
  lemma FlagsSafe(number: int, p: seq<int>, col: seq<bool>, d1: seq<bool>, d2: seq<bool>, y: int)
    requires Flags(number, p, col, d1, d2) && |p| < number <= 20 && 1 <= y <= number
    ensures !(col[y] || d1[|p| + 1 + y] || d2[|p| + 1 - y + number]) <==> SafeAt(p, y - 1)
  {
    if !SafeAt(p, y - 1) {
      var i :| 0 <= i < |p| && !(p[i] != y - 1 && Abs(p[i] - (y - 1)) != |p| - i);
      if p[i] == y - 1 {
        assert col[y];
      } else if p[i] > y - 1 {
        assert (i + 1) + (p[i] + 1) == |p| + 1 + y;
        assert d1[|p| + 1 + y];
      } else {
        assert (i + 1) - (p[i] + 1) + number == |p| + 1 - y + number;
        assert d2[|p| + 1 - y + number];
      }
    }
  }

  /** Setting the three flags of (|p| + 1, y) records p + [y - 1]. */
  lemma FlagsPlace(number: int, p: seq<int>, col: seq<bool>, d1: seq<bool>, d2: seq<bool>, y: int)
    requires Flags(number, p, col, d1, d2) && |p| < number <= 20 && 1 <= y <= number
    ensures Flags(number, p + [y - 1], col[y := true], d1[|p| + 1 + y := true], d2[|p| + 1 - y + number := true])
  {
    var q := p + [y - 1];
    var c, a, b := col[y := true], d1[|p| + 1 + y := true], d2[|p| + 1 - y + number := true];
    forall z | 0 <= z < 21 ensures c[z] <==> exists i :: 0 <= i < |q| && q[i] + 1 == z {
      if exists i :: 0 <= i < |p| && p[i] + 1 == z {
        var i :| 0 <= i < |p| && p[i] + 1 == z;
        assert q[i] == p[i];
      }
      if z == y {
        assert q[|p|] + 1 == z;
      }
    }
    forall k | 0 <= k < 41
      ensures a[k] <==> exists i :: 0 <= i < |q| && (i + 1) + (q[i] + 1) == k
    {
      if exists i :: 0 <= i < |p| && (i + 1) + (p[i] + 1) == k {
        var i :| 0 <= i < |p| && (i + 1) + (p[i] + 1) == k;
        assert q[i] == p[i];
      }
      if k == |p| + 1 + y {
        assert (|p| + 1) + (q[|p|] + 1) == k;
      }
    }
    forall k | 0 <= k < 41
      ensures b[k] <==> exists i :: 0 <= i < |q| && (i + 1) - (q[i] + 1) + number == k
    {
      if exists i :: 0 <= i < |p| && (i + 1) - (p[i] + 1) + number == k {
        var i :| 0 <= i < |p| && (i + 1) - (p[i] + 1) + number == k;
        assert q[i] == p[i];
      }
      if k == |p| + 1 - y + number {
        assert (|p| + 1) - (q[|p|] + 1) + number == k;
      }
    }
  }

  /** Clearing the three flags of a safe (|p| + 1, y) again records p. */
  lemma FlagsRemove(number: int, p: seq<int>, col: seq<bool>, d1: seq<bool>, d2: seq<bool>, y: int)
    requires Flags(number, p + [y - 1], col, d1, d2) && |p| < number <= 20 && 1 <= y <= number
    requires SafeAt(p, y - 1)
    ensures Flags(number, p, col[y := false], d1[|p| + 1 + y := false], d2[|p| + 1 - y + number := false])
  {
    var q := p + [y - 1];
    var c, a, b := col[y := false], d1[|p| + 1 + y := false], d2[|p| + 1 - y + number := false];
    forall z | 0 <= z < 21 ensures c[z] <==> exists i :: 0 <= i < |p| && p[i] + 1 == z {
      if z != y && col[z] {
        var i :| 0 <= i < |q| && q[i] + 1 == z;
        assert i < |p| && p[i] == q[i];
      }
      if exists i :: 0 <= i < |p| && p[i] + 1 == z {
        var i :| 0 <= i < |p| && p[i] + 1 == z;
        assert q[i] == p[i];
      }
    }
    forall k | 0 <= k < 41
      ensures a[k] <==> exists i :: 0 <= i < |p| && (i + 1) + (p[i] + 1) == k
    {
      if k != |p| + 1 + y && d1[k] {
        var i :| 0 <= i < |q| && (i + 1) + (q[i] + 1) == k;
        assert i < |p| && p[i] == q[i];
      }
      if exists i :: 0 <= i < |p| && (i + 1) + (p[i] + 1) == k {
        var i :| 0 <= i < |p| && (i + 1) + (p[i] + 1) == k;
        assert q[i] == p[i];
        assert Abs(p[i] - (y - 1)) != |p| - i;
      }
    }
    forall k | 0 <= k < 41
      ensures b[k] <==> exists i :: 0 <= i < |p| && (i + 1) - (p[i] + 1) + number == k
    {
      if k != |p| + 1 - y + number && d2[k] {
        var i :| 0 <= i < |q| && (i + 1) - (q[i] + 1) + number == k;
        assert i < |p| && p[i] == q[i];
      }
      if exists i :: 0 <= i < |p| && (i + 1) - (p[i] + 1) + number == k {
        var i :| 0 <= i < |p| && (i + 1) - (p[i] + 1) + number == k;
        assert q[i] == p[i];
        assert Abs(p[i] - (y - 1)) != |p| - i;
      }
    }
  }

  /** The program's globals. */
  class Globals {
    const location: array<int>
    const col: array<bool>
    const d1: array<bool>
    const d2: array<bool>
    var number: int
    var count: int

    ghost predicate Sized() {
      location.Length == 21 && col.Length == 21 && d1.Length == 41 && d2.Length == 41 &&
      d1 != d2
    }

    /** The globals record the placement p of rows 1..|p|. */
    ghost predicate Records(p: seq<int>)
      reads this`number, location, col, d1, d2
    {
      Sized() && |p| < 21 && Flags(number, p, col[..], d1[..], d2[..]) &&
      forall i :: 0 <= i < |p| ==> location[i + 1] == p[i] + 1
    }

    /** Zero-initialised globals. */
    constructor ()
      ensures Sized() && number == 0 && count == 0
      ensures col[..] == seq(21, _ => false) && d1[..] == seq(41, _ => false) && d2[..] == seq(41, _ => false)
      ensures fresh(location) && fresh(col) && fresh(d1) && fresh(d2)
    {
      location := new int[21](_ => 0);
      col := new bool[21](_ => false);
      d1 := new bool[41](_ => false);
      d2 := new bool[41](_ => false);
      number, count := 0, 0;
    }

    /** `is_safe(x, y)` for x = |p| + 1: none of the three flags is set,
        which on flags recording p means column y - 1 is safe. */
    method IsSafe(x: int, y: int, ghost p: seq<int>) returns (safe: bool)
      requires Records(p) && x == |p| + 1 && |p| < number <= 20 && 1 <= y <= number
      ensures safe <==> SafeAt(p, y - 1)
    {
      FlagsSafe(number, p, col[..], d1[..], d2[..], y);
      if col[y] {
        return false;
      }
      if d1[x + y] {
        return false;
      }
      if d2[x - y + number] {
        return false;
      }
      return true;
    }

    /** `print` with the drawing commented out: counts one solution. */
    method Print()
      modifies `count
      ensures count == old(count) + 1
    {
      count := count + 1;
    }

    /** `n_queens(now, all)` with rows 1..now-1 holding p: adds the number
        of completions of p to `count` and leaves the flags as it found
        them. */
    method NQueens(now: int, all: int, ghost p: seq<int>)
      requires Records(p) && Partial(number, p) && now == |p| + 1 && all == number && number <= 20
      modifies location, col, d1, d2, `count
      ensures count == old(count) + |Completions(number, p)|
      ensures col[..] == old(col[..]) && d1[..] == old(d1[..]) && d2[..] == old(d2[..])
      ensures Records(p)
      decreases number - |p|, 1
    {
      if now > all {
        Print();
        return;
      }
      for y := 1 to all + 1
        invariant Records(p)
        invariant col[..] == old(col[..]) && d1[..] == old(d1[..]) && d2[..] == old(d2[..])
        invariant count == old(count) + |Branches(number, p, 0, y - 1)|
      {
        Column(now, y, p);
        QueenSearch.BranchesSnoc(number, p, y - 1);
      }
    }

    /** One pass of `for (y = 1; y <= all; y++)`: a safe square is marked,
        searched from and unmarked again. */
    method Column(now: int, y: int, ghost p: seq<int>)
      requires Records(p) && Partial(number, p) && now == |p| + 1 <= number <= 20 && 1 <= y <= number
      modifies location, col, d1, d2, `count
      ensures count == old(count) + if SafeAt(p, y - 1) then |Completions(number, p + [y - 1])| else 0
      ensures col[..] == old(col[..]) && d1[..] == old(d1[..]) && d2[..] == old(d2[..])
      ensures Records(p)
      decreases number - |p|, 0
    {
      var safe := IsSafe(now, y, p);
      if !safe {
        return;
      }
      ghost var q := p + [y - 1];
      FlagsSafe(number, p, col[..], d1[..], d2[..], y);
      Place(now, y, p);
      SafeExtends(number, p, y - 1);
      NQueens(now + 1, number, q);
      Unplace(now, y, p);
    }

    /** Lines 25-28: the queen of row now = |p| + 1 goes to column y. */
    method Place(now: int, y: int, ghost p: seq<int>)
      requires Records(p) && now == |p| + 1 <= number <= 20 && 1 <= y <= number
      modifies location, col, d1, d2
      ensures Records(p + [y - 1])
      ensures col[..] == old(col[..])[y := true] && d1[..] == old(d1[..])[now + y := true]
      ensures d2[..] == old(d2[..])[now - y + number := true]
    {
      FlagsPlace(number, p, col[..], d1[..], d2[..], y);
      Mark(now, y, true);
    }

    /** Lines 30-32: the queen of row now = |p| + 1 leaves column y. */
    method Unplace(now: int, y: int, ghost p: seq<int>)
      requires Records(p + [y - 1]) && SafeAt(p, y - 1) && now == |p| + 1 <= number <= 20 && 1 <= y <= number
      modifies location, col, d1, d2
      ensures Records(p)
      ensures col[..] == old(col[..])[y := false] && d1[..] == old(d1[..])[now + y := false]
      ensures d2[..] == old(d2[..])[now - y + number := false]
    {
      ghost var q := p + [y - 1];
      FlagsRemove(number, p, col[..], d1[..], d2[..], y);
      ghost var loc := location[..];
      assert forall i :: 0 <= i < |p| ==> loc[i + 1] == p[i] + 1 by {
        forall i | 0 <= i < |p| ensures loc[i + 1] == p[i] + 1 {
          assert q[i] == p[i];
        }
      }
      Mark(now, y, false);
      assert location[..] == loc;
    }

    /** Lines 25-28 (`on` set) and 30-32 (`on` cleared): the three flags of
        square (now, y) set to `on`; placing also writes `location[now]`. */
    method Mark(now: int, y: int, on: bool)
      requires Sized() && 1 <= now <= 20 && 1 <= y <= 20 && 0 <= now - y + number < 41
      modifies location, col, d1, d2
      ensures col[..] == old(col[..])[y := on] && d1[..] == old(d1[..])[now + y := on]
      ensures d2[..] == old(d2[..])[now - y + number := on]
      ensures location[..] == if on then old(location[..])[now := y] else old(location[..])
    {
      if on {
        location[now] := y;
      }
      col[y] := on;
      d1[now + y] := on;
      d2[now - y + number] := on;
    }
  }

  /** `main` reading `number`: -1 for a size outside 4..20, otherwise 0 and
      the number of solutions it prints as the total. */
  method Run(input: int) returns (status: int, total: int)
    ensures status == -1 <==> input < 4 || input > 20
    ensures status == 0 ==> 4 <= input <= 20 && total == |AllSolutions(input)|
    ensures status == -1 || status == 0
  {
    var g := new Globals();
    g.number := input;
    if g.number < 4 || g.number > 20 {
      return -1, g.count;
    }
    FlagsEmpty(g.number);
    g.NQueens(1, g.number, []);
    return 0, g.count;
  }
}
