/** WangShiyi's script: module-level state shared with `dfs` — the
    character grid `g`, the column flags `col`, the diagonal flags `dg`
    (index `y - u + n`) and `udg` (index `y + u`), both of length 2n, and
    the solution counter `N`.  `dfs` prints the grid at every complete
    placement and counts it; the script only searches when n >= 4. */
module WangShiyiQueens {
  import opened Lists
  import opened QueensSpec
  import opened QueenText

  /** The flags record the placement p, and nothing else. */
  ghost predicate Flags(n: nat, p: seq<int>, col: seq<bool>, dg: seq<bool>, udg: seq<bool>) {
    |col| == n && |dg| == 2 * n && |udg| == 2 * n &&
    (forall y :: 0 <= y < n ==> (col[y] <==> exists i :: 0 <= i < |p| && p[i] == y)) &&
    (forall k :: 0 <= k < 2 * n ==> (dg[k] <==> exists i :: 0 <= i < |p| && p[i] - i + n == k)) &&
    (forall k :: 0 <= k < 2 * n ==> (udg[k] <==> exists i :: 0 <= i < |p| && p[i] + i == k))
  }

  lemma FlagsEmpty(n: nat)
    ensures Flags(n, [], seq(n, _ => false), seq(2 * n, _ => false), seq(2 * n, _ => false))
  {
  }

  /** The test of line 29 in row u = |p|: no flag is up exactly when column
      y is safe. */
  lemma FlagsSafe(n: nat, p: seq<int>, col: seq<bool>, dg: seq<bool>, udg: seq<bool>, y: int)
    requires Flags(n, p, col, dg, udg) && |p| < n && 0 <= y < n
    ensures !(col[y] || dg[y - |p| + n] || udg[y + |p|]) <==> SafeAt(p, y)
  {
    if !SafeAt(p, y) {
      var i :| 0 <= i < |p| && !(p[i] != y && Abs(p[i] - y) != |p| - i);
      if p[i] == y {
        assert col[y];
      } else if p[i] < y {
        assert p[i] - i + n == y - |p| + n;
        assert dg[y - |p| + n];
      } else {
        assert p[i] + i == y + |p|;
        assert udg[y + |p|];
      }
    }
  }

  /** Raising the three flags of (|p|, y) records p + [y]. */
  lemma FlagsPlace(n: nat, p: seq<int>, col: seq<bool>, dg: seq<bool>, udg: seq<bool>, y: int)
    requires Flags(n, p, col, dg, udg) && |p| < n && 0 <= y < n
    ensures Flags(n, p + [y], col[y := true], dg[y - |p| + n := true], udg[y + |p| := true])
  {
    var q := p + [y];
    var c, a, b := col[y := true], dg[y - |p| + n := true], udg[y + |p| := true];
    forall z | 0 <= z < n ensures c[z] <==> exists i :: 0 <= i < |q| && q[i] == z {
      if exists i :: 0 <= i < |p| && p[i] == z {
        var i :| 0 <= i < |p| && p[i] == z;
        assert q[i] == p[i];
      }
      if z == y {
        assert q[|p|] == z;
      }
    }
    forall k | 0 <= k < 2 * n ensures a[k] <==> exists i :: 0 <= i < |q| && q[i] - i + n == k {
      if exists i :: 0 <= i < |p| && p[i] - i + n == k {
        var i :| 0 <= i < |p| && p[i] - i + n == k;
        assert q[i] == p[i];
      }
      if k == y - |p| + n {
        assert q[|p|] - |p| + n == k;
      }
    }
    forall k | 0 <= k < 2 * n ensures b[k] <==> exists i :: 0 <= i < |q| && q[i] + i == k {
      if exists i :: 0 <= i < |p| && p[i] + i == k {
        var i :| 0 <= i < |p| && p[i] + i == k;
        assert q[i] == p[i];
      }
      if k == y + |p| {
        assert q[|p|] + |p| == k;
      }
    }
  }

  /** The script's module-level variables; `output` is the sequence of
      grids `dfs` prints, one per solution. */
  class Globals {
    const n: nat
    var g: seq<seq<char>>
    var col: seq<bool>
    var dg: seq<bool>
    var udg: seq<bool>
    var count: int
    var output: seq<seq<string>>

    /** Lines 5-13: an all-'.' grid, every flag down, N = 0. */
    constructor (n: nat)
      ensures this.n == n && g == CharGrid(n, []) && count == 0 && output == []
      ensures col == seq(n, _ => false) && dg == seq(2 * n, _ => false) && udg == seq(2 * n, _ => false)
    {
      this.n := n;
      g := seq(n, _ => seq(n, _ => '.'));
      col := seq(n, _ => false);
      dg := seq(2 * n, _ => false);
      udg := seq(2 * n, _ => false);
      count := 0;
      output := [];
      new;
      forall i | 0 <= i < n ensures g[i] == CharGrid(n, [])[i] {
      }
    }

    /** The grid and the flags show the placement p of rows 0..|p|-1. */
    ghost predicate Records(p: seq<int>)
      reads this`g, this`col, this`dg, this`udg
    {
      |p| <= n && g == CharGrid(n, p) && Flags(n, p, col, dg, udg)
    }

    /** `dfs(u)` with rows 0..u-1 holding p: prints the grid of every
        completion of p, in search order, adds their number to `N`, and
        leaves grid and flags as it found them. */
    method Dfs(u: nat, ghost p: seq<int>)
      requires u == |p| && Partial(n, p) && Records(p)
      modifies this
      ensures count == old(count) + |Completions(n, p)|
      ensures output == old(output) + CharGrids(n, Completions(n, p))
      ensures g == old(g) && col == old(col) && dg == old(dg) && udg == old(udg)
      decreases n - u, 1
    {
      if u == n {
        output := output + [g];
        count := count + 1;
        return;
      }
      for y := 0 to n
        invariant Records(p)
        invariant g == old(g) && col == old(col) && dg == old(dg) && udg == old(udg)
        invariant count == old(count) + |Branches(n, p, 0, y)|
        invariant output == old(output) + CharGrids(n, Branches(n, p, 0, y))
      {
        BranchesSplit(n, p, 0, y, y + 1);
        BranchesSingle(n, p, y);
        CharGridsConcat(n, Branches(n, p, 0, y), Branches(n, p, y, y + 1));
        AppendAssoc(old(output), CharGrids(n, Branches(n, p, 0, y)), CharGrids(n, Branches(n, p, y, y + 1)));
        Column(u, y, p);
      }
    }

    /** One pass of `for y in range(n)` in row u = |p|: a free square gets
        the queen, the search goes on, and the square is freed again. */
    method Column(u: nat, y: nat, ghost p: seq<int>)
      requires u == |p| < n && y < n && Partial(n, p) && Records(p)
      modifies this
      ensures count == old(count) + if SafeAt(p, y) then |Completions(n, p + [y])| else 0
      ensures output == old(output) + CharGrids(n, if SafeAt(p, y) then Completions(n, p + [y]) else [])
      ensures g == old(g) && col == old(col) && dg == old(dg) && udg == old(udg)
      decreases n - u, 0
    {
      FlagsSafe(n, p, col, dg, udg, y);
      if !col[y] && !dg[y - u + n] && !udg[y + u] {
        ghost var g0, col0, dg0, udg0 := g, col, dg, udg;
        Place(u, y, p);
        SafeExtends(n, p, y);
        Dfs(u + 1, p + [y]);
        Unplace(u, y, p, g0, col0, dg0, udg0);
      }
    }

    /** `g[u][y] = 'Q'` and the three flags raised: the grid and flags now
        record p + [y]. */
    method Place(u: nat, y: nat, ghost p: seq<int>)
      requires u == |p| < n && y < n && Records(p) && SafeAt(p, y)
      modifies this
      ensures Records(p + [y]) && count == old(count) && output == old(output)
      ensures g == old(g)[u := old(g)[u][y := 'Q']] && col == old(col)[y := true]
      ensures dg == old(dg)[y - u + n := true] && udg == old(udg)[y + u := true]
    {
      FlagsPlace(n, p, col, dg, udg, y);
      CharGridPlace(n, p, y);
      col := col[y := true];
      dg := dg[y - u + n := true];
      udg := udg[y + u := true];
      g := g[u := g[u][y := 'Q']];
    }

    /** `g[u][y] = '.'` and the three flags lowered: grid and flags are
        back to what they were before the queen went on. */
    method Unplace(u: nat, y: nat, ghost p: seq<int>, ghost g0: seq<string>, ghost col0: seq<bool>,
                   ghost dg0: seq<bool>, ghost udg0: seq<bool>)
      requires u == |p| < n && y < n && g0 == CharGrid(n, p) && Flags(n, p, col0, dg0, udg0) && SafeAt(p, y)
      requires g == g0[u := g0[u][y := 'Q']] && col == col0[y := true]
      requires dg == dg0[y - u + n := true] && udg == udg0[y + u := true]
      modifies this
      ensures g == g0 && col == col0 && dg == dg0 && udg == udg0
      ensures count == old(count) && output == old(output)
    {
      FlagsSafe(n, p, col0, dg0, udg0, y);
      CharGridPlace(n, p, y);
      UpdateBack(col0, y, true);
      UpdateBack(dg0, y - u + n, true);
      UpdateBack(udg0, y + u, true);
      col := col[y := false];
      dg := dg[y - u + n := false];
      udg := udg[y + u := false];
      g := g[u := g[u][y := '.']];
    }
  }

  /** Lines 46-51: "invalid input" below 4; otherwise every grid printed
      and `N`, the number of solutions. */
  method Script(n: int) returns (valid: bool, output: seq<seq<string>>, total: int)
    ensures valid <==> n >= 4
    ensures valid ==> output == CharGrids(n, AllSolutions(n)) && total == |AllSolutions(n)|
    ensures !valid ==> output == [] && total == 0
  {
    if n < 4 {
      return false, [], 0;
    }
    var globals := new Globals(n);
    FlagsEmpty(n);
    globals.Dfs(0, []);
    return true, globals.output, globals.count;
  }
}
