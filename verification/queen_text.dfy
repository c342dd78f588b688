/** Boards rendered as text the way several solvers do it: a row starts as
    `[empty] * n`, the queen's cell is overwritten, and the cells are
    joined with `''.join`. */
module QueenText {
  import opened QueensSpec

  /** `''.join(parts)` */
  function Join(parts: seq<string>): (s: string)
  {
    if parts == [] then "" else Join(parts[..|parts| - 1]) + parts[|parts| - 1]
  }

  /** `row = [empty] * n; row[c] = queen` for a column 0 <= c < n. */
  function Cells(n: nat, c: int, queen: string, empty: string): (row: seq<string>)
    ensures |row| == n && forall j :: 0 <= j < n ==> row[j] == if j == c then queen else empty
  {
    seq(n, j => if j == c then queen else empty)
  }

  /** `empty * k`, the text of k empty cells in a row. */
  function Times(k: nat, empty: string): (s: string)
    ensures |s| == k * |empty|
  {
    if k == 0 then "" else Times(k - 1, empty) + empty
  }

  lemma {:induction false} JoinConcat(a: seq<string>, b: seq<string>)
    ensures Join(a + b) == Join(a) + Join(b)
    decreases |b|
  {
    if b == [] {
      assert a + b == a;
    } else {
      var b', last := b[..|b| - 1], b[|b| - 1];
      assert (a + b)[..|a + b| - 1] == a + b' && (a + b)[|a + b| - 1] == last;
      assert Join(b) == Join(b') + last;
      JoinConcat(a, b');
      assert Join(a) + Join(b') + last == Join(a) + (Join(b') + last);
    }
  }

  lemma {:induction false} JoinSame(k: nat, empty: string)
    ensures Join(seq(k, _ => empty)) == Times(k, empty)
  {
    if k > 0 {
      assert seq(k, _ => empty)[..k - 1] == seq(k - 1, _ => empty);
      JoinSame(k - 1, empty);
    }
  }

  /** Every character of k empty cells comes from the empty cell's text. */
  lemma {:induction false} TimesChars(k: nat, empty: string)
    ensures forall i :: 0 <= i < |Times(k, empty)| ==> Times(k, empty)[i] in empty
  {
    if k > 0 {
      TimesChars(k - 1, empty);
      var t := Times(k - 1, empty);
      forall i | 0 <= i < |Times(k, empty)| ensures Times(k, empty)[i] in empty {
        if i >= |t| {
          assert Times(k, empty)[i] == empty[i - |t|];
        } else {
          assert Times(k, empty)[i] == t[i];
        }
      }
    }
  }

  /** A joined row is c empty cells, the queen's cell, and the n - c - 1
      empty cells after it. */
  lemma RowPieces(n: nat, c: int, queen: string, empty: string)
    requires 0 <= c < n
    ensures Join(Cells(n, c, queen, empty)) == Times(c, empty) + queen + Times(n - c - 1, empty)
  {
    var row := Cells(n, c, queen, empty);
    assert row == seq(c, _ => empty) + [queen] + seq(n - c - 1, _ => empty);
    JoinConcat(seq(c, _ => empty) + [queen], seq(n - c - 1, _ => empty));
    JoinConcat(seq(c, _ => empty), [queen]);
    assert Join([queen]) == Join([]) + queen;
    JoinSame(c, empty);
    JoinSame(n - c - 1, empty);
  }

  /** When the empty cell has no 'Q' and the queen's cell starts with one,
      the joined row has its only 'Q' at c * |empty|: the column can be read
      back from the text. */
  lemma RowQueen(n: nat, c: int, queen: string, empty: string)
    requires 0 <= c < n && |queen| > 0 && queen[0] == 'Q' && 'Q' !in queen[1..] && 'Q' !in empty
    ensures |Join(Cells(n, c, queen, empty))| == (n - 1) * |empty| + |queen|
    ensures forall i :: 0 <= i < |Join(Cells(n, c, queen, empty))| ==>
      (Join(Cells(n, c, queen, empty))[i] == 'Q' <==> i == c * |empty|)
  {
    RowPieces(n, c, queen, empty);
    var a, b := Times(c, empty), Times(n - c - 1, empty);
    TimesChars(c, empty);
    TimesChars(n - c - 1, empty);
    var r := a + queen + b;
    assert |r| == c * |empty| + |queen| + (n - c - 1) * |empty|;
    assert c * |empty| + (n - c - 1) * |empty| == (n - 1) * |empty| by {
      assert c + (n - c - 1) == n - 1;
    }
    forall i | 0 <= i < |r| ensures r[i] == 'Q' <==> i == c * |empty| {
      if i < |a| {
        assert r[i] == a[i];
      } else if i < |a| + |queen| {
        assert r[i] == queen[i - |a|];
        if i > |a| {
          assert queen[i - |a|] == queen[1..][i - |a| - 1];
        }
      } else {
        assert r[i] == b[i - |a| - |queen|];
      }
    }
  }

  /** The character grid of the partial placement p: 'Q' at (i, p[i]), '.'
      elsewhere, one string per row (joining one-character cells gives the
      row itself). */
  function CharGrid(n: nat, p: seq<int>): (g: seq<string>)
    ensures |g| == n && forall i :: 0 <= i < n ==> |g[i]| == n
  {
    seq(n, i requires 0 <= i < n => seq(n, j => if i < |p| && p[i] == j then 'Q' else '.'))
  }

  function CharGrids(n: nat, xs: seq<seq<int>>): (ps: seq<seq<string>>)
    ensures |ps| == |xs| && forall k :: 0 <= k < |xs| ==> ps[k] == CharGrid(n, xs[k])
  {
    seq(|xs|, k requires 0 <= k < |xs| => CharGrid(n, xs[k]))
  }

  lemma CharGridsConcat(n: nat, xs: seq<seq<int>>, ys: seq<seq<int>>)
    ensures CharGrids(n, xs + ys) == CharGrids(n, xs) + CharGrids(n, ys)
  {
  }

  /** Writing 'Q' into the next row's cell draws the extended placement;
      writing '.' back draws p again. */
  lemma CharGridPlace(n: nat, p: seq<int>, c: int)
    requires |p| < n && 0 <= c < n
    ensures CharGrid(n, p)[|p| := CharGrid(n, p)[|p|][c := 'Q']] == CharGrid(n, p + [c])
    ensures CharGrid(n, p + [c])[|p| := CharGrid(n, p + [c])[|p|][c := '.']] == CharGrid(n, p)
  {
    var q := p + [c];
    forall i | 0 <= i < n
      ensures CharGrid(n, p)[|p| := CharGrid(n, p)[|p|][c := 'Q']][i] == CharGrid(n, q)[i]
      ensures CharGrid(n, q)[|p| := CharGrid(n, q)[|p|][c := '.']][i] == CharGrid(n, p)[i]
    {
      if i < |p| {
        assert q[i] == p[i];
      }
    }
  }

  /** The grid of a solution has exactly one 'Q' per row, in the
      queen's column, and '.' everywhere else. */
  lemma CharGridRows(n: nat, s: seq<int>)
    requires Valid(n, s)
    ensures forall i, j :: 0 <= i < n && 0 <= j < n ==>
      (CharGrid(n, s)[i][j] == 'Q' <==> j == s[i]) && (CharGrid(n, s)[i][j] != 'Q' ==> CharGrid(n, s)[i][j] == '.')
  {
  }
}
