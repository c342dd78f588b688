/** Completing a half search by mirror images.  A search that only tries the
    first-row columns below h = ceil(n/2) finds exactly the solutions whose
    first queen is in the left half (centre column included); mirroring the
    ones that are not in the centre column gives exactly the rest. */
module QueenSymmetry {
  import opened Lists
  import opened QueensSpec

  /** The search restricted to the first-row columns lo..hi-1 reports exactly
      the solutions whose first queen is in one of those columns. */
  lemma FirstRowExactly(n: nat, lo: nat, hi: nat)
    requires 0 < n && lo <= hi <= n
    ensures forall s :: s in Branches(n, [], lo, hi) <==> Valid(n, s) && lo <= s[0] < hi
  {
    BranchesSound(n, [], lo, hi);
    BranchesExtend(n, [], lo, hi);
    forall s | Valid(n, s) && lo <= s[0] < hi ensures s in Branches(n, [], lo, hi) {
      BranchesComplete(n, [], lo, hi, s);
    }
  }

  /** The solutions whose first queen is not in column n / 2. */
  function OffCentre(n: int, xs: seq<seq<int>>): (r: seq<seq<int>>)
    ensures |r| <= |xs|
  {
    if xs == [] then []
    else (if |xs[0]| > 0 && xs[0][0] == n / 2 then [] else [xs[0]]) + OffCentre(n, xs[1..])
  }

  /** The filter keeps exactly the listed placements that do not start in
      column n / 2. */
  lemma {:induction false} OffCentreMembers(n: int, xs: seq<seq<int>>)
    ensures forall s :: s in OffCentre(n, xs) <==> s in xs && !(|s| > 0 && s[0] == n / 2)
  {
    if xs != [] {
      OffCentreMembers(n, xs[1..]);
      assert xs == [xs[0]] + xs[1..];
    }
  }

  lemma {:induction false} OffCentreNoDup(n: int, xs: seq<seq<int>>)
    requires NoDup(xs)
    ensures NoDup(OffCentre(n, xs))
  {
    if xs != [] {
      var head := if |xs[0]| > 0 && xs[0][0] == n / 2 then [] else [xs[0]];
      assert NoDup(xs[1..]) by {
        forall i, j | 0 <= i < j < |xs[1..]| ensures xs[1..][i] != xs[1..][j] {
          assert xs[1..][i] == xs[i + 1] && xs[1..][j] == xs[j + 1];
        }
      }
      OffCentreNoDup(n, xs[1..]);
      OffCentreMembers(n, xs[1..]);
      forall k | 0 <= k < |xs[1..]| ensures xs[1..][k] != xs[0] {
        assert xs[1..][k] == xs[k + 1];
      }
      NoDupConcat(head, OffCentre(n, xs[1..]));
    }
  }

  /** No solution of an even board has its first queen in column n / 2 of
      the left half, so nothing is dropped there. */
  lemma {:induction false} OffCentreEven(n: nat, xs: seq<seq<int>>)
    requires n % 2 == 0 && forall s :: s in xs ==> |s| > 0 && s[0] < n / 2
    ensures OffCentre(n, xs) == xs
  {
    if xs != [] {
      assert xs[0] in xs;
      OffCentreEven(n, xs[1..]);
      assert xs == [xs[0]] + xs[1..];
    }
  }

  /** The left-half search from the empty board, centre column included. */
  function LeftHalf(n: nat): seq<seq<int>>
    requires 0 < n
  {
    Branches(n, [], 0, (n + 1) / 2)
  }

  /** The left-half solutions followed by the mirror images of the off-centre
      ones are every solution, each once. */
  lemma MirrorCompletes(n: nat)
    requires 0 < n
    ensures NoDup(LeftHalf(n) + MirrorAll(n, OffCentre(n, LeftHalf(n))))
    ensures forall s :: s in LeftHalf(n) + MirrorAll(n, OffCentre(n, LeftHalf(n))) <==> Valid(n, s)
    ensures forall s :: s in MirrorAll(n, OffCentre(n, LeftHalf(n))) ==> s !in LeftHalf(n)
  {
    var h := (n + 1) / 2;
    var hs := LeftHalf(n);
    var ms := MirrorAll(n, OffCentre(n, hs));
    FirstRowExactly(n, 0, h);
    BranchesNoDup(n, [], 0, h);
    OffCentreNoDup(n, hs);
    MirrorAllNoDup(n, OffCentre(n, hs));
    MirroredRightHalf(n);
    NoDupConcat(hs, ms);
  }

  /** The mirror images of the off-centre left-half solutions are exactly
      the solutions whose first queen is in the right half. */
  lemma MirroredRightHalf(n: nat)
    requires 0 < n
    ensures forall s :: s in MirrorAll(n, OffCentre(n, LeftHalf(n))) <==> Valid(n, s) && s[0] >= (n + 1) / 2
  {
    MirroredSound(n);
    MirroredComplete(n);
  }

  /** Every mirrored off-centre left-half solution is a solution starting in
      the right half. */
  lemma MirroredSound(n: nat)
    requires 0 < n
    ensures forall s :: s in MirrorAll(n, OffCentre(n, LeftHalf(n))) ==> Valid(n, s) && s[0] >= (n + 1) / 2
  {
    var fs := OffCentre(n, LeftHalf(n));
    var ms := MirrorAll(n, fs);
    FirstRowExactly(n, 0, (n + 1) / 2);
    OffCentreMembers(n, LeftHalf(n));
    forall s | s in ms ensures Valid(n, s) && s[0] >= (n + 1) / 2 {
      var k :| 0 <= k < |ms| && ms[k] == s;
      assert fs[k] in fs;
      MirrorValid(n, fs[k]);
    }
  }

  /** Every solution starting in the right half is the mirror image of an
      off-centre left-half solution. */
  lemma MirroredComplete(n: nat)
    requires 0 < n
    ensures forall s :: Valid(n, s) && s[0] >= (n + 1) / 2 ==> s in MirrorAll(n, OffCentre(n, LeftHalf(n)))
  {
    var fs := OffCentre(n, LeftHalf(n));
    var ms := MirrorAll(n, fs);
    FirstRowExactly(n, 0, (n + 1) / 2);
    OffCentreMembers(n, LeftHalf(n));
    forall s | Valid(n, s) && s[0] >= (n + 1) / 2 ensures s in ms {
      var t := Mirror(n, s);
      MirrorValid(n, s);
      MirrorInvolution(n, s);
      assert t in fs;
      var k :| 0 <= k < |fs| && fs[k] == t;
      assert ms[k] == s;
    }
  }

  lemma {:induction false} OffCentreConcat(n: int, xs: seq<seq<int>>, ys: seq<seq<int>>)
    ensures OffCentre(n, xs + ys) == OffCentre(n, xs) + OffCentre(n, ys)
  {
    if xs != [] {
      assert (xs + ys)[0] == xs[0] && (xs + ys)[1..] == xs[1..] + ys;
      OffCentreConcat(n, xs[1..], ys);
    } else {
      assert xs + ys == ys;
    }
  }

  lemma MirrorAllConcat(n: int, xs: seq<seq<int>>, ys: seq<seq<int>>)
    ensures MirrorAll(n, xs + ys) == MirrorAll(n, xs) + MirrorAll(n, ys)
  {
    var l, r := MirrorAll(n, xs + ys), MirrorAll(n, xs) + MirrorAll(n, ys);
    assert |l| == |r|;
    forall k | 0 <= k < |l| ensures l[k] == r[k] {
      if k < |xs| {
        assert (xs + ys)[k] == xs[k];
      } else {
        assert (xs + ys)[k] == ys[k - |xs|];
      }
    }
  }

  // ---------------------------------------------------------------------
  // The other images of a placement.

  /** Turning a solution upside down (`solution[::-1]`) gives a solution. */
  lemma ReverseValid(n: int, s: seq<int>)
    requires Valid(n, s)
    ensures Valid(n, Reverse(s))
  {
    var r := Reverse(s);
    forall i, j | 0 <= i < j < |r| ensures r[i] != r[j] && Abs(r[i] - r[j]) != j - i {
      var a, b := |s| - 1 - j, |s| - 1 - i;
      assert r[i] == s[b] && r[j] == s[a] && 0 <= a < b < |s| && b - a == j - i;
    }
  }

  /** The row of the first queen in column c, |s| when there is none
      (`solution.index(c)`). */
  function IndexOf(s: seq<int>, c: int): (r: nat)
    ensures r <= |s| && (r < |s| ==> s[r] == c) && (c in s ==> r < |s|)
  {
    if s == [] then 0 else if s[0] == c then 0 else 1 + IndexOf(s[1..], c)
  }

  /** A queen at (row, col) goes to (n - 1 - col, n - 1 - row). */
  function AntiDiagonal(n: int, s: seq<int>): (r: seq<int>)
    ensures |r| == |s|
  {
    seq(|s|, row => n - 1 - IndexOf(s, n - 1 - row))
  }

  /** Row `row` of the anti-diagonal image holds n - 1 - k, where k is
      the row of the queen in column n - 1 - row. */
  lemma AntiDiagonalRows(n: nat, s: seq<int>)
    requires Valid(n, s)
    ensures forall row :: 0 <= row < n ==>
      0 <= AntiDiagonal(n, s)[row] < n && s[n - 1 - AntiDiagonal(n, s)[row]] == n - 1 - row
  {
    var r := AntiDiagonal(n, s);
    forall row | 0 <= row < n ensures 0 <= r[row] < n && s[n - 1 - r[row]] == n - 1 - row {
      EveryColumn(n, s, n - 1 - row);
      var k := IndexOf(s, n - 1 - row);
      assert k < n && s[k] == n - 1 - row;
      assert r[row] == n - 1 - k;
    }
  }

  /** A solution uses every column. */
  lemma EveryColumn(n: nat, s: seq<int>, c: int)
    requires Valid(n, s) && 0 <= c < n
    ensures c in s
  {
    var cols := seq(n, i => i);
    assert NoDup(s);
    assert NoDup(cols);
    forall x | x in s ensures x in cols {
      assert cols[x] == x;
    }
    assert cols[c] == c;
    SameLengthCovers(s, cols, c);
  }

  /** The reflection of a solution in the anti-diagonal is a solution. */
  lemma AntiDiagonalValid(n: nat, s: seq<int>)
    requires Valid(n, s)
    ensures Valid(n, AntiDiagonal(n, s))
  {
    var r := AntiDiagonal(n, s);
    AntiDiagonalRows(n, s);
    forall i, j | 0 <= i < j < n ensures r[i] != r[j] && Abs(r[i] - r[j]) != j - i {
      var a, b := n - 1 - r[i], n - 1 - r[j];
      assert s[a] == n - 1 - i && s[b] == n - 1 - j;
      assert a != b;
      if a < b {
        assert Abs(s[a] - s[b]) != b - a;
      } else {
        assert Abs(s[b] - s[a]) != a - b;
      }
    }
  }
}
