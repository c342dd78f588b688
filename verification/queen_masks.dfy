/** Row-relative shifting bit masks: after rows 0..|p|-1 are placed, bit c of
    `cols` is set when some queen stands in column c, bit c of `left` when the
    queen of some row i attacks column c of row |p| along the diagonal that
    moves one column right per row (the mask shifted left once per row), and
    bit c of `right` along the diagonal moving one column left per row. */
module QueenMasks {
  import opened Bits
  import opened QueensSpec
  import opened QueenSearch

  ghost predicate MasksOf(p: seq<int>, cols: nat, left: nat, right: nat) {
    (forall c: nat {:trigger Bit(cols, c)} :: Bit(cols, c) <==> exists i :: 0 <= i < |p| && p[i] == c) &&
    (forall c: nat {:trigger Bit(left, c)} :: Bit(left, c) <==> exists i :: 0 <= i < |p| && p[i] + (|p| - i) == c) &&
    (forall c: nat {:trigger Bit(right, c)} :: Bit(right, c) <==> exists i :: 0 <= i < |p| && p[i] - (|p| - i) == c)
  }

  /** The free columns of row |p|: `~(cols | left | right) & ((1 << n) - 1)`. */
  function Free(n: nat, cols: nat, left: nat, right: nat): nat {
    AndNot(Ones(n), Or(Or(cols, left), right))
  }

  lemma MasksEmpty()
    ensures MasksOf([], 0, 0, 0)
  {
    forall c: nat ensures !Bit(0, c) { ZeroBits(c); }
  }

  /** Placing a queen in column c: `cols | bit`, `(left | bit) << 1`,
      `(right | bit) >> 1`. */
  lemma MasksStep(p: seq<int>, cols: nat, left: nat, right: nat, c: nat)
    requires MasksOf(p, cols, left, right)
    requires forall i :: 0 <= i < |p| ==> p[i] >= 0
    ensures MasksOf(p + [c], Or(cols, Pow2(c)), 2 * Or(left, Pow2(c)), Or(right, Pow2(c)) / 2)
  {
    var q := p + [c];
    forall d: nat
      ensures Bit(Or(cols, Pow2(c)), d) <==> exists i :: 0 <= i < |q| && q[i] == d
    {
      OrBit(cols, Pow2(c), d);
      Pow2Bit(c, d);
      if exists i :: 0 <= i < |q| && q[i] == d {
        var i :| 0 <= i < |q| && q[i] == d;
        if i < |p| { assert p[i] == d; }
      }
      if Bit(cols, d) {
        var i :| 0 <= i < |p| && p[i] == d;
        assert q[i] == d;
      }
      if d == c { assert q[|p|] == d; }
    }
    forall d: nat
      ensures Bit(2 * Or(left, Pow2(c)), d) <==> exists i :: 0 <= i < |q| && q[i] + (|q| - i) == d
    {
      ShlBit(Or(left, Pow2(c)), d);
      if d > 0 {
        OrBit(left, Pow2(c), d - 1);
        Pow2Bit(c, d - 1);
        if Bit(left, d - 1) {
          var i :| 0 <= i < |p| && p[i] + (|p| - i) == d - 1;
          assert q[i] + (|q| - i) == d;
        }
        if d - 1 == c { assert q[|p|] + (|q| - |p|) == d; }
      }
      if exists i :: 0 <= i < |q| && q[i] + (|q| - i) == d {
        var i :| 0 <= i < |q| && q[i] + (|q| - i) == d;
        if i < |p| {
          assert p[i] + (|p| - i) == d - 1;
          assert Bit(left, d - 1);
        }
      }
    }
    forall d: nat
      ensures Bit(Or(right, Pow2(c)) / 2, d) <==> exists i :: 0 <= i < |q| && q[i] - (|q| - i) == d
    {
      ShrBit(Or(right, Pow2(c)), d);
      OrBit(right, Pow2(c), d + 1);
      Pow2Bit(c, d + 1);
      if Bit(right, d + 1) {
        var i :| 0 <= i < |p| && p[i] - (|p| - i) == d + 1;
        assert q[i] - (|q| - i) == d;
      }
      if d + 1 == c { assert q[|p|] - (|q| - |p|) == d; }
      if exists i :: 0 <= i < |q| && q[i] - (|q| - i) == d {
        var i :| 0 <= i < |q| && q[i] - (|q| - i) == d;
        if i < |p| {
          assert p[i] - (|p| - i) == d + 1;
        }
      }
    }
  }

  /** Bit c of the free mask is set exactly when column c < n is safe. */
  lemma FreeBit(n: nat, p: seq<int>, cols: nat, left: nat, right: nat, c: nat)
    requires MasksOf(p, cols, left, right)
    ensures Bit(Free(n, cols, left, right), c) <==> c < n && SafeAt(p, c)
  {
    AndNotBit(Ones(n), Or(Or(cols, left), right), c);
    OnesBit(n, c);
    OrBit(Or(cols, left), right, c);
    OrBit(cols, left, c);
    if !SafeAt(p, c) {
      var i :| 0 <= i < |p| && !(p[i] != c && Abs(p[i] - c) != |p| - i);
      if p[i] == c {
        assert Bit(cols, c);
      } else if p[i] < c {
        assert p[i] + (|p| - i) == c;
        assert Bit(left, c);
      } else {
        assert p[i] - (|p| - i) == c;
        assert Bit(right, c);
      }
    }
    if Bit(cols, c) {
      var i :| 0 <= i < |p| && p[i] == c;
    }
    if Bit(left, c) {
      var i :| 0 <= i < |p| && p[i] + (|p| - i) == c;
    }
    if Bit(right, c) {
      var i :| 0 <= i < |p| && p[i] - (|p| - i) == c;
    }
  }

  lemma FreeBelow(n: nat, cols: nat, left: nat, right: nat)
    ensures Free(n, cols, left, right) < Pow2(n)
  {
    AndNotBound(Ones(n), Or(Or(cols, left), right));
  }

  /** After the lowest free column is taken, the remaining free bits are the
      safe columns above it. */
  lemma TakeLowest(n: nat, p: seq<int>, lo: nat, avail: nat)
    requires avail > 0
    requires forall c: nat :: Bit(avail, c) <==> lo <= c < n && SafeAt(p, c)
    ensures lo <= LowIndex(avail) < n && SafeAt(p, LowIndex(avail))
    ensures forall c: nat :: lo <= c < LowIndex(avail) ==> !SafeAt(p, c)
    ensures forall c: nat :: Bit(ClearLowest(avail), c) <==> LowIndex(avail) + 1 <= c < n && SafeAt(p, c)
    ensures LowBit(avail) == Pow2(LowIndex(avail))
    ensures CountChar(Bin(LowBit(avail)), '0') - 1 == LowIndex(avail)
    ensures BitLength(LowBit(avail)) - 1 == LowIndex(avail)
  {
    BinZerosIndex(LowIndex(avail));
    BitLengthIndex(LowIndex(avail));
    LowIndexBit(avail);
    ClearLowBit(avail);
    var k := LowIndex(avail);
    assert Bit(avail, k);
    assert lo <= k < n && SafeAt(p, k);
    forall c: nat | lo <= c < LowIndex(avail) ensures !SafeAt(p, c) {
      assert !Bit(avail, c);
    }
    forall c: nat ensures Bit(ClearLowest(avail), c) <==> LowIndex(avail) + 1 <= c < n && SafeAt(p, c) {
      assert Bit(ClearLowest(avail), c) <==> Bit(avail, c) && c != LowIndex(avail);
      if lo <= c < LowIndex(avail) {
        assert !Bit(avail, c);
      }
    }
  }

  /** Taking the lowest free column k of row |p|: the columns lo..k-1
      skipped add no branch, and k adds the completions of p + [k]. */
  lemma LowestBranch(n: nat, p: seq<int>, lo: nat, avail: nat)
    requires |p| < n && avail > 0
    requires forall c: nat :: Bit(avail, c) <==> lo <= c < n && SafeAt(p, c)
    ensures lo <= LowIndex(avail) < n && SafeAt(p, LowIndex(avail))
    ensures LowBit(avail) == Pow2(LowIndex(avail)) && BitLength(LowBit(avail)) - 1 == LowIndex(avail)
    ensures forall c: nat :: Bit(ClearLowest(avail), c) <==> LowIndex(avail) + 1 <= c < n && SafeAt(p, c)
    ensures Branches(n, p, lo, LowIndex(avail) + 1) == Completions(n, p + [LowIndex(avail)])
    ensures Branches(n, p, 0, LowIndex(avail)) == Branches(n, p, 0, lo)
    ensures Branches(n, p, 0, LowIndex(avail) + 1) == Branches(n, p, 0, lo) + Completions(n, p + [LowIndex(avail)])
  {
    var k := LowIndex(avail);
    TakeLowest(n, p, lo, avail);
    BranchesSkip(n, p, lo, k, k + 1);
    BranchesSingle(n, p, k);
    BranchesJump(n, p, lo, k);
  }

  /** No bit set means no safe column is left in lo..n-1. */
  lemma EmptyFree(n: nat, p: seq<int>, lo: nat)
    requires forall c: nat :: Bit(0, c) <==> lo <= c < n && SafeAt(p, c)
    ensures forall c: nat :: lo <= c < n ==> !SafeAt(p, c)
  {
    forall c: nat | lo <= c < n ensures !SafeAt(p, c) { ZeroBits(c); }
  }
}
