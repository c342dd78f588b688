/** Facts about duplicate-free lists shared by the models. */
module Lists {

  predicate NoDup<T(==)>(xs: seq<T>) {
    forall i, j :: 0 <= i < j < |xs| ==> xs[i] != xs[j]
  }

  function ToSet<T>(xs: seq<T>): set<T> {
    set x | x in xs
  }

  lemma AppendAssoc<T>(a: seq<T>, b: seq<T>, c: seq<T>)
    ensures (a + b) + c == a + (b + c)
  {
  }

  /** Writing an entry's old value back restores the sequence. */
  lemma UpdateBack<T>(s: seq<T>, i: int, v: T)
    requires 0 <= i < |s|
    ensures s[i := v][i := s[i]] == s
  {
  }

  /** Extending a slice by the entry after it. */
  lemma SliceSnoc<T>(s: seq<T>, i: int, j: int)
    requires 0 <= i <= j < |s|
    ensures s[i..j] + [s[j]] == s[i..j + 1]
  {
  }

  /** A non-empty sequence is its head followed by its tail. */
  lemma HeadTail<T>(s: seq<T>)
    requires |s| > 0
    ensures [s[0]] + s[1..] == s
  {
  }

  /** `s[::-1]`: the entries in reverse order. */
  function Reverse<T>(s: seq<T>): (r: seq<T>)
    ensures |r| == |s| && forall i :: 0 <= i < |s| ==> r[i] == s[|s| - 1 - i]
  {
    seq(|s|, i requires 0 <= i < |s| => s[|s| - 1 - i])
  }

  lemma NoDupConcat<T>(a: seq<T>, b: seq<T>)
    requires NoDup(a) && NoDup(b)
    requires forall x :: x in a ==> x !in b
    ensures NoDup(a + b)
  {
    forall i, j | 0 <= i < j < |a + b| ensures (a + b)[i] != (a + b)[j] {
      if j < |a| {
      } else if i >= |a| {
        assert (a + b)[i] == b[i - |a|] && (a + b)[j] == b[j - |a|];
      } else {
        assert (a + b)[i] == a[i] && (a + b)[j] == b[j - |a|];
        assert a[i] in a && b[j - |a|] in b;
      }
    }
  }


  // ---------------------------------------------------------------------
  // Counting through sets.

  lemma {:induction false} NoDupCard<T>(xs: seq<T>)
    requires NoDup(xs)
    ensures |ToSet(xs)| == |xs|
  {
    if xs != [] {
      var t := xs[1..];
      assert NoDup(t) by {
        forall i, j | 0 <= i < j < |t| ensures t[i] != t[j] {
          assert t[i] == xs[i + 1] && t[j] == xs[j + 1];
        }
      }
      NoDupCard(t);
      assert ToSet(xs) == ToSet(t) + {xs[0]};
      assert xs[0] !in ToSet(t) by {
        forall k | 0 <= k < |t| ensures t[k] != xs[0] {
          assert t[k] == xs[k + 1];
        }
      }
    }
  }

  /** Two duplicate-free lists with the same elements have the same length. */
  lemma SameElementsSameLength<T>(xs: seq<T>, ys: seq<T>)
    requires NoDup(xs) && NoDup(ys)
    requires forall x :: x in xs <==> x in ys
    ensures |xs| == |ys|
  {
    NoDupCard(xs);
    NoDupCard(ys);
    assert ToSet(xs) == ToSet(ys);
  }

  /** A duplicate-free list of elements taken from a duplicate-free list is no
      longer than it. */
  lemma SubsetShorter<T>(xs: seq<T>, ys: seq<T>)
    requires NoDup(xs) && NoDup(ys)
    requires forall x :: x in xs ==> x in ys
    ensures |xs| <= |ys|
  {
    NoDupCard(xs);
    NoDupCard(ys);
    var a, b := ToSet(xs), ToSet(ys);
    assert a <= b;
    assert b == a + (b - a) && a * (b - a) == {};
    assert |b| == |a| + |b - a|;
  }

  /** A duplicate-free list of elements taken from a duplicate-free list of
      the same length holds every element of it. */
  lemma SameLengthCovers<T>(xs: seq<T>, ys: seq<T>, y: T)
    requires NoDup(xs) && NoDup(ys) && |xs| == |ys|
    requires forall x :: x in xs ==> x in ys
    requires y in ys
    ensures y in xs
  {
    NoDupCard(xs);
    NoDupCard(ys);
    var a, b := ToSet(xs), ToSet(ys);
    assert a <= b;
    assert b == a + (b - a) && a * (b - a) == {};
    assert |b - a| == 0;
    assert y in b;
  }

  /** A duplicate-free list of integers drawn from 0..n-1 has at most n
      elements. */
  lemma RangeShorter(xs: seq<int>, n: nat)
    requires NoDup(xs)
    requires forall i :: 0 <= i < |xs| ==> 0 <= xs[i] < n
    ensures |xs| <= n
  {
    var r := seq(n, i => i);
    assert NoDup(r);
    forall x | x in xs ensures x in r {
      assert r[x] == x;
    }
    SubsetShorter(xs, r);
  }
}
