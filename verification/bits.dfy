/** Non-negative Python integers used as bit masks.  `x << 1` is `2 * x`,
    `x >> 1` is `x / 2`; the bitwise operators are defined digit by digit and
    characterised through `Bit`. */
module Bits {

  function Pow2(k: nat): (r: nat)
    ensures r >= 1
  {
    if k == 0 then 1 else 2 * Pow2(k - 1)
  }

  /** Bit i of x is set. */
  predicate Bit(x: nat, i: nat) {
    if i == 0 then x % 2 == 1 else Bit(x / 2, i - 1)
  }

  /** x | y */
  function Or(x: nat, y: nat): nat
    decreases x + y
  {
    if x == 0 then y
    else if y == 0 then x
    else 2 * Or(x / 2, y / 2) + (if x % 2 == 1 || y % 2 == 1 then 1 else 0)
  }

  /** x & ~y, the bits of x that are not in y (for y >= 0 this is also
      Python's `~y & x`). */
  function AndNot(x: nat, y: nat): nat
    decreases x
  {
    if x == 0 then 0
    else 2 * AndNot(x / 2, y / 2) + (if x % 2 == 1 && y % 2 == 0 then 1 else 0)
  }

  /** x & y */
  function And(x: nat, y: nat): nat
    decreases x
  {
    if x == 0 then 0
    else 2 * And(x / 2, y / 2) + (if x % 2 == 1 && y % 2 == 1 then 1 else 0)
  }

  /** (1 << n) - 1 */
  function Ones(n: nat): nat {
    Pow2(n) - 1
  }

  /** The index of the lowest set bit of a positive mask. */
  function LowIndex(x: nat): nat
    requires x > 0
  {
    if x % 2 == 1 then 0 else 1 + LowIndex(x / 2)
  }

  /** x & -x: the lowest set bit of a positive mask. */
  function LowBit(x: nat): (r: nat)
    requires x > 0
    ensures r == Pow2(LowIndex(x)) && r <= x
  {
    if x % 2 == 1 then 1 else 2 * LowBit(x / 2)
  }

  /** int.bit_length() */
  function BitLength(x: nat): nat {
    if x == 0 then 0 else 1 + BitLength(x / 2)
  }

  /** The binary digits of a positive number, most significant first. */
  function Digits(x: nat): string {
    if x == 0 then "" else Digits(x / 2) + [if x % 2 == 1 then '1' else '0']
  }

  /** bin(x) for x >= 0 */
  function Bin(x: nat): string {
    "0b" + (if x == 0 then "0" else Digits(x))
  }

  /** str.count for a single character */
  function CountChar(s: string, c: char): nat {
    if s == [] then 0 else CountChar(s[..|s| - 1], c) + (if s[|s| - 1] == c then 1 else 0)
  }

  /** Number of set bits. */
  function PopCount(x: nat): nat {
    if x == 0 then 0 else PopCount(x / 2) + x % 2
  }

  // ---------------------------------------------------------------------
  // Bit characterisation.

  lemma {:induction false} BitsEqual(x: nat, y: nat)
    requires forall i: nat :: Bit(x, i) <==> Bit(y, i)
    ensures x == y
    decreases x + y
  {
    assert Bit(x, 0) <==> Bit(y, 0);
    if x != 0 || y != 0 {
      forall i: nat ensures Bit(x / 2, i) <==> Bit(y / 2, i) {
        assert Bit(x, i + 1) <==> Bit(y, i + 1);
      }
      BitsEqual(x / 2, y / 2);
    }
  }

  lemma {:induction false} ZeroBits(i: nat)
    ensures !Bit(0, i)
  {
    if i > 0 {
      ZeroBits(i - 1);
    }
  }

  lemma {:induction false} OrBit(x: nat, y: nat, i: nat)
    ensures Bit(Or(x, y), i) <==> Bit(x, i) || Bit(y, i)
    decreases x + y
  {
    if x == 0 {
      ZeroBits(i);
    } else if y == 0 {
      ZeroBits(i);
    } else if i > 0 {
      var r := Or(x, y);
      assert r / 2 == Or(x / 2, y / 2);
      OrBit(x / 2, y / 2, i - 1);
    }
  }

  lemma {:induction false} AndNotBit(x: nat, y: nat, i: nat)
    ensures Bit(AndNot(x, y), i) <==> Bit(x, i) && !Bit(y, i)
    decreases x
  {
    if x == 0 {
      ZeroBits(i);
    } else {
      var h := AndNot(x / 2, y / 2);
      var d := if x % 2 == 1 && y % 2 == 0 then 1 else 0;
      assert AndNot(x, y) == 2 * h + d;
      assert (2 * h + d) / 2 == h && (2 * h + d) % 2 == d;
      if i > 0 {
        AndNotBit(x / 2, y / 2, i - 1);
      }
    }
  }

  lemma {:induction false} AndBit(x: nat, y: nat, i: nat)
    ensures Bit(And(x, y), i) <==> Bit(x, i) && Bit(y, i)
    decreases x
  {
    if x == 0 {
      ZeroBits(i);
    } else if i > 0 {
      var r := And(x, y);
      assert r / 2 == And(x / 2, y / 2);
      AndBit(x / 2, y / 2, i - 1);
    }
  }

  lemma {:induction false} AndNotBound(x: nat, y: nat)
    ensures AndNot(x, y) <= x
    decreases x
  {
    if x > 0 {
      AndNotBound(x / 2, y / 2);
    }
  }

  lemma {:induction false} Pow2Bit(k: nat, i: nat)
    ensures Bit(Pow2(k), i) <==> i == k
  {
    if k == 0 {
      if i > 0 {
        ZeroBits(i - 1);
      }
    } else if i > 0 {
      Pow2Bit(k - 1, i - 1);
    }
  }

  lemma {:induction false} OnesBit(n: nat, i: nat)
    ensures Bit(Ones(n), i) <==> i < n
  {
    if n == 0 {
      ZeroBits(i);
    } else {
      assert Ones(n) % 2 == 1 && Ones(n) / 2 == Ones(n - 1);
      if i > 0 {
        OnesBit(n - 1, i - 1);
      }
    }
  }

  /** A mask is below 2^k exactly when it has no bit at index k or above. */
  lemma {:induction false} BelowPow2(x: nat, k: nat)
    requires forall i: nat :: Bit(x, i) ==> i < k
    ensures x < Pow2(k)
  {
    if k == 0 {
      forall i: nat ensures !Bit(x, i) {}
      ZeroBits(0);
      forall i: nat ensures Bit(x, i) <==> Bit(0, i) { ZeroBits(i); }
      BitsEqual(x, 0);
    } else {
      forall i: nat | Bit(x / 2, i) ensures i < k - 1 {
        assert Bit(x, i + 1);
      }
      BelowPow2(x / 2, k - 1);
    }
  }

  lemma {:induction false} ShlBit(x: nat, i: nat)
    ensures Bit(2 * x, i) <==> i > 0 && Bit(x, i - 1)
  {
    assert (2 * x) / 2 == x;
  }

  lemma ShrBit(x: nat, i: nat)
    ensures Bit(x / 2, i) <==> Bit(x, i + 1)
  {
  }

  // ---------------------------------------------------------------------
  // The lowest set bit.

  lemma {:induction false} LowIndexBit(x: nat)
    requires x > 0
    ensures Bit(x, LowIndex(x))
    ensures forall i: nat :: i < LowIndex(x) ==> !Bit(x, i)
  {
    if x % 2 == 0 {
      LowIndexBit(x / 2);
      forall i: nat | i < LowIndex(x) ensures !Bit(x, i) {
        if i > 0 {
          assert i - 1 < LowIndex(x / 2);
        }
      }
    }
  }

  /** Subtracting the lowest set bit clears exactly that bit. */
  lemma {:induction false} LowBitCleared(x: nat)
    requires x > 0
    ensures forall i: nat :: Bit(x - LowBit(x), i) <==> Bit(x, i) && i != LowIndex(x)
  {
    if x % 2 == 1 {
      assert LowBit(x) == 1;
      forall i: nat ensures Bit(x - 1, i) <==> Bit(x, i) && i != 0 {
        if i > 0 {
          assert (x - 1) / 2 == x / 2;
        }
      }
    } else {
      LowBitCleared(x / 2);
      var y := x - LowBit(x);
      assert LowBit(x) == 2 * LowBit(x / 2);
      assert y / 2 == x / 2 - LowBit(x / 2) && y % 2 == 0;
      forall i: nat ensures Bit(y, i) <==> Bit(x, i) && i != LowIndex(x) {
        if i > 0 {
          assert Bit(y, i) == Bit(y / 2, i - 1);
        }
      }
    }
  }

  /** Bit i of x - 1: every bit below the lowest set bit of x is set, that
      bit is clear, and the bits above it are those of x. */
  lemma {:induction false} PredecessorBit(x: nat, i: nat)
    requires x > 0
    ensures Bit(x - 1, i) <==> i < LowIndex(x) || (i > LowIndex(x) && Bit(x, i))
  {
    if x % 2 == 1 {
      if i > 0 {
        assert (x - 1) / 2 == x / 2;
      }
    } else {
      assert (x - 1) % 2 == 1 && (x - 1) / 2 == x / 2 - 1;
      if i > 0 {
        PredecessorBit(x / 2, i - 1);
      }
    }
  }

  /** `x & (x - 1)` and `x - (x & -x)` are the same mask. */
  lemma AndPredecessor(x: nat)
    requires x > 0
    ensures And(x, x - 1) == x - LowBit(x)
  {
    var a, c := And(x, x - 1), x - LowBit(x);
    LowBitCleared(x);
    LowIndexBit(x);
    forall i: nat ensures Bit(a, i) <==> Bit(c, i) {
      AndBit(x, x - 1, i);
      PredecessorBit(x, i);
    }
    BitsEqual(a, c);
  }

  /** `x & (x - 1)`: x less its lowest set bit. */
  function ClearLowest(x: nat): (r: nat)
    requires x > 0
    ensures r == x - LowBit(x)
  {
    AndPredecessor(x);
    And(x, x - 1)
  }

  /** Removing the lowest set bit: `x & (x - 1)`, `x - (x & -x)`, `x & ~pos`
      all clear exactly bit LowIndex(x) and nothing else. */
  lemma ClearLowBit(x: nat)
    requires x > 0
    ensures forall i: nat :: Bit(ClearLowest(x), i) <==> Bit(x, i) && i != LowIndex(x)
    ensures ClearLowest(x) < x
  {
    LowBitCleared(x);
  }

  lemma {:induction false} AndNotSingle(x: nat, k: nat)
    requires Bit(x, k)
    ensures AndNot(x, Pow2(k)) == x - Pow2(k)
  {
    if k == 0 {
      assert x % 2 == 1;
      assert Pow2(0) / 2 == 0;
      AndNotZero(x / 2);
      assert AndNot(x, 1) == 2 * AndNot(x / 2, 0);
    } else {
      assert Pow2(k) % 2 == 0 && Pow2(k) / 2 == Pow2(k - 1);
      AndNotSingle(x / 2, k - 1);
      assert AndNot(x, Pow2(k)) == 2 * AndNot(x / 2, Pow2(k - 1)) + x % 2;
    }
  }

  lemma {:induction false} AndNotZero(x: nat)
    ensures AndNot(x, 0) == x
  {
    if x > 0 {
      AndNotZero(x / 2);
    }
  }

  // ---------------------------------------------------------------------
  // Bit indices of a power of two, as the submissions compute them.

  lemma {:induction false} Pow2Digits(k: nat)
    ensures Digits(Pow2(k)) == "1" + seq(k, _ => '0')
  {
    if k > 0 {
      Pow2Digits(k - 1);
      assert Pow2(k) / 2 == Pow2(k - 1) && Pow2(k) % 2 == 0;
      assert seq(k, _ => '0') == seq(k - 1, _ => '0') + ['0'];
    }
  }

  lemma {:induction false} OnesDigits(k: nat)
    ensures Digits(Ones(k)) == seq(k, _ => '1')
  {
    if k > 0 {
      OnesDigits(k - 1);
      assert Ones(k) / 2 == Ones(k - 1) && Ones(k) % 2 == 1;
      assert seq(k, _ => '1') == seq(k - 1, _ => '1') + ['1'];
    }
  }

  lemma {:induction false} CountConcat(a: string, b: string, c: char)
    ensures CountChar(a + b, c) == CountChar(a, c) + CountChar(b, c)
    decreases |b|
  {
    if b != [] {
      var b' := b[..|b| - 1];
      assert (a + b)[..|a + b| - 1] == a + b';
      CountConcat(a, b', c);
    } else {
      assert a + b == a;
    }
  }

  lemma {:induction false} CountRepeat(k: nat, d: char, c: char)
    ensures CountChar(seq(k, _ => d), c) == if d == c then k else 0
  {
    if k > 0 {
      assert seq(k, _ => d)[..k - 1] == seq(k - 1, _ => d);
      CountRepeat(k - 1, d, c);
    }
  }

  /** `bin(pos).count('0') - 1` is the index of the single set bit. */
  lemma BinZerosIndex(k: nat)
    ensures CountChar(Bin(Pow2(k)), '0') - 1 == k
  {
    Pow2Digits(k);
    CountConcat("0b", "1" + seq(k, _ => '0'), '0');
    CountConcat("1", seq(k, _ => '0'), '0');
    CountRepeat(k, '0', '0');
    assert "0b" + Digits(Pow2(k)) == Bin(Pow2(k));
    assert CountChar("0b", '0') == 1;
    assert CountChar("1", '0') == 0;
  }

  /** `pos.bit_length() - 1` is the index of the single set bit. */
  lemma {:induction false} BitLengthIndex(k: nat)
    ensures BitLength(Pow2(k)) - 1 == k
  {
    if k > 0 {
      assert Pow2(k) / 2 == Pow2(k - 1);
      BitLengthIndex(k - 1);
    }
  }

  /** `bin(p - 1).count('1')` is the index of the single set bit p. */
  lemma BinOnesIndex(k: nat)
    ensures CountChar(Bin(Pow2(k) - 1), '1') == k
  {
    var b := "0b";
    assert CountChar(b, '1') == 0 by {
      assert b[..1] == "0" && b[..1][..0] == [];
    }
    if k == 0 {
      CountConcat(b, "0", '1');
      assert Bin(Pow2(0) - 1) == b + "0";
    } else {
      var ones := seq(k, _ => '1');
      OnesDigits(k);
      CountConcat(b, ones, '1');
      CountRepeat(k, '1', '1');
      assert Bin(Pow2(k) - 1) == b + ones;
    }
  }

  /** `x >> 1` keeps a mask below 2^n when it was. */
  lemma ShrBelow(x: nat, n: nat)
    requires x < Pow2(n)
    ensures x / 2 < Pow2(n)
  {
  }

  lemma {:induction false} PopCountClear(x: nat)
    requires x > 0
    ensures PopCount(x - LowBit(x)) + 1 == PopCount(x)
  {
    if x % 2 == 1 {
      assert (x - 1) / 2 == x / 2;
    } else {
      PopCountClear(x / 2);
      assert (x - LowBit(x)) / 2 == x / 2 - LowBit(x / 2);
      assert (x - LowBit(x)) % 2 == 0;
    }
  }

  /** `x & (1 << k)` is truthy exactly when bit k of x is set. */
  lemma TestBit(x: nat, k: nat)
    ensures And(x, Pow2(k)) != 0 <==> Bit(x, k)
  {
    AndBit(x, Pow2(k), k);
    Pow2Bit(k, k);
    ZeroBits(k);
    if !Bit(x, k) {
      forall i: nat ensures Bit(And(x, Pow2(k)), i) <==> Bit(0, i) {
        AndBit(x, Pow2(k), i);
        Pow2Bit(k, i);
        ZeroBits(i);
      }
      BitsEqual(And(x, Pow2(k)), 0);
    }
  }

  /** `x |= 1 << k` followed by `x &= ~(1 << k)` gives x back when bit k
      was clear. */
  lemma SetClear(x: nat, k: nat)
    requires !Bit(x, k)
    ensures AndNot(Or(x, Pow2(k)), Pow2(k)) == x
  {
    forall i: nat ensures Bit(AndNot(Or(x, Pow2(k)), Pow2(k)), i) <==> Bit(x, i) {
      AndNotBit(Or(x, Pow2(k)), Pow2(k), i);
      OrBit(x, Pow2(k), i);
      Pow2Bit(k, i);
    }
    BitsEqual(AndNot(Or(x, Pow2(k)), Pow2(k)), x);
  }
}
