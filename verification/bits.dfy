/** Bitwise arithmetic on unbounded natural numbers.

    Python integers are unbounded and the simulator only ever applies `>>`, `<<`,
    `|`, `&` and `& ~mask` to non-negative values, so each operator is defined here
    bit by bit on `nat`, and everything else is derived from one reading of a
    number: `Bit(x, j)`, its j-th binary digit. */
module Bits {

  /** 2 to the power k, i.e. Python's `1 << k`. */
  function Pow2(k: nat): (r: nat)
    ensures r >= 1
  {
    if k == 0 then 1 else 2 * Pow2(k - 1)
  }

  /** The j-th binary digit of x (digit 0 is the least significant). */
  function Bit(x: nat, j: nat): nat
  {
    if j == 0 then x % 2 else Bit(x / 2, j - 1)
  }

  /** `x >> k` */
  function Shr(x: nat, k: nat): nat
  {
    if k == 0 then x else Shr(x / 2, k - 1)
  }

  /** `x << k` */
  function Shl(x: nat, k: nat): nat
  {
    x * Pow2(k)
  }

  /** `(1 << k) - 1`: the mask of the k low bits. */
  function LowMask(k: nat): nat
  {
    Pow2(k) - 1
  }

  /** `a | b` */
  function Or(a: nat, b: nat): nat
    decreases a + b
  {
    if a == 0 && b == 0 then 0
    else 2 * Or(a / 2, b / 2) + (if a % 2 == 1 || b % 2 == 1 then 1 else 0)
  }

  /** `a & b` */
  function And(a: nat, b: nat): nat
    decreases a
  {
    if a == 0 || b == 0 then 0
    else 2 * And(a / 2, b / 2) + (if a % 2 == 1 && b % 2 == 1 then 1 else 0)
  }

  /** `a & ~m` for a non-negative a (the result is non-negative). */
  function AndNot(a: nat, m: nat): nat
    decreases a
  {
    if a == 0 then 0
    else 2 * AndNot(a / 2, m / 2) + (if a % 2 == 1 && m % 2 == 0 then 1 else 0)
  }

  /** A number's digits are 0 or 1. */
  predicate IsBit(b: nat) { b == 0 || b == 1 }

  // ---------------------------------------------------------------------------
  // Digit-wise characterisation of every operator
  // ---------------------------------------------------------------------------

  lemma BitOfZero(j: nat)
    ensures Bit(0, j) == 0
  {
    if j > 0 { BitOfZero(j - 1); }
  }

  lemma BitIsBit(x: nat, j: nat)
    ensures IsBit(Bit(x, j))
  {
    if j > 0 { BitIsBit(x / 2, j - 1); }
  }

  /** Bit j + 1 of x is bit j of x / 2. */
  lemma BitHalf(x: nat, j: nat)
    ensures Bit(x, j + 1) == Bit(x / 2, j)
  {
  }

  lemma {:induction false} BitOr(a: nat, b: nat, j: nat)
    ensures Bit(Or(a, b), j) == if Bit(a, j) == 1 || Bit(b, j) == 1 then 1 else 0
    decreases j
  {
    if a == 0 && b == 0 {
      BitOfZero(j);
    } else if j > 0 {
      assert Or(a, b) / 2 == Or(a / 2, b / 2);
      BitOr(a / 2, b / 2, j - 1);
    }
  }

  lemma {:induction false} BitAnd(a: nat, b: nat, j: nat)
    ensures Bit(And(a, b), j) == if Bit(a, j) == 1 && Bit(b, j) == 1 then 1 else 0
    decreases j
  {
    if a == 0 || b == 0 {
      BitOfZero(j);
    } else if j > 0 {
      assert And(a, b) / 2 == And(a / 2, b / 2);
      BitAnd(a / 2, b / 2, j - 1);
    }
  }

  lemma {:induction false} BitAndNot(a: nat, m: nat, j: nat)
    ensures Bit(AndNot(a, m), j) == if Bit(a, j) == 1 && Bit(m, j) == 0 then 1 else 0
    decreases j
  {
    if a == 0 {
      BitOfZero(j);
    } else if j > 0 {
      assert AndNot(a, m) / 2 == AndNot(a / 2, m / 2);
      BitAndNot(a / 2, m / 2, j - 1);
    }
  }

  lemma {:induction false} BitShr(x: nat, k: nat, j: nat)
    ensures Bit(Shr(x, k), j) == Bit(x, j + k)
    decreases k
  {
    if k > 0 {
      BitShr(x / 2, k - 1, j);
      BitHalf(x, j + k - 1);
    }
  }

  lemma {:induction false} BitShl(x: nat, k: nat, j: nat)
    ensures Bit(Shl(x, k), j) == if j < k then 0 else Bit(x, j - k)
    decreases k
  {
    if k > 0 {
      var y := Shl(x, k - 1);
      assert Shl(x, k) == 2 * y;
      if j > 0 {
        assert (2 * y) / 2 == y;
        BitShl(x, k - 1, j - 1);
      }
    }
  }

  lemma {:induction false} BitPow2(k: nat, j: nat)
    ensures Bit(Pow2(k), j) == if j == k then 1 else 0
    decreases k
  {
    if k == 0 {
      if j > 0 { BitOfZero(j - 1); }
    } else if j > 0 {
      BitPow2(k - 1, j - 1);
    }
  }

  lemma {:induction false} BitLowMask(k: nat, j: nat)
    ensures Bit(LowMask(k), j) == if j < k then 1 else 0
    decreases k
  {
    if k == 0 {
      BitOfZero(j);
    } else {
      assert LowMask(k) == 2 * LowMask(k - 1) + 1;
      if j > 0 { BitLowMask(k - 1, j - 1); }
    }
  }

  // ---------------------------------------------------------------------------
  // Extensionality and bounds
  // ---------------------------------------------------------------------------

  /** Two numbers with the same digits are equal. */
  lemma {:induction false} BitsEqual(a: nat, b: nat)
    requires forall j: nat :: Bit(a, j) == Bit(b, j)
    ensures a == b
    decreases a + b
  {
    if a != 0 || b != 0 {
      assert a % 2 == Bit(a, 0) == Bit(b, 0) == b % 2;
      forall j: nat ensures Bit(a / 2, j) == Bit(b / 2, j) {
        BitHalf(a, j);
        BitHalf(b, j);
      }
      BitsEqual(a / 2, b / 2);
    }
  }

  /** x fits in k bits exactly when every digit from k upwards is 0. */
  lemma {:induction false} BelowPow2(x: nat, k: nat)
    ensures x < Pow2(k) <==> forall j: nat :: j >= k ==> Bit(x, j) == 0
    decreases k
  {
    if k == 0 {
      if x == 0 {
        forall j: nat ensures Bit(x, j) == 0 { BitOfZero(j); }
      } else {
        assert !(x < Pow2(k));
        NonZeroHasBit(x);
        assert !(forall i: nat :: i >= k ==> Bit(x, i) == 0);
      }
    } else {
      BelowPow2(x / 2, k - 1);
      if x < Pow2(k) {
        assert x / 2 < Pow2(k - 1);
        forall j: nat | j >= k ensures Bit(x, j) == 0 {
          BitHalf(x, j - 1);
        }
      } else {
        assert x / 2 >= Pow2(k - 1);
        var j: nat :| j >= k - 1 && Bit(x / 2, j) != 0;
        BitHalf(x, j);
        assert Bit(x, j + 1) != 0;
      }
    }
  }

  /** A non-zero number has a non-zero digit. */
  lemma NonZeroHasBit(x: nat)
    requires x != 0
    ensures exists j: nat :: Bit(x, j) != 0
  {
    if forall j: nat :: Bit(x, j) == 0 {
      forall j: nat ensures Bit(x, j) == Bit(0, j) { BitOfZero(j); }
      BitsEqual(x, 0);
    }
  }

  /** Or of two numbers without common digits is their sum. */
  lemma {:induction false} OrDisjoint(a: nat, b: nat)
    requires forall j: nat :: Bit(a, j) == 0 || Bit(b, j) == 0
    ensures Or(a, b) == a + b
    decreases a + b
  {
    if a != 0 || b != 0 {
      assert Bit(a, 0) == 0 || Bit(b, 0) == 0;
      forall j: nat ensures Bit(a / 2, j) == 0 || Bit(b / 2, j) == 0 {
        BitHalf(a, j);
        BitHalf(b, j);
      }
      OrDisjoint(a / 2, b / 2);
    }
  }

  /** `a | b` never exceeds `a + b`. */
  lemma {:induction false} OrAtMostSum(a: nat, b: nat)
    ensures Or(a, b) <= a + b
    decreases a + b
  {
    if a != 0 || b != 0 {
      OrAtMostSum(a / 2, b / 2);
    }
  }

  // ---------------------------------------------------------------------------
  // Splitting a number into a high part and k low bits
  // ---------------------------------------------------------------------------

  /** `x >> k` and `x & ((1 << k) - 1)` recombine to x: the low part fits in k bits. */
  lemma SplitLow(x: nat, k: nat)
    ensures And(x, LowMask(k)) < Pow2(k)
    ensures Shr(x, k) * Pow2(k) + And(x, LowMask(k)) == x
  {
    var hi := Shl(Shr(x, k), k);
    var lo := And(x, LowMask(k));
    forall j: nat
      ensures Bit(lo, j) == (if j < k then Bit(x, j) else 0)
      ensures Bit(hi, j) == (if j < k then 0 else Bit(x, j))
    {
      BitAnd(x, LowMask(k), j);
      BitLowMask(k, j);
      BitIsBit(x, j);
      BitShl(Shr(x, k), k, j);
      if j >= k { BitShr(x, k, j - k); }
    }
    BelowPow2(lo, k);
    OrDisjoint(hi, lo);
    forall j: nat ensures Bit(Or(hi, lo), j) == Bit(x, j) {
      BitOr(hi, lo, j);
      BitIsBit(x, j);
    }
    BitsEqual(Or(hi, lo), x);
  }

  /** `(f << k) | off` with `off < 2^k` is `f * 2^k + off`, and splitting it at k
      gives back f and off. */
  lemma JoinLow(f: nat, off: nat, k: nat)
    requires off < Pow2(k)
    ensures Or(Shl(f, k), off) == f * Pow2(k) + off
    ensures Shr(Or(Shl(f, k), off), k) == f
    ensures And(Or(Shl(f, k), off), LowMask(k)) == off
  {
    var hi := Shl(f, k);
    var x := Or(hi, off);
    BelowPow2(off, k);
    forall j: nat ensures Bit(hi, j) == (if j < k then 0 else Bit(f, j - k)) {
      BitShl(f, k, j);
    }
    OrDisjoint(hi, off);
    forall j: nat ensures Bit(Shr(x, k), j) == Bit(f, j) {
      BitShr(x, k, j);
      BitOr(hi, off, j + k);
      BitIsBit(f, j);
    }
    BitsEqual(Shr(x, k), f);
    forall j: nat ensures Bit(And(x, LowMask(k)), j) == Bit(off, j) {
      BitAnd(x, LowMask(k), j);
      BitLowMask(k, j);
      BitOr(hi, off, j);
      BitIsBit(off, j);
    }
    BitsEqual(And(x, LowMask(k)), off);
  }

  /** `1 << (a + b)` is `(1 << a) << b`. */
  lemma {:induction false} Pow2Add(a: nat, b: nat)
    ensures Pow2(a + b) == Pow2(a) * Pow2(b)
    decreases a
  {
    if a > 0 { Pow2Add(a - 1, b); }
  }

  /** `x & 1` is the lowest digit of x, so `(x >> k) & 1` is digit k. */
  lemma AndOneIsBit(x: nat, k: nat)
    ensures And(Shr(x, k), 1) == Bit(x, k)
  {
    var y := Shr(x, k);
    assert And(y, 1) == y % 2;
    BitShr(x, k, 0);
  }
}
