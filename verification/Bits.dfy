/** Bitwise operators on naturals, as used by the match finder and the hash-table checks. */
module Bits {

  function Pow2(k: nat): (r: nat)
    ensures r > 0
  {
    if k == 0 then 1 else 2 * Pow2(k - 1)
  }

  /** Left shift. */
  function Shl(x: nat, k: nat): nat {
    if k == 0 then x else 2 * Shl(x, k - 1)
  }

  /** Right shift. */
  function Shr(x: nat, k: nat): nat
    decreases k
  {
    if k == 0 then x else Shr(x / 2, k - 1)
  }

  /** Bitwise exclusive or. */
  function Xor(a: nat, b: nat): (r: nat)
    decreases a + b
  {
    if a == 0 && b == 0 then 0 else (a + b) % 2 + 2 * Xor(a / 2, b / 2)
  }

  /** Bitwise and. */
  function And(a: nat, b: nat): (r: nat)
    decreases a + b
  {
    if a == 0 || b == 0 then 0 else (a % 2) * (b % 2) + 2 * And(a / 2, b / 2)
  }

  /** Index of the lowest set bit, as returned by the ctz instruction on a non-zero word. */
  function Ctz(x: nat): nat
    requires x > 0
  {
    if x % 2 == 1 then 0 else 1 + Ctz(x / 2)
  }

  /** 31 minus the number of leading zeros: the index of the highest set bit. */
  function Log2Floor(n: nat): nat
    requires n > 0
  {
    if n == 1 then 0 else 1 + Log2Floor(n / 2)
  }

  lemma {:induction false} Log2Pow2(k: nat)
    ensures Log2Floor(Pow2(k)) == k
  {
    if k > 0 { Log2Pow2(k - 1); }
  }

  lemma {:induction false} PowerOfTwoCheck(k: nat)
    ensures And(Pow2(k), Pow2(k) - 1) == 0
  {
    if k > 0 {
      PowerOfTwoCheck(k - 1);
      assert (2 * Pow2(k - 1) - 1) / 2 == Pow2(k - 1) - 1;
    }
  }

  lemma {:induction false} ShrMonotone(x: nat, y: nat, k: nat)
    requires x <= y
    ensures Shr(x, k) <= Shr(y, k)
    decreases k
  {
    if k > 0 { ShrMonotone(x / 2, y / 2, k - 1); }
  }

  /** A word of ones shifted right is a shorter word of ones. */
  lemma {:induction false} ShrOnes(a: nat, b: nat)
    ensures Shr(Pow2(a + b) - 1, a) == Pow2(b) - 1
    decreases a
  {
    if a > 0 {
      assert (Pow2(a + b) - 1) / 2 == Pow2(a - 1 + b) - 1;
      ShrOnes(a - 1, b);
    }
  }

  lemma Pow2Of32()
    ensures Pow2(32) == 0x1_0000_0000
  {
    assert Pow2(8) == 256 by { ByteShift(0); }
    assert Pow2(12) == 0x1000 by { assert Pow2(10) == 0x400; }
    assert Pow2(16) == 0x1_0000 by { assert Pow2(14) == 0x4000; }
    assert Pow2(20) == 0x10_0000 by { assert Pow2(18) == 0x4_0000; }
    assert Pow2(24) == 0x100_0000 by { assert Pow2(22) == 0x40_0000; }
    assert Pow2(28) == 0x1000_0000 by { assert Pow2(26) == 0x400_0000; }
    assert Pow2(30) == 0x4000_0000;
  }

  lemma {:induction false} XorSelf(a: nat)
    ensures Xor(a, a) == 0
  {
    if a > 0 { XorSelf(a / 2); }
  }

  lemma {:induction false} XorZero(a: nat, b: nat)
    ensures Xor(a, b) == 0 <==> a == b
    decreases a + b
  {
    if a == b {
      XorSelf(a);
    } else {
      XorZero(a / 2, b / 2);
    }
  }

  /** One binary digit of an exclusive or. */
  lemma {:induction false} XorDigit(a: nat, b: nat, x: nat, y: nat)
    requires a < 2 && b < 2
    ensures Xor(a + 2 * x, b + 2 * y) == (a + b) % 2 + 2 * Xor(x, y)
  {
    if a + 2 * x != 0 || b + 2 * y != 0 {
      assert (a + 2 * x) / 2 == x && (b + 2 * y) / 2 == y;
    }
  }

  /** Xor works digit by digit: low and high parts do not interact. */
  lemma {:induction false} XorSplit(k: nat, a: nat, x: nat, b: nat, y: nat)
    requires a < Pow2(k) && b < Pow2(k)
    ensures Xor(a, b) < Pow2(k)
    ensures Xor(a + Shl(x, k), b + Shl(y, k)) == Xor(a, b) + Shl(Xor(x, y), k)
  {
    if k > 0 {
      hide Xor;
      XorSplit(k - 1, a / 2, x, b / 2, y);
      XorDigit(a % 2, b % 2, a / 2 + Shl(x, k - 1), b / 2 + Shl(y, k - 1));
      XorDigit(a % 2, b % 2, a / 2, b / 2);
    }
  }

  /** The lowest set bit of a word with a non-zero low part lies in the low part. */
  lemma {:induction false} CtzLow(k: nat, a: nat, x: nat)
    requires 0 < a < Pow2(k)
    ensures Ctz(a + Shl(x, k)) < k
  {
    if a % 2 == 0 {
      CtzLow(k - 1, a / 2, x);
      assert (a + Shl(x, k)) / 2 == a / 2 + Shl(x, k - 1);
    }
  }

  /** Low zero bits are counted one by one. */
  lemma {:induction false} CtzShift(k: nat, x: nat)
    requires x > 0
    ensures Shl(x, k) > 0 && Ctz(Shl(x, k)) == k + Ctz(x)
  {
    if k > 0 { CtzShift(k - 1, x); }
  }

  lemma ByteShift(x: nat)
    ensures Shl(x, 8) == 256 * x && Pow2(8) == 256
  {
    assert Shl(x, 1) == 2 * x && Pow2(1) == 2;
    assert Shl(x, 3) == 8 * x && Pow2(3) == 8;
    assert Shl(x, 5) == 32 * x && Pow2(5) == 32;
    assert Shl(x, 7) == 128 * x && Pow2(7) == 128;
  }
}
