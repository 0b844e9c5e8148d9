/**
  Fixed-width arithmetic of the original program over natural numbers: powers of two and
  the bitwise operators, defined bit by bit.
 */
module Bits {

  type uint8 = x: int | 0 <= x < 0x100
  type uint16 = x: int | 0 <= x < 0x1_0000
  type uint32 = x: int | 0 <= x < 0x1_0000_0000
  type uint64 = x: int | 0 <= x < 0x1_0000_0000_0000_0000
  type int64 = x: int | -0x8000_0000_0000_0000 <= x < 0x8000_0000_0000_0000

  /** Truncation to 16 bits. */
  function ToUint16(x: int): uint16 {
    if 0 <= x < 0x1_0000 then x else x % 0x1_0000
  }

  function ToUint32(x: int): uint32 {
    if 0 <= x < 0x1_0000_0000 then x else x % 0x1_0000_0000
  }

  function ToUint64(x: int): uint64 {
    if 0 <= x < 0x1_0000_0000_0000_0000 then x else x % 0x1_0000_0000_0000_0000
  }

  /** Two's complement wrap-around of a 64-bit signed integer. */
  function ToInt64(x: int): int64 {
    if -0x8000_0000_0000_0000 <= x < 0x8000_0000_0000_0000 then x
    else (x + 0x8000_0000_0000_0000) % 0x1_0000_0000_0000_0000 - 0x8000_0000_0000_0000
  }

  lemma Int64Successor(n: int)
    ensures ToInt64(ToInt64(n) + 1) == ToInt64(n + 1)
  {
  }

  function Pow2(k: nat): (r: nat)
    ensures r >= 1
  {
    if k == 0 then 1 else 2 * Pow2(k - 1)
  }

  /** Bitwise `a & b`. */
  function And(a: nat, b: nat): nat {
    if a == 0 || b == 0 then 0
    else 2 * And(a / 2, b / 2) + (if a % 2 == 1 && b % 2 == 1 then 1 else 0)
  }

  /** Bitwise `a &^ b`. */
  function AndNot(a: nat, b: nat): nat
    decreases a
  {
    if a == 0 then 0
    else 2 * AndNot(a / 2, b / 2) + (if a % 2 == 1 && b % 2 == 0 then 1 else 0)
  }

  /** Bitwise `a ^ b`. */
  function Xor(a: nat, b: nat): nat
    decreases a + b
  {
    if a == 0 then b
    else if b == 0 then a
    else 2 * Xor(a / 2, b / 2) + (if a % 2 != b % 2 then 1 else 0)
  }

  /** `a` is a multiple of 2^k. */
  predicate Aligned(a: int, k: nat)
    decreases k
  {
    k == 0 || (a % 2 == 0 && Aligned(a / 2, k - 1))
  }

  /** `a` rounded down to a multiple of 2^k. */
  function RoundDown(a: nat, k: nat): nat {
    if k == 0 then a else 2 * RoundDown(a / 2, k - 1)
  }

  lemma {:induction false} Pow2Monotone(j: nat, k: nat)
    requires j <= k
    ensures Pow2(j) <= Pow2(k)
    ensures j < k ==> Pow2(j) < Pow2(k)
  {
    if j < k {
      Pow2Monotone(j, k - 1);
    }
  }

  lemma {:induction false} Pow2Aligned(j: nat, k: nat)
    requires j <= k
    ensures Aligned(Pow2(k), j)
  {
    if j > 0 {
      Pow2Aligned(j - 1, k - 1);
      var half := Pow2(k - 1);
      assert Pow2(k) == 2 * half && (2 * half) % 2 == 0 && (2 * half) / 2 == half;
    }
  }

  lemma {:induction false} AlignedWeaken(a: int, j: nat, k: nat)
    requires j <= k && Aligned(a, k)
    ensures Aligned(a, j)
    decreases k
  {
    if j > 0 {
      AlignedWeaken(a / 2, j - 1, k - 1);
    }
  }

  lemma {:induction false} AlignedSum(a: int, b: int, k: nat)
    requires Aligned(a, k) && Aligned(b, k)
    ensures Aligned(a + b, k) && Aligned(a - b, k)
    decreases k
  {
    if k > 0 {
      AlignedSum(a / 2, b / 2, k - 1);
      assert (a + b) / 2 == a / 2 + b / 2 && (a - b) / 2 == a / 2 - b / 2;
    }
  }

  lemma AlignedZero(a: int)
    ensures Aligned(a, 0)
  {
  }

  /** Distinct multiples of 2^k are at least 2^k apart. */
  lemma {:induction false} AlignedGap(a: int, b: int, k: nat)
    requires Aligned(a, k) && Aligned(b, k) && a < b
    ensures a + Pow2(k) <= b
    decreases k
  {
    if k > 0 {
      AlignedGap(a / 2, b / 2, k - 1);
    }
  }

  /** An odd multiple of 2^k becomes a multiple of 2^(k+1) when 2^k is taken away. */
  lemma {:induction false} OddMultiple(a: int, k: nat)
    requires Aligned(a, k) && !Aligned(a, k + 1)
    ensures Aligned(a - Pow2(k), k + 1)
    decreases k
  {
    if k == 0 {
      assert Aligned(a / 2, 0) && Aligned((a - 1) / 2, 0);
    } else {
      OddMultiple(a / 2, k - 1);
      var half := Pow2(k - 1);
      assert Pow2(k) == 2 * half && a == 2 * (a / 2);
      assert (a - 2 * half) % 2 == 0 && (a - 2 * half) / 2 == a / 2 - half;
    }
  }

  lemma {:induction false} RoundDownBounds(a: nat, k: nat)
    ensures Aligned(RoundDown(a, k), k)
    ensures RoundDown(a, k) <= a < RoundDown(a, k) + Pow2(k)
  {
    if k > 0 {
      RoundDownBounds(a / 2, k - 1);
    }
  }

  lemma AndNotOdd(a: nat, b: nat)
    ensures AndNot(a, 2 * b + 1) == 2 * AndNot(a / 2, b)
  {
    assert (2 * b + 1) / 2 == b && (2 * b + 1) % 2 == 1;
  }

  lemma AndEven(a: nat, b: nat)
    ensures And(a, 2 * b) == 2 * And(a / 2, b)
  {
    assert (2 * b) / 2 == b && (2 * b) % 2 == 0;
  }

  lemma AndOdd(a: nat, b: nat)
    ensures And(a, 2 * b + 1) == 2 * And(a / 2, b) + a % 2
  {
    assert (2 * b + 1) / 2 == b && (2 * b + 1) % 2 == 1;
  }

  /** Clearing the low `k` bits rounds down to a multiple of 2^k. */
  lemma {:induction false} AndNotLowBits(a: nat, k: nat)
    ensures AndNot(a, Pow2(k) - 1) == RoundDown(a, k)
    decreases k
  {
    if k == 0 {
      AndNotZero(a);
    } else {
      AndNotOdd(a, Pow2(k - 1) - 1);
      AndNotLowBits(a / 2, k - 1);
    }
  }

  lemma {:induction false} AndNotZero(a: nat)
    ensures AndNot(a, 0) == a
  {
    if a > 0 {
      AndNotZero(a / 2);
    }
  }

  lemma XorOdd(a: nat, b: nat)
    ensures Xor(2 * a + 1, 2 * b + 1) == 2 * Xor(a, b)
  {
    assert (2 * a + 1) / 2 == a && (2 * a + 1) % 2 == 1;
    assert (2 * b + 1) / 2 == b && (2 * b + 1) % 2 == 1;
  }

  /** A block of `n` ones with its low `k` bits flipped is the prefix mask 2^n - 2^k. */
  lemma {:induction false} XorLowBits(n: nat, k: nat)
    requires k <= n
    ensures Xor(Pow2(n) - 1, Pow2(k) - 1) == Pow2(n) - Pow2(k)
    decreases k
  {
    if k > 0 {
      var ones, low := Pow2(n - 1) - 1, Pow2(k - 1) - 1;
      assert Xor(ones, low) == Pow2(n - 1) - Pow2(k - 1) by {
        XorLowBits(n - 1, k - 1);
      }
      XorOdd(ones, low);
      assert 2 * ones + 1 == Pow2(n) - 1 && 2 * low + 1 == Pow2(k) - 1;
    }
  }

  /** Masking an `n`-bit value with the prefix mask 2^n - 2^k rounds it down to a multiple of 2^k. */
  lemma {:induction false} AndPrefixMask(p: nat, n: nat, k: nat)
    requires k <= n && p < Pow2(n)
    ensures Pow2(k) <= Pow2(n)
    ensures And(p, Pow2(n) - Pow2(k)) == RoundDown(p, k)
    decreases n
  {
    Pow2Monotone(k, n);
    if k == 0 {
      AndAllOnes(p, n);
    } else {
      Pow2Monotone(k - 1, n - 1);
      var mask := Pow2(n - 1) - Pow2(k - 1);
      assert And(p / 2, mask) == RoundDown(p / 2, k - 1) by {
        AndPrefixMask(p / 2, n - 1, k - 1);
      }
      AndEven(p, mask);
      assert 2 * mask == Pow2(n) - Pow2(k);
    }
  }

  lemma {:induction false} AndAllOnes(p: nat, n: nat)
    requires p < Pow2(n)
    ensures And(p, Pow2(n) - 1) == p
  {
    if n > 0 {
      AndOdd(p, Pow2(n - 1) - 1);
      AndAllOnes(p / 2, n - 1);
    }
  }

  lemma Pow2Sixteen()
    ensures Pow2(16) == 0x1_0000 && Pow2(15) == 0x8000 && Pow2(14) == 0x4000 && Pow2(13) == 0x2000
  {
    assert Pow2(4) == 16;
    assert Pow2(8) == 16 * Pow2(4);
    assert Pow2(12) == 16 * Pow2(8);
    assert Pow2(13) == 2 * Pow2(12);
    assert Pow2(15) == 4 * Pow2(13);
  }
}
