/** Numbers as sets of bit positions: comparing them, combining them, and building them from a predicate. */
module BitPositions {
  import opened Bits

  /** Bit `k` of `x` is one. */
  predicate Bit(x: nat, k: nat)
    decreases k
  {
    if k == 0 then x % 2 == 1 else Bit(x / 2, k - 1)
  }

  lemma {:induction false} ZeroBits(k: nat)
    ensures !Bit(0, k)
  {
    if k > 0 {
      ZeroBits(k - 1);
    }
  }

  /** Fewer ones make a smaller number. */
  lemma {:induction false} SubsetAtMost(x: nat, y: nat)
    requires forall k: nat :: Bit(x, k) ==> Bit(y, k)
    ensures x <= y
    decreases x
  {
    if x > 0 {
      forall k: nat | Bit(x / 2, k)
        ensures Bit(y / 2, k)
      {
        assert Bit(x, k + 1) && Bit(y, k + 1);
      }
      SubsetAtMost(x / 2, y / 2);
      assert Bit(x, 0) ==> Bit(y, 0);
    }
  }

  lemma SameBits(x: nat, y: nat)
    requires forall k: nat :: Bit(x, k) <==> Bit(y, k)
    ensures x == y
  {
    SubsetAtMost(x, y);
    SubsetAtMost(y, x);
  }

  /** A one that only `y` has, above which `x` has no one that `y` lacks, makes `x` smaller. */
  lemma {:induction false} LessAt(x: nat, y: nat, j: nat)
    requires !Bit(x, j) && Bit(y, j)
    requires forall k: nat :: k > j && Bit(x, k) ==> Bit(y, k)
    ensures x < y
    decreases j
  {
    if j == 0 {
      forall k: nat | Bit(x / 2, k)
        ensures Bit(y / 2, k)
      {
        assert Bit(x, k + 1) && Bit(y, k + 1);
      }
      SubsetAtMost(x / 2, y / 2);
    } else {
      forall k: nat | k > j - 1 && Bit(x / 2, k)
        ensures Bit(y / 2, k)
      {
        assert Bit(x, k + 1) && Bit(y, k + 1);
      }
      LessAt(x / 2, y / 2, j - 1);
    }
  }

  /** The highest bit in which two numbers differ. */
  lemma {:induction false} TopDifference(x: nat, y: nat) returns (j: nat)
    requires x < y
    ensures !Bit(x, j) && Bit(y, j)
    ensures forall k: nat :: k > j ==> (Bit(x, k) <==> Bit(y, k))
    decreases y
  {
    if x / 2 == y / 2 {
      j := 0;
      forall k: nat | k > 0
        ensures Bit(x, k) <==> Bit(y, k)
      {
        assert Bit(x / 2, k - 1) <==> Bit(y / 2, k - 1);
      }
    } else {
      var i := TopDifference(x / 2, y / 2);
      j := i + 1;
      forall k: nat | k > j
        ensures Bit(x, k) <==> Bit(y, k)
      {
        assert Bit(x / 2, k - 1) <==> Bit(y / 2, k - 1);
      }
    }
  }

  lemma {:induction false} HighBits(x: nat, n: nat, k: nat)
    requires x < Pow2(n) && n <= k
    ensures !Bit(x, k)
    decreases k
  {
    if k == 0 {
      assert x == 0;
    } else if n == 0 {
      ZeroBits(k);
    } else {
      HighBits(x / 2, n - 1, k - 1);
    }
  }

  lemma {:induction false} PowBits(n: nat, k: nat)
    ensures Bit(Pow2(n), k) <==> k == n
    decreases n
  {
    if n == 0 {
      if k > 0 {
        ZeroBits(k - 1);
      }
    } else if k > 0 {
      PowBits(n - 1, k - 1);
    }
  }

  /** The prefix mask 2^n - 2^j has ones from `j` up. */
  lemma {:induction false} PrefixBits(n: nat, j: nat, k: nat)
    requires j <= n
    ensures Pow2(j) <= Pow2(n) && (Bit(Pow2(n) - Pow2(j), k) <==> j <= k < n)
    decreases n
  {
    Pow2Monotone(j, n);
    if n == j {
      ZeroBits(k);
    } else if j == 0 {
      if k > 0 {
        PrefixBits(n - 1, 0, k - 1);
        assert (Pow2(n) - 1) / 2 == Pow2(n - 1) - 1;
      }
    } else {
      var m := Pow2(n - 1) - Pow2(j - 1);
      assert Pow2(n) - Pow2(j) == 2 * m by {
        Pow2Monotone(j - 1, n - 1);
      }
      if k > 0 {
        PrefixBits(n - 1, j - 1, k - 1);
      }
    }
  }

  lemma {:induction false} AndBits(a: nat, b: nat, k: nat)
    ensures Bit(And(a, b), k) <==> Bit(a, k) && Bit(b, k)
    decreases k
  {
    if a == 0 || b == 0 {
      ZeroBits(k);
    } else if k > 0 {
      AndBits(a / 2, b / 2, k - 1);
      assert And(a, b) / 2 == And(a / 2, b / 2);
    }
  }

  /** Bitwise `a | b`. */
  function Or(a: nat, b: nat): nat
    decreases a + b
  {
    if a == 0 then b
    else if b == 0 then a
    else 2 * Or(a / 2, b / 2) + (if a % 2 == 1 || b % 2 == 1 then 1 else 0)
  }

  lemma {:induction false} OrBits(a: nat, b: nat, k: nat)
    ensures Bit(Or(a, b), k) <==> Bit(a, k) || Bit(b, k)
    decreases k
  {
    if a == 0 || b == 0 {
      ZeroBits(k);
    } else {
      hide Or;
      OrHalf(a, b);
      if k > 0 {
        OrBits(a / 2, b / 2, k - 1);
      }
    }
  }

  lemma OrHalf(a: nat, b: nat)
    requires a > 0 && b > 0
    ensures Or(a, b) / 2 == Or(a / 2, b / 2)
    ensures Or(a, b) % 2 == 1 <==> a % 2 == 1 || b % 2 == 1
  {
    var half := Or(a / 2, b / 2);
    assert Or(a, b) == 2 * half + (if a % 2 == 1 || b % 2 == 1 then 1 else 0);
  }

  lemma {:induction false} OrBelow(a: nat, b: nat, n: nat)
    requires a < Pow2(n) && b < Pow2(n)
    ensures Or(a, b) < Pow2(n)
    decreases n
  {
    if a > 0 && b > 0 {
      OrBelow(a / 2, b / 2, n - 1);
    }
  }

  lemma {:induction false} AndAtMost(a: nat, b: nat)
    ensures And(a, b) <= a
    decreases a
  {
    if a > 0 && b > 0 {
      AndAtMost(a / 2, b / 2);
    }
  }

  /** The number of `n` bits whose bit `k` is one if `f` holds at `low + k`. */
  function FromBits(f: nat -> bool, low: nat, n: nat): (x: nat)
    ensures x < Pow2(n)
    decreases n
  {
    if n == 0 then 0 else 2 * FromBits(f, low + 1, n - 1) + if f(low) then 1 else 0
  }

  lemma {:induction false} FromBitsAt(f: nat -> bool, low: nat, n: nat, k: nat)
    ensures Bit(FromBits(f, low, n), k) <==> k < n && f(low + k)
    decreases n
  {
    if n == 0 {
      ZeroBits(k);
    } else if k > 0 {
      FromBitsAt(f, low + 1, n - 1, k - 1);
    }
  }

  /** The 16-bit number whose ones are the positions at which `f` holds. */
  function Number(f: nat -> bool): (x: uint16)
    ensures forall k: nat :: Bit(x, k) <==> k < 16 && f(k)
  {
    Pow2Sixteen();
    NumberBits(f);
    FromBits(f, 0, 16)
  }

  lemma NumberBits(f: nat -> bool)
    ensures forall k: nat :: Bit(FromBits(f, 0, 16), k) <==> k < 16 && f(k)
  {
    hide FromBits;
    forall k: nat
      ensures Bit(FromBits(f, 0, 16), k) <==> k < 16 && f(k)
    {
      FromBitsAt(f, 0, 16, k);
    }
  }
}
