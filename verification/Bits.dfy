/** Bitwise operations on natural numbers, and the driver's rounding to a power of two. */
module Bits {
  import opened Words

  /** Bit `i` of `n`. */
  ghost predicate Bit(n: nat, i: nat) {
    if i == 0 then n % 2 == 1 else Bit(n / 2, i - 1)
  }

  /** Bitwise or. */
  function Or(a: nat, b: nat): nat {
    if a == 0 && b == 0 then 0 else
    (if a % 2 == 1 || b % 2 == 1 then 1 else 0) + 2 * Or(a / 2, b / 2)
  }

  /** Shift right by `k`. */
  function Shr(n: nat, k: nat): nat {
    if k == 0 then n else Shr(n / 2, k - 1)
  }

  lemma {:induction false} OrBit(a: nat, b: nat, i: nat)
    ensures Bit(Or(a, b), i) <==> Bit(a, i) || Bit(b, i)
    decreases i
  {
    if a == 0 && b == 0 {
      ZeroBit(i);
    } else {
      assert Or(a, b) / 2 == Or(a / 2, b / 2);
      if i > 0 {
        OrBit(a / 2, b / 2, i - 1);
      }
    }
  }

  lemma ZeroBit(i: nat)
    ensures !Bit(0, i)
  {
  }

  lemma {:induction false} ShrBit(n: nat, k: nat, i: nat)
    ensures Bit(Shr(n, k), i) <==> Bit(n, i + k)
    decreases k
  {
    if k > 0 {
      ShrBit(n / 2, k - 1, i);
    }
  }

  lemma {:induction false} OrBound(a: nat, b: nat, k: nat)
    requires a < Pow2(k) && b < Pow2(k)
    ensures Or(a, b) < Pow2(k)
    decreases k
  {
    if k > 0 {
      OrBound(a / 2, b / 2, k - 1);
    }
  }

  lemma {:induction false} ShrBound(n: nat, k: nat)
    ensures Shr(n, k) <= n
    decreases k
  {
    if k > 0 {
      ShrBound(n / 2, k - 1);
    }
  }

  /** The `m` highest of the `k` low bits are set. */
  ghost predicate TopOnes(n: nat, k: nat, m: nat) {
    forall i: nat :: k - m <= i < k ==> Bit(n, i)
  }

  /** One smearing step doubles the run of ones at the top. */
  lemma SmearStep(n: nat, k: nat, m: nat)
    requires n < Pow2(k) && TopOnes(n, k, m)
    ensures Or(n, Shr(n, m)) < Pow2(k) && TopOnes(Or(n, Shr(n, m)), k, 2 * m)
  {
    ShrBound(n, m);
    OrBound(n, Shr(n, m), k);
    forall i: nat | k - 2 * m <= i < k
      ensures Bit(Or(n, Shr(n, m)), i)
    {
      OrBit(n, Shr(n, m), i);
      ShrBit(n, m, i);
    }
  }

  lemma {:induction false} AllOnes(n: nat, k: nat)
    requires n < Pow2(k) && TopOnes(n, k, k)
    ensures n == Pow2(k) - 1
    decreases k
  {
    if k > 0 {
      assert Bit(n, 0);
      forall i: nat | 0 <= i < k - 1
        ensures Bit(n / 2, i)
      {
        assert Bit(n, i + 1);
      }
      AllOnes(n / 2, k - 1);
    }
  }

  lemma {:induction false} HighestBit(n: nat) returns (j: nat)
    requires n > 0
    ensures Pow2(j) <= n < Pow2(j + 1) && Bit(n, j)
  {
    if n == 1 {
      j := 0;
    } else {
      j := HighestBit(n / 2);
      j := j + 1;
    }
  }

  /** `round_down_pow2`: smear the highest bit downwards, then drop all bits but that one. */
  function RoundDownPow2(n: Word32): nat {
    var n1 := Or(n, Shr(n, 1));
    var n2 := Or(n1, Shr(n1, 2));
    var n3 := Or(n2, Shr(n2, 4));
    var n4 := Or(n3, Shr(n3, 8));
    var n5 := Or(n4, Shr(n4, 16));
    Shr(n5, 1) + 1
  }

  /** The result is the largest power of two that does not exceed a positive argument. */
  lemma RoundDownPow2IsLargest(n: Word32)
    requires n > 0
    ensures IsPow2(RoundDownPow2(n))
    ensures RoundDownPow2(n) <= n < 2 * RoundDownPow2(n)
  {
    var j := HighestBit(n);
    assert j < 32 by {
      Pow2Values();
      Pow2Sum(16, 16);
      if j >= 32 {
        Pow2Mono(32, j);
      }
    }
    var k := j + 1;
    var n1 := Or(n, Shr(n, 1));
    SmearStep(n, k, 1);
    var n2 := Or(n1, Shr(n1, 2));
    SmearStep(n1, k, 2);
    var n3 := Or(n2, Shr(n2, 4));
    SmearStep(n2, k, 4);
    var n4 := Or(n3, Shr(n3, 8));
    SmearStep(n3, k, 8);
    var n5 := Or(n4, Shr(n4, 16));
    SmearStep(n4, k, 16);
    AllOnes(n5, k);
    assert Shr(n5, 1) == n5 / 2 == Pow2(j) - 1;
  }
}
