/** Powers of two, bits and exclusive-or on natural numbers, as the C operators `<<`, `&` and `^` use them. */
module Bits {

  function Pow2(k: nat): (p: nat)
    ensures p > 0
  {
    if k == 0 then 1 else 2 * Pow2(k - 1)
  }

  /** Bit `k` of `a`. */
  predicate Bit(a: nat, k: nat) {
    if k == 0 then a % 2 == 1 else Bit(a / 2, k - 1)
  }

  /** The low `k` bits of `a` are zero. */
  predicate Aligned(a: nat, k: nat) {
    k == 0 || (a % 2 == 0 && Aligned(a / 2, k - 1))
  }

  /** Bitwise exclusive or, bit by bit from the low end. */
  function Xor(a: nat, b: nat): nat
    decreases a + b
  {
    if a == 0 && b == 0 then 0 else 2 * Xor(a / 2, b / 2) + (a % 2 + b % 2) % 2
  }

  /** Aligned means divisible. */
  lemma {:induction false} AlignedIsMultiple(a: nat, k: nat)
    requires Aligned(a, k)
    ensures exists q: nat :: a == q * Pow2(k)
  {
    if k == 0 {
      assert a == a * Pow2(0);
    } else {
      AlignedIsMultiple(a / 2, k - 1);
      var q: nat :| a / 2 == q * Pow2(k - 1);
      DoubleMul(q, Pow2(k - 1));
      assert a == q * Pow2(k);
    }
  }

  lemma MulMonotone(a: nat, b: nat, n: nat)
    requires a <= b
    ensures a * n <= b * n
  {
  }

  lemma DoubleMul(q: nat, p: nat)
    ensures q * (2 * p) == 2 * (q * p)
  {
  }

  lemma {:induction false} AlignedZero(k: nat)
    ensures Aligned(0, k)
  {
    if k > 0 {
      AlignedZero(k - 1);
    }
  }

  lemma {:induction false} XorZero(a: nat)
    ensures Xor(a, 0) == a
  {
    if a > 0 {
      XorZero(a / 2);
    }
  }

  lemma {:induction false} BitWeight(a: nat, k: nat)
    requires Bit(a, k)
    ensures a >= Pow2(k)
  {
    if k > 0 {
      BitWeight(a / 2, k - 1);
    }
  }

  /** Exclusive or with a single bit flips that bit, hence adds or subtracts its weight. */
  lemma {:induction false} XorPow2(a: nat, k: nat)
    ensures Xor(a, Pow2(k)) == if Bit(a, k) then a - Pow2(k) else a + Pow2(k)
  {
    if k == 0 {
      XorZero(a / 2);
    } else {
      XorPow2(a / 2, k - 1);
    }
  }

  lemma {:induction false} Pow2Monotone(j: nat, k: nat)
    requires j <= k
    ensures Pow2(j) <= Pow2(k)
  {
    if j < k {
      Pow2Monotone(j, k - 1);
    }
  }

  /** Two distinct multiples of `2^k` are at least `2^k` apart. */
  lemma {:induction false} MultiplesApart(x: nat, y: nat, k: nat)
    requires Aligned(x, k) && Aligned(y, k) && x < y
    ensures x + Pow2(k) <= y
  {
    if k > 0 {
      MultiplesApart(x / 2, y / 2, k - 1);
    }
  }

  lemma {:induction false} AlignedDown(x: nat, j: nat, k: nat)
    requires j <= k && Aligned(x, k)
    ensures Aligned(x, j)
  {
    if 0 < j {
      AlignedDown(x / 2, j - 1, k - 1);
    }
  }

  lemma {:induction false} AlignedNext(x: nat, k: nat)
    requires Aligned(x, k)
    ensures Aligned(x + Pow2(k), k)
  {
    if k > 0 {
      AlignedNext(x / 2, k - 1);
      assert (x + Pow2(k)) / 2 == x / 2 + Pow2(k - 1);
    }
  }

  /** A multiple of `2^(k+1)` and its upper half are multiples of `2^k`, told apart by bit `k`. */
  lemma {:induction false} HalvesAligned(x: nat, k: nat)
    requires Aligned(x, k + 1)
    ensures Aligned(x, k) && !Bit(x, k) && Aligned(x + Pow2(k), k) && Bit(x + Pow2(k), k)
  {
    if k > 0 {
      HalvesAligned(x / 2, k - 1);
      assert (x + Pow2(k)) / 2 == x / 2 + Pow2(k - 1);
    } else {
      assert Aligned(x, 1) ==> x % 2 == 0;
    }
  }

  /** Clearing bit `k` of a multiple of `2^k` leaves a multiple of `2^(k+1)`. */
  lemma {:induction false} EvenHalf(x: nat, k: nat)
    requires Aligned(x, k)
    ensures !Bit(x, k) ==> Aligned(x, k + 1)
    ensures Bit(x, k) ==> x >= Pow2(k) && Aligned(x - Pow2(k), k + 1)
  {
    if k > 0 {
      EvenHalf(x / 2, k - 1);
      if Bit(x, k) {
        assert (x - Pow2(k)) / 2 == x / 2 - Pow2(k - 1);
      }
    }
  }

  lemma {:induction false} AlignedPow2(j: nat, k: nat)
    requires j <= k
    ensures Aligned(Pow2(k), j)
  {
    if 0 < j {
      AlignedPow2(j - 1, k - 1);
      assert Pow2(k) / 2 == Pow2(k - 1);
    }
  }

  /** Shifting left by `n` moves bit `k` to bit `k + n`. */
  lemma {:induction false} BitShift(x: nat, k: nat, n: nat)
    ensures Bit(x * Pow2(n), k + n) == Bit(x, k)
  {
    if n > 0 {
      BitShift(x, k, n - 1);
      DoubleMul(x, Pow2(n - 1));
      assert (x * Pow2(n)) / 2 == x * Pow2(n - 1);
    }
  }

  /** `a | (1 << k)`. */
  function SetBit(a: nat, k: nat): nat {
    if Bit(a, k) then a else a + Pow2(k)
  }

  /** `a & ~(1 << k)`. */
  function ClearBit(a: nat, k: nat): (r: int)
    ensures r >= 0
  {
    if Bit(a, k) then BitWeight(a, k); a - Pow2(k) else a
  }

  lemma {:induction false} AddedBit(a: nat, k: nat, j: nat)
    requires !Bit(a, k)
    ensures Bit(a + Pow2(k), j) == (j == k || Bit(a, j))
  {
    if k > 0 {
      assert (a + Pow2(k)) / 2 == a / 2 + Pow2(k - 1) && (a + Pow2(k)) % 2 == a % 2;
      if j > 0 {
        AddedBit(a / 2, k - 1, j - 1);
      }
    } else if j > 0 {
      assert (a + 1) / 2 == a / 2;
    }
  }

  lemma {:induction false} RemovedBit(a: nat, k: nat, j: nat)
    requires Bit(a, k)
    ensures a >= Pow2(k) && Bit(a - Pow2(k), j) == (j != k && Bit(a, j))
  {
    BitWeight(a, k);
    if k > 0 {
      assert (a - Pow2(k)) / 2 == a / 2 - Pow2(k - 1) && (a - Pow2(k)) % 2 == a % 2;
      if j > 0 {
        RemovedBit(a / 2, k - 1, j - 1);
      }
    } else if j > 0 {
      assert (a - 1) / 2 == a / 2;
    }
  }

  lemma SetBitIs(a: nat, k: nat, j: nat)
    ensures Bit(SetBit(a, k), j) == (j == k || Bit(a, j))
  {
    if !Bit(a, k) {
      AddedBit(a, k, j);
    }
  }

  lemma ClearBitIs(a: nat, k: nat, j: nat)
    ensures Bit(ClearBit(a, k), j) == (j != k && Bit(a, j))
  {
    if Bit(a, k) {
      RemovedBit(a, k, j);
    }
  }
}
