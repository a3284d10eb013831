/** Bit masks held in a C integer: bit i is the binary digit of weight 2^i. */
module BitMask {

  function Pow2(k: nat): (p: nat)
    ensures p >= 1
  {
    if k == 0 then 1 else 2 * Pow2(k - 1)
  }

  /** `(1 << n) - 1`: the n lowest bits set. */
  function Ones(n: nat): nat {
    Pow2(n) - 1
  }

  /** `m & (1 << i)` is not zero. */
  predicate Bit(m: nat, i: nat) {
    if i == 0 then m % 2 == 1 else Bit(m / 2, i - 1)
  }

  /** `m | (1 << i)`. */
  function SetBit(m: nat, i: nat): nat {
    if i == 0 then m - m % 2 + 1 else 2 * SetBit(m / 2, i - 1) + m % 2
  }

  lemma {:induction false} SetBitBits(m: nat, i: nat, j: nat)
    ensures Bit(SetBit(m, i), j) <==> (i == j || Bit(m, j))
  {
    if i != 0 && j != 0 {
      SetBitBits(m / 2, i - 1, j - 1);
      assert SetBit(m, i) / 2 == SetBit(m / 2, i - 1);
    } else if j != 0 {
      assert SetBit(m, i) / 2 == m / 2;
    }
  }

  lemma {:induction false} SetBitBound(m: nat, i: nat, n: nat)
    requires m < Pow2(n) && i < n
    ensures SetBit(m, i) < Pow2(n)
  {
    assert Pow2(n) == 2 * Pow2(n - 1);
    if i != 0 {
      SetBitBound(m / 2, i - 1, n - 1);
      assert SetBit(m, i) == 2 * SetBit(m / 2, i - 1) + m % 2;
    }
  }

  lemma {:induction false} ZeroBits(i: nat)
    ensures !Bit(0, i)
  {
    if i != 0 {
      ZeroBits(i - 1);
    }
  }

  /** A mask below 2^n has no bit at n or above. */
  lemma {:induction false} NoHighBit(m: nat, n: nat, i: nat)
    requires m < Pow2(n) && n <= i
    ensures !Bit(m, i)
  {
    if n == 0 {
      ZeroBits(i);
    } else {
      NoHighBit(m / 2, n - 1, i - 1);
    }
  }

  lemma {:induction false} OnesBits(n: nat, i: nat)
    requires i < n
    ensures Bit(Ones(n), i)
  {
    assert Ones(n) == 2 * Ones(n - 1) + 1;
    if i != 0 {
      OnesBits(n - 1, i - 1);
    }
  }

  lemma {:induction false} AllBitsAreOnes(m: nat, n: nat)
    requires m < Pow2(n)
    requires forall i: nat | i < n :: Bit(m, i)
    ensures m == Ones(n)
  {
    if n != 0 {
      forall i: nat | i < n - 1 ensures Bit(m / 2, i) {
        assert Bit(m, i + 1);
      }
      AllBitsAreOnes(m / 2, n - 1);
      assert Bit(m, 0);
    }
  }

  ghost predicate AllBits(m: nat, n: nat) {
    forall i: nat | i < n :: Bit(m, i)
  }

  /** The numeric comparison the C code makes with `(1 << n) - 1`, read as a statement about bits. */
  lemma FullIffAllBits(m: nat, n: nat)
    requires m < Pow2(n)
    ensures m == Ones(n) <==> AllBits(m, n)
  {
    if m == Ones(n) {
      forall i: nat | i < n ensures Bit(m, i) { OnesBits(n, i); }
    } else if AllBits(m, n) {
      AllBitsAreOnes(m, n);
    }
  }
}
