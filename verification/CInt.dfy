/** The C integer operators the timing code uses, and the division facts its proofs need. */
module CInt {

  /** Signed division: C truncates toward zero. */
  function CDiv(a: int, b: int): int
    requires b > 0
  {
    if a >= 0 then a / b else -((-a) / b)
  }

  /** Signed remainder: it takes the sign of the dividend. */
  function CRem(a: int, b: int): int
    requires b > 0
  {
    a - b * CDiv(a, b)
  }

  /** Value kept by a `uint32_t`. */
  function U32(a: int): nat {
    a % 0x1_0000_0000
  }

  /** Value kept by an `int` whose arithmetic wraps in two's complement. */
  function I32(a: int): int {
    (a + 0x8000_0000) % 0x1_0000_0000 - 0x8000_0000
  }

  /** Value kept by a `uint64_t`. */
  function U64(a: int): nat {
    a % 0x1_0000_0000_0000_0000
  }

  lemma DivUnique(a: int, n: int, q: int, r: int)
    requires n > 0 && 0 <= r < n && a == n * q + r
    ensures a / n == q && a % n == r
  {
    var d := a / n - q;
    assert n * d == r - a % n by {
      assert a == n * (a / n) + a % n;
      assert n * (a / n) - n * q == n * d;
    }
    if d > 0 {
      MulGe(n, d);
    } else if d < 0 {
      MulGe(n, -d);
    }
  }

  lemma MulGe(n: int, d: int)
    requires n > 0 && d >= 1
    ensures n * d >= n
  {
    assert n * d == n * (d - 1) + n;
    assert n * (d - 1) >= 0;
  }

  /** Whole multiples of the divisor pass through a division. */
  lemma DivShift(a: int, n: int, k: int)
    requires n > 0
    ensures (a + n * k) / n == a / n + k
    ensures (a + n * k) % n == a % n
  {
    assert n * (a / n) + n * k == n * (a / n + k);
    DivUnique(a + n * k, n, a / n + k, a % n);
  }

  /** Dividing by n and then by m divides by their product. */
  lemma DivDiv(a: int, n: int, m: int)
    requires n > 0 && m > 0
    ensures n * m > 0
    ensures a / (n * m) == (a / n) / m
  {
    var q := a / n;
    MulGe(n, m);
    DigitBound(n, m, q % m, a % n);
    Regroup(n, m, q / m, q % m, a % n);
    DivUnique(a, n * m, q / m, n * (q % m) + a % n);
  }

  lemma DigitBound(n: int, m: int, s: int, r: int)
    requires n > 0 && 0 <= s < m && 0 <= r < n
    ensures 0 <= n * s + r < n * m
  {
    assert n * s <= n * (m - 1);
    assert n * (m - 1) == n * m - n;
    assert 0 <= n * s;
  }

  lemma Regroup(n: int, m: int, p: int, s: int, r: int)
    ensures n * (m * p + s) + r == (n * m) * p + (n * s + r)
  {
    assert n * (m * p + s) == n * (m * p) + n * s;
    assert n * (m * p) == (n * m) * p;
  }
}
