/** The arithmetic of Go's math/big that the coin package relies on: truncated division,
    bit length, and the 255-bit and 315-bit bounds built from it. */
module BigInt {

  function Abs(x: int): nat {
    if x < 0 then -x else x
  }

  /** big.Int.Quo: division truncated toward zero. */
  function Quo(x: int, y: int): int
    requires y != 0
  {
    if (x < 0) == (y < 0) then Abs(x) / Abs(y) else -(Abs(x) / Abs(y))
  }

  /** big.Int.Rem: the remainder that goes with Quo; it takes the sign of x. */
  function Rem(x: int, y: int): int
    requires y != 0
  {
    x - y * Quo(x, y)
  }

  function Pow(b: int, n: nat): int {
    if n == 0 then 1 else b * Pow(b, n - 1)
  }

  function Pow2(n: nat): (r: nat)
    ensures r > 0
  {
    if n == 0 then 1 else 2 * Pow2(n - 1)
  }

  /** big.Int.BitLen: the length of |x| in binary, 0 for 0. */
  function BitLen(x: int): nat
    decreases Abs(x)
  {
    if x == 0 then 0 else 1 + BitLen(Abs(x) / 2)
  }

  /** BitLen brackets |x| between two consecutive powers of two. */
  lemma {:induction false} BitLenBrackets(x: int)
    ensures Abs(x) < Pow2(BitLen(x))
    ensures x != 0 ==> BitLen(x) > 0 && Pow2(BitLen(x) - 1) <= Abs(x)
    decreases Abs(x)
  {
    if x != 0 {
      BitLenBrackets(Abs(x) / 2);
    }
  }

  lemma {:induction false} Pow2Monotone(m: nat, n: nat)
    requires m <= n
    ensures Pow2(m) <= Pow2(n)
    decreases n - m
  {
    if m < n {
      Pow2Monotone(m, n - 1);
    }
  }

  lemma {:induction false} Pow2Add(m: nat, n: nat)
    ensures Pow2(m + n) == Pow2(m) * Pow2(n)
    decreases m
  {
    if m > 0 {
      Pow2Add(m - 1, n);
      assert Pow2(m + n) == 2 * Pow2(m - 1 + n);
    }
  }

  /** The overflow test written in the source, BitLen() > n, is exactly |x| >= 2^n. */
  lemma BitLenExceeds(x: int, n: nat)
    ensures BitLen(x) > n <==> Abs(x) >= Pow2(n)
  {
    BitLenBrackets(x);
    if BitLen(x) > n {
      Pow2Monotone(n, BitLen(x) - 1);
    } else {
      Pow2Monotone(BitLen(x), n);
    }
  }

  /** Floor division by a positive divisor is the only q with q*y <= x < (q+1)*y. */
  lemma DivUnique(x: int, y: int, q: int, r: int)
    requires y > 0 && x == q * y + r && 0 <= r < y
    ensures x / y == q && x % y == r
  {
    var q', r' := x / y, x % y;
    assert x == y * q' + r';
    if q < q' {
      MulMonotone(q + 1, q', y);
    } else if q' < q {
      MulMonotone(q' + 1, q, y);
    }
  }

  /** Two nested floor divisions are one division by the product. */
  lemma NestedDiv(x: int, y: int, z: int)
    requires y > 0 && z > 0
    ensures y * z > 0 && x / y / z == x / (y * z)
  {
    var q := x / y;
    var t, s := q / z, q % z;
    MulPositive(y, z);
    Regroup(t, z, s, y, x % y);
    MulMonotone(s, z - 1, y);
    assert (z - 1) * y == y * z - y;
    MulMonotone(0, s, y);
    assert q == t * z + s;
    assert x == q * y + x % y;
    DivUnique(x, y * z, t, s * y + x % y);
  }

  /** Scaling the dividend by m appends the quotient of the scaled remainder. */
  lemma DivScaled(n: nat, d: int, m: nat)
    requires d > 0 && m > 0
    ensures n * m / d == n / d * m + n % d * m / d
    ensures 0 <= n % d * m / d < m
  {
    var k, r := n / d, n % d;
    var s, rest := r * m / d, r * m % d;
    assert n == d * k + r;
    assert r * m == d * s + rest;
    MulMonotone(0, r, m);
    DivNonNegative(r * m, d);
    assert n * m == (k * m + s) * d + rest by {
      assert (d * k + r) * m == (d * k) * m + r * m;
      assert (d * k) * m == (k * m) * d;
      assert (k * m + s) * d == (k * m) * d + s * d;
      assert d * s == s * d;
    }
    DivUnique(n * m, d, k * m + s, rest);
    if s >= m {
      MulMonotone(m, s, d);
      MulMonotone(r, d - 1, m);
    }
  }

  lemma DivNonNegative(a: nat, b: int)
    requires b > 0
    ensures a / b >= 0
  {
    if a / b < 0 {
      MulMonotone(a / b, -1, b);
    }
  }

  lemma QuoOdd(x: int, y: int)
    requires y != 0
    ensures Quo(-x, y) == -Quo(x, y) && Quo(x, -y) == -Quo(x, y)
  {
    DivUnique(0, Abs(y), 0, 0);
    assert Abs(-x) == Abs(x) && Abs(-y) == Abs(y);
  }

  lemma FloorAtLeast(x: int, d: int, c: int)
    requires d > 0
    ensures x / d >= c <==> x >= c * d
  {
    var q := x / d;
    assert x == d * q + x % d;
    assert d * q == q * d;
    if q >= c {
      MulMonotone(c, q, d);
    } else {
      MulMonotone(q + 1, c, d);
      assert (q + 1) * d == q * d + d;
    }
  }

  lemma Regroup(t: int, z: int, s: int, y: int, r: int)
    ensures (t * z + s) * y + r == t * (y * z) + (s * y + r)
  {
    assert (t * z + s) * y == (t * z) * y + s * y;
    assert (t * z) * y == t * (y * z);
  }

  lemma MulPositive(a: int, b: int)
    requires a > 0 && b > 0
    ensures a * b > 0
  {
  }

  lemma MulMonotone(a: int, b: int, c: int)
    requires a <= b && c >= 0
    ensures a * c <= b * c
  {
  }
}
