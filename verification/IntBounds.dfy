/** usecase/coin/int.go: integers bounded to 255 bits. */
module IntBounds {
  import opened Wrappers
  import opened BigInt

  const MAX_BIT_LEN: nat := 255

  datatype Panic = Overflow | DivisionByZero

  type Checked = Result<int, Panic>

  /** The range every Int lives in: strictly between -2^255 and 2^255. */
  predicate Bounded(x: int) {
    Abs(x) < Pow2(MAX_BIT_LEN)
  }

  function Check(x: int): Checked {
    if BitLen(x) > MAX_BIT_LEN then Failure(Overflow) else Success(x)
  }

  function Add(x: int, y: int): Checked {
    Check(x + y)
  }

  function Sub(x: int, y: int): Checked {
    Check(x - y)
  }

  /** Int.Mul guesses from the bit lengths first, and checks the product afterwards. */
  function Mul(x: int, y: int): Checked {
    if BitLen(x) + BitLen(y) - 1 > MAX_BIT_LEN then Failure(Overflow) else Check(x * y)
  }

  function QuoInt(x: int, y: int): Checked {
    if y == 0 then Failure(DivisionByZero) else Success(Quo(x, y))
  }

  /** The guess never refuses a product that fits: Mul panics exactly when |x*y| >= 2^255. */
  lemma MulPanicsIffOutOfRange(x: int, y: int)
    requires Bounded(x) && Bounded(y)
    ensures Mul(x, y) == if Bounded(x * y) then Success(x * y) else Failure(Overflow)
  {
    BitLenExceeds(x * y, MAX_BIT_LEN);
    BitLenExceeds(x, MAX_BIT_LEN);
    BitLenExceeds(y, MAX_BIT_LEN);
    if BitLen(x) + BitLen(y) - 1 > MAX_BIT_LEN {
      LongProduct(x, y, MAX_BIT_LEN);
    }
  }

  lemma LongProduct(x: int, y: int, bits: nat)
    requires BitLen(x) <= bits && BitLen(y) <= bits && BitLen(x) + BitLen(y) - 1 > bits
    ensures Abs(x * y) >= Pow2(bits)
  {
    BitLenBrackets(x);
    BitLenBrackets(y);
    var m, n := BitLen(x) - 1, BitLen(y) - 1;
    Pow2Add(m, n);
    Pow2Monotone(bits, m + n);
    AbsOfProduct(x, y);
    ProductAtLeast(Pow2(m), Pow2(n), Abs(x), Abs(y));
  }

  lemma ProductAtLeast(u: nat, v: nat, a: int, b: int)
    requires u <= a && v <= b
    ensures u * v <= a * b
  {
    MulMonotone(u, a, v);
    MulMonotone(v, b, a);
  }

  lemma AbsOfProduct(x: int, y: int)
    ensures Abs(x * y) == Abs(x) * Abs(y)
  {
    assert (-x) * y == -(x * y);
    assert x * (-y) == -(x * y);
    assert (-x) * (-y) == x * y;
  }

  /** No operation leaves the range: on bounded operands a result, if any, is bounded, and
      Add and Sub panic only when the exact result does not fit. */
  lemma OperationsStayBounded(x: int, y: int)
    requires Bounded(x) && Bounded(y)
    ensures Add(x, y) == if Bounded(x + y) then Success(x + y) else Failure(Overflow)
    ensures Sub(x, y) == if Bounded(x - y) then Success(x - y) else Failure(Overflow)
    ensures Bounded(-x)
    ensures y != 0 ==> QuoInt(x, y).Success? && Bounded(QuoInt(x, y).value)
  {
    BitLenExceeds(x + y, MAX_BIT_LEN);
    BitLenExceeds(x - y, MAX_BIT_LEN);
    if y != 0 {
      QuoShrinks(x, y);
    }
  }

  /** r is what a division truncated toward zero may leave: smaller than the divisor, and of the
      sign of the dividend. */
  predicate TruncatedRemainder(r: int, x: int, y: int) {
    Abs(r) < Abs(y) && (r > 0 ==> x > 0) && (r < 0 ==> x < 0)
  }

  /** QuoInt is the only quotient whose remainder is smaller than the divisor and of the sign of the
      dividend, and panics exactly on a zero divisor. */
  lemma QuoIntTruncates(x: int, y: int, q: int)
    ensures y == 0 ==> QuoInt(x, y) == Failure(DivisionByZero)
    ensures y != 0 ==> (QuoInt(x, y) == Success(q) <==> TruncatedRemainder(x - q * y, x, y))
  {
    if y != 0 {
      QuoLeavesRemainder(x, y);
      if TruncatedRemainder(x - q * y, x, y) {
        OneTruncation(x, y, q, Quo(x, y));
      }
    }
  }

  lemma QuoLeavesRemainder(x: int, y: int)
    requires y != 0
    ensures TruncatedRemainder(x - Quo(x, y) * y, x, y)
  {
    DivRemainder(Abs(x), Abs(y));
    assert Quo(x, y) * y == if x < 0 then -(Abs(x) / Abs(y) * Abs(y)) else Abs(x) / Abs(y) * Abs(y) by {
      SignedProducts(Abs(x) / Abs(y), y);
    }
  }

  lemma DivRemainder(a: nat, b: int)
    requires b > 0
    ensures 0 <= a - a / b * b <= a && a - a / b * b < b
  {
    DivNonNegative(a, b);
    MulMonotone(0, a / b, b);
    assert a == b * (a / b) + a % b && b * (a / b) == a / b * b;
  }

  lemma SignedProducts(q: int, b: int)
    ensures (-q) * b == -(q * b) && q * (-b) == -(q * b)
  {
  }

  lemma OneTruncation(x: int, y: int, q: int, q': int)
    requires y != 0 && TruncatedRemainder(x - q * y, x, y) && TruncatedRemainder(x - q' * y, x, y)
    ensures q == q'
  {
    assert (q' - q) * y == q' * y - q * y;
    AbsOfProduct(q' - q, y);
    if q != q' {
      MulMonotone(1, Abs(q' - q), Abs(y));
    }
  }

  lemma QuoShrinks(x: int, y: int)
    requires y != 0
    ensures Abs(Quo(x, y)) <= Abs(x)
  {
    DivLeNumerator(Abs(x), Abs(y));
  }

  lemma DivLeNumerator(a: nat, b: int)
    requires b > 0
    ensures 0 <= a / b <= a
  {
    if a / b > a {
      MulMonotone(a + 1, a / b, b);
      MulMonotone(1, b, a + 1);
    }
  }
}
