/** usecase/coin/decimal.go: 18-digit decimals.  A Dec is represented, as in the source, by the
    integer that is 10^18 times its value. */
module Decimal {
  import opened Wrappers
  import opened BigInt
  import opened IntBounds

  const P: int := 1_000_000_000_000_000_000
  const FIVE_PRECISION: int := P / 2

  /** 255 bits of whole number and 60 bits of fraction. */
  const MAX_DEC_BIT_LEN: nat := 315

  function CheckDec(x: int): Checked {
    if BitLen(x) > MAX_DEC_BIT_LEN then Failure(Overflow) else Success(x)
  }

  predicate DecBounded(x: int) {
    Abs(x) < Pow2(MAX_DEC_BIT_LEN)
  }

  lemma CheckDecIff(x: int)
    ensures CheckDec(x) == if DecBounded(x) then Success(x) else Failure(Overflow)
  {
    BitLenExceeds(x, MAX_DEC_BIT_LEN);
  }

  lemma PrecisionFitsIn64Bits()
    ensures Pow2(64) > P
  {
    Pow2Square(8, 256);
    Pow2Square(16, 65536);
    Pow2Square(32, 65536 * 65536);
  }

  lemma Pow2Square(n: nat, v: int)
    requires Pow2(n) == v
    ensures Pow2(2 * n) == v * v
  {
    Pow2Add(n, n);
  }

  // ---- chopping off eighteen digits

  function ChopTruncate(x: int): int {
    Quo(x, P)
  }

  function ChopRound(x: int): int
    decreases x < 0
  {
    if x < 0 then -ChopRound(-x)
    else
      var quo, rem := x / P, x % P;
      if rem < FIVE_PRECISION then quo
      else if rem > FIVE_PRECISION then quo + 1
      else if quo % 2 == 0 then quo else quo + 1
  }

  function ChopRoundUp(x: int): int {
    if x < 0 then -ChopTruncate(-x)
    else if x % P == 0 then x / P else x / P + 1
  }

  /** What rounding half to even means: r is a nearest integer to x/P, the even one on a tie. */
  predicate NearestEven(x: int, r: int) {
    && 2 * Abs(x - r * P) <= P
    && (2 * Abs(x - r * P) == P ==> r % 2 == 0)
  }

  /** chopPrecisionAndRound returns the half-even rounding and there is only one. */
  lemma ChopRoundIsNearestEven(x: int, r: int)
    ensures NearestEven(x, r) <==> r == ChopRound(x)
  {
    if x < 0 {
      assert (-r) % 2 == r % 2;
      HalfEven(-x, -r);
    } else {
      HalfEven(x, r);
    }
  }

  lemma HalfEven(x: nat, r: int)
    ensures NearestEven(x, r) <==> r == ChopRound(x)
  {
    var q := x / P;
    assert x == q * P + x % P;
  }

  /** A mutable big.Int. */
  class Big {
    var v: int

    constructor (v: int)
      ensures this.v == v
    {
      this.v := v;
    }

    /** z.Neg(x) with z and x the same object. */
    method Neg()
      modifies this
      ensures v == -old(v)
    {
      v := -v;
    }

    /** z.QuoRem(x, y, r) with z and x the same object: z is overwritten by the quotient. */
    method QuoRem(y: int, rem: Big)
      requires y != 0 && rem != this
      modifies this, rem
      ensures v == Quo(old(v), y) && rem.v == Rem(old(v), y)
    {
      rem.v := Rem(v, y);
      v := Quo(v, y);
    }

    method AddOne()
      modifies this
      ensures v == old(v) + 1
    {
      v := v + 1;
    }
  }

  /** The argument is overwritten and returned. */
  method ChopPrecisionAndRound(d: Big) returns (r: Big)
    modifies d
    ensures r == d && d.v == ChopRound(old(d.v))
    decreases d.v < 0
  {
    if d.v < 0 {
      d.Neg();
      r := ChopPrecisionAndRound(d);
      r.Neg();
      return;
    }
    var quo := d;
    var rem := new Big(0);
    quo.QuoRem(P, rem);
    if rem.v == 0 {
      return quo;
    }
    if rem.v < FIVE_PRECISION {
      return quo;
    } else if rem.v > FIVE_PRECISION {
      quo.AddOne();
      return quo;
    }
    if quo.v % 2 == 0 {
      return quo;
    }
    quo.AddOne();
    return quo;
  }

  method ChopPrecisionAndRoundUp(d: Big) returns (r: Big)
    modifies d
    ensures r == d && d.v == ChopRoundUp(old(d.v))
  {
    if d.v < 0 {
      d.v := Quo(-d.v, P);
      d.Neg();
      return d;
    }
    var quo := d;
    var rem := new Big(0);
    quo.QuoRem(P, rem);
    if rem.v != 0 {
      quo.AddOne();
    }
    return quo;
  }

  // ---- multiplication and division

  function MulDec(a: int, b: int): Checked {
    CheckDec(ChopRound(a * b))
  }

  function QuoWith(chop: int -> int, a: int, b: int): Checked {
    if b == 0 then Failure(DivisionByZero) else CheckDec(chop(Quo(a * P * P, b)))
  }

  function QuoDec(a: int, b: int): Checked {
    QuoWith(ChopRound, a, b)
  }

  function QuoTruncate(a: int, b: int): Checked {
    QuoWith(ChopTruncate, a, b)
  }

  function QuoRoundUp(a: int, b: int): Checked {
    QuoWith(ChopRoundUp, a, b)
  }

  lemma ChopRoundOdd(x: int)
    ensures ChopRound(-x) == -ChopRound(x)
  {
  }

  /** MulDec is the exact product rounded once, half to even, odd in each argument; it panics only
      when the rounded product does not fit. */
  lemma MulExact(a: int, b: int)
    ensures match MulDec(a, b)
            case Success(m) => NearestEven(a * b, m) && DecBounded(m)
            case Failure(_) => forall m :: NearestEven(a * b, m) ==> !DecBounded(m)
    ensures MulDec(-a, b) == MulDec(a, -b)
    ensures match MulDec(a, b)
            case Success(m) => MulDec(-a, b) == Success(-m)
            case Failure(_) => MulDec(-a, b).Failure?
  {
    CheckDecIff(ChopRound(a * b));
    CheckDecIff(-ChopRound(a * b));
    ChopRoundIsNearestEven(a * b, ChopRound(a * b));
    forall m ensures NearestEven(a * b, m) ==> m == ChopRound(a * b) { ChopRoundIsNearestEven(a * b, m); }
    assert (-a) * b == -(a * b) == a * (-b);
    ChopRoundOdd(a * b);
  }

  lemma CancelPrecision(x: nat, y: int)
    requires y > 0
    ensures x * P / y / P == x / y
  {
    NestedDiv(x * P, y, P);
    NestedDiv(x * P, P, y);
    assert x * P / P == x;
    assert y * P == P * y;
  }

  /** Two nested truncated divisions lose nothing: QuoTruncate is a*P/b truncated once. */
  lemma QuoTruncateOnce(a: int, b: int)
    requires b != 0
    ensures ChopTruncate(Quo(a * P * P, b)) == Quo(a * P, b)
    ensures QuoTruncate(a, b) == if DecBounded(Quo(a * P, b)) then Success(Quo(a * P, b)) else Failure(Overflow)
  {
    CancelPrecision(Abs(a * P), Abs(b));
    DivNonNegative(Abs(a * P * P), Abs(b));
    DivNonNegative(Abs(a * P), Abs(b));
    assert Abs(a * P) * P == Abs(a * P * P);
    CheckDecIff(Quo(a * P, b));
  }

  /** Quo truncates a*P*P/b and rounds that half to even.  It is within 1/2 + 1/P units in the last
      place of the exact quotient a*P/b, and panics exactly when the rounded number does not fit. */
  lemma QuoWithinHalfUlp(a: int, b: int)
    requires b != 0
    ensures match QuoDec(a, b)
            case Success(q) =>
              && NearestEven(Quo(a * P * P, b), q) && DecBounded(q)
              && 2 * P * Abs(q * b - a * P) <= (P + 2) * Abs(b)
            case Failure(panic) =>
              panic == Overflow && forall q :: NearestEven(Quo(a * P * P, b), q) ==> !DecBounded(q)
  {
    var t := Quo(a * P * P, b);
    forall q ensures NearestEven(t, q) <==> q == ChopRound(t) { ChopRoundIsNearestEven(t, q); }
    CheckDecIff(ChopRound(t));
    RoundedQuotientError(a, b);
  }

  lemma RoundedQuotientError(a: int, b: int)
    requires b != 0
    ensures var q := ChopRound(Quo(a * P * P, b)); 2 * P * Abs(q * b - a * P) <= (P + 2) * Abs(b)
  {
    var t := Quo(a * P * P, b);
    ChopRoundIsNearestEven(t, ChopRound(t));
    QuoRemainder(a * P * P, b);
    ScaledError(ChopRound(t), t, b, a);
  }

  lemma QuoRemainder(x: int, y: int)
    requires y != 0
    ensures Abs(x - Quo(x, y) * y) < Abs(y)
  {
    var a, b := Abs(x), Abs(y);
    assert a == b * (a / b) + a % b;
    var q: int := a / b;
    assert b * q == q * b;
    assert (-q) * b == -(q * b) && q * (-b) == -(q * b) && (-q) * (-b) == q * b;
  }

  lemma ScaledError(q: int, t: int, b: int, a: int)
    requires 2 * Abs(t - q * P) <= P && Abs(a * P * P - t * b) < Abs(b)
    ensures 2 * P * Abs(q * b - a * P) <= (P + 2) * Abs(b)
  {
    var e := t - q * P;
    AbsOfProduct(e, b);
    MulMonotone(2 * Abs(e), P, Abs(b));
    assert 2 * Abs(e) * Abs(b) == 2 * (Abs(e) * Abs(b));
    RegroupError(q, e, t, b);
    ScaledErrorLinear(q * b, e * b, t * b, Abs(b), a);
  }

  lemma RegroupError(q: int, e: int, t: int, b: int)
    requires t == q * P + e
    ensures t * b == P * (q * b) + e * b
  {
    assert (q * P + e) * b == (q * P) * b + e * b;
    assert (q * P) * b == P * (q * b);
  }

  lemma ScaledErrorLinear(qb: int, eb: int, tb: int, m: nat, a: int)
    requires tb == P * qb + eb && Abs(a * P * P - tb) < m && 2 * Abs(eb) <= P * m
    ensures 2 * P * Abs(qb - a * P) <= (P + 2) * m
  {
    assert P * (qb - a * P) == -eb - (a * P * P - tb);
  }

  /** The three quotients bracket each other; rounding up a negative quotient truncates it. */
  lemma ChopsOrder(x: int)
    ensures x >= 0 ==> 0 <= ChopTruncate(x) <= ChopRound(x) <= ChopRoundUp(x) <= ChopTruncate(x) + 1
    ensures x <= 0 ==> ChopTruncate(x) - 1 <= ChopRound(x) <= ChopTruncate(x) == ChopRoundUp(x) <= 0
  {
  }

  /** The same of the three operations: on a non-negative quotient the larger of two panics if the
      smaller does; on a non-positive one QuoRoundUp is QuoTruncate, panics included.  All three
      panic on a zero divisor. */
  lemma QuotientOrder(a: int, b: int)
    ensures var truncated, rounded, up := QuoTruncate(a, b), QuoDec(a, b), QuoRoundUp(a, b);
            if b == 0 then
              && truncated == Failure(DivisionByZero)
              && rounded == Failure(DivisionByZero)
              && up == Failure(DivisionByZero)
            else if (a < 0) == (b < 0) then
              && (up.Success? ==> rounded.Success? && rounded.value <= up.value)
              && (rounded.Success? ==> truncated.Success? && truncated.value <= rounded.value)
              && (up.Success? ==> up.value <= truncated.value + 1)
            else
              && up == truncated
              && (rounded.Success? ==> truncated.Success? && truncated.value - 1 <= rounded.value <= truncated.value)
  {
    if b != 0 {
      var x := Quo(a * P * P, b);
      QuotientSign(a, b);
      ChopsOrder(x);
      CheckDecIff(ChopTruncate(x));
      CheckDecIff(ChopRound(x));
      CheckDecIff(ChopRoundUp(x));
    }
  }

  lemma QuotientSign(a: int, b: int)
    requires b != 0
    ensures if (a < 0) == (b < 0) then Quo(a * P * P, b) >= 0 else Quo(a * P * P, b) <= 0
  {
    DivNonNegative(Abs(a * P * P), Abs(b));
  }

  /** c is the least integer not below x/y. */
  predicate IsCeiling(c: int, x: int, y: int)
    requires y != 0
  {
    var sign := if y < 0 then -1 else 1;
    (c - 1) * Abs(y) < sign * x <= c * Abs(y)
  }

  lemma CeilingIs(c: int, x: int, y: int)
    requires y != 0
    ensures var q, r := Abs(x) / Abs(y), Abs(x) % Abs(y);
            IsCeiling(c, x, y) <==> c == if (x < 0) == (y < 0) then (if r == 0 then q else q + 1) else -q
  {
    var n: int, d: int := Abs(x), Abs(y);
    var q, r := n / d, n % d;
    assert n == d * q + r;
    CeilingUnique(c, if (x < 0) == (y < 0) then n else -n, d);
    if (x < 0) == (y < 0) {
      CeilingAt(n, d, q, r);
    } else {
      assert (-q) * d == -(d * q) && (-q - 1) * d == -(d * q) - d;
      CeilingUnique(-q, -n, d);
    }
  }

  lemma CeilingAt(n: int, d: int, q: int, r: int)
    requires d > 0 && n == d * q + r && 0 <= r < d
    ensures var c := if r == 0 then q else q + 1; (c - 1) * d < n <= c * d
  {
    assert (q - 1) * d == d * q - d && q * d == d * q && (q + 1) * d == d * q + d;
  }

  lemma CeilingUnique(c: int, x: int, d: int)
    requires d > 0
    ensures forall e :: (c - 1) * d < x <= c * d && (e - 1) * d < x <= e * d ==> c == e
  {
    forall e | (c - 1) * d < x <= c * d && (e - 1) * d < x <= e * d ensures c == e {
      if c < e { MulMonotone(c, e - 1, d); }
      if e < c { MulMonotone(e, c - 1, d); }
    }
  }

  lemma RoundUpOfPositive(n: nat, d: int)
    requires d > 0
    ensures ChopRoundUp(n * P / d) == if n % d * P / d == 0 then n / d else n / d + 1
    ensures n % d * P / d == 0 <==> n % d * P < d
  {
    DivScaled(n, d, P);
    FloorAtLeast(n % d * P, d, 1);
    DivNonNegative(n, d);
    var k, s := n / d, n % d * P / d;
    assert (k * P + s) % P == s && (k * P + s) / P == k;
  }

  /** The quotient is positive and its remainder so small beside the divisor that the inner division
      drops it. */
  predicate DropsRemainder(a: int, b: int)
    requires b != 0
  {
    (a < 0) == (b < 0) && 0 < Abs(a * P) % Abs(b) * P < Abs(b)
  }

  /** QuoRoundUp is the ceiling of the exact quotient, whatever the signs, unless the inner division
      drops the remainder: then it is one unit less.  It panics exactly when that number does not
      fit. */
  lemma RoundUpIsCeilingIff(a: int, b: int, c: int)
    requires b != 0 && IsCeiling(c, a * P, b)
    ensures var up := if DropsRemainder(a, b) then c - 1 else c;
            QuoRoundUp(a, b) == if DecBounded(up) then Success(up) else Failure(Overflow)
  {
    var n, d := Abs(a * P), Abs(b);
    assert Abs(a * P * P) == n * P;
    CeilingIs(c, a * P, b);
    CheckDecIff(ChopRoundUp(Quo(a * P * P, b)));
    if (a < 0) == (b < 0) {
      RoundUpOfPositive(n, d);
    } else {
      CancelPrecision(n, d);
      DivNonNegative(n * P, d);
      assert ChopRoundUp(Quo(a * P * P, b)) == -(n / d);
    }
  }

  /** With a divisor of absolute value at most 1 QuoRoundUp never misses the ceiling. */
  lemma RoundUpIsCeilingBelowOne(a: int, b: int, c: int)
    requires b != 0 && Abs(b) <= P && IsCeiling(c, a * P, b)
    ensures QuoRoundUp(a, b) == if DecBounded(c) then Success(c) else Failure(Overflow)
  {
    RoundUpIsCeilingIff(a, b, c);
  }

  /** A quotient that QuoRoundUp rounds down: the smallest decimal by 2 * 10^18. */
  lemma RoundUpMissesCeiling()
    ensures QuoRoundUp(1, 2 * P * P) == Success(0) && IsCeiling(1, 1 * P, 2 * P * P)
  {
    assert P * P / (2 * P * P) == 0;
    assert BitLen(0) == 0;
  }

  // ---- whole parts

  function TruncateInt(d: int): Checked {
    Check(ChopTruncate(d))
  }

  lemma TruncateIntIff(d: int)
    ensures TruncateInt(d) == if Bounded(ChopTruncate(d)) then Success(ChopTruncate(d)) else Failure(Overflow)
  {
    BitLenExceeds(ChopTruncate(d), MAX_BIT_LEN);
  }

  /** Ceil is the least whole decimal that is not below d. */
  function Ceil(d: int): (whole: int)
    ensures whole % P == 0 && whole - P < d <= whole
  {
    if Rem(d, P) == 0 then Quo(d, P) * P
    else if Rem(d, P) < 0 then Quo(d, P) * P
    else (Quo(d, P) + 1) * P
  }
}
