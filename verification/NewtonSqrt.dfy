/** usecase/coin/decimal.go: whether a hundred Newton rounds are enough for a square root.  They
    are for every decimal up to 2^178; from 2^204 on they end at no less than four times the root. */
module NewtonSqrt {
  import opened Wrappers
  import opened BigInt
  import opened IntBounds
  import opened Decimal
  import opened DecimalPower

  // ---- the true root

  /** s is the integer square root of n. */
  predicate IsRoot(s: int, n: int) {
    s >= 0 && s * s <= n < (s + 1) * (s + 1)
  }

  lemma {:induction false} RootExists(n: nat) returns (s: int)
    ensures IsRoot(s, n)
    decreases n
  {
    if n == 0 {
      s := 0;
    } else {
      s := RootExists(n - 1);
      if (s + 1) * (s + 1) <= n {
        s := s + 1;
        NextSquare(s);
      }
    }
  }

  lemma NextSquare(s: int)
    requires s >= 0
    ensures s * s < (s + 1) * (s + 1)
  {
  }

  lemma RootBelow(s: int, n: int, b: int)
    requires IsRoot(s, n) && b >= 0 && n < b * b
    ensures s < b
  {
    if b <= s {
      SquareMonotone(b, s);
    }
  }

  lemma RootAtLeast(s: int, n: int, b: int)
    requires IsRoot(s, n) && b >= 0 && b * b <= n
    ensures s >= b
  {
    if s + 1 <= b {
      SquareMonotone(s + 1, b);
    }
  }

  // ---- one round

  predicate Fits(x: int) {
    CheckDec(x) == Success(x)
  }

  /** Everything up to the bound in absolute value passes the width check. */
  ghost predicate AllFit(bound: int) {
    forall x :: Abs(x) <= bound ==> Fits(x)
  }

  /** The quotient of one round, before the checks. */
  function Quotient(d: int, g: int): int
    requires g > 0
  {
    ChopRound(Quo(d * P * P, g))
  }

  function NextGuess(d: int, g: int): int
    requires g > 0
  {
    g + Quo(Quotient(d, g) - g, 2)
  }

  lemma RoundValue(d: int, g: int)
    requires g > 0 && Fits(g) && Fits(Quotient(d, g)) && Fits(Quotient(d, g) - g)
    ensures Step(d, 2)(g) == Success(Quo(Quotient(d, g) - g, 2))
  {
    ChopRoundIsNearestEven(g * P, g);
    assert Power(g, 1) == Success(g);
    assert Divisor(2, g) == Success(g);
  }

  /** The quotient is off by little more than half a unit. */
  lemma QuotientError(d: int, g: int)
    requires g > 0
    ensures 100 * Abs(Quotient(d, g) * g - d * P) <= 51 * g
  {
    RoundedQuotientError(d, g);
    Percent(Abs(Quotient(d, g) * g - d * P), g);
  }

  lemma Percent(e: nat, g: int)
    requires g > 0 && 2 * P * e <= (P + 2) * g
    ensures 100 * e <= 51 * g
  {
  }

  /** The next guess is the mean of guess and quotient, rounded towards the guess. */
  lemma NextIsMean(d: int, g: int)
    requires g > 0
    ensures var q, g' := Quotient(d, g), NextGuess(d, g);
            && q + g - 1 <= 2 * g' <= q + g + 1
            && (q < g ==> q + g <= 2 * g')
  {
  }

  // ---- bounds on the next guess

  lemma MeanAboveRoot(n: int, s: int, g: int, q: int, g': int)
    requires IsRoot(s, n) && g > 0 && 100 * Abs(q * g - n) <= 51 * g && q + g - 1 <= 2 * g'
    ensures g' >= s
  {
    assert (2 * s - 1 - g) * g == 2 * (s * g) - g - g * g;
    assert (g - s) * (g - s) == g * g - 2 * (s * g) + s * s;
    SquareNonNegative(g - s);
    if g' <= s - 1 {
      MulMonotone(q, 2 * s - 1 - g, g);
      assert false;
    }
  }

  lemma SquareNonNegative(x: int)
    ensures x * x >= 0
  {
    if x < 0 {
      MulMonotone(0, -x, -x);
      assert (-x) * (-x) == x * x;
    } else {
      MulMonotone(0, x, x);
    }
  }

  /** Above the root the excess e becomes at most e*e/(2*g) and a little. */
  lemma MeanExcess(n: int, s: int, g: int, q: int, g': int)
    requires IsRoot(s, n) && g > 0 && g >= s && 100 * Abs(q * g - n) <= 51 * g && 2 * g' <= q + g + 1
    ensures 200 * (g * (g' - s)) <= 100 * ((g - s) * (g - s)) + 351 * g
    ensures q <= g + 3
  {
    assert (s + 1) * (s + 1) == s * s + 2 * s + 1;
    MulMonotone(2 * g', q + g + 1, g);
    assert 2 * g' * g == 2 * (g * g') && (q + g + 1) * g == q * g + g * g + g;
    assert g * (g' - s) == g * g' - g * s;
    assert (g - s) * (g - s) == g * g - 2 * (g * s) + s * s;
    QuotientBelow(n, s, g, q);
  }

  lemma QuotientBelow(n: int, s: int, g: int, q: int)
    requires n <= s * s + 2 * s && 0 <= s <= g && g > 0 && 100 * Abs(q * g - n) <= 51 * g
    ensures q <= g + 3
  {
    SquareMonotone(s, g);
    assert (g + 3) * g == g * g + 3 * g;
    if q >= g + 3 {
      MulMonotone(g + 3, q, g);
      assert false;
    }
  }

  lemma QuotientNonNegative(n: int, g: int, q: int)
    requires n >= 0 && g > 0 && 100 * Abs(q * g - n) <= 51 * g
    ensures q >= 0
  {
    if q <= -1 {
      MulMonotone(q, -1, g);
      assert false;
    }
  }

  /** The excess beyond three at least halves. */
  lemma ExcessHalves(s: int, g: int, g': int)
    requires 0 <= s <= g && g > 0 && 200 * (g * (g' - s)) <= 100 * ((g - s) * (g - s)) + 351 * g
    ensures 2 * (g' - s) <= (g - s) + 3
  {
    var e, e' := g - s, g' - s;
    MulMonotone(e, g, e);
    assert g * e == e * g;
    assert (e + 4) * g == e * g + 4 * g && 2 * e' * g == 2 * (g * e');
    if 2 * e' >= e + 4 {
      MulMonotone(e + 4, 2 * e', g);
      assert false;
    }
  }

  /** Once it is below a quarter of the root it squares. */
  lemma ExcessSquares(s: int, g: int, g': int)
    requires 20 <= s <= g && 200 * (g * (g' - s)) <= 100 * ((g - s) * (g - s)) + 351 * g
    requires g - s >= 3 && 4 * (g - s - 3) <= s
    ensures 2 * (g * (g' - s - 3)) <= (g - s - 3) * (g - s - 3)
  {
    var u := g - s - 3;
    assert (g - s) * (g - s) == u * u + 6 * u + 9;
    assert g * (g' - s - 3) == g * (g' - s) - 3 * g;
  }

  lemma SquaredScale(s: int, g: int, u: int, v: int, t: int)
    requires 0 < s <= g && u >= 0 && t >= 0 && t * u <= s && 2 * (g * v) <= u * u
    ensures 2 * (t * t) * v <= s
  {
    if v > 0 {
      SquareMonotone(t * u, s);
      assert (t * u) * (t * u) == (t * t) * (u * u);
      SquareNonNegative(t);
      MulMonotone(2 * (g * v), u * u, t * t);
      assert 2 * (g * v) * (t * t) == g * (2 * (t * t) * v);
      MulMonotone(s, g, s);
      assert (s + 1) * g == g * s + g && 2 * (t * t) * v * g == g * (2 * (t * t) * v);
      if 2 * (t * t) * v >= s + 1 {
        MulMonotone(s + 1, 2 * (t * t) * v, g);
        assert false;
      }
    } else {
      SquareNonNegative(t);
      MulMonotone(0, t * t, -v);
      assert 2 * (t * t) * v == -2 * (t * t * (-v));
    }
  }

  // ---- runs of rounds

  /** From this guess on the iteration succeeds and converges. */
  ghost predicate Converges(step: int -> Checked, g: int, iter: nat)
    requires iter <= MAX_APPROX_ROOT_ITERATIONS
  {
    && NewtonFrom(step, g, iter).Success?
    && exists previous :: StopsAt(step, previous, NewtonFrom(step, g, iter).value)
  }

  lemma Advance(step: int -> Checked, g: int, g': int, iter: nat)
    requires g > 0 && step(g) == Success(g' - g) && Fits(g') && iter < MAX_APPROX_ROOT_ITERATIONS
    requires Abs(g' - g) > 1 ==> Converges(step, g', iter + 1)
    ensures Converges(step, g, iter)
  {
    if Abs(g' - g) <= 1 {
      assert NewtonFrom(step, g, iter) == Success(g');
      assert StopsAt(step, g, g');
    } else {
      assert NewtonFrom(step, g, iter) == NewtonFrom(step, g', iter + 1);
    }
  }

  /** A guess at or above the root, within a bound that leaves room for the checks. */
  ghost predicate Above(d: int, s: int, g: int, bound: int) {
    d > 0 && 20 <= s <= g <= bound && s + 3 <= bound && AllFit(bound + 3) && IsRoot(s, d * P)
  }

  /** What one round does to a guess above the root. */
  lemma RoundFromAbove(d: int, s: int, g: int, bound: int) returns (g': int)
    requires Above(d, s, g, bound)
    ensures Step(d, 2)(g) == Success(g' - g) && Fits(g') && Above(d, s, g', bound)
    ensures 200 * (g * (g' - s)) <= 100 * ((g - s) * (g - s)) + 351 * g
    ensures 2 * (g' - s) <= (g - s) + 3
    ensures g - s <= 1 ==> Abs(g' - g) <= 1
  {
    var q := Quotient(d, g);
    g' := NextGuess(d, g);
    if g - s <= 1 { NearQuotient(d, s, g); }
    QuotientError(d, g);
    NextIsMean(d, g);
    MeanAboveRoot(d * P, s, g, q, g');
    MeanExcess(d * P, s, g, q, g');
    QuotientNonNegative(d * P, g, q);
    ExcessHalves(s, g, g');
    RoundValue(d, g);
  }

  /** One unit above the root the iteration stops. */
  lemma StopsNearRoot(d: int, s: int, g: int, bound: int, iter: nat)
    requires Above(d, s, g, bound) && g - s <= 1 && iter < MAX_APPROX_ROOT_ITERATIONS
    ensures Converges(Step(d, 2), g, iter)
  {
    var g' := RoundFromAbove(d, s, g, bound);
    Advance(Step(d, 2), g, g', iter);
  }

  lemma NearQuotient(d: int, s: int, g: int)
    requires IsRoot(s, d * P) && 20 <= s <= g <= s + 1
    ensures g - 2 <= Quotient(d, g) <= g + 3
  {
    QuotientError(d, g);
    NearMean(d * P, s, g, Quotient(d, g));
  }

  lemma NearMean(n: int, s: int, g: int, q: int)
    requires IsRoot(s, n) && 20 <= s <= g <= s + 1 && 100 * Abs(q * g - n) <= 51 * g
    ensures g - 2 <= q <= g + 3
  {
    assert (s + 1) * (s + 1) == s * s + 2 * s + 1;
    assert (g - 1) * (g - 1) == g * g - 2 * g + 1;
    SquareMonotone(g - 1, s);
    QuotientBelow(n, s, g, q);
    assert (g - 3) * g == g * g - 3 * g;
    if q <= g - 3 {
      MulMonotone(q, g - 3, g);
      assert false;
    }
  }

  lemma ThreeAboveRoot(d: int, s: int, g: int, bound: int, iter: nat)
    requires Above(d, s, g, bound) && g - s <= 3 && iter + 1 < MAX_APPROX_ROOT_ITERATIONS
    ensures Converges(Step(d, 2), g, iter)
  {
    var g' := RoundFromAbove(d, s, g, bound);
    SmallExcess(s, g, g');
    StopsNearRoot(d, s, g', bound, iter + 1);
    Advance(Step(d, 2), g, g', iter);
  }

  lemma SmallExcess(s: int, g: int, g': int)
    requires 20 <= s <= g <= s + 3 && 200 * (g * (g' - s)) <= 100 * ((g - s) * (g - s)) + 351 * g
    ensures g' - s <= 1
  {
    SquareMonotone(g - s, 3);
    if g' - s >= 2 {
      MulMonotone(2, g' - s, g);
      assert false;
    }
  }

  /** How many squarings take a scale of 2^m to 2^width. */
  function Squarings(m: nat, width: nat): nat
    decreases width - m
  {
    if m >= width then 0 else 1 + Squarings(2 * m + 1, width)
  }

  /** The excess is at most the root scaled down by 2^m. */
  predicate Scaled(s: int, g: int, m: nat) {
    Pow2(m) * (g - s - 3) <= s
  }

  lemma SquaringStep(s: int, g: int, g': int, m: nat)
    requires 20 <= s <= g && 200 * (g * (g' - s)) <= 100 * ((g - s) * (g - s)) + 351 * g
    requires m >= 2 && g - s >= 3 && Scaled(s, g, m)
    ensures Scaled(s, g', 2 * m + 1)
  {
    var u := g - s - 3;
    assert Pow2(2) == 2 * Pow2(1) && Pow2(1) == 2 * Pow2(0);
    Pow2Monotone(2, m);
    MulMonotone(4, Pow2(m), u);
    ExcessSquares(s, g, g');
    SquaredScale(s, g, u, g' - s - 3, Pow2(m));
    Pow2Add(m, m);
    assert Pow2(2 * m + 1) == 2 * Pow2(2 * m);
  }

  lemma NoExcessLeft(s: int, g: int, m: nat, width: nat)
    requires Scaled(s, g, m) && s < Pow2(width) && m >= width
    ensures g - s <= 3
  {
    Pow2Monotone(width, m);
    if g - s - 3 >= 1 {
      MulMonotone(1, g - s - 3, Pow2(m));
      assert false;
    }
  }

  lemma SquaringRound(d: int, s: int, g: int, bound: int, m: nat) returns (g': int)
    requires Above(d, s, g, bound) && m >= 2 && g - s >= 3 && Scaled(s, g, m)
    ensures Step(d, 2)(g) == Success(g' - g) && Fits(g') && Above(d, s, g', bound) && Scaled(s, g', 2 * m + 1)
  {
    g' := RoundFromAbove(d, s, g, bound);
    SquaringStep(s, g, g', m);
  }

  /** The excess, relative to the root, is squared in every round. */
  lemma {:induction false} SquaringRounds(d: int, s: int, g: int, bound: int, iter: nat, m: nat, width: nat)
    requires Above(d, s, g, bound) && m >= 2 && Scaled(s, g, m) && s < Pow2(width)
    requires iter + Squarings(m, width) + 1 < MAX_APPROX_ROOT_ITERATIONS
    ensures Converges(Step(d, 2), g, iter)
    decreases width - m
  {
    if m >= width {
      NoExcessLeft(s, g, m, width);
    }
    if g - s <= 3 {
      ThreeAboveRoot(d, s, g, bound, iter);
    } else {
      var g' := SquaringRound(d, s, g, bound, m);
      SquaringRounds(d, s, g', bound, iter + 1, 2 * m + 1, width);
      Advance(Step(d, 2), g, g', iter);
    }
  }

  lemma FromQuarter(d: int, s: int, g: int, bound: int, iter: nat, width: nat)
    requires Above(d, s, g, bound) && 4 * (g - s - 3) <= s < Pow2(width)
    requires iter + Squarings(2, width) + 1 < MAX_APPROX_ROOT_ITERATIONS
    ensures Converges(Step(d, 2), g, iter)
  {
    assert Pow2(2) == 2 * Pow2(1) && Pow2(1) == 2 * Pow2(0);
    SquaringRounds(d, s, g, bound, iter, 2, width);
  }

  /** The excess over the root allows k halvings. */
  predicate Halvable(s: int, g: int, k: nat) {
    4 * (g - s - 3) <= Pow2(k) * s
  }

  lemma HalvingStep(s: int, g: int, g': int, k: nat)
    requires k > 0 && Halvable(s, g, k) && 2 * (g' - s) <= (g - s) + 3
    ensures Halvable(s, g', k - 1)
  {
    assert Pow2(k) * s == 2 * (Pow2(k - 1) * s);
  }

  /** Before that it is halved in every round. */
  lemma {:induction false} HalvingRounds(d: int, s: int, g: int, bound: int, iter: nat, k: nat, width: nat)
    requires Above(d, s, g, bound) && Halvable(s, g, k) && s < Pow2(width)
    requires iter + k + Squarings(2, width) + 1 < MAX_APPROX_ROOT_ITERATIONS
    ensures Converges(Step(d, 2), g, iter)
    decreases k
  {
    if k == 0 {
      FromQuarter(d, s, g, bound, iter, width);
    } else {
      var g' := RoundFromAbove(d, s, g, bound);
      HalvingStep(s, g, g', k);
      HalvingRounds(d, s, g', bound, iter + 1, k - 1, width);
      Advance(Step(d, 2), g, g', iter);
    }
  }

  // ---- the first round

  lemma FirstQuotient(d: int, one: int)
    requires one == P
    ensures Quotient(d, one) == d
  {
    assert d * P * P == (d * P) * P;
    ChopRoundIsNearestEven(d * P, d);
  }

  /** The first guess after 1 is about half of d, and at or above the root. */
  lemma FirstRound(d: int, one: int, s: int, bound: int) returns (g: int)
    requires one == P
    requires d > 0 && IsRoot(s, d * P) && 20 <= s && s + 3 <= bound && d <= bound && one <= bound && AllFit(bound + 3)
    ensures Step(d, 2)(one) == Success(g - one) && Fits(g) && Above(d, s, g, bound)
    ensures d <= 2 * g <= d + P + 1
  {
    g := NextGuess(d, one);
    FirstQuotient(d, one);
    FirstMean(d, one, g);
    MeanAboveRoot(d * P, s, one, d, g);
    RoundValue(d, one);
  }

  lemma FirstMean(d: int, one: int, g: int)
    requires d > 0 && one == P && Quotient(d, one) == d && g == NextGuess(d, one)
    ensures d <= 2 * g <= d + P + 1
  {
    NextIsMean(d, one);
  }

  lemma RootIsLarge(d: int, s: int)
    requires d > 0 && IsRoot(s, d * P)
    ensures s >= 20
  {
    RootAtLeast(s, d * P, 20);
  }

  lemma HalfIsHalvable(d: int, s: int, h: nat)
    requires IsRoot(s, d * P) && s >= 20 && 0 < d <= Pow2(h) * Pow2(h) * P && P <= Pow2(h)
    ensures 2 * (d + P + 1) <= 4 * (Pow2(h) * s)
  {
    var b := Pow2(h);
    MulMonotone(d, b * b * P, d);
    assert b * b * P * d == (b * b) * (d * P);
    MulMonotone(d * P, (s + 1) * (s + 1), b * b);
    assert (b * b) * ((s + 1) * (s + 1)) == (b * (s + 1)) * (b * (s + 1));
    assert b * (s + 1) == b * s + b;
    if d > b * (s + 1) {
      SquareMonotone(b * (s + 1) + 1, d);
      NextSquare(b * (s + 1));
      assert false;
    }
    MulMonotone(20, s, b);
    assert s * b == b * s;
  }

  /** Enough halvings in store, and then squarings, for what is left of the hundred rounds. */
  lemma SqrtConverges(d: int, one: int, iter: nat, s: int, bound: int, k: nat, width: nat)
    requires one == P
    requires 0 < d <= bound && IsRoot(s, d * P) && s + 3 <= bound && one <= bound && AllFit(bound + 3)
    requires 2 * (d + P + 1) <= Pow2(k) * s && s < Pow2(width)
    requires iter + k + 2 + Squarings(2, width) < MAX_APPROX_ROOT_ITERATIONS
    ensures Converges(Step(d, 2), one, iter)
  {
    RootIsLarge(d, s);
    var g := FirstRound(d, one, s, bound);
    assert Halvable(s, g, k) by { FirstIsHalvable(d, s, g, k); }
    assert Converges(Step(d, 2), g, iter + 1) by { HalvingRounds(d, s, g, bound, iter + 1, k, width); }
    Advance(Step(d, 2), one, g, iter);
  }

  lemma FirstIsHalvable(d: int, s: int, g: int, k: nat)
    requires s >= 0 && 2 * g <= d + P + 1 && 2 * (d + P + 1) <= Pow2(k) * s
    ensures Halvable(s, g, k)
  {
  }

  lemma Quadrupled(h: nat, s: int)
    ensures Pow2(h + 2) * s == 4 * (Pow2(h) * s)
  {
    assert Pow2(h + 2) == 2 * Pow2(h + 1) && Pow2(h + 1) == 2 * Pow2(h);
    FourTimes(Pow2(h), s);
  }

  lemma FourTimes(b: int, s: int)
    ensures 4 * b * s == 4 * (b * s)
  {
  }

  lemma ScaledSquare(d: int, a: nat, b: nat)
    requires 0 < d <= Pow2(a) * P && P <= Pow2(b)
    ensures d <= Pow2(a + b) && d * P <= Pow2(a + b + b)
  {
    ScaleBoth(d, Pow2(a), P, Pow2(b));
    Pow2Add(a, b);
    Pow2Add(a + b, b);
  }

  lemma ScaleBoth(d: int, a: int, p: int, b: int)
    requires 0 < d <= a * p && 0 < p <= b && a > 0
    ensures d <= a * b && d * p <= a * b * b
  {
    MulMonotone(p, b, a);
    MulMonotone(d, a * b, p);
    MulMonotone(p, b, a * b);
    assert p * a == a * p && p * (a * b) == a * b * p;
  }

  lemma BoundFits(n: nat)
    requires n < MAX_DEC_BIT_LEN
    ensures n >= 2 ==> AllFit(Pow2(n) + 3)
  {
    Pow2Monotone(n + 1, MAX_DEC_BIT_LEN);
    if n >= 2 {
      Pow2Monotone(2, n);
      assert Pow2(2) == 2 * Pow2(1) && Pow2(1) == 2 * Pow2(0);
      forall x | Abs(x) <= Pow2(n) + 3 ensures Fits(x) {
        CheckDecIff(x);
      }
    }
  }

  /** The root of d*P for d up to 2^(2*h): its width, and a bound that leaves room for the checks. */
  lemma Extent(d: int, h: nat, s: int)
    requires 64 <= h <= 89 && 0 < d <= Pow2(2 * h) * P && IsRoot(s, d * P)
    ensures d <= Pow2(h) * Pow2(h) * P && P <= Pow2(h)
    ensures s < Pow2(h + 65)
    ensures s + 3 <= Pow2(2 * h + 64) && d <= Pow2(2 * h + 64) && P <= Pow2(2 * h + 64)
    ensures AllFit(Pow2(2 * h + 64) + 3)
  {
    PrecisionFitsIn64Bits();
    Pow2Monotone(64, h);
    Pow2Add(h, h);
    ScaledSquare(d, 2 * h, 64);
    RootWidth(s, d * P, h + 64);
    Pow2Monotone(h + 65, 2 * h + 63);
    Pow2Monotone(64, 2 * h + 64);
    Pow2Monotone(2, 2 * h + 63);
    assert Pow2(2) == 2 * Pow2(1) && Pow2(1) == 2 * Pow2(0);
    assert Pow2(2 * h + 64) == 2 * Pow2(2 * h + 63);
    BoundFits(2 * h + 64);
  }

  lemma RootWidth(s: int, n: int, k: nat)
    requires IsRoot(s, n) && n <= Pow2(k + k)
    ensures s < Pow2(k + 1)
  {
    Pow2Add(k, k);
    NextSquare(Pow2(k));
    RootBelow(s, n, Pow2(k) + 1);
    assert Pow2(k + 1) == 2 * Pow2(k);
  }

  lemma SquaringsAtMostSix(width: nat)
    requires width <= 191
    ensures Squarings(2, width) <= 6
  {
    assert Squarings(191, width) == 0;
    assert Squarings(95, width) <= 1;
    assert Squarings(47, width) <= 2;
    assert Squarings(23, width) <= 3;
    assert Squarings(11, width) <= 4;
    assert Squarings(5, width) <= 5;
  }

  lemma ConvergesUpTo(d: int, one: int, iter: nat, h: nat)
    requires one == P && iter == 0 && 64 <= h <= 89 && 0 < d <= Pow2(2 * h) * P
    ensures Converges(Step(d, 2), one, iter)
  {
    var s := RootExists(d * P);
    Extent(d, h, s);
    SquaringsAtMostSix(h + 65);
    RootIsLarge(d, s);
    HalfIsHalvable(d, s, h);
    Quadrupled(h, s);
    SqrtConverges(d, one, iter, s, Pow2(2 * h + 64), h + 2, h + 65);
  }

  /** g is within five of the square root of n. */
  predicate WithinFive(g: int, n: int) {
    n < (g + 5) * (g + 5) && (g >= 5 ==> (g - 5) * (g - 5) <= n)
  }

  /** For h up to 89 the square root of every positive decimal up to 2^(2*h) succeeds within the hundred
      rounds and is within five units in the last place of the true root. */
  lemma SqrtIsAccurate(d: int, h: nat) returns (g: int)
    requires 64 <= h <= 89 && 0 < d <= Pow2(2 * h) * P
    ensures ApproxRoot(d, 2) == Success(g)
    ensures WithinFive(g, d * P)
  {
    if d == P {
      g := RootOfOne(d);
    } else {
      g := RootOfOther(d, P, 0, h);
    }
  }

  lemma RootOfOther(d: int, one: int, iter: nat, h: nat) returns (g: int)
    requires one == P && iter == 0 && 64 <= h <= 89 && 0 < d <= Pow2(2 * h) * P && d != one
    ensures ApproxRoot(d, 2) == Success(g)
    ensures WithinFive(g, d * P)
  {
    ApproxIsNewton(d, one, iter);
    ConvergesUpTo(d, one, iter, h);
    g := AccurateWhereConverged(d, one, iter);
  }

  lemma RootOfOne(d: int) returns (g: int)
    requires d == P
    ensures ApproxRoot(d, 2) == Success(g)
    ensures WithinFive(g, d * P)
  {
    g := P;
    OneIsBounded();
    ApproxRootTrivial(d, 2);
    FiveAround(g);
  }

  lemma FiveAround(g: int)
    requires g >= 5
    ensures WithinFive(g, g * g)
  {
    assert (g - 5) * (g - 5) == g * g - 10 * g + 25 && (g + 5) * (g + 5) == g * g + 10 * g + 25;
  }

  lemma ApproxIsNewton(d: int, one: int, iter: nat)
    requires d > 0 && d != P && one == P && iter == 0
    ensures ApproxRoot(d, 2) == NewtonFrom(Step(d, 2), one, iter)
  {
  }

  lemma AccurateWhereConverged(d: int, one: int, iter: nat) returns (g: int)
    requires d > 0 && iter <= MAX_APPROX_ROOT_ITERATIONS && Converges(Step(d, 2), one, iter)
    ensures NewtonFrom(Step(d, 2), one, iter) == Success(g)
    ensures WithinFive(g, d * P)
  {
    var previous;
    previous, g := WhereItStops(Step(d, 2), one, iter);
    assert WithinFive(g, d * P) by {
      SqrtWithinFiveUlps(d, previous, g);
    }
  }

  lemma WhereItStops(step: int -> Checked, one: int, iter: nat) returns (previous: int, g: int)
    requires iter <= MAX_APPROX_ROOT_ITERATIONS && Converges(step, one, iter)
    ensures NewtonFrom(step, one, iter) == Success(g) && StopsAt(step, previous, g)
  {
    g := NewtonFrom(step, one, iter).value;
    previous :| StopsAt(step, previous, g);
  }

  // ---- above the limit

  /** However good the quotient, a round does not take back more than half of the guess. */
  ghost predicate HalvesAtMost(step: int -> Checked) {
    forall g :: g > 0 && step(g).Success? ==> 2 * (g + step(g).value) >= g && g + step(g).value > 0
  }

  lemma {:induction false} EndsAboveHalves(step: int -> Checked, g: int, iter: nat)
    requires HalvesAtMost(step) && g > 0 && iter <= MAX_APPROX_ROOT_ITERATIONS && NewtonFrom(step, g, iter).Success?
    ensures Pow2(MAX_APPROX_ROOT_ITERATIONS - iter) * NewtonFrom(step, g, iter).value >= g
    decreases MAX_APPROX_ROOT_ITERATIONS - iter
  {
    var left := MAX_APPROX_ROOT_ITERATIONS - iter;
    if left > 0 {
      var next := g + step(g).value;
      var last := NewtonFrom(step, g, iter).value;
      if Abs(step(g).value) > 1 {
        EndsAboveHalves(step, next, iter + 1);
      } else {
        MulMonotone(1, Pow2(left - 1), next);
      }
      Doubled(left, last);
    }
  }

  lemma Doubled(n: nat, x: int)
    requires n > 0
    ensures Pow2(n) * x == 2 * (Pow2(n - 1) * x)
  {
  }

  lemma {:induction false} SucceedsFromAbove(d: int, s: int, g: int, bound: int, iter: nat)
    requires Above(d, s, g, bound) && iter <= MAX_APPROX_ROOT_ITERATIONS
    ensures NewtonFrom(Step(d, 2), g, iter).Success?
    decreases MAX_APPROX_ROOT_ITERATIONS - iter
  {
    if iter < MAX_APPROX_ROOT_ITERATIONS {
      var g' := RoundFromAbove(d, s, g, bound);
      SucceedsFromAbove(d, s, g', bound, iter + 1);
      SucceedsFromNext(Step(d, 2), g, g', iter);
    }
  }

  lemma SucceedsFromNext(step: int -> Checked, g: int, g': int, iter: nat)
    requires step(g) == Success(g' - g) && Fits(g') && iter < MAX_APPROX_ROOT_ITERATIONS
    requires NewtonFrom(step, g', iter + 1).Success?
    ensures NewtonFrom(step, g, iter).Success?
  {
  }

  lemma StepHalvesAtMost(d: int)
    requires d > 0
    ensures HalvesAtMost(Step(d, 2))
  {
    forall g | g > 0 && Step(d, 2)(g).Success?
      ensures 2 * (g + Step(d, 2)(g).value) >= g && g + Step(d, 2)(g).value > 0
    {
      StepStaysPositive(d, 2, g);
      StepIsMean(d, g);
      QuotientError(d, g);
      QuotientNonNegative(d * P, g, Quotient(d, g));
      NextIsMean(d, g);
    }
  }

  lemma StepIsMean(d: int, g: int)
    requires g > 0 && Step(d, 2)(g).Success?
    ensures g + Step(d, 2)(g).value == NextGuess(d, g)
  {
    ChopRoundIsNearestEven(g * P, g);
  }

  /** d is at least 16 * 2^(2*n). */
  predicate Beyond(d: int, n: nat) {
    d >= 16 * (Pow2(n) * Pow2(n)) * P
  }

  lemma OvershootSquares(d: int, g: int, b: int)
    requires b > 0 && 0 < d <= b * g && d >= 16 * (b * b) * P
    ensures g * g >= 16 * (d * P)
  {
    SquareMonotone(d, b * g);
    SquareOfProduct(b, g);
    MulMonotone(16 * (b * b) * P, d, d);
    ScaleOut(b * b, d);
    MulPositive(b, b);
    Cancel(b * b, 16 * (d * P), g * g);
  }

  lemma SquareOfProduct(b: int, g: int)
    ensures (b * g) * (b * g) == (b * b) * (g * g)
  {
  }

  lemma ScaleOut(c: int, d: int)
    ensures 16 * c * P * d == c * (16 * (d * P))
  {
    assert c * (16 * (d * P)) == 16 * P * (c * d);
  }

  lemma Cancel(c: int, x: int, y: int)
    requires c > 0 && c * x <= c * y
    ensures x <= y
  {
    if x >= y + 1 {
      MulMonotone(y + 1, x, c);
      assert false;
    }
  }

  /** From the start at one the last guess is at least d/2^100. */
  lemma NewtonOvershoots(d: int, one: int, iter: nat, s: int, bound: int) returns (r: int)
    requires one == P && iter < MAX_APPROX_ROOT_ITERATIONS
    requires 0 < d <= bound && IsRoot(s, d * P) && s + 3 <= bound && one <= bound && AllFit(bound + 3)
    ensures NewtonFrom(Step(d, 2), one, iter) == Success(r) && d <= Pow2(MAX_APPROX_ROOT_ITERATIONS - iter) * r
  {
    RootIsLarge(d, s);
    StepHalvesAtMost(d);
    var g := FirstRound(d, one, s, bound);
    SucceedsFromAbove(d, s, g, bound, iter + 1);
    FirstThenHalves(Step(d, 2), d, one, g, iter);
    r := NewtonFrom(Step(d, 2), one, iter).value;
  }

  lemma FirstThenHalves(step: int -> Checked, d: int, one: int, g: int, iter: nat)
    requires HalvesAtMost(step) && one > 0 && step(one) == Success(g - one) && Fits(g) && g > 0 && d <= 2 * g
    requires iter < MAX_APPROX_ROOT_ITERATIONS && NewtonFrom(step, g, iter + 1).Success?
    ensures NewtonFrom(step, one, iter).Success?
    ensures d <= Pow2(MAX_APPROX_ROOT_ITERATIONS - iter) * NewtonFrom(step, one, iter).value
  {
    var left := MAX_APPROX_ROOT_ITERATIONS - iter;
    if Abs(g - one) > 1 {
      EndsAboveHalves(step, g, iter + 1);
    } else {
      MulMonotone(1, Pow2(left - 1), g);
    }
    Doubled(left, NewtonFrom(step, one, iter).value);
  }

  /** r is at least four times the true root of d. */
  predicate FarAbove(d: int, r: int) {
    r * r >= 16 * (d * P)
  }

  lemma Overshoots(d: int, r: int, n: nat)
    requires Beyond(d, n) && 0 < d <= Pow2(n) * r
    ensures FarAbove(d, r)
  {
    OvershootSquares(d, r, Pow2(n));
  }

  lemma OvershootsFrom(d: int, one: int, iter: nat, s: int, bound: int, n: nat) returns (r: int)
    requires one == P && n + iter == MAX_APPROX_ROOT_ITERATIONS && n > 0 && Beyond(d, n)
    requires 0 < d <= bound && IsRoot(s, d * P) && s + 3 <= bound && one <= bound && AllFit(bound + 3)
    ensures NewtonFrom(Step(d, 2), one, iter) == Success(r) && FarAbove(d, r)
  {
    r := NewtonOvershoots(d, one, iter, s, bound);
    Overshoots(d, r, n);
  }

  lemma RootOfPositive(d: int, n: nat) returns (s: int)
    requires Beyond(d, n)
    ensures d > 0 && IsRoot(s, d * P)
  {
    MulPositive(Pow2(n), Pow2(n));
    s := RootExists(d * P);
  }

  lemma SixteenSquares(n: nat)
    ensures 16 * (Pow2(n) * Pow2(n)) == Pow2(n + n + 4)
  {
    Pow2Add(n, n);
    Pow2Add(n + n, 4);
    assert Pow2(4) == 2 * Pow2(3) && Pow2(3) == 2 * Pow2(2) && Pow2(2) == 2 * Pow2(1) && Pow2(1) == 2 * Pow2(0);
  }

  lemma BeyondLimit(d: int, n: nat)
    requires Pow2(n + n + 4) * P <= d
    ensures d > 0 && d != P && Beyond(d, n)
  {
    SixteenSquares(n);
    MulPositive(Pow2(n), Pow2(n));
    MulMonotone(2, Pow2(n + n + 4), P);
  }

  /** From 2^204 on, n being the hundred rounds, they are used up far from the root: the result is at
      least four times the true one, and no error is reported. */
  lemma SqrtOvershoots(d: int, n: nat, width: nat)
    requires n == MAX_APPROX_ROOT_ITERATIONS && 200 <= width < MAX_DEC_BIT_LEN && Pow2(n + n + 4) * P <= d <= Pow2(width)
    ensures ApproxRoot(d, 2).Success? && FarAbove(d, ApproxRoot(d, 2).value)
  {
    var one, iter := P, 0;
    BeyondLimit(d, n);
    ApproxIsNewton(d, one, iter);
    var s := RootOfPositive(d, n);
    OvershootExtent(d, s, n, width);
    var r := OvershootsFrom(d, one, iter, s, Pow2(width), n);
    assert ApproxRoot(d, 2) == Success(r);
  }

  lemma OvershootExtent(d: int, s: int, n: nat, width: nat)
    requires 100 <= n && 200 <= width < MAX_DEC_BIT_LEN
    requires Beyond(d, n) && d <= Pow2(width) && IsRoot(s, d * P)
    ensures d != P && d > 0 && P <= Pow2(width) && s + 3 <= Pow2(width) && AllFit(Pow2(width) + 3)
  {
    PrecisionFitsIn64Bits();
    Pow2Monotone(64, n);
    Pow2Monotone(64, width);
    MulMonotone(1, Pow2(n), Pow2(n));
    MulMonotone(2, 16 * (Pow2(n) * Pow2(n)), P);
    BoundFits(width);
    MulMonotone(P, Pow2(64), d);
    Pow2Add(64, width);
    MulMonotone(d, Pow2(width), Pow2(64));
    RootBelowWidth(s, d * P, width);
  }

  lemma RootBelowWidth(s: int, n: int, width: nat)
    requires IsRoot(s, n) && n <= Pow2(64 + width) && width >= 200
    ensures s + 3 <= Pow2(width)
  {
    Pow2Monotone(64 + width, 2 * (width - 2));
    RootWidth(s, n, width - 2);
    Pow2Monotone(2, width - 1);
    assert Pow2(2) == 2 * Pow2(1) && Pow2(1) == 2 * Pow2(0);
    assert Pow2(width) == 2 * Pow2(width - 1);
  }
}
