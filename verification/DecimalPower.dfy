/** usecase/coin/decimal.go: exponentiation by squaring and Newton roots, both rounding at every
    multiplication. */
module DecimalPower {
  import opened Wrappers
  import opened BigInt
  import opened IntBounds
  import opened Decimal

  const MAX_APPROX_ROOT_ITERATIONS: nat := 100

  // ---- Power

  /** The loop of Power from the state (d, tmp, i), followed by its final multiplication. */
  function PowerFrom(d: int, tmp: int, i: nat): Checked
    requires i > 0
    decreases i
  {
    if i == 1 then MulDec(d, tmp)
    else
      var tmp' :- if i % 2 == 0 then Success(tmp) else MulDec(tmp, d);
      var d' :- MulDec(d, d);
      PowerFrom(d', tmp', i / 2)
  }

  function Power(d: int, power: nat): Checked {
    if power == 0 then Success(P) else PowerFrom(d, P, power)
  }

  method ComputePower(d: int, power: nat) returns (r: Checked)
    ensures r == Power(d, power)
  {
    if power == 0 {
      return Success(P);
    }
    var tmp, x, i := P, d, power;
    while i > 1
      invariant i > 0 && PowerFrom(x, tmp, i) == Power(d, power)
    {
      if i % 2 == 0 {
        i := i / 2;
      } else {
        tmp :- MulDec(tmp, x);
        i := (i - 1) / 2;
      }
      x :- MulDec(x, x);
    }
    return MulDec(x, tmp);
  }

  lemma {:induction false} PowProperties(k: int, i: nat)
    ensures k != 0 ==> Abs(Pow(k, i)) >= 1
    ensures Pow(k, i) == if i % 2 == 0 then Pow(k * k, i / 2) else k * Pow(k * k, i / 2)
    decreases i
  {
    if i == 1 {
      assert Pow(k, 1) == k * Pow(k, 0);
    } else if i >= 2 {
      PowProperties(k, i - 2);
      PowTwoSteps(k, i);
      if k != 0 {
        AbsOfProduct(k * k, Pow(k, i - 2));
        SquarePositive(k);
        MulMonotone(1, Abs(k * k), Abs(Pow(k, i - 2)));
      }
    }
  }

  lemma PowTwoSteps(k: int, i: nat)
    requires i >= 2
    ensures Pow(k, i) == (k * k) * Pow(k, i - 2)
    ensures i % 2 == 0 ==> Pow(k * k, i / 2) == (k * k) * Pow(k * k, (i - 2) / 2)
    ensures i % 2 == 1 ==> k * Pow(k * k, i / 2) == (k * k) * (k * Pow(k * k, (i - 2) / 2))
  {
    assert Pow(k, i) == k * Pow(k, i - 1) == k * (k * Pow(k, i - 2));
    assert i / 2 - 1 == (i - 2) / 2;
  }

  lemma SquarePositive(k: int)
    requires k != 0
    ensures k * k >= 1
  {
    if k > 0 {
      MulMonotone(1, k, k);
    } else {
      MulMonotone(1, -k, -k);
    }
  }

  lemma WholeProduct(x: int, y: int)
    ensures MulDec(x * P, y * P) == CheckDec(x * y * P)
  {
    assert (x * P) * (y * P) == (x * y * P) * P;
    ChopRoundIsNearestEven((x * y * P) * P, x * y * P);
  }

  lemma GrowingProduct(a: int, b: int)
    requires b != 0 && !DecBounded(a * P)
    ensures !DecBounded(a * b * P)
  {
    AbsOfProduct(a, b);
    MulMonotone(1, Abs(b), Abs(a));
    assert Abs(a * b) >= Abs(a);
  }

  /** On whole numbers exponentiation by squaring never rounds and never overflows early: it
      panics exactly when the true power does not fit. */
  lemma {:induction false} PowerFromWhole(k: int, m: int, i: nat)
    requires i > 0 && k != 0 && m != 0
    ensures PowerFrom(k * P, m * P, i) == CheckDec(Pow(k, i) * m * P)
    decreases i
  {
    WholeProduct(k, m);
    if i == 1 {
      assert Pow(k, 1) == k * Pow(k, 0);
    } else {
      WholeProduct(m, k);
      WholeProduct(k, k);
      CheckDecIff(m * k * P);
      CheckDecIff(k * k * P);
      CheckDecIff(Pow(k, i) * m * P);
      PowerDominates(k, m, i);
      PowerOfSquare(k, m, i);
      SquarePositive(k);
      NonZeroProduct(m, k);
      PowerFromWhole(k * k, if i % 2 == 0 then m else m * k, i / 2);
    }
  }

  lemma NonZeroProduct(a: int, b: int)
    requires a != 0 && b != 0
    ensures a * b != 0
  {
    AbsOfProduct(a, b);
    MulMonotone(1, Abs(a), Abs(b));
  }

  lemma PowerOfSquare(k: int, m: int, i: nat)
    requires i >= 2
    ensures Pow(k, i) * m == Pow(k * k, i / 2) * (if i % 2 == 0 then m else m * k)
  {
    PowProperties(k, i);
    var w := Pow(k * k, i / 2);
    assert (k * w) * m == w * (m * k);
  }

  lemma {:induction false} ZeroWhole(m: int, i: nat)
    requires i > 0
    ensures Pow(0, i) == 0 && PowerFrom(0, m * P, i) == CheckDec(0)
    decreases i
  {
    assert BitLen(0) == 0;
    if i > 1 {
      assert MulDec(0, 0) == Success(0) && MulDec(m * P, 0) == Success(0);
      ZeroWhole(if i % 2 == 0 then m else 0, i / 2);
    }
  }

  /** Both intermediate products divide the final one. */
  lemma PowerDominates(k: int, m: int, i: nat)
    requires i >= 2 && k != 0 && m != 0
    ensures !DecBounded(m * k * P) ==> !DecBounded(Pow(k, i) * m * P)
    ensures !DecBounded(k * k * P) ==> !DecBounded(Pow(k, i) * m * P)
  {
    PowProperties(k, i - 1);
    PowProperties(k, i - 2);
    PowFactors(k, m, i);
    NonZeroProduct(Pow(k, i - 2), m);
    if !DecBounded(m * k * P) { GrowingProduct(m * k, Pow(k, i - 1)); }
    if !DecBounded(k * k * P) { GrowingProduct(k * k, Pow(k, i - 2) * m); }
  }

  lemma PowFactors(k: int, m: int, i: nat)
    requires i >= 2
    ensures Pow(k, i) * m == (m * k) * Pow(k, i - 1)
    ensures Pow(k, i) * m == (k * k) * (Pow(k, i - 2) * m)
  {
    var u, v := Pow(k, i - 1), Pow(k, i - 2);
    assert Pow(k, i) == k * u;
    assert u == k * v;
    assert (k * u) * m == (m * k) * u;
    assert (k * (k * v)) * m == (k * k) * (v * m);
  }

  lemma PowerWhole(k: int, n: nat)
    ensures Power(k * P, n) == if DecBounded(Pow(k, n) * P) then Success(Pow(k, n) * P) else Failure(Overflow)
  {
    CheckDecIff(Pow(k, n) * P);
    if n == 0 {
      OneIsBounded();
    } else if k == 0 {
      ZeroWhole(1, n);
    } else {
      PowerFromWhole(k, 1, n);
    }
  }

  lemma OneIsBounded()
    ensures DecBounded(P)
  {
    PrecisionFitsIn64Bits();
    Pow2Monotone(64, MAX_DEC_BIT_LEN);
  }

  lemma MulMonotoneDec(a: int, b: int, c: int, d: int)
    requires 0 <= a <= b && 0 <= c <= d && MulDec(b, d).Success?
    ensures MulDec(a, c).Success? && 0 <= MulDec(a, c).value <= MulDec(b, d).value
  {
    MulMonotone(a, b, c);
    MulMonotone(c, d, b);
    MulMonotone(0, a, c);
    CheckDecIff(ChopRound(a * c));
    CheckDecIff(ChopRound(b * d));
    ChopRoundMonotone(a * c, b * d);
  }

  lemma ChopRoundMonotone(x: nat, y: nat)
    requires x <= y
    ensures 0 <= ChopRound(x) <= ChopRound(y)
  {
  }

  /** On non-negative decimals Power is monotone, and a smaller base never overflows where a
      larger one does not. */
  lemma {:induction false} PowerFromMonotone(x: int, y: int, s: int, t: int, i: nat)
    requires i > 0 && 0 <= x <= y && 0 <= s <= t && PowerFrom(y, t, i).Success?
    ensures PowerFrom(x, s, i).Success? && 0 <= PowerFrom(x, s, i).value <= PowerFrom(y, t, i).value
    decreases i
  {
    if i == 1 {
      MulMonotoneDec(x, y, s, t);
    } else {
      MulMonotoneDec(x, y, x, y);
      if i % 2 == 1 {
        MulMonotoneDec(s, t, x, y);
        PowerFromMonotone(MulDec(x, x).value, MulDec(y, y).value, MulDec(s, x).value, MulDec(t, y).value, i / 2);
      } else {
        PowerFromMonotone(MulDec(x, x).value, MulDec(y, y).value, s, t, i / 2);
      }
    }
  }

  lemma PowerMonotone(x: int, y: int, n: nat)
    requires 0 <= x <= y && Power(y, n).Success?
    ensures Power(x, n).Success? && 0 <= Power(x, n).value <= Power(y, n).value
  {
    if n > 0 {
      PowerFromMonotone(x, y, P, P, n);
    }
  }

  /** The unit interval is closed under Power, without overflow. */
  lemma PowerInUnitInterval(d: int, n: nat)
    requires 0 <= d <= P
    ensures Power(d, n).Success? && 0 <= Power(d, n).value <= P
  {
    PowerWhole(1, n);
    PowOfOne(n);
    OneIsBounded();
    PowerMonotone(d, P, n);
  }

  lemma {:induction false} PowOfOne(n: nat)
    ensures Pow(1, n) == 1
  {
    if n > 0 {
      PowOfOne(n - 1);
    }
  }

  // ---- ApproxRoot

  /** The divisor of one Newton step: guess^(root-1), but never zero. */
  function Divisor(root: nat, guess: int): Checked
    requires root > 0
  {
    var prev :- Power(guess, root - 1);
    Success(if prev == 0 then 1 else prev)
  }

  /** (d / guess^(root-1) - guess) / root, as far as the checks allow. */
  function NewtonDelta(d: int, root: nat, guess: int): Checked
    requires root > 0
  {
    var prev :- Divisor(root, guess);
    var quotient :- QuoDec(d, prev);
    var difference :- CheckDec(quotient - guess);
    Success(Quo(difference, root))
  }

  /** The step of the iteration for one argument and root: how far it moves a guess. */
  function Step(d: int, root: nat): int -> Checked
    requires root > 0
  {
    guess => NewtonDelta(d, root, guess)
  }

  /** The loop of ApproxRoot, over an arbitrary step. */
  function NewtonFrom(step: int -> Checked, guess: int, iter: nat): Checked
    requires iter <= MAX_APPROX_ROOT_ITERATIONS
    decreases MAX_APPROX_ROOT_ITERATIONS - iter
  {
    if iter == MAX_APPROX_ROOT_ITERATIONS then Success(guess)
    else
      var delta :- step(guess);
      var next :- CheckDec(guess + delta);
      if Abs(delta) <= 1 then Success(next) else NewtonFrom(step, next, iter + 1)
  }

  function RootOfNonNegative(d: int, root: nat): Checked {
    if root == 1 || d == 0 || d == P then Success(d)
    else if root == 0 then Success(P)
    else NewtonFrom(Step(d, root), P, 0)
  }

  /** Every panic is recovered and becomes the error result. */
  function ApproxRoot(d: int, root: nat): Checked {
    if d < 0 then
      var abs :- CheckDec(-d);
      var root :- RootOfNonNegative(abs, root);
      CheckDec(-root)
    else RootOfNonNegative(d, root)
  }

  /** The Newton loop stops within 100 rounds and computes the function above. */
  method NewtonLoop(step: int -> Checked) returns (r: Checked)
    ensures r == NewtonFrom(step, P, 0)
  {
    var guess, delta, iter := P, P, 0;
    while Abs(delta) > 1 && iter < MAX_APPROX_ROOT_ITERATIONS
      invariant iter <= MAX_APPROX_ROOT_ITERATIONS
      invariant NewtonFrom(step, P, 0) == if Abs(delta) > 1 then NewtonFrom(step, guess, iter) else Success(guess)
      decreases MAX_APPROX_ROOT_ITERATIONS - iter
    {
      delta :- step(guess);
      guess :- CheckDec(guess + delta);
      iter := iter + 1;
    }
    return Success(guess);
  }

  method ComputeRoot(d: int, root: nat) returns (r: Checked)
    requires d >= 0
    ensures r == RootOfNonNegative(d, root)
  {
    if root == 1 || d == 0 || d == P {
      return Success(d);
    }
    if root == 0 {
      return Success(P);
    }
    r := NewtonLoop(Step(d, root));
  }

  /** From a positive guess the next guess is positive: a root of at least 2 cannot take back
      more than half of it. */
  lemma StepStaysPositive(d: int, root: nat, guess: int)
    requires d > 0 && root >= 2 && guess > 0 && NewtonDelta(d, root, guess).Success?
    ensures guess + NewtonDelta(d, root, guess).value > 0
  {
    var prev := Divisor(root, guess).value;
    PowerNonNegative(guess, root - 1);
    var quotient := QuoDec(d, prev).value;
    DivNonNegative(d * P * P, prev);
    var difference := quotient - guess;
    if difference < 0 {
      HalfAtMost(-difference, root);
    } else {
      DivNonNegative(difference, root);
    }
  }

  lemma HalfAtMost(x: nat, y: int)
    requires y >= 2
    ensures 0 <= x / y && 2 * (x / y) <= x
  {
    DivNonNegative(x, y);
    assert x == y * (x / y) + x % y;
    MulMonotone(2, y, x / y);
  }

  lemma PowerNonNegative(x: int, n: nat)
    requires x >= 0 && Power(x, n).Success?
    ensures Power(x, n).value >= 0
  {
    PowerMonotone(x, x, n);
  }

  ghost predicate KeepsPositive(step: int -> Checked) {
    forall guess :: guess > 0 && step(guess).Success? ==> guess + step(guess).value > 0
  }

  lemma {:induction false} NewtonStaysPositive(step: int -> Checked, guess: int, iter: nat)
    requires KeepsPositive(step) && guess > 0 && iter <= MAX_APPROX_ROOT_ITERATIONS
    requires NewtonFrom(step, guess, iter).Success?
    ensures NewtonFrom(step, guess, iter).value > 0
    decreases MAX_APPROX_ROOT_ITERATIONS - iter
  {
    if iter < MAX_APPROX_ROOT_ITERATIONS && Abs(step(guess).value) > 1 {
      NewtonStaysPositive(step, guess + step(guess).value, iter + 1);
    }
  }

  /** The guess `previous` is where the iteration stopped improving: one more step moves it by at
      most one unit in the last place, to g. */
  predicate StopsAt(step: int -> Checked, previous: int, g: int) {
    && previous > 0
    && step(previous).Success?
    && Abs(step(previous).value) <= 1
    && g == previous + step(previous).value
  }

  /** The iteration used up its hundred rounds, each of which moved by more than one unit. */
  predicate Exhausts(step: int -> Checked, guess: int, iter: nat, g: int)
    requires iter <= MAX_APPROX_ROOT_ITERATIONS
    decreases MAX_APPROX_ROOT_ITERATIONS - iter
  {
    if iter == MAX_APPROX_ROOT_ITERATIONS then g == guess
    else step(guess).Success? && Abs(step(guess).value) > 1 && Exhausts(step, guess + step(guess).value, iter + 1, g)
  }

  lemma {:induction false} NewtonEnds(step: int -> Checked, guess: int, iter: nat)
    requires KeepsPositive(step) && guess > 0 && iter <= MAX_APPROX_ROOT_ITERATIONS
    requires NewtonFrom(step, guess, iter).Success?
    ensures var g := NewtonFrom(step, guess, iter).value;
            Exhausts(step, guess, iter, g) || exists previous :: StopsAt(step, previous, g)
    decreases MAX_APPROX_ROOT_ITERATIONS - iter
  {
    if iter < MAX_APPROX_ROOT_ITERATIONS {
      if Abs(step(guess).value) > 1 {
        NewtonEnds(step, guess + step(guess).value, iter + 1);
      } else {
        assert StopsAt(step, guess, NewtonFrom(step, guess, iter).value);
      }
    }
  }

  lemma StepKeepsPositive(d: int, root: nat)
    requires d > 0 && root >= 2
    ensures KeepsPositive(Step(d, root))
  {
    forall guess | guess > 0 && Step(d, root)(guess).Success? ensures guess + Step(d, root)(guess).value > 0 {
      StepStaysPositive(d, root, guess);
    }
  }

  /** A root of at least 2 of a positive decimal is positive and is reached by convergence or by
      exhausting the hundred rounds. */
  lemma ApproxRootPositive(d: int, root: nat)
    requires d > 0 && root >= 2 && ApproxRoot(d, root).Success?
    ensures var g, step := ApproxRoot(d, root).value, Step(d, root);
            g > 0 && (d == P || Exhausts(step, P, 0, g) || exists previous :: StopsAt(step, previous, g))
  {
    if d != P {
      StepKeepsPositive(d, root);
      NewtonStaysPositive(Step(d, root), P, 0);
      NewtonEnds(Step(d, root), P, 0);
    }
  }

  lemma {:induction false} NewtonBounded(step: int -> Checked, guess: int, iter: nat)
    requires iter <= MAX_APPROX_ROOT_ITERATIONS && DecBounded(guess)
    requires NewtonFrom(step, guess, iter).Success?
    ensures DecBounded(NewtonFrom(step, guess, iter).value)
    decreases MAX_APPROX_ROOT_ITERATIONS - iter
  {
    if iter < MAX_APPROX_ROOT_ITERATIONS {
      CheckDecIff(guess + step(guess).value);
      if Abs(step(guess).value) > 1 {
        NewtonBounded(step, guess + step(guess).value, iter + 1);
      }
    }
  }

  /** ApproxRoot is odd: on every decimal that fits, negating the argument negates the root. */
  lemma ApproxRootOdd(d: int, root: nat)
    requires d > 0 && DecBounded(d)
    ensures match ApproxRoot(d, root)
            case Success(g) => ApproxRoot(-d, root) == Success(-g)
            case Failure(_) => ApproxRoot(-d, root).Failure?
  {
    CheckDecIff(d);
    var r := RootOfNonNegative(d, root);
    if r.Success? {
      CheckDecIff(-r.value);
      OneIsBounded();
      if root > 1 && d != P {
        NewtonBounded(Step(d, root), P, 0);
      }
    }
  }

  /** The cases answered without iterating: the first root is the number itself, every root of 0 is
      0 and of 1 is 1, and the zeroth root of any other number is 1 with its sign. */
  lemma ApproxRootTrivial(d: int, root: nat)
    requires DecBounded(d)
    ensures root == 1 || d == 0 || d == P || d == -P ==> ApproxRoot(d, root) == Success(d)
    ensures root == 0 && d > 0 ==> ApproxRoot(d, root) == Success(P)
    ensures root == 0 && d < 0 ==> ApproxRoot(d, root) == Success(-P)
  {
    CheckDecIff(-d);
    CheckDecIff(d);
    OneIsBounded();
    CheckDecIff(-P);
  }

  /** What one Newton step does for any root: with D = guess^(root-1), or one unit where that rounds
      to zero, the next guess times D differs from d by at most root units of D. */
  lemma NewtonStepMeaning(d: int, root: nat, guess: int, delta: int)
    requires d > 0 && root > 0 && guess > 0 && Step(d, root)(guess) == Success(delta)
    ensures Power(guess, root - 1).Success? && Power(guess, root - 1).value >= 0
    ensures var D := Max(1, Power(guess, root - 1).value); Abs((guess + root * delta) * D - d * P) <= root * D
  {
    PowerNonNegative(guess, root - 1);
    var D := Max(1, Power(guess, root - 1).value);
    QuoWithinHalfUlp(d, D);
    var q := QuoDec(d, D).value;
    QuoRemainder(q - guess, root);
    HalfUnit(Abs(q * D - d * P), D);
    StepError(q, guess, root, delta, D, d);
  }

  function Max(a: int, b: int): int {
    if a < b then b else a
  }

  lemma HalfUnit(e: nat, D: int)
    requires D > 0 && 2 * P * e <= (P + 2) * D
    ensures e <= D
  {
  }

  lemma StepError(q: int, guess: int, root: int, delta: int, D: int, d: int)
    requires D > 0 && root > 0 && Abs(q * D - d * P) <= D && Abs(q - guess - delta * root) < root
    ensures Abs((guess + root * delta) * D - d * P) <= root * D
  {
    var r := q - guess - delta * root;
    assert delta * root == root * delta;
    assert (guess + root * delta) * D == q * D - r * D;
    AbsOfProduct(r, D);
    MulMonotone(Abs(r), root - 1, D);
    assert (root - 1) * D == root * D - D;
  }

  /** Where the iteration stops, the guess solves the Newton equation up to 2*root units of D. */
  lemma ResidualOnConvergence(d: int, root: nat, previous: int, g: int)
    requires d > 0 && root > 0 && StopsAt(Step(d, root), previous, g)
    ensures Power(previous, root - 1).Success? && Power(previous, root - 1).value >= 0
    ensures var D := Max(1, Power(previous, root - 1).value); Abs(previous * D - d * P) <= 2 * root * D
  {
    NewtonStepMeaning(d, root, previous, g - previous);
    SmallStep(previous, root, g - previous, Max(1, Power(previous, root - 1).value), d * P);
  }

  lemma SmallStep(p: int, root: int, delta: int, D: int, n: int)
    requires D > 0 && root > 0 && Abs(delta) <= 1 && Abs((p + root * delta) * D - n) <= root * D
    ensures Abs(p * D - n) <= 2 * root * D
  {
    MulMonotone(0, root, D);
    assert 2 * root * D == 2 * (root * D);
    assert (p + root) * D == p * D + root * D && (p - root) * D == p * D - root * D;
    assert p + root * delta == if delta == 0 then p else if delta == 1 then p + root else p - root;
  }

  /** For square roots this pins the answer down: when it converges, g is within five units in
      the last place of the true root, which in integers is sqrt(d*P). */
  lemma SqrtWithinFiveUlps(d: int, previous: int, g: int)
    requires d > 0 && StopsAt(Step(d, 2), previous, g)
    ensures d * P < (g + 5) * (g + 5)
    ensures g >= 5 ==> (g - 5) * (g - 5) <= d * P
  {
    ResidualOnConvergence(d, 2, previous, g);
    ChopRoundIsNearestEven(previous * P, previous);
    assert Power(previous, 1).value == previous;
    SquareBracket(d * P, previous);
    SquareMonotone(previous + 4, g + 5);
    if g >= 5 {
      SquareMonotone(g - 5, previous - 4);
    }
  }

  lemma SquareBracket(n: int, p: int)
    requires p > 0 && Abs(p * p - n) <= 4 * p
    ensures n < (p + 4) * (p + 4)
    ensures p >= 4 ==> (p - 4) * (p - 4) <= n
  {
    assert (p + 4) * (p + 4) == p * p + 8 * p + 16;
    assert (p - 4) * (p - 4) == p * p - 8 * p + 16;
  }

  lemma SquareMonotone(a: int, b: int)
    requires 0 <= a <= b
    ensures a * a <= b * b
  {
    MulMonotone(a, b, a);
    MulMonotone(a, b, b);
  }
}
