/** How far the rounded powers of Dec.Power and RelativePow are from the exact ones.  Both square and
    multiply numbers that carry a scale, and round every product to the nearest. */
module PowerError {
  import opened Wrappers
  import opened BigInt
  import opened IntBounds
  import D = Decimal
  import DP = DecimalPower
  import R = RelativePow

  // ---- powers

  lemma {:induction false} PowOfProduct(a: int, b: int, m: nat)
    ensures Pow(a * b, m) == Pow(a, m) * Pow(b, m)
  {
    if m > 0 {
      PowOfProduct(a, b, m - 1);
      Regrouped(a, b, Pow(a, m - 1), Pow(b, m - 1));
    }
  }

  lemma Regrouped(a: int, b: int, x: int, y: int)
    ensures (a * b) * (x * y) == (a * x) * (b * y)
  {
  }

  lemma {:induction false} PowAdd(a: int, m: nat, n: nat)
    ensures Pow(a, m + n) == Pow(a, m) * Pow(a, n)
  {
    if m > 0 {
      PowAdd(a, m - 1, n);
      assert Pow(a, m + n) == a * Pow(a, m - 1 + n);
      assert a * (Pow(a, m - 1) * Pow(a, n)) == (a * Pow(a, m - 1)) * Pow(a, n);
    }
  }

  lemma PowOfSquare(a: int, m: nat)
    ensures Pow(a * a, m) == Pow(a, 2 * m)
  {
    PowOfProduct(a, a, m);
    PowAdd(a, m, m);
  }

  lemma {:induction false} PowNonNegative(a: int, m: nat)
    requires a >= 0
    ensures Pow(a, m) >= 0
    ensures a > 0 ==> Pow(a, m) > 0
  {
    if m > 0 {
      PowNonNegative(a, m - 1);
      MulMonotone(0, a, Pow(a, m - 1));
      if a > 0 { MulPositive(a, Pow(a, m - 1)); }
    }
  }

  lemma {:induction false} PowMonotone(a: int, b: int, m: nat)
    requires 0 <= a <= b
    ensures 0 <= Pow(a, m) <= Pow(b, m)
  {
    PowNonNegative(a, m);
    if m > 0 {
      PowMonotone(a, b, m - 1);
      MulMonotone(Pow(a, m - 1), Pow(b, m - 1), a);
      MulMonotone(a, b, Pow(b, m - 1));
      assert a * Pow(a, m - 1) == Pow(a, m - 1) * a && a * Pow(b, m - 1) == Pow(b, m - 1) * a;
    }
  }

  lemma AbsSum(x: int, y: int)
    ensures Abs(x + y) <= Abs(x) + Abs(y)
  {
  }

  /** Powers of close numbers are close: the bound of the mean value theorem. */
  lemma {:induction false} PowDifference(a: int, b: int, m: nat, k: int, e: nat)
    requires 0 <= a <= k && 0 <= b <= k && Abs(a - b) <= e
    ensures Abs(Pow(a, m) - Pow(b, m)) * k <= m * e * Pow(k, m)
  {
    if m > 0 {
      var x, y, z := Pow(a, m - 1), Pow(b, m - 1), Pow(k, m - 1);
      PowDifference(a, b, m - 1, k, e);
      PowMonotone(b, k, m - 1);
      assert a * x - b * y == a * (x - y) + (a - b) * y;
      AbsSum(a * (x - y), (a - b) * y);
      AbsOfProduct(a, x - y);
      AbsOfProduct(a - b, y);
      DifferenceStep(a, Abs(x - y), Abs(a - b), y, k, e, z, m);
      assert Pow(k, m) == k * z;
      MulMonotone(Abs(a * x - b * y), a * Abs(x - y) + Abs(a - b) * y, k);
    }
  }

  lemma DifferenceStep(a: int, dx: int, da: int, y: int, k: int, e: int, z: int, m: int)
    requires 0 <= a <= k && 0 <= dx && 0 <= da <= e && 0 <= y <= z && m >= 1 && dx * k <= (m - 1) * e * z
    ensures (a * dx + da * y) * k <= m * e * (k * z)
  {
    BothFactors(a, k, dx * k, (m - 1) * e * z);
    BothFactors(da, e, y, z);
    MulMonotone(da * y, e * z, k);
    CollectDifference(a, dx, da * y, k, e, z, m);
  }

  lemma BothFactors(a: int, a': int, b: int, b': int)
    requires 0 <= a <= a' && 0 <= b <= b'
    ensures a * b <= a' * b'
  {
    MulMonotone(a, a', b);
    MulMonotone(b, b', a');
    assert b * a' == a' * b && b' * a' == a' * b';
  }

  lemma CollectDifference(a: int, dx: int, right: int, k: int, e: int, z: int, m: int)
    requires a * (dx * k) <= k * ((m - 1) * e * z) && right * k <= e * z * k
    ensures (a * dx + right) * k <= m * e * (k * z)
  {
    assert (a * dx + right) * k == a * (dx * k) + right * k;
    assert (m - 1) * e * z == (m - 1) * (e * z) == m * (e * z) - e * z;
    assert k * (m * (e * z)) == m * e * (k * z) by {
      Regrouped(m, k, e, z);
      assert m * (e * z) * k == k * (m * (e * z));
      assert m * k * (e * z) == m * (e * z) * k;
    }
    assert k * (m * (e * z) - e * z) == k * (m * (e * z)) - e * z * k;
  }

  // ---- the error of one rounded product

  /** v is x*y/p rounded to a nearest integer. */
  predicate Rounds(v: int, x: int, y: int, p: int) {
    2 * Abs(v * p - x * y) <= p
  }

  /** v is within i/2 units of x^i * t / p^i. */
  predicate Near(v: int, x: int, t: int, i: nat, p: int) {
    2 * Abs(v * Pow(p, i) - Pow(x, i) * t) <= i * Pow(p, i)
  }

  lemma NearMul(v: int, x: int, t: int, t': int, j: nat, p: int)
    requires 0 <= x <= p && Near(v, x, t', j, p) && Rounds(t', t, x, p)
    ensures Near(v, x, t, j + 1, p)
  {
    PowMonotone(x, p, j);
    ErrorOfMul(v, x, t, t', Pow(x, j), Pow(p, j), p);
    MulStep(Abs(v * Pow(p, j) - Pow(x, j) * t'), Abs(t' * p - t * x), Pow(x, j), Pow(p, j), j, p);
    NextPowers(x, p, j);
  }

  lemma NextPowers(x: int, p: int, j: nat)
    ensures Pow(x, j + 1) == x * Pow(x, j) && Pow(p, j + 1) == p * Pow(p, j)
  {
  }

  lemma ErrorOfMul(v: int, x: int, t: int, t': int, xj: int, pj: int, p: int)
    requires p >= 0 && xj >= 0
    ensures Abs(v * (p * pj) - (x * xj) * t) <= p * Abs(v * pj - xj * t') + xj * Abs(t' * p - t * x)
  {
    MulSplit(v, x, t, t', xj, pj, p);
    AbsSum(p * (v * pj - xj * t'), xj * (t' * p - t * x));
    AbsOfProduct(p, v * pj - xj * t');
    AbsOfProduct(xj, t' * p - t * x);
  }

  lemma MulSplit(v: int, x: int, t: int, t': int, xj: int, pj: int, p: int)
    ensures v * (p * pj) - (x * xj) * t == p * (v * pj - xj * t') + xj * (t' * p - t * x)
  {
    assert v * (p * pj) == p * (v * pj);
    assert xj * (t' * p) == p * (xj * t');
    assert (x * xj) * t == xj * (t * x);
  }

  lemma MulStep(u: int, w: int, xj: int, pj: int, j: int, p: int)
    requires p >= 0 && 2 * u <= j * pj && 0 <= 2 * w <= p && 0 <= xj <= pj
    ensures 2 * (p * u + xj * w) <= (j + 1) * (p * pj)
  {
    MulMonotone(2 * u, j * pj, p);
    MulMonotone(xj, pj, 2 * w);
    MulMonotone(2 * w, p, pj);
    assert j * pj * p + p * pj == (j + 1) * (p * pj);
    assert 2 * u * p == 2 * (p * u) && xj * (2 * w) == 2 * (xj * w) && pj * (2 * w) == 2 * w * pj;
  }

  lemma NearSquare(v: int, x: int, x': int, t: int, m: nat, p: int)
    requires p > 0 && 0 <= x <= p && 0 <= x' <= p && 0 <= t <= p
    requires Near(v, x', t, m, p) && Rounds(x', x, x, p)
    ensures Near(v, x, t, 2 * m, p)
  {
    var e := Abs(x' * p - x * x);
    MulMonotone(x', p, p);
    MulMonotone(0, x', p);
    MulMonotone(x, p, x);
    MulMonotone(x, p, p);
    MulMonotone(0, x, x);
    PowDifference(x' * p, x * x, m, p * p, e);
    PowOfProduct(x', p, m);
    PowOfSquare(x, m);
    PowOfSquare(p, m);
    PowAdd(p, m, m);
    PowNonNegative(p, m);
    PowNonNegative(p, 2 * m);
    SquareStep(v, Pow(x', m), Pow(x, 2 * m), t, m, p, Pow(p, m), Pow(p, 2 * m), e);
  }

  lemma SquareStep(v: int, xm: int, x2m: int, t: int, m: nat, p: int, pm: int, p2m: int, e: int)
    requires p > 0 && 0 <= t <= p && pm > 0 && p2m == pm * pm && 0 <= 2 * e <= p
    requires 2 * Abs(v * pm - xm * t) <= m * pm
    requires Abs(xm * pm - x2m) * (p * p) <= m * e * p2m
    ensures 2 * Abs(v * p2m - x2m * t) <= 2 * m * p2m
  {
    ErrorOfSquare(v, xm, x2m, t, pm);
    FirstPart(Abs(v * pm - xm * t), m, pm);
    MulMonotone(0, pm, pm);
    SecondPart(Abs(xm * pm - x2m), t, m, p, e, p2m);
    assert m * p2m + m * p2m == 2 * m * p2m;
  }

  lemma ErrorOfSquare(v: int, xm: int, x2m: int, t: int, pm: int)
    requires pm >= 0 && t >= 0
    ensures Abs(v * (pm * pm) - x2m * t) <= pm * Abs(v * pm - xm * t) + t * Abs(xm * pm - x2m)
  {
    SquareSplit(v, xm, x2m, t, pm);
    AbsSum(pm * (v * pm - xm * t), t * (xm * pm - x2m));
    AbsOfProduct(pm, v * pm - xm * t);
    AbsOfProduct(t, xm * pm - x2m);
  }

  lemma SquareSplit(v: int, xm: int, x2m: int, t: int, pm: int)
    ensures v * (pm * pm) - x2m * t == pm * (v * pm - xm * t) + t * (xm * pm - x2m)
  {
    assert v * (pm * pm) == pm * (v * pm);
    assert pm * (xm * t) == t * (xm * pm);
    assert t * x2m == x2m * t;
  }

  lemma FirstPart(u: int, m: int, pm: int)
    requires pm > 0 && 2 * u <= m * pm
    ensures 2 * (pm * u) <= m * (pm * pm)
  {
    MulMonotone(2 * u, m * pm, pm);
    assert 2 * u * pm == 2 * (pm * u) && m * pm * pm == m * (pm * pm);
  }

  lemma SecondPart(w: int, t: int, m: int, p: int, e: int, p2m: int)
    requires p > 0 && 0 <= t <= p && w >= 0 && m >= 0 && p2m >= 0 && 0 <= 2 * e <= p && w * (p * p) <= m * e * p2m
    ensures 2 * (t * w) <= m * p2m
  {
    MulMonotone(0, m, p2m);
    MulMonotone(2 * e, p, m * p2m);
    assert 2 * e * (m * p2m) == 2 * (m * e * p2m) && p * (m * p2m) == m * p2m * p;
    assert w * (p * p) == w * p * p;
    if 2 * (w * p) > m * p2m {
      MulMonotone(m * p2m + 1, 2 * (w * p), p);
      assert false;
    }
    MulMonotone(t, p, w);
    assert t * w == w * t && p * w == w * p;
  }

  // ---- the relative error of one rounded product

  /** v is x^i * t / p^i up to i factors between 1 - 1/(2*p) and 1 + 1/(2*p). */
  predicate Within(v: int, x: int, t: int, i: nat, p: int) {
    Pow(x, i) * t * Pow(2 * p - 1, i) <= v * Pow(p, i) * Pow(2 * p, i) <= Pow(x, i) * t * Pow(2 * p + 1, i)
  }

  /** From p upwards a rounded product is off by at most one such factor. */
  lemma OneFactor(v: int, x: int, y: int, p: int)
    requires p > 0 && x >= p && y >= p && Rounds(v, x, y, p)
    ensures x * y * (2 * p - 1) <= v * p * (2 * p) <= x * y * (2 * p + 1)
    ensures v >= p
  {
    ProductAbove(x, y, p);
    ScaledError(v * p, x * y, p);
    AtLeastP(v, x * y, p);
  }

  lemma ProductAbove(x: int, y: int, p: int)
    requires p > 0 && x >= p && y >= p
    ensures x * y >= p * p
  {
    MulMonotone(p, x, y);
    MulMonotone(p, y, p);
    assert p * y == y * p;
  }

  lemma AtLeastP(v: int, w: int, p: int)
    requires p > 0 && w >= p * p && 2 * Abs(v * p - w) <= p
    ensures v >= p
  {
    assert (p - 1) * p == p * p - p;
    if v < p {
      MulMonotone(v, p - 1, p);
    }
  }

  lemma ScaledError(u: int, w: int, p: int)
    requires p > 0 && w >= p * p && 2 * Abs(u - w) <= p
    ensures w * (2 * p - 1) <= u * (2 * p) <= w * (2 * p + 1)
  {
    MulMonotone(2 * (w - u), p, p);
    MulMonotone(2 * (u - w), p, p);
    assert 2 * (w - u) * p == w * (2 * p) - u * (2 * p);
    assert 2 * (u - w) * p == u * (2 * p) - w * (2 * p);
    assert w * (2 * p - 1) == w * (2 * p) - w && w * (2 * p + 1) == w * (2 * p) + w;
  }

  lemma Scale(a: int, b: int, c: int)
    requires a <= b && c >= 0
    ensures a * c <= b * c
  {
  }

  lemma WithinMul(v: int, x: int, t: int, t': int, j: nat, p: int)
    requires p > 0 && x >= p && t >= p && Within(v, x, t', j, p) && Rounds(t', t, x, p)
    ensures Within(v, x, t, j + 1, p)
  {
    OneFactor(t', t, x, p);
    PowNonNegative(x, j);
    PowNonNegative(2 * p - 1, j);
    PowNonNegative(2 * p + 1, j);
    LowerMul(v, x, t, t', Pow(x, j), Pow(p, j), Pow(2 * p, j), Pow(2 * p - 1, j), p, 2 * p - 1, 2 * p);
    UpperMul(v, x, t, t', Pow(x, j), Pow(p, j), Pow(2 * p, j), Pow(2 * p + 1, j), p, 2 * p + 1, 2 * p);
    NextPowers(x, p, j);
    NextPowers(2 * p - 1, 2 * p, j);
    NextPowers(2 * p + 1, 2 * p, j);
  }

  lemma LowerMul(v: int, x: int, t: int, t': int, xj: int, pj: int, q: int, sj: int, p: int, s: int, r: int)
    requires xj >= 0 && sj >= 0 && p > 0 && r > 0 && xj * t' * sj <= v * pj * q && t * x * s <= t' * p * r
    ensures (x * xj) * t * (s * sj) <= v * (p * pj) * (r * q)
  {
    MulMonotone(0, xj, sj);
    MulMonotone(0, p, r);
    Scale(t * x * s, t' * p * r, xj * sj);
    Scale(xj * t' * sj, v * pj * q, p * r);
    LowerLeft(x, t, xj, sj, s);
    LowerMiddle(t', xj, sj, p, r);
    LowerRight(v, pj, q, p, r);
  }

  lemma UpperMul(v: int, x: int, t: int, t': int, xj: int, pj: int, q: int, uj: int, p: int, u: int, r: int)
    requires xj >= 0 && uj >= 0 && p > 0 && r > 0 && v * pj * q <= xj * t' * uj && t' * p * r <= t * x * u
    ensures v * (p * pj) * (r * q) <= (x * xj) * t * (u * uj)
  {
    MulMonotone(0, xj, uj);
    MulMonotone(0, p, r);
    Scale(t' * p * r, t * x * u, xj * uj);
    Scale(v * pj * q, xj * t' * uj, p * r);
    LowerLeft(x, t, xj, uj, u);
    LowerMiddle(t', xj, uj, p, r);
    LowerRight(v, pj, q, p, r);
  }

  lemma LowerLeft(x: int, t: int, xj: int, sj: int, s: int)
    ensures (x * xj) * t * (s * sj) == t * x * s * (xj * sj)
  {
    assert (x * xj) * t == t * x * xj;
    Regrouped(t * x, xj, s, sj);
  }

  lemma LowerMiddle(t': int, xj: int, sj: int, p: int, r: int)
    ensures t' * p * r * (xj * sj) == xj * t' * sj * (p * r)
  {
    assert t' * p * r == t' * (p * r);
    assert t' * (p * r) * (xj * sj) == t' * (xj * sj) * (p * r);
    assert t' * (xj * sj) == xj * t' * sj;
  }

  lemma LowerRight(v: int, pj: int, q: int, p: int, r: int)
    ensures v * pj * q * (p * r) == v * (p * pj) * (r * q)
  {
    Regrouped(v * pj, q, p, r);
    assert v * pj * p == v * (p * pj);
    assert q * r == r * q;
  }

  lemma WithinSquare(v: int, x: int, x': int, t: int, m: nat, p: int)
    requires p > 0 && x >= p && t >= 0 && Within(v, x', t, m, p) && Rounds(x', x, x, p)
    ensures Within(v, x, t, 2 * m, p)
  {
    OneFactor(x', x, x, p);
    var s, r, u := 2 * p - 1, 2 * p, 2 * p + 1;
    MulMonotone(0, x, x);
    MulMonotone(0, x * x, s);
    MulMonotone(0, x', p);
    MulMonotone(0, x' * p, r);
    PowMonotone(x * x * s, x' * p * r, m);
    PowMonotone(x' * p * r, x * x * u, m);
    SplitPower(x * x, s, m);
    SplitPower(x * x, u, m);
    SplitPower(x' * p, r, m);
    PowOfProduct(x', p, m);
    PowOfSquare(x, m);
    Doubled(p, m);
    Doubled(s, m);
    Doubled(r, m);
    Doubled(u, m);
    PowNonNegative(p, m);
    PowNonNegative(s, m);
    PowNonNegative(r, m);
    PowNonNegative(u, m);
    var x2, xm, pm, rm := Pow(x, 2 * m), Pow(x', m), Pow(p, m), Pow(r, m);
    MulMonotone(0, pm, rm);
    LowerSquare(v, x2, xm, t, pm, rm, Pow(s, m));
    UpperSquare(v, x2, xm, t, pm, rm, Pow(u, m));
  }

  lemma SplitPower(a: int, b: int, m: nat)
    ensures Pow(a * b, m) == Pow(a, m) * Pow(b, m)
  {
    PowOfProduct(a, b, m);
  }

  lemma Doubled(a: int, m: nat)
    ensures Pow(a, 2 * m) == Pow(a, m) * Pow(a, m)
  {
    PowAdd(a, m, m);
  }

  lemma LowerSquare(v: int, x2: int, xm: int, t: int, pm: int, rm: int, sm: int)
    requires t >= 0 && sm >= 0 && pm * rm >= 0 && x2 * sm <= xm * pm * rm && xm * t * sm <= v * pm * rm
    ensures x2 * t * (sm * sm) <= v * (pm * pm) * (rm * rm)
  {
    MulMonotone(0, t, sm);
    Scale(x2 * sm, xm * pm * rm, t * sm);
    Scale(xm * t * sm, v * pm * rm, pm * rm);
    SquareGroups(v, x2, xm, t, pm, rm, sm);
  }

  lemma UpperSquare(v: int, x2: int, xm: int, t: int, pm: int, rm: int, um: int)
    requires t >= 0 && um >= 0 && pm * rm >= 0 && xm * pm * rm <= x2 * um && v * pm * rm <= xm * t * um
    ensures v * (pm * pm) * (rm * rm) <= x2 * t * (um * um)
  {
    MulMonotone(0, t, um);
    Scale(xm * pm * rm, x2 * um, t * um);
    Scale(v * pm * rm, xm * t * um, pm * rm);
    SquareGroups(v, x2, xm, t, pm, rm, um);
  }

  lemma SquareGroups(v: int, x2: int, xm: int, t: int, pm: int, rm: int, sm: int)
    ensures x2 * sm * (t * sm) == x2 * t * (sm * sm)
    ensures xm * pm * rm * (t * sm) == xm * t * sm * (pm * rm)
    ensures v * pm * rm * (pm * rm) == v * (pm * pm) * (rm * rm)
  {
    Regrouped(x2, sm, t, sm);
    LowerMiddle(xm, t, sm, pm, rm);
    assert xm * t * sm == t * xm * sm;
    Regrouped(v * pm, rm, pm, rm);
    assert v * pm * pm == v * (pm * pm);
  }

  // ---- Dec.Power

  lemma MulDecRounds(x: int, y: int)
    requires D.MulDec(x, y).Success?
    ensures Rounds(D.MulDec(x, y).value, x, y, D.P)
  {
    D.MulExact(x, y);
  }

  lemma MulDecInUnit(x: int, y: int)
    requires 0 <= x <= D.P && 0 <= y <= D.P
    ensures D.MulDec(x, y).Success? && 0 <= D.MulDec(x, y).value <= D.P
  {
    DP.OneIsBounded();
    D.CheckDecIff(D.ChopRound(D.P * D.P));
    D.ChopRoundIsNearestEven(D.P * D.P, D.P);
    DP.MulMonotoneDec(x, D.P, y, D.P);
  }

  lemma {:induction false} PowerFromNear(d: int, tmp: int, i: nat, p: int)
    requires p == D.P && i > 0 && 0 <= d <= p && 0 <= tmp <= p
    ensures DP.PowerFrom(d, tmp, i).Success? && Near(DP.PowerFrom(d, tmp, i).value, d, tmp, i, p)
    decreases i
  {
    if i == 1 {
      MulDecInUnit(d, tmp);
      MulDecRounds(d, tmp);
      LastProduct(D.MulDec(d, tmp).value, d, tmp, p);
    } else {
      RoundInUnit(d, tmp, i, p);
      var d', tmp' := D.MulDec(d, d).value, if i % 2 == 0 then tmp else D.MulDec(tmp, d).value;
      PowerFromNear(d', tmp', i / 2, p);
      NearRound(DP.PowerFrom(d, tmp, i).value, d, d', tmp, tmp', i, p);
    }
  }

  lemma RoundInUnit(d: int, tmp: int, i: nat, p: int)
    requires p == D.P && i > 1 && 0 <= d <= p && 0 <= tmp <= p
    ensures D.MulDec(d, d).Success? && D.MulDec(tmp, d).Success?
    ensures var d', tmp' := D.MulDec(d, d).value, if i % 2 == 0 then tmp else D.MulDec(tmp, d).value;
            && 0 <= d' <= p && 0 <= tmp' <= p && Rounds(d', d, d, p) && (i % 2 == 1 ==> Rounds(tmp', tmp, d, p))
            && DP.PowerFrom(d, tmp, i) == DP.PowerFrom(d', tmp', i / 2)
  {
    MulDecInUnit(d, d);
    MulDecRounds(d, d);
    MulDecInUnit(tmp, d);
    MulDecRounds(tmp, d);
  }

  lemma NearRound(v: int, d: int, d': int, tmp: int, tmp': int, i: nat, p: int)
    requires p > 0 && i > 1 && 0 <= d <= p && 0 <= d' <= p && 0 <= tmp' <= p
    requires Near(v, d', tmp', i / 2, p) && Rounds(d', d, d, p)
    requires if i % 2 == 0 then tmp' == tmp else Rounds(tmp', tmp, d, p)
    ensures Near(v, d, tmp, i, p)
  {
    NearSquare(v, d, d', tmp', i / 2, p);
    if i % 2 == 1 {
      NearMul(v, d, tmp, tmp', i - 1, p);
    }
  }

  lemma LastProduct(v: int, x: int, t: int, p: int)
    requires 0 <= x <= p && Rounds(v, x, t, p)
    ensures Near(v, x, t, 1, p)
  {
    assert x * t == t * x;
    assert Pow(x, 0) == 1 && Pow(p, 0) == 1;
    NearMul(v, x, t, v, 0, p);
  }

  /** Between 0 and 1, Power is within n/2 units in the last place of the exact power, for every n. */
  lemma PowerErrorInUnit(d: int, n: nat, p: int)
    requires p == D.P && 0 <= d <= p
    ensures DP.Power(d, n).Success?
    ensures 2 * Abs(DP.Power(d, n).value * Pow(p, n) - Pow(d, n) * p) <= n * Pow(p, n)
  {
    if n > 0 {
      PowerFromNear(d, p, n, p);
    }
  }

  lemma {:induction false} PowerFromWithin(d: int, tmp: int, i: nat, p: int)
    requires p == D.P && i > 0 && d >= p && tmp >= p && DP.PowerFrom(d, tmp, i).Success?
    ensures Within(DP.PowerFrom(d, tmp, i).value, d, tmp, i, p)
    decreases i
  {
    var v := DP.PowerFrom(d, tmp, i).value;
    if i == 1 {
      MulDecRounds(d, tmp);
      LastFactor(v, d, tmp, p);
    } else {
      MulDecRounds(d, d);
      var d' := D.MulDec(d, d).value;
      OneFactor(d', d, d, p);
      if i % 2 == 0 {
        PowerFromWithin(d', tmp, i / 2, p);
        WithinSquare(v, d, d', tmp, i / 2, p);
      } else {
        MulDecRounds(tmp, d);
        var tmp' := D.MulDec(tmp, d).value;
        OneFactor(tmp', tmp, d, p);
        PowerFromWithin(d', tmp', i / 2, p);
        WithinSquare(v, d, d', tmp', i / 2, p);
        WithinMul(v, d, tmp, tmp', i - 1, p);
      }
    }
  }

  lemma LastFactor(v: int, x: int, t: int, p: int)
    requires p > 0 && x >= p && t >= p && Rounds(v, x, t, p)
    ensures Within(v, x, t, 1, p)
  {
    assert x * t == t * x;
    NoFactor(v, x, p);
    WithinMul(v, x, t, v, 0, p);
  }

  lemma NoFactor(v: int, x: int, p: int)
    ensures Within(v, x, v, 0, p)
  {
    assert Pow(x, 0) == 1 && Pow(p, 0) == 1 && Pow(2 * p, 0) == 1 && Pow(2 * p - 1, 0) == 1 && Pow(2 * p + 1, 0) == 1;
  }

  /** From 1 upwards Power, when it fits, is the exact power up to n factors between 1 - 1/(2*P)
      and 1 + 1/(2*P). */
  lemma PowerErrorAboveOne(d: int, n: nat, p: int)
    requires p == D.P && d >= p && DP.Power(d, n).Success?
    ensures var v := DP.Power(d, n).value;
            Pow(d, n) * p * Pow(2 * p - 1, n) <= v * Pow(p, n) * Pow(2 * p, n) <= Pow(d, n) * p * Pow(2 * p + 1, n)
  {
    if n > 0 {
      PowerFromWithin(d, p, n, p);
    } else {
      NoFactor(p, d, p);
    }
  }

  /** A negative base changes the sign of the odd powers and nothing else. */
  lemma PowerSign(d: int, n: nat)
    ensures DP.Power(-d, n) == if n % 2 == 0 || DP.Power(d, n).Failure? then DP.Power(d, n)
                               else Success(-DP.Power(d, n).value)
  {
    if n > 0 {
      PowerFromSign(d, D.P, n);
    }
  }

  lemma NegatedProduct(x: int, y: int)
    ensures D.MulDec(-x, y) == D.MulDec(x, -y)
    ensures D.MulDec(-x, y) == if D.MulDec(x, y).Success? then Success(-D.MulDec(x, y).value) else D.MulDec(x, y)
  {
    D.MulExact(x, y);
  }

  lemma PowerFromSign(d: int, tmp: int, i: nat)
    requires i > 0
    ensures DP.PowerFrom(-d, tmp, i) == if i % 2 == 0 || DP.PowerFrom(d, tmp, i).Failure? then DP.PowerFrom(d, tmp, i)
                                        else Success(-DP.PowerFrom(d, tmp, i).value)
  {
    NegatedProduct(d, tmp);
    if i > 1 {
      assert D.MulDec(-d, -d) == D.MulDec(d, d) by { NegatedProduct(d, -d); NegatedProduct(d, d); }
      if i % 2 == 1 {
        NegatedProduct(tmp, d);
        if D.MulDec(tmp, d).Success? && D.MulDec(d, d).Success? {
          NegatedAccumulator(D.MulDec(d, d).value, D.MulDec(tmp, d).value, i / 2);
        }
      }
    }
  }

  function Opposite(c: Checked): Checked {
    if c.Failure? then c else Success(-c.value)
  }

  /** One round of PowerFrom. */
  lemma Round(d: int, tmp: int, i: nat)
    requires i > 1
    ensures DP.PowerFrom(d, tmp, i)
            == if i % 2 == 1 && D.MulDec(tmp, d).Failure? then D.MulDec(tmp, d)
               else if D.MulDec(d, d).Failure? then D.MulDec(d, d)
               else DP.PowerFrom(D.MulDec(d, d).value, if i % 2 == 1 then D.MulDec(tmp, d).value else tmp, i / 2)
  {
  }

  lemma {:induction false} NegatedAccumulator(d: int, tmp: int, i: nat)
    requires i > 0
    ensures DP.PowerFrom(d, -tmp, i) == Opposite(DP.PowerFrom(d, tmp, i))
    decreases i
  {
    assert D.MulDec(d, -tmp) == Opposite(D.MulDec(d, tmp)) by { NegatedProduct(d, tmp); }
    assert D.MulDec(-tmp, d) == Opposite(D.MulDec(tmp, d)) by { NegatedProduct(tmp, d); }
    if i > 1 {
      Round(d, tmp, i);
      Round(d, -tmp, i);
      if D.MulDec(d, d).Success? && (i % 2 == 0 || D.MulDec(tmp, d).Success?) {
        NegatedAccumulator(D.MulDec(d, d).value, if i % 2 == 1 then D.MulDec(tmp, d).value else tmp, i / 2);
      }
    }
  }

  // ---- the roots that ApproxRoot converges to

  /** A guess of at most 1 at which ApproxRoot stops is a root of d up to (5*root + 1)/2 units: its
      exact power, not the rounded one, is that close to d. */
  lemma RootOfUnit(d: int, root: nat, x: int, g: int, p: int)
    requires p == D.P && d > 0 && root > 0 && x <= p && DP.StopsAt(DP.Step(d, root), x, g)
    ensures Abs(g - x) <= 1
    ensures 2 * Abs(x * Pow(x, root - 1) - d * Pow(p, root - 1)) <= (5 * root + 1) * Pow(p, root - 1)
  {
    DP.ResidualOnConvergence(d, root, x, g);
    DP.PowerInUnitInterval(x, root - 1);
    PowerErrorInUnit(x, root - 1, p);
    PowNonNegative(p, root - 1);
    var v := DP.Power(x, root - 1).value;
    var D := DP.Max(1, v);
    OneMore(v, D, Pow(p, root - 1), Pow(x, root - 1) * p, root - 1);
    BothErrors(x, D, Pow(p, root - 1), Pow(x, root - 1), d, p, root);
  }

  lemma OneMore(v: int, D: int, pn: int, w: int, n: int)
    requires v <= D <= v + 1 && pn > 0 && 2 * Abs(v * pn - w) <= n * pn
    ensures 2 * Abs(D * pn - w) <= (n + 2) * pn
  {
    assert (v + 1) * pn == v * pn + pn;
  }

  lemma BothErrors(x: int, D: int, pn: int, xn: int, d: int, p: int, root: nat)
    requires p > 0 && 0 < x <= p && 0 < D <= p && pn > 0 && root > 0
    requires 2 * Abs(D * pn - xn * p) <= (root + 1) * pn && Abs(x * D - d * p) <= 2 * root * D
    ensures 2 * Abs(x * xn - d * pn) <= (5 * root + 1) * pn
  {
    var u, w := D * pn - xn * p, x * D - d * p;
    ErrorsAdd(x, D, pn, xn, d, p);
    AbsSum(pn * w, x * (-u));
    AbsOfProduct(pn, w);
    AbsOfProduct(x, -u);
    AbsOfProduct(p, x * xn - d * pn);
    ErrorsBound(Abs(u), Abs(w), Abs(x * xn - d * pn), x, D, pn, p, root);
  }

  lemma ErrorsAdd(x: int, D: int, pn: int, xn: int, d: int, p: int)
    ensures p * (x * xn - d * pn) == pn * (x * D - d * p) + x * (-(D * pn - xn * p))
  {
    assert p * (x * xn) == x * (xn * p) && p * (d * pn) == pn * (d * p) && pn * (x * D) == x * (D * pn);
  }

  lemma ErrorsBound(u: nat, w: nat, e: nat, x: int, D: int, pn: int, p: int, root: nat)
    requires p > 0 && 0 < x <= p && 0 < D <= p && pn > 0 && p * e <= pn * w + x * u
    requires 2 * u <= (root + 1) * pn && w <= 2 * root * D
    ensures 2 * e <= (5 * root + 1) * pn
  {
    ResidualPart(w, D, pn, p, root);
    PowerPart(u, x, pn, p, root);
    BothParts(e, pn * w, x * u, pn, p, root);
    Cancel(2 * e, (5 * root + 1) * pn, p);
  }

  lemma BothParts(e: int, a: int, b: int, pn: int, p: int, root: int)
    requires p * e <= a + b && a <= 2 * (root * (pn * p)) && 2 * b <= root * (pn * p) + pn * p
    ensures 2 * e * p <= (5 * root + 1) * pn * p
  {
    var s := pn * p;
    assert (5 * root + 1) * pn * p == (5 * root + 1) * s == 5 * (root * s) + s;
  }

  lemma ResidualPart(w: int, D: int, pn: int, p: int, root: nat)
    requires D <= p && pn > 0 && w <= 2 * root * D
    ensures pn * w <= 2 * (root * (pn * p))
  {
    MulMonotone(D, p, 2 * root);
    assert D * (2 * root) == 2 * root * D;
    MulMonotone(w, p * (2 * root), pn);
    assert p * (2 * root) * pn == 2 * (root * (pn * p));
  }

  lemma PowerPart(u: nat, x: int, pn: int, p: int, root: nat)
    requires 0 < x <= p && 2 * u <= (root + 1) * pn
    ensures 2 * (x * u) <= root * (pn * p) + pn * p
  {
    MulMonotone(x, p, 2 * u);
    MulMonotone(2 * u, (root + 1) * pn, p);
    assert (root + 1) * pn * p == (root + 1) * (pn * p);
    assert x * (2 * u) == 2 * (x * u) && p * (2 * u) == 2 * u * p;
  }

  lemma Cancel(a: int, b: int, p: int)
    requires p > 0 && a * p <= b * p
    ensures a <= b
  {
    if a > b {
      MulMonotone(b + 1, a, p);
    }
  }

  /** A guess from 1 upwards at which ApproxRoot stops is a root of d up to 2*root units and the
      factors of the rounded power. */
  lemma RootAboveOne(d: int, root: nat, x: int, g: int, p: int)
    requires p == D.P && d > 0 && root > 0 && x >= p && DP.StopsAt(DP.Step(d, root), x, g)
    ensures Abs(g - x) <= 1
    ensures (x - 2 * root) * Pow(x, root - 1) * Pow(2 * p - 1, root - 1) <= d * Pow(p, root - 1) * Pow(2 * p, root - 1)
    ensures d * Pow(p, root - 1) * Pow(2 * p, root - 1) <= (x + 2 * root) * Pow(x, root - 1) * Pow(2 * p + 1, root - 1)
  {
    var n := root - 1;
    DP.ResidualOnConvergence(d, root, x, g);
    PowerErrorAboveOne(x, n, p);
    PowNonNegative(p, n);
    PowNonNegative(2 * p, n);
    PowNonNegative(x, n);
    PowNonNegative(2 * p - 1, n);
    var v := DP.Power(x, n).value;
    AtLeastOne(v, Pow(x, n), Pow(p, n), Pow(2 * p, n), Pow(2 * p - 1, n), p);
    assert (x - 2 * root) * v <= d * p <= (x + 2 * root) * v by { Bracket(x, v, d * p, root); }
    MulMonotone(0, Pow(p, n), Pow(2 * p, n));
    RootUpper(d, v, x + 2 * root, Pow(x, n), Pow(p, n), Pow(2 * p, n), Pow(2 * p + 1, n), p);
    RootLower(d, v, x - 2 * root, Pow(x, n), Pow(p, n), Pow(2 * p, n), Pow(2 * p - 1, n), p);
  }

  lemma AtLeastOne(v: int, xn: int, pn: int, qn: int, sn: int, p: int)
    requires p > 0 && xn > 0 && pn > 0 && qn > 0 && sn > 0 && xn * p * sn <= v * pn * qn
    ensures v >= 1
  {
    MulPositive(xn, p);
    MulPositive(xn * p, sn);
    if v <= 0 {
      MulMonotone(v, 0, pn);
      MulMonotone(v * pn, 0, qn);
    }
  }

  lemma Bracket(x: int, v: int, n: int, root: nat)
    requires v >= 1 && Abs(x * v - n) <= 2 * root * v
    ensures (x - 2 * root) * v <= n <= (x + 2 * root) * v
  {
    assert (x - 2 * root) * v == x * v - 2 * root * v && (x + 2 * root) * v == x * v + 2 * root * v;
  }

  lemma RootUpper(d: int, v: int, y: int, xn: int, pn: int, qn: int, un: int, p: int)
    requires p > 0 && y >= 0 && pn * qn >= 0 && d * p <= y * v && v * pn * qn <= xn * p * un
    ensures d * pn * qn <= y * xn * un
  {
    Scale(d * p, y * v, pn * qn);
    Scale(v * pn * qn, xn * p * un, y);
    RootGroups(d, v, y, xn, pn, qn, un, p);
    Cancel(d * pn * qn, y * xn * un, p);
  }

  lemma RootLower(d: int, v: int, y: int, xn: int, pn: int, qn: int, sn: int, p: int)
    requires p > 0 && d > 0 && xn >= 0 && sn >= 0 && pn > 0 && qn > 0 && y * v <= d * p && xn * p * sn <= v * pn * qn
    ensures y * xn * sn <= d * pn * qn
  {
    MulMonotone(0, d, pn);
    MulMonotone(0, d * pn, qn);
    MulMonotone(0, pn, qn);
    if y < 0 {
      MulMonotone(y, 0, xn);
      MulMonotone(y * xn, 0, sn);
    } else {
      Scale(y * v, d * p, pn * qn);
      Scale(xn * p * sn, v * pn * qn, y);
      RootGroups(d, v, y, xn, pn, qn, sn, p);
      Cancel(y * xn * sn, d * pn * qn, p);
    }
  }

  lemma RootGroups(d: int, v: int, y: int, xn: int, pn: int, qn: int, un: int, p: int)
    ensures d * p * (pn * qn) == d * pn * qn * p
    ensures y * v * (pn * qn) == v * pn * qn * y
    ensures xn * p * un * y == y * xn * un * p
  {
    assert d * p * (pn * qn) == d * (pn * qn) * p && d * (pn * qn) == d * pn * qn;
    assert y * v * (pn * qn) == v * (pn * qn) * y && v * (pn * qn) == v * pn * qn;
    assert xn * p * un * y == (xn * un) * y * p && (xn * un) * y == y * xn * un;
  }

  // ---- RelativePow

  /** One scaled product rounds half up, and panics exactly when the rounded raw product needs more
      than 256 bits or the scale is zero. */
  lemma MulScaledHalfUp(x: nat, y: nat, b: nat)
    ensures R.MulScaled(x, y, b).Success? <==> b > 0 && R.Fits(x * y + b / 2)
    ensures R.MulScaled(x, y, b).Success? ==>
              var v := R.MulScaled(x, y, b).value; v * b <= x * y + b / 2 < (v + 1) * b
  {
    MulMonotone(0, x, y);
    R.CheckUintIff(x * y);
    R.CheckUintIff(x * y + b / 2);
    if b > 0 {
      var q := (x * y + b / 2) / b;
      DivNonNegative(x * y + b / 2, b);
      MulMonotone(1, b, q);
      FloorAtLeast(x * y + b / 2, b, q);
      FloorAtLeast(x * y + b / 2, b, q + 1);
      R.CheckUintIff(q);
    }
  }

  lemma MulScaledRounds(x: nat, y: nat, b: nat)
    requires R.MulScaled(x, y, b).Success?
    ensures b > 0 && R.MulScaled(x, y, b).value >= 0 && Rounds(R.MulScaled(x, y, b).value, x, y, b)
    ensures x <= b && y <= b ==> R.MulScaled(x, y, b).value <= b
  {
    MulScaledHalfUp(x, y, b);
    R.MulScaledNonNegative(x, y, b);
    HalfUpIsNearest(R.MulScaled(x, y, b).value, x * y, b);
    if x <= b && y <= b {
      MulMonotone(x, b, y);
      MulMonotone(y, b, b);
      assert y * b == b * y;
      StaysBelow(R.MulScaled(x, y, b).value, x * y, b);
    }
  }

  lemma HalfUpIsNearest(v: int, w: int, b: int)
    requires b > 0 && v * b <= w + b / 2 < (v + 1) * b
    ensures 2 * Abs(v * b - w) <= b
  {
    assert (v + 1) * b == v * b + b;
  }

  lemma StaysBelow(v: int, w: int, b: int)
    requires b > 0 && v * b <= w + b / 2 && w <= b * b
    ensures v <= b
  {
    if v > b {
      MulMonotone(b + 1, v, b);
    }
  }

  lemma {:induction false} PowLoopNear(x: nat, z: nat, n: nat, b: nat)
    requires x <= b && z <= b && R.PowLoop(x, z, n, b).Success?
    ensures Near(R.PowLoop(x, z, n, b).value, x, z, 2 * n, b)
    decreases n
  {
    var v := R.PowLoop(x, z, n, b).value;
    if n > 0 {
      MulScaledRounds(x, x, b);
      var x' := R.MulScaled(x, x, b).value;
      if n % 2 == 0 {
        PowLoopNear(x', z, n / 2, b);
      } else {
        MulScaledRounds(z, x', b);
        var z' := R.MulScaled(z, x', b).value;
        PowLoopNear(x', z', n / 2, b);
        NearMul(v, x', z, z', n - 1, b);
      }
      NearSquare(v, x, x', z, n, b);
    }
  }

  lemma {:induction false} PowLoopInUnit(x: nat, z: nat, n: nat, b: nat)
    requires b > 0 && x <= b && z <= b && R.Fits(b * b + b / 2)
    ensures R.PowLoop(x, z, n, b).Success?
    decreases n
  {
    if n > 0 {
      ProductFits(x, x, b);
      var x' := R.MulScaled(x, x, b).value;
      if n % 2 == 0 {
        PowLoopInUnit(x', z, n / 2, b);
      } else {
        ProductFits(z, x', b);
        PowLoopInUnit(x', R.MulScaled(z, x', b).value, n / 2, b);
      }
    }
  }

  lemma ProductFits(x: nat, y: nat, b: nat)
    requires b > 0 && x <= b && y <= b && R.Fits(b * b + b / 2)
    ensures R.MulScaled(x, y, b).Success? && 0 <= R.MulScaled(x, y, b).value <= b
  {
    MulMonotone(x, b, y);
    MulMonotone(y, b, b);
    assert y * b == b * y;
    MulMonotone(0, x, y);
    MulScaledHalfUp(x, y, b);
    MulScaledRounds(x, y, b);
  }

  /** Up to b, RelativePow is within n/2 units of the exact power x^n/b^(n-1), and cannot panic
      when the product of b with itself fits. */
  lemma RelativePowError(x: nat, n: nat, b: nat)
    requires x <= b
    ensures b > 0 && R.Fits(b * b + b / 2) ==> R.Power(x, n, b).Success?
    ensures R.Power(x, n, b).Success? ==>
              2 * Abs(R.Power(x, n, b).value * Pow(b, n) - Pow(x, n) * b) <= n * Pow(b, n)
  {
    if b > 0 && R.Fits(b * b + b / 2) {
      PowLoopInUnit(x, if n % 2 == 0 then b else x, n / 2, b);
    }
    if R.Power(x, n, b).Success? {
      LoopError(x, n, b);
    }
  }

  lemma LoopError(x: nat, n: nat, b: nat)
    requires x <= b && R.Power(x, n, b).Success?
    ensures 2 * Abs(R.Power(x, n, b).value * Pow(b, n) - Pow(x, n) * b) <= n * Pow(b, n)
  {
    var v := R.Power(x, n, b).value;
    if x == 0 {
      PowNonNegative(b, n);
      MulMonotone(0, n, Pow(b, n));
      if n > 0 { NextPowers(0, b, n - 1); }
    } else if n % 2 == 0 {
      PowLoopNear(x, b, n / 2, b);
    } else {
      PowLoopNear(x, x, n / 2, b);
      UnitProduct(x, b);
      NearMul(v, x, b, x, n - 1, b);
    }
  }

  lemma UnitProduct(x: int, b: int)
    requires b >= 0
    ensures Rounds(x, b, x, b)
  {
    assert b * x == x * b;
  }

  lemma {:induction false} PowLoopWithin(x: nat, z: nat, n: nat, b: nat)
    requires b > 0 && x >= b && z >= b && R.PowLoop(x, z, n, b).Success?
    ensures Within(R.PowLoop(x, z, n, b).value, x, z, 2 * n, b)
    decreases n
  {
    var v := R.PowLoop(x, z, n, b).value;
    if n == 0 {
      NoFactor(v, x, b);
    } else {
      MulScaledRounds(x, x, b);
      var x' := R.MulScaled(x, x, b).value;
      OneFactor(x', x, x, b);
      if n % 2 == 0 {
        PowLoopWithin(x', z, n / 2, b);
      } else {
        MulScaledRounds(z, x', b);
        var z' := R.MulScaled(z, x', b).value;
        OneFactor(z', z, x', b);
        PowLoopWithin(x', z', n / 2, b);
        WithinMul(v, x', z, z', n - 1, b);
      }
      WithinSquare(v, x, x', z, n, b);
    }
  }

  /** From b upwards RelativePow is the exact power up to n factors between 1 - 1/(2*b) and
      1 + 1/(2*b). */
  lemma RelativePowErrorAboveOne(x: nat, n: nat, b: nat)
    requires 0 < b <= x && R.Power(x, n, b).Success?
    ensures var v := R.Power(x, n, b).value;
            Pow(x, n) * b * Pow(2 * b - 1, n) <= v * Pow(b, n) * Pow(2 * b, n) <= Pow(x, n) * b * Pow(2 * b + 1, n)
  {
    if n % 2 == 0 {
      PowLoopWithin(x, b, n / 2, b);
    } else {
      PowLoopWithin(x, x, n / 2, b);
      var v := R.Power(x, n, b).value;
      UnitProduct(x, b);
      WithinMul(v, x, b, x, n - 1, b);
    }
  }
}
