/** usecase/coin/uint.go: powers of numbers scaled by b, in checked 256-bit arithmetic. */
module RelativePow {
  import opened Wrappers
  import opened BigInt
  import opened IntBounds

  const MAX_UINT_BIT_LEN: nat := 256

  /** NewUintFromBigInt: panics on a negative number or on more than 256 bits. */
  function CheckUint(x: int): Checked {
    if x < 0 || BitLen(x) > MAX_UINT_BIT_LEN then Failure(Overflow) else Success(x)
  }

  predicate Fits(x: int) {
    0 <= x < Pow2(MAX_UINT_BIT_LEN)
  }

  lemma CheckUintIff(x: int)
    ensures CheckUint(x) == if Fits(x) then Success(x) else Failure(Overflow)
  {
    BitLenExceeds(x, MAX_UINT_BIT_LEN);
  }

  function QuoUint(x: nat, y: nat): Checked {
    if y == 0 then Failure(DivisionByZero) else CheckUint(x / y)
  }

  /** x*y/b rounded half up, with every intermediate value checked. */
  function MulScaled(x: nat, y: nat, b: nat): Checked {
    var product :- CheckUint(x * y);
    var rounded :- CheckUint(product + b / 2);
    QuoUint(rounded, b)
  }

  /** The loop of RelativePow: x is squared in every round, and joins z in the odd ones. */
  function PowLoop(x: nat, z: nat, n: nat, b: nat): Checked
    decreases n
  {
    if n == 0 then Success(z)
    else
      var x' :- MulScaled(x, x, b);
      assert x' >= 0 by { MulScaledNonNegative(x, x, b); }
      var z' :- if n % 2 == 1 then MulScaled(z, x', b) else Success(z);
      assert z' >= 0 by { if n % 2 == 1 { MulScaledNonNegative(z, x', b); } }
      PowLoop(x', z', n / 2, b)
  }

  lemma MulScaledNonNegative(x: nat, y: nat, b: nat)
    requires MulScaled(x, y, b).Success?
    ensures MulScaled(x, y, b).value >= 0
  {
  }

  function Power(x: nat, n: nat, b: nat): Checked {
    if x == 0 then Success(if n == 0 then b else 0)
    else PowLoop(x, if n % 2 == 0 then b else x, n / 2, b)
  }

  method ComputePower(x: nat, n: nat, b: nat) returns (r: Checked)
    ensures r == Power(x, n, b)
  {
    if x == 0 {
      return Success(if n == 0 then b else 0);
    }
    var z: nat := x;
    if n % 2 == 0 {
      z := b;
    }
    var y: nat, m: nat := x, n / 2;
    while m > 0
      invariant PowLoop(y, z, m, b) == Power(x, n, b)
    {
      var squared :- MulScaled(y, y, b);
      MulScaledNonNegative(y, y, b);
      y := squared;
      if m % 2 == 1 {
        var zx :- MulScaled(z, y, b);
        MulScaledNonNegative(z, y, b);
        z := zx;
      }
      m := m / 2;
    }
    return Success(z);
  }

  /** Whole multiples of b multiply exactly; the one obstacle is the size of the raw product. */
  lemma MulScaledWhole(u: nat, v: nat, b: nat)
    requires b > 0
    ensures 0 <= u * b && 0 <= v * b
    ensures MulScaled(u * b, v * b, b)
            == if Fits(u * v * b * b + b / 2) then Success(u * v * b) else Failure(Overflow)
  {
    var w := u * v * b;
    WholeFactors(u, v, b);
    CheckUintIff(w * b);
    CheckUintIff(w * b + b / 2);
    HalfBelow(b);
    DivUnique(w * b + b / 2, b, w, b / 2);
    CheckUintIff(w);
    MulMonotone(1, b, w);
  }

  lemma HalfBelow(b: nat)
    requires b > 0
    ensures 0 <= b / 2 < b
  {
  }

  lemma WholeFactors(u: nat, v: nat, b: nat)
    ensures (u * b) * (v * b) == u * v * b * b
    ensures 0 <= u * b && 0 <= v * b && 0 <= u * v && 0 <= u * v * b && 0 <= u * v * b * b
  {
    MulMonotone(0, u, b);
    MulMonotone(0, v, b);
    MulMonotone(0, u, v);
    MulMonotone(0, u * v, b);
    MulMonotone(0, u * v * b, b);
    assert (u * b) * (v * b) == ((u * b) * v) * b;
    assert (u * b) * v == u * v * b;
  }

  lemma {:induction false} PowAtLeastOne(u: nat, n: nat)
    requires u >= 1
    ensures Pow(u, n) >= 1
  {
    if n > 0 {
      PowAtLeastOne(u, n - 1);
      MulMonotone(1, u, Pow(u, n - 1));
    }
  }

  lemma {:induction false} PowHalves(u: int, n: nat)
    ensures Pow(u, n) == (if n % 2 == 1 then u else 1) * Pow(u * u, n / 2)
    decreases n
  {
    if n == 1 {
      assert Pow(u, 1) == u * Pow(u, 0);
    } else if n >= 2 {
      PowHalves(u, n - 2);
      var w := Pow(u * u, n / 2 - 1);
      assert n / 2 - 1 == (n - 2) / 2;
      assert Pow(u, n) == u * Pow(u, n - 1) && Pow(u, n - 1) == u * Pow(u, n - 2);
      assert Pow(u * u, n / 2) == (u * u) * w;
      assert u * (u * (u * w)) == u * ((u * u) * w);
      assert u * (u * w) == (u * u) * w;
    }
  }

  /** From whole multiples the loop computes v * (u^2)^n exactly, and the raw product of the
      last round is the only one that can overflow first. */
  lemma {:induction false} PowLoopWhole(u: nat, v: nat, n: nat, b: nat)
    requires b > 0 && u >= 1 && v >= 1 && n >= 1
    ensures 0 <= u * b && 0 <= v * b && 1 <= u * u
    ensures PowLoop(u * b, v * b, n, b)
            == if Fits(v * Pow(u * u, n) * b * b + b / 2) then Success(v * Pow(u * u, n) * b) else Failure(Overflow)
    decreases n
  {
    MulMonotone(1, u, u);
    var s: nat := u * u;
    MulMonotone(1, v, s);
    MulScaledWhole(u, u, b);
    MulScaledWhole(v, s, b);
    MulScaledWhole(s, s, b);
    var v': nat := if n % 2 == 1 then v * s else v;
    LastProduct(s, v, n);
    LastDominates(s, v, n, b);
    if n > 1 {
      PowLoopWhole(s, v', n / 2, b);
    }
  }

  lemma LastProduct(s: nat, v: nat, n: nat)
    requires s >= 1 && v >= 1 && n >= 1
    ensures v * Pow(s, n) == (if n % 2 == 1 then v * s else v) * Pow(s * s, n / 2)
    ensures n == 1 ==> v * Pow(s, n) == v * s
  {
    PowHalves(s, n);
    assert v * (s * Pow(s * s, n / 2)) == (v * s) * Pow(s * s, n / 2);
    assert Pow(s, 0) == 1;
  }

  lemma LastDominates(s: nat, v: nat, n: nat, b: nat)
    requires s >= 1 && v >= 1 && n >= 1
    ensures Fits(v * Pow(s, n) * b * b + b / 2) ==> Fits(s * b * b + b / 2) && Fits(v * s * b * b + b / 2)
  {
    PowAtLeastOne(s, n - 1);
    Products(s, v, Pow(s, n - 1));
    Dominated(s, v * Pow(s, n - 1), v * Pow(s, n), b);
    Dominated(v * s, Pow(s, n - 1), v * Pow(s, n), b);
  }

  lemma Products(s: nat, v: nat, w: nat)
    requires s >= 1 && v >= 1 && w >= 1
    ensures v * (s * w) == s * (v * w) && v * (s * w) == (v * s) * w
    ensures v * w >= 1 && v * s >= 1
  {
    MulMonotone(1, v, w);
    MulMonotone(1, v, s);
  }

  lemma Dominated(a: nat, c: nat, t: nat, b: nat)
    requires c >= 1 && t == a * c
    ensures Fits(t * b * b + b / 2) ==> Fits(a * b * b + b / 2)
  {
    MulMonotone(1, c, a);
    MulMonotone(a, t, b);
    MulMonotone(a * b, t * b, b);
    MulMonotone(0, a, b);
    MulMonotone(0, a * b, b);
  }

  /** RelativePow of k*b is k^n*b exactly, for every scale b > 0 and k = 0 included.  From n = 2
      on it panics exactly when the last raw product, k^n*b*b rounded, exceeds 256 bits. */
  lemma RelativePowWhole(k: nat, n: nat, b: nat)
    requires b > 0
    ensures 0 <= k * b
    ensures Power(k * b, n, b).Success? ==> Power(k * b, n, b).value == Pow(k, n) * b
    ensures Power(k * b, n, b).Success? <==> (k == 0 || n < 2 || Fits(Pow(k, n) * b * b + b / 2))
  {
    MulMonotone(0, k, b);
    PowHalves(k, n);
    if k == 0 {
      if n > 0 { assert Pow(0, n) == 0 * Pow(0, n - 1); }
    } else {
      MulMonotone(1, k, b);
      if n == 1 {
        assert Pow(k, 1) == k * Pow(k, 0);
      } else if n >= 2 {
        PowLoopWhole(k, if n % 2 == 0 then 1 else k, n / 2, b);
      }
    }
  }
}
