/** Decimal digit strings: the canonical text of a natural number, its fixed-width text, and the
    value they stand for. */
module Digits {
  import opened BigInt

  predicate IsDigit(c: char) {
    '0' <= c <= '9'
  }

  predicate AllDigits(s: string) {
    forall i :: 0 <= i < |s| ==> IsDigit(s[i])
  }

  function DigitChar(k: nat): (c: char)
    requires k < 10
    ensures IsDigit(c) && c as int - '0' as int == k
  {
    ('0' as int + k) as char
  }

  function Ten(n: nat): (r: nat)
    ensures r > 0
  {
    if n == 0 then 1 else 10 * Ten(n - 1)
  }

  function Value(s: string): nat
    requires AllDigits(s)
  {
    if s == [] then 0 else 10 * Value(s[..|s| - 1]) + (s[|s| - 1] as int - '0' as int)
  }

  /** big.Int.MarshalText of a natural number: no leading zeros. */
  function Text(n: nat): (s: string)
    ensures |s| > 0
  {
    if n < 10 then [DigitChar(n)] else Text(n / 10) + [DigitChar(n % 10)]
  }

  /** The last w digits of n. */
  function Fixed(n: nat, w: nat): (s: string)
    ensures |s| == w && AllDigits(s)
    decreases w
  {
    if w == 0 then [] else Fixed(n / 10, w - 1) + [DigitChar(n % 10)]
  }

  function Zeros(n: nat): (s: string)
    ensures |s| == n && forall i :: 0 <= i < n ==> s[i] == '0'
  {
    if n == 0 then [] else Zeros(n - 1) + ['0']
  }

  lemma {:induction false} TenAdd(m: nat, n: nat)
    ensures Ten(m + n) == Ten(m) * Ten(n)
    decreases n
  {
    if n > 0 {
      TenAdd(m, n - 1);
      assert Ten(m + n) == 10 * Ten(m + (n - 1));
      assert Ten(m) * (10 * Ten(n - 1)) == 10 * (Ten(m) * Ten(n - 1));
    }
  }

  lemma {:induction false} TextValue(n: nat)
    ensures AllDigits(Text(n)) && Value(Text(n)) == n
  {
    if n < 10 {
      assert Text(n)[..0] == [];
    } else {
      TextValue(n / 10);
      assert Text(n)[..|Text(n)| - 1] == Text(n / 10);
    }
  }

  lemma {:induction false} FixedValue(n: nat, w: nat)
    requires n < Ten(w)
    ensures Value(Fixed(n, w)) == n
    decreases w
  {
    if w > 0 {
      FixedValue(n / 10, w - 1);
      assert Fixed(n, w)[..w - 1] == Fixed(n / 10, w - 1);
    }
  }

  lemma {:induction false} ValueAppend(s: string, t: string)
    requires AllDigits(s) && AllDigits(t)
    ensures AllDigits(s + t) && Value(s + t) == Value(s) * Ten(|t|) + Value(t)
    decreases |t|
  {
    if t == [] {
      assert s + t == s;
    } else {
      var t' := t[..|t| - 1];
      ValueAppend(s, t');
      assert (s + t)[..|s + t| - 1] == s + t';
      assert Value(s + t) == 10 * Value(s + t') + (t[|t'|] as int - '0' as int);
      ShiftProduct(Value(s), Ten(|t'|));
    }
  }

  lemma ShiftProduct(v: int, t: int)
    ensures 10 * (v * t) == v * (10 * t)
  {
  }

  lemma {:induction false} ValueZeros(n: nat)
    ensures Value(Zeros(n)) == 0
  {
    if n > 0 {
      ValueZeros(n - 1);
      assert Zeros(n)[..n - 1] == Zeros(n - 1);
    }
  }

  lemma {:induction false} ValueBelow(s: string)
    requires AllDigits(s)
    ensures Value(s) < Ten(|s|)
    decreases |s|
  {
    if s != [] {
      ValueBelow(s[..|s| - 1]);
    }
  }

  /** The canonical text has at most w digits exactly when n < 10^w. */
  lemma {:induction false} TextLength(n: nat, w: nat)
    requires w > 0
    ensures |Text(n)| <= w <==> n < Ten(w)
    decreases w
  {
    if w == 1 {
      assert Ten(1) == 10 * Ten(0) == 10;
    } else if n >= 10 {
      TextLength(n / 10, w - 1);
    } else {
      assert Ten(w - 1) >= 1;
    }
  }

  /** Padding the canonical text with zeros gives the fixed-width text. */
  lemma {:induction false} PaddedText(n: nat, w: nat)
    requires |Text(n)| <= w
    ensures Fixed(n, w) == Zeros(w - |Text(n)|) + Text(n)
    decreases w
  {
    if n < 10 {
      FixedOfZero(w - 1);
      assert n / 10 == 0;
    } else {
      PaddedText(n / 10, w - 1);
    }
  }

  lemma {:induction false} FixedOfZero(w: nat)
    ensures Fixed(0, w) == Zeros(w)
  {
    if w > 0 {
      FixedOfZero(w - 1);
    }
  }

  /** Cutting the last w digits off the canonical text divides by 10^w. */
  lemma {:induction false} TextSplit(n: nat, w: nat)
    requires n >= Ten(w)
    ensures Text(n) == Text(n / Ten(w)) + Fixed(n % Ten(w), w)
    decreases w
  {
    if w == 0 {
      assert n / 1 == n && n % 1 == 0;
      assert Text(n) + [] == Text(n);
    } else {
      var m := n / 10;
      TextSplit(m, w - 1);
      SplitTen(n, Ten(w - 1));
    }
  }

  lemma SplitTen(n: nat, t: nat)
    requires t > 0
    ensures n / (10 * t) == n / 10 / t
    ensures n % (10 * t) / 10 == n / 10 % t && n % (10 * t) % 10 == n % 10
  {
    var q, r := n / 10 / t, n / 10 % t;
    assert n / 10 == t * q + r;
    assert n == q * (10 * t) + (10 * r + n % 10) by {
      assert q * (10 * t) == 10 * (t * q);
    }
    DivUnique(n, 10 * t, q, 10 * r + n % 10);
  }
}
