/** usecase/coin/decimal.go: byte strings for decimals that are meant to sort like them. */
module SortableDec {
  import opened Wrappers
  import opened BigInt
  import opened Digits
  import opened Decimal
  import opened DecimalText
  import opened ByteOrder

  /** 1 / 10^-18, that is 10^36 in units of the last place. */
  const MAX_SORTABLE_DEC: int := P * P

  lemma MaxSortableIsReciprocalOfSmallest()
    ensures QuoDec(P, 1) == Success(MAX_SORTABLE_DEC)
  {
    assert P * P * P / 1 == P * P * P;
    ChopRoundIsNearestEven(P * P * P, P * P);
    Pow2Add(64, 64);
    PrecisionFitsIn64Bits();
    MulMonotone(P, Pow2(64), P);
    MulMonotone(P, Pow2(64), Pow2(64));
    Pow2Monotone(128, MAX_DEC_BIT_LEN);
    CheckDecIff(MAX_SORTABLE_DEC);
  }

  predicate ValidSortableDec(d: int) {
    Abs(d) <= MAX_SORTABLE_DEC
  }

  /** fmt's %037s: zeros on the left up to 37 characters. */
  function PadLeft(s: string, width: nat): string {
    Zeros(if |s| < width then width - |s| else 0) + s
  }

  const WIDTH: nat := PRECISION * 2 + 1

  /** None is the panic on a decimal out of bounds. */
  function SortableDecBytes(d: int): Option<string> {
    if !ValidSortableDec(d) then None
    else if d == MAX_SORTABLE_DEC then Some("max")
    else if d == -MAX_SORTABLE_DEC then Some("--")
    else if d < 0 then Some("-" + PadLeft(DecText(Abs(d)), WIDTH))
    else Some(PadLeft(DecText(d), WIDTH))
  }

  /** The padded text is two fixed-width fields around the point. */
  function Fields(m: nat): (s: string)
    ensures |s| == WIDTH
  {
    Fixed(m / P, PRECISION) + "." + Fixed(m % P, PRECISION)
  }

  lemma PaddedIsFields(m: nat)
    requires m < MAX_SORTABLE_DEC
    ensures PadLeft(DecText(m), WIDTH) == Fields(m)
  {
    WholePartFits(m);
    PaddedText(m / P, PRECISION);
    Unsigned(Magnitude(m));
    PadFields(Digits.Text(m / P), Fixed(m % P, PRECISION));
  }

  lemma Unsigned(s: string)
    ensures "" + s == s
  {
  }

  lemma PadFields(whole: string, decimals: string)
    requires |whole| <= PRECISION && |decimals| == PRECISION
    ensures PadLeft(whole + "." + decimals, WIDTH) == (Zeros(PRECISION - |whole|) + whole) + "." + decimals
  {
    assert |whole + "." + decimals| == |whole| + 1 + PRECISION;
    Regroup(Zeros(PRECISION - |whole|), whole, decimals);
  }

  lemma WholePartFits(m: nat)
    requires m < MAX_SORTABLE_DEC
    ensures |Digits.Text(m / P)| <= PRECISION
  {
    PrecisionIsTen18();
    TextLength(m / P, PRECISION);
  }

  lemma Regroup(zeros: string, whole: string, decimals: string)
    ensures zeros + (whole + "." + decimals) == (zeros + whole) + "." + decimals
  {
  }

  lemma {:induction false} FixedSorts(m: nat, n: nat, w: nat)
    requires m < Ten(w) && n < Ten(w)
    ensures Less(Fixed(m, w), Fixed(n, w)) <==> m < n
    ensures Fixed(m, w) == Fixed(n, w) <==> m == n
    decreases w
  {
    if w > 0 {
      FixedSorts(m / 10, n / 10, w - 1);
      var a, b := [DigitChar(m % 10)], [DigitChar(n % 10)];
      HeadsFirst(Fixed(m / 10, w - 1), a, Fixed(n / 10, w - 1), b);
      assert Less(a, b) <==> m % 10 < n % 10 by {
        assert a[1..] == [] && b[1..] == [];
      }
      FixedValue(m, w);
      FixedValue(n, w);
    }
  }

  lemma PairsSort(x: string, b: string, y: string, d: string)
    requires |x| == |y| && |b| == |d|
    ensures Less(x + "." + b, y + "." + d) <==> Less(x, y) || (x == y && Less(b, d))
    ensures x + "." + b == y + "." + d <==> x == y && b == d
  {
    var s, t := x + "." + b, y + "." + d;
    assert s[..|x|] == x && t[..|x|] == y && s[|x| + 1..] == b && t[|x| + 1..] == d;
    HeadsFirst(x + ".", b, y + ".", d);
    HeadsFirst(x, ".", y, ".");
    Irreflexive(".");
    assert (x + ".")[..|x|] == x && (y + ".")[..|x|] == y;
  }

  lemma FieldsSort(m: nat, n: nat)
    requires m < MAX_SORTABLE_DEC && n < MAX_SORTABLE_DEC
    ensures Less(Fields(m), Fields(n)) <==> m < n
    ensures Fields(m) == Fields(n) <==> m == n
  {
    PrecisionIsTen18();
    FixedSorts(m / P, n / P, PRECISION);
    FixedSorts(m % P, n % P, PRECISION);
    PairsSort(Fixed(m / P, PRECISION), Fixed(m % P, PRECISION), Fixed(n / P, PRECISION), Fixed(n % P, PRECISION));
  }

  lemma FieldsStartWithDigit(m: nat)
    ensures Fields(m) != [] && IsDigit(Fields(m)[0])
  {
    assert Fields(m)[0] == Fixed(m / P, PRECISION)[0];
  }

  /** The bytes of a decimal strictly inside the bounds. */
  lemma BytesOf(d: int)
    requires Abs(d) < MAX_SORTABLE_DEC
    ensures SortableDecBytes(d) == Some(if d < 0 then "-" + Fields(Abs(d)) else Fields(d))
  {
    PaddedIsFields(Abs(d));
  }

  function Bytes(d: int): string
    requires ValidSortableDec(d)
  {
    SortableDecBytes(d).value
  }

  /** On every pair of valid decimals the byte order is the numeric order, except that it is
      reversed between two negative ones strictly above the minimum. */
  lemma SortsIff(a: int, b: int)
    requires ValidSortableDec(a) && ValidSortableDec(b) && a < b
    ensures Less(Bytes(a), Bytes(b)) <==> b >= 0 || a == -MAX_SORTABLE_DEC
    ensures Less(Bytes(b), Bytes(a)) <==> b < 0 && a > -MAX_SORTABLE_DEC
  {
    if a > -MAX_SORTABLE_DEC { BytesOf(a); FieldsStartWithDigit(Abs(a)); }
    if b < MAX_SORTABLE_DEC { BytesOf(b); FieldsStartWithDigit(Abs(b)); }
    if b < MAX_SORTABLE_DEC && a > -MAX_SORTABLE_DEC {
      FieldsSort(Abs(a), Abs(b));
      FieldsSort(Abs(b), Abs(a));
      HeadsFirst("-", Fields(Abs(a)), "-", Fields(Abs(b)));
      HeadsFirst("-", Fields(Abs(b)), "-", Fields(Abs(a)));
      Irreflexive("-");
    } else if a == -MAX_SORTABLE_DEC && b < 0 {
      HeadsFirst("-", "-", "-", Fields(Abs(b)));
      HeadsFirst("-", Fields(Abs(b)), "-", "-");
      Irreflexive("-");
      assert "-" + "-" == "--";
    }
  }

  /** The documented use: strictly increasing on [0, max], every negative below every
      non-negative, "--" first and "max" last. */
  lemma SortsNonNegative(a: int, b: int)
    requires ValidSortableDec(a) && ValidSortableDec(b) && a < b
    requires b >= 0 || a == -MAX_SORTABLE_DEC
    ensures Less(Bytes(a), Bytes(b))
  {
    SortsIff(a, b);
  }

  /** No two valid decimals share their bytes. */
  lemma Injective(a: int, b: int)
    requires ValidSortableDec(a) && ValidSortableDec(b) && Bytes(a) == Bytes(b)
    ensures a == b
  {
    Irreflexive(Bytes(a));
    if a < b {
      SortsIff(a, b);
    } else if b < a {
      SortsIff(b, a);
    }
  }

  /** Two negative decimals that come out in the wrong order: -2 and -1. */
  lemma NegativesAreReversed()
    ensures -2 * P < -P && Less(Bytes(-P), Bytes(-2 * P))
  {
    SortsIff(-2 * P, -P);
  }
}
