/** usecase/coin/decimal.go: printing a decimal and parsing it back. */
module DecimalText {
  import opened Wrappers
  import opened BigInt
  import opened Digits
  import opened Decimal

  const PRECISION: nat := 18

  lemma PrecisionIsTen18()
    ensures Ten(18) == P
  {
    TenAdd(9, 9);
    TenAdd(3, 3);
    TenAdd(6, 3);
    assert Ten(3) == 1000;
  }

  // ---- String

  /** The text of a decimal: sign, whole part without leading zeros, point, 18 digits. */
  function DecText(d: int): string {
    (if d < 0 then "-" else "") + Magnitude(Abs(d))
  }

  function Magnitude(m: nat): string {
    Digits.Text(m / P) + "." + Fixed(m % P, PRECISION)
  }

  /** Go's copy(dst[at:], src). */
  method Copy(dst: array<char>, at: nat, src: string)
    requires at + |src| <= dst.Length
    modifies dst
    ensures dst[..] == old(dst[..at]) + src + old(dst[at + |src|..])
  {
    forall i | 0 <= i < |src| {
      dst[at + i] := src[i];
    }
    assert dst[..] == dst[..at] + dst[at..at + |src|] + dst[at + |src|..];
  }

  /** The two layouts of Dec.String: pad with zeros after "0.", or split off eighteen digits. */
  function Layout(digits: string): string {
    if |digits| <= PRECISION then "0." + Zeros(PRECISION - |digits|) + digits
    else digits[..|digits| - PRECISION] + "." + digits[|digits| - PRECISION..]
  }

  /** Case 1 of Dec.String, a purely decimal number: "0.", zeros, the digits. */
  method LayOutFraction(digits: string) returns (buffer: array<char>)
    requires |digits| <= PRECISION
    ensures fresh(buffer) && buffer[..] == Layout(digits)
  {
    buffer := new char[PRECISION + 2];
    buffer[0] := '0';
    buffer[1] := '.';
    var i := 0;
    while i < PRECISION - |digits|
      invariant 0 <= i <= PRECISION - |digits|
      invariant buffer[0] == '0' && buffer[1] == '.'
      invariant forall j :: 2 <= j < i + 2 ==> buffer[j] == '0'
    {
      buffer[i + 2] := '0';
      i := i + 1;
    }
    var head := "0." + Zeros(PRECISION - |digits|);
    assert buffer[..|head|] == head by {
      forall j | 0 <= j < |head| ensures buffer[j] == head[j] {
        if j >= 2 { assert head[j] == Zeros(PRECISION - |digits|)[j - 2]; }
      }
    }
    Copy(buffer, 2 + (PRECISION - |digits|), digits);
  }

  /** Case 2 of Dec.String: the point goes in front of the last eighteen digits. */
  method LayOutWhole(digits: string) returns (buffer: array<char>)
    requires |digits| > PRECISION
    ensures fresh(buffer) && buffer[..] == Layout(digits)
  {
    buffer := new char[|digits| + 1];
    var decPointPlace := |digits| - PRECISION;
    Copy(buffer, 0, digits[..decPointPlace]);
    buffer[decPointPlace] := '.';
    assert buffer[..decPointPlace + 1] == digits[..decPointPlace] + ".";
    Copy(buffer, decPointPlace + 1, digits[decPointPlace..]);
  }

  lemma LayoutIsMagnitude(m: nat)
    ensures Magnitude(m) == Layout(Digits.Text(m))
  {
    PrecisionIsTen18();
    TextLength(m, PRECISION);
    if m < P {
      PaddedText(m, PRECISION);
      SmallMagnitude(m);
    } else {
      TextSplit(m, PRECISION);
      assert |Fixed(m % P, PRECISION)| == PRECISION;
      SplitLayout(Digits.Text(m / P), Fixed(m % P, PRECISION));
    }
  }

  lemma SmallMagnitude(m: nat)
    requires m < P
    ensures Magnitude(m) == "0." + Fixed(m, PRECISION)
  {
    assert m / P == 0 && m % P == m;
    assert Digits.Text(0) == "0";
  }

  lemma SplitLayout(whole: string, decimals: string)
    requires |whole| > 0 && |decimals| == PRECISION
    ensures Layout(whole + decimals) == whole + "." + decimals
  {
  }

  /** Dec.String: the digits of |d| are laid out in a byte buffer around the decimal point. */
  method String(d: int) returns (s: string)
    ensures s == DecText(d)
  {
    var digits := Digits.Text(Abs(d));
    var buffer: array<char>;
    LayoutIsMagnitude(Abs(d));
    if |digits| <= PRECISION {
      buffer := LayOutFraction(digits);
    } else {
      buffer := LayOutWhole(digits);
    }
    if d < 0 {
      return "-" + buffer[..];
    }
    s := buffer[..];
    assert DecText(d) == [] + s;
  }

  // ---- NewDecFromStr

  datatype ParseError = EmptyDecimalStr | InvalidDecimalLength | InvalidDecimalStr | TooPrecise | NotANumber

  /** strings.Split on a one-character separator. */
  function Split(s: string, sep: char): (parts: seq<string>)
    ensures |parts| > 0
  {
    if s == [] then [[]]
    else
      var rest := Split(s[1..], sep);
      if s[0] == sep then [[]] + rest else [[s[0]] + rest[0]] + rest[1..]
  }

  function Signed(neg: bool, x: int): int {
    if neg then -x else x
  }

  /** big.Int.SetString(s, 10): an optional sign and at least one digit. */
  function SetString(s: string): Option<int> {
    if s == [] then None
    else if s[0] == '-' || s[0] == '+' then
      if |s| > 1 && AllDigits(s[1..]) then Some(Signed(s[0] == '-', Value(s[1..]))) else None
    else if AllDigits(s) then Some(Value(s)) else None
  }

  function NewDecFromStr(input: string): Result<int, ParseError> {
    if input == [] then Failure(EmptyDecimalStr)
    else
      var neg := input[0] == '-';
      var magnitude :- ParseUnsigned(if neg then input[1..] else input);
      Success(Signed(neg, magnitude))
  }

  /** The part of NewDecFromStr that follows the removal of a leading minus. */
  function ParseUnsigned(str: string): Result<int, ParseError> {
    if str == [] then Failure(EmptyDecimalStr)
    else
      var strs := Split(str, '.');
      if |strs| > 2 then Failure(InvalidDecimalStr)
      else if |strs| == 2 && (strs[1] == [] || strs[0] == []) then Failure(InvalidDecimalLength)
      else ParseParts(strs[0], if |strs| == 2 then strs[1] else [])
  }

  function ParseParts(head: string, decimals: string): Result<int, ParseError> {
    if |decimals| > PRECISION then Failure(TooPrecise)
    else
      var combined := SetString(head + decimals + Zeros(PRECISION - |decimals|));
      if combined.None? then Failure(NotANumber) else Success(combined.value)
  }

  // ---- the grammar the parser accepts

  datatype Sign = Unsigned | Plus | Minus {
    function Text(): string {
      match this case Unsigned => "" case Plus => "+" case Minus => "-"
    }
  }

  /** whole.decimals times 10^18. */
  function Scaled(whole: string, decimals: string): int
    requires AllDigits(whole) && AllDigits(decimals) && |decimals| <= PRECISION
  {
    Value(whole) * P + Value(decimals) * Ten(PRECISION - |decimals|)
  }

  /** A leading minus, a sign that SetString would still take, whole digits, decimal digits. */
  datatype Literal = Literal(neg: bool, sign: Sign, whole: string, decimals: string) {
    predicate WellFormed() {
      && AllDigits(whole) && AllDigits(decimals)
      && |sign.Text() + whole| > 0
      && (!neg ==> !sign.Minus?)
    }

    /** The form the documentation gives: no second sign, some whole digits. */
    predicate Documented() {
      WellFormed() && sign.Unsigned?
    }

    function Body(): string {
      sign.Text() + whole + (if decimals == [] then [] else "." + decimals)
    }

    function Text(): string {
      (if neg then "-" else "") + Body()
    }

    /** The exact value, scaled by 10^18. */
    function Value(): int
      requires WellFormed() && |decimals| <= PRECISION
    {
      Signed(neg, Signed(sign.Minus?, Scaled(whole, decimals)))
    }
  }

  lemma {:induction false} SplitWithout(s: string, sep: char)
    requires sep !in s
    ensures Split(s, sep) == [s]
  {
    if s != [] {
      SplitWithout(s[1..], sep);
      assert [s[0]] + s[1..] == s;
    }
  }

  lemma {:induction false} SplitAt(s: string, t: string, sep: char)
    requires sep !in s
    ensures Split(s + [sep] + t, sep) == [s] + Split(t, sep)
  {
    if s == [] {
      assert s + [sep] + t == [sep] + t;
    } else {
      assert (s + [sep] + t)[1..] == s[1..] + [sep] + t;
      SplitAt(s[1..], t, sep);
      assert [s[0]] + s[1..] == s;
      assert ([s[1..]] + Split(t, sep))[1..] == Split(t, sep);
    }
  }

  function Join(parts: seq<string>, sep: char): string {
    if parts == [] then [] else if |parts| == 1 then parts[0] else parts[0] + [sep] + Join(parts[1..], sep)
  }

  lemma {:induction false} JoinSplit(s: string, sep: char)
    ensures Join(Split(s, sep), sep) == s
  {
    if s != [] {
      var rest := Split(s[1..], sep);
      JoinSplit(s[1..], sep);
      if s[0] == sep {
        assert ([[]] + rest)[1..] == rest;
      } else {
        assert ([[s[0]] + rest[0]] + rest[1..])[1..] == rest[1..];
      }
    }
  }

  /** Appending the missing zeros scales the digits to 18 decimals. */
  lemma CombinedValue(whole: string, decimals: string)
    requires AllDigits(whole) && AllDigits(decimals) && |decimals| <= PRECISION
    ensures var s := whole + decimals + Zeros(PRECISION - |decimals|);
            AllDigits(s) && Value(s) == Scaled(whole, decimals)
  {
    var k := PRECISION - |decimals|;
    PrecisionIsTen18();
    TenAdd(|decimals|, k);
    ValueAppend(whole, decimals);
    ValueAppend(whole + decimals, Zeros(k));
    ValueZeros(k);
    Rescale(Value(whole + decimals), Value(whole), Value(decimals), Ten(|decimals|), Ten(k));
  }

  lemma Rescale(v: int, a: int, b: int, t: int, u: int)
    requires v == a * t + b && t * u == P
    ensures v * u == a * P + b * u
  {
    assert (a * t + b) * u == (a * t) * u + b * u;
    assert (a * t) * u == a * (t * u);
  }

  /** SetString reads a sign and digits back; it takes nothing else. */
  lemma SetStringOf(sign: Sign, digits: string)
    requires digits != [] && (sign.Unsigned? ==> IsDigit(digits[0]))
    ensures SetString(sign.Text() + digits)
            == if AllDigits(digits) then Some(Signed(sign.Minus?, Value(digits))) else None
  {
    var s := sign.Text() + digits;
    if sign.Unsigned? {
      assert s == digits;
    } else {
      assert s[1..] == digits;
    }
  }

  lemma NoPoint(s: string)
    requires AllDigits(s)
    ensures '.' !in s
  {
  }

  lemma ParseBody(l: Literal)
    requires l.WellFormed()
    ensures ParseUnsigned(l.Body())
            == if |l.decimals| > PRECISION then Failure(TooPrecise)
               else Success(Signed(l.sign.Minus?, Scaled(l.whole, l.decimals)))
  {
    var head := l.sign.Text() + l.whole;
    NoPoint(l.whole);
    NoPoint(l.decimals);
    assert '.' !in head;
    SplitWithout(head, '.');
    SplitWithout(l.decimals, '.');
    SplitAt(head, l.decimals, '.');
    assert l.Body() == if l.decimals == [] then head else head + ['.'] + l.decimals;
    assert ParseUnsigned(l.Body()) == ParseParts(head, l.decimals);
    if |l.decimals| <= PRECISION {
      LiteralParts(l);
    }
  }

  lemma LiteralParts(l: Literal)
    requires l.WellFormed() && |l.decimals| <= PRECISION
    ensures ParseParts(l.sign.Text() + l.whole, l.decimals)
            == Success(Signed(l.sign.Minus?, Scaled(l.whole, l.decimals)))
  {
    var zeros := Zeros(PRECISION - |l.decimals|);
    var digits := l.whole + l.decimals + zeros;
    CombinedValue(l.whole, l.decimals);
    assert (l.sign.Text() + l.whole) + l.decimals + zeros == l.sign.Text() + digits;
    assert digits != [] by {
      assert |digits| == |l.whole| + PRECISION;
    }
    SetStringOf(l.sign, digits);
  }

  /** Every literal is parsed to its exact value, or refused for having over 18 decimals. */
  lemma ParseLiteral(l: Literal)
    requires l.WellFormed()
    ensures NewDecFromStr(l.Text()) == if |l.decimals| > PRECISION then Failure(TooPrecise) else Success(l.Value())
  {
    var input, body := l.Text(), l.Body();
    ParseBody(l);
    assert body != [] && (!l.neg ==> body[0] != '-') by {
      if l.sign.Unsigned? { assert body[0] == l.whole[0] && IsDigit(l.whole[0]); }
    }
    if l.neg {
      assert input[0] == '-' && input[1..] == body;
    } else {
      assert input == body;
    }
  }

  /** The documented form with at most 18 decimals is parsed to its exact value. */
  lemma ParseDocumented(neg: bool, whole: string, decimals: string)
    requires AllDigits(whole) && AllDigits(decimals) && whole != [] && |decimals| <= PRECISION
    ensures var l := Literal(neg, Unsigned, whole, decimals);
            l.Documented() && NewDecFromStr(l.Text()) == Success(Signed(neg, Scaled(whole, decimals)))
  {
    ParseLiteral(Literal(neg, Unsigned, whole, decimals));
  }

  predicate Spells(l: Literal, input: string) {
    l.WellFormed() && |l.decimals| <= PRECISION && l.Text() == input
  }

  /** Nothing else is accepted: a string parses only if it is such a literal. */
  lemma AcceptedIsLiteral(input: string)
    ensures NewDecFromStr(input).Success? <==> exists l: Literal :: Spells(l, input)
  {
    if NewDecFromStr(input).Success? {
      var neg := input[0] == '-';
      var l := BodyOf(neg, if neg then input[1..] else input);
      assert Spells(l, input);
    }
    if l: Literal :| Spells(l, input) {
      ParseLiteral(l);
    }
  }

  lemma BodyOf(neg: bool, str: string) returns (l: Literal)
    requires ParseUnsigned(str).Success? && (!neg ==> str[0] != '-')
    ensures l.WellFormed() && |l.decimals| <= PRECISION && l.Body() == str && l.neg == neg
  {
    var strs := Split(str, '.');
    JoinSplit(str, '.');
    var decimals := if |strs| == 2 then strs[1] else [];
    if |strs| == 2 {
      assert strs[1..] == [strs[1]];
    }
    assert str == strs[0] + (if decimals == [] then [] else "." + decimals);
    var sign, whole := PartsOf(strs[0], decimals);
    l := Literal(neg, sign, whole, decimals);
    assert str[0] == strs[0][0];
  }

  lemma PartsOf(head: string, decimals: string) returns (sign: Sign, whole: string)
    requires head != [] && ParseParts(head, decimals).Success?
    ensures sign.Text() + whole == head && AllDigits(whole) && AllDigits(decimals)
    ensures sign.Minus? <==> head[0] == '-'
  {
    var zeros := Zeros(PRECISION - |decimals|);
    sign := if head[0] == '+' then Plus else if head[0] == '-' then Minus else Unsigned;
    whole := head[|sign.Text()|..];
    assert sign.Text() + whole == head;
    var combined, digits := head + decimals + zeros, whole + decimals + zeros;
    assert combined == sign.Text() + digits && combined[0] == head[0];
    assert digits == combined[|sign.Text()|..];
    DigitParts(whole, decimals, zeros);
  }

  lemma DigitParts(whole: string, decimals: string, zeros: string)
    requires AllDigits(whole + decimals + zeros)
    ensures AllDigits(whole) && AllDigits(decimals)
  {
    var digits := whole + decimals + zeros;
    forall i | 0 <= i < |whole| ensures IsDigit(whole[i]) { assert digits[i] == whole[i]; }
    forall i | 0 <= i < |decimals| ensures IsDigit(decimals[i]) { assert digits[|whole| + i] == decimals[i]; }
  }

  /** The refusals by shape, after an optional minus: nothing, two points, a point with nothing
      before or after it, or more than 18 decimals. */
  lemma RefusedShapes(minus: string, a: string, b: string, c: string)
    requires minus == "-" || (minus == "" && (a == "" || a[0] != '-'))
    requires '.' !in a && '.' !in b
    ensures NewDecFromStr(minus) == Failure(EmptyDecimalStr)
    ensures NewDecFromStr(minus + (a + "." + b + "." + c)) == Failure(InvalidDecimalStr)
    ensures a == "" || b == "" ==> NewDecFromStr(minus + (a + "." + b)) == Failure(InvalidDecimalLength)
    ensures a != "" && |b| > PRECISION ==> NewDecFromStr(minus + (a + "." + b)) == Failure(TooPrecise)
  {
    MinusApart(minus, []);
    MinusApart(minus, a + "." + b);
    MinusApart(minus, a + "." + b + "." + c);
    SplitWithout(b, '.');
    SplitAt(a, b, '.');
    SplitAt(b, c, '.');
    SplitAt(a, b + "." + c, '.');
    assert a + "." + b + "." + c == a + "." + (b + "." + c);
  }

  lemma MinusApart(minus: string, str: string)
    requires minus == "-" || (minus == "" && (str == "" || str[0] != '-'))
    ensures NewDecFromStr(minus + str)
            == if ParseUnsigned(str).Failure? then ParseUnsigned(str)
               else Success(Signed(minus == "-", ParseUnsigned(str).value))
  {
    if minus == "-" {
      assert (minus + str)[1..] == str;
    } else {
      assert minus + str == str;
    }
  }

  /** The parser takes more than its documentation says: a second sign. */
  lemma SecondSignAccepted()
    ensures NewDecFromStr("--5") == Success(5 * P)
    ensures !exists l: Literal :: l.Documented() && l.Text() == "--5"
  {
    var l := Literal(true, Minus, "5", "");
    assert l.Text() == "--5";
    ParseLiteral(l);
    PrecisionIsTen18();
    assert Value("5") == 5 by { assert "5"[..0] == []; }
    forall k: Literal | k.Documented() ensures k.Text() != "--5" {
      assert IsDigit(k.whole[0]);
      assert k.Text()[if k.neg then 1 else 0] == k.whole[0];
    }
  }

  /** Printing and then parsing is the identity, on every decimal of whatever size. */
  lemma PrintParse(d: int)
    ensures NewDecFromStr(DecText(d)) == Success(d)
  {
    PrintedDigits(Abs(d));
    ParseDocumented(d < 0, Digits.Text(Abs(d) / P), Fixed(Abs(d) % P, PRECISION));
    PrintedIsLiteral(d);
  }

  lemma PrintedDigits(m: nat)
    ensures AllDigits(Digits.Text(m / P))
    ensures Scaled(Digits.Text(m / P), Fixed(m % P, PRECISION)) == m
  {
    TextValue(m / P);
    PrecisionIsTen18();
    FixedValue(m % P, PRECISION);
    assert Ten(0) == 1;
  }

  lemma PrintedIsLiteral(d: int)
    ensures DecText(d) == Literal(d < 0, Unsigned, Digits.Text(Abs(d) / P), Fixed(Abs(d) % P, PRECISION)).Text()
  {
  }
}
