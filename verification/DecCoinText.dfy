/** usecase/coin/dec_coin.go: printing a set of decimal coins and parsing it back. */
module DecCoinText {
  import opened Wrappers
  import opened Digits
  import opened DecimalText
  import opened SingleCoin
  import opened Coins
  import ByteOrder
  import Decimal

  function CoinText(coin: Coin): string {
    DecText(coin.amount) + coin.denom
  }

  function CoinsText(coins: CoinSet): string {
    if coins == [] then [] else if |coins| == 1 then CoinText(coins[0]) else CoinText(coins[0]) + [','] + CoinsText(coins[1..])
  }

  function Terminated(coins: CoinSet): string {
    if coins == [] then [] else CoinText(coins[0]) + [','] + Terminated(coins[1..])
  }

  lemma {:induction false} TerminatedText(coins: CoinSet)
    requires coins != []
    ensures Terminated(coins) == CoinsText(coins) + [',']
  {
    if |coins| > 1 {
      TerminatedText(coins[1..]);
      Associate(CoinText(coins[0]) + [','], CoinsText(coins[1..]), [',']);
    } else {
      assert Terminated(coins) == CoinText(coins[0]) + [','] + [];
    }
  }

  lemma Associate(a: string, b: string, c: string)
    ensures a + (b + c) == (a + b) + c
  {
  }

  /** DecCoins.String: every coin followed by a comma, the last comma cut off. */
  method String(coins: CoinSet) returns (s: string)
    ensures s == CoinsText(coins)
  {
    if |coins| == 0 {
      return "";
    }
    var out := "";
    assert coins[0..] == coins && out + Terminated(coins) == Terminated(coins);
    for i := 0 to |coins|
      invariant out + Terminated(coins[i..]) == Terminated(coins)
    {
      assert coins[i..][1..] == coins[i + 1..];
      Associate(out, CoinText(coins[i]) + [','], Terminated(coins[i + 1..]));
      out := out + (CoinText(coins[i]) + [',']);
    }
    assert out + [] == out;
    TerminatedText(coins);
    return out[..|out| - 1];
  }

  // ---- the coin expression

  predicate IsSpace(c: char) {
    c == ' ' || c == '\t' || c == '\n' || c == '\r' || c as int == 11 || c as int == 12
  }

  predicate AllSpaces(s: string) {
    forall i :: 0 <= i < |s| ==> IsSpace(s[i])
  }

  function TrimLeft(s: string): string {
    if s != [] && IsSpace(s[0]) then TrimLeft(s[1..]) else s
  }

  function TrimRight(s: string): string {
    if s != [] && IsSpace(s[|s| - 1]) then TrimRight(s[..|s| - 1]) else s
  }

  function TrimSpace(s: string): string {
    TrimRight(TrimLeft(s))
  }

  /** The amount alternatives of the regular expression: digits, digits.digits or .digits. */
  ghost predicate IsAmount(s: string) {
    exists whole, decimals ::
      && AllDigits(whole) && AllDigits(decimals)
      && ((s == whole && whole != []) || (s == whole + "." + decimals && decimals != []))
  }

  /** What reDecCoin matches: an amount, spaces, a denom, and nothing else. */
  ghost predicate Matches(s: string, amount: string, denom: string) {
    IsAmount(amount) && ValidDenom(denom) && exists spaces :: AllSpaces(spaces) && s == amount + spaces + denom
  }

  function DigitRun(s: string): (n: nat)
    ensures n <= |s| && AllDigits(s[..n]) && (n < |s| ==> !IsDigit(s[n]))
  {
    if s != [] && IsDigit(s[0]) then
      var n := 1 + DigitRun(s[1..]);
      assert forall i :: 1 <= i < n ==> s[i] == s[1..][..n - 1][i - 1];
      n
    else 0
  }

  /** The length of the longest amount at the front of s, 0 when there is none. */
  function AmountLength(s: string): (n: nat)
    ensures n <= |s|
  {
    var whole := DigitRun(s);
    if whole < |s| && s[whole] == '.' && DigitRun(s[whole + 1..]) > 0 then whole + 1 + DigitRun(s[whole + 1..]) else whole
  }

  function MatchDecCoin(s: string): Option<(string, string)> {
    var n := AmountLength(s);
    var denom := TrimLeft(s[n..]);
    if n > 0 && ValidDenom(denom) then Some((s[..n], denom)) else None
  }

  lemma {:induction false} DigitRunOf(digits: string, rest: string)
    requires AllDigits(digits) && (rest == [] || !IsDigit(rest[0]))
    ensures DigitRun(digits + rest) == |digits|
  {
    if digits == [] {
      assert digits + rest == rest;
    } else {
      assert (digits + rest)[1..] == digits[1..] + rest;
      DigitRunOf(digits[1..], rest);
    }
  }

  lemma AmountLengthOf(amount: string, rest: string)
    requires IsAmount(amount) && rest != [] && !IsDigit(rest[0]) && rest[0] != '.'
    ensures AmountLength(amount + rest) == |amount|
  {
    var whole, decimals :| AllDigits(whole) && AllDigits(decimals)
                           && ((amount == whole && whole != []) || (amount == whole + "." + decimals && decimals != []));
    if amount == whole {
      DigitRunOf(whole, rest);
    } else {
      PointedLength(whole, decimals, rest);
    }
  }

  lemma PointedLength(whole: string, decimals: string, rest: string)
    requires AllDigits(whole) && AllDigits(decimals) && decimals != [] && rest != [] && !IsDigit(rest[0])
    ensures AmountLength(whole + "." + decimals + rest) == |whole| + 1 + |decimals|
  {
    PointedParts(whole, decimals, rest);
    DigitRunOf(whole, ['.'] + (decimals + rest));
    DigitRunOf(decimals, rest);
  }

  lemma PointedParts(whole: string, decimals: string, rest: string)
    ensures var s := whole + "." + decimals + rest;
            && s == whole + (['.'] + (decimals + rest))
            && |s| > |whole| && s[|whole|] == '.' && s[|whole| + 1..] == decimals + rest
  {
  }

  lemma {:induction false} TrimLeftOf(spaces: string, rest: string)
    requires AllSpaces(spaces) && rest != [] && !IsSpace(rest[0])
    ensures TrimLeft(spaces + rest) == rest
  {
    if spaces == [] {
      assert spaces + rest == rest;
    } else {
      assert (spaces + rest)[1..] == spaces[1..] + rest;
      TrimLeftOf(spaces[1..], rest);
    }
  }

  lemma {:induction false} TrimLeftSpaces(s: string)
    ensures |TrimLeft(s)| <= |s| && AllSpaces(s[..|s| - |TrimLeft(s)|]) && s == s[..|s| - |TrimLeft(s)|] + TrimLeft(s)
  {
    if s != [] && IsSpace(s[0]) {
      TrimLeftSpaces(s[1..]);
      var k := |s| - |TrimLeft(s)|;
      assert s[..k] == [s[0]] + s[1..][..k - 1];
    }
  }

  lemma AmountLengthIsAmount(s: string)
    requires AmountLength(s) > 0
    ensures IsAmount(s[..AmountLength(s)])
  {
    var whole, n := DigitRun(s), AmountLength(s);
    if n == whole {
      assert AllDigits("");
    } else {
      var decimals := s[whole + 1..][..n - whole - 1];
      assert s[..n] == s[..whole] + "." + decimals;
    }
  }

  /** The scanner is the regular expression: it finds a match exactly when there is one, and
      the match is unique. */
  lemma ScannerIsRegex(s: string, amount: string, denom: string)
    ensures MatchDecCoin(s) == Some((amount, denom)) <==> Matches(s, amount, denom)
  {
    if Matches(s, amount, denom) {
      var spaces :| AllSpaces(spaces) && s == amount + spaces + denom;
      ScannerFinds(amount, spaces, denom);
    }
    if MatchDecCoin(s) == Some((amount, denom)) {
      ScannerSound(s);
    }
  }

  lemma ScannerFinds(amount: string, spaces: string, denom: string)
    requires IsAmount(amount) && AllSpaces(spaces) && ValidDenom(denom)
    ensures MatchDecCoin(amount + spaces + denom) == Some((amount, denom))
  {
    var s, rest := amount + spaces + denom, spaces + denom;
    assert s == amount + rest;
    assert rest[0] == if spaces == [] then denom[0] else spaces[0];
    AmountLengthOf(amount, rest);
    assert s[..|amount|] == amount && s[|amount|..] == rest;
    TrimLeftOf(spaces, denom);
    assert |amount| > 0;
  }

  lemma ScannerSound(s: string)
    requires MatchDecCoin(s).Some?
    ensures Matches(s, MatchDecCoin(s).value.0, MatchDecCoin(s).value.1)
  {
    var n := AmountLength(s);
    var rest, denom := s[n..], TrimLeft(s[n..]);
    AmountLengthIsAmount(s);
    TrimLeftSpaces(rest);
    var spaces := rest[..|rest| - |denom|];
    assert s == s[..n] + rest;
    Associate(s[..n], spaces, denom);
    MatchesOf(s, s[..n], spaces, denom);
  }

  lemma MatchesOf(s: string, amount: string, spaces: string, denom: string)
    requires IsAmount(amount) && AllSpaces(spaces) && ValidDenom(denom) && s == amount + spaces + denom
    ensures Matches(s, amount, denom)
  {
  }

  // ---- parsing

  datatype CoinParseError = InvalidExpression | InvalidAmount(error: ParseError) | InvalidCoinSet

  /** The amount of a match has no sign, so the coin cannot be negative and does not panic. */
  function ParseDecCoin(coinStr: string): Result<Coin, CoinParseError> {
    var matched := MatchDecCoin(TrimSpace(coinStr));
    if matched.None? then Failure(InvalidExpression)
    else
      var amount := NewDecFromStr(matched.value.0);
      if amount.Failure? then Failure(InvalidAmount(amount.error))
      else Success(Coin(matched.value.1, amount.value))
  }

  function Insert(coin: Coin, coins: CoinSet): CoinSet {
    if coins == [] || !ByteOrder.Less(coins[0].denom, coin.denom) then [coin] + coins
    else [coins[0]] + Insert(coin, coins[1..])
  }

  /** sort.Sort by denom.  The order among equal denoms, which the library leaves open, does not
      matter here: Validate refuses duplicates. */
  function Sort(coins: CoinSet): CoinSet {
    if coins == [] then [] else Insert(coins[0], Sort(coins[1..]))
  }

  /** One expression after another; the first error ends it. */
  function ParseAll(parse: string -> Result<Coin, CoinParseError>, coinStrs: seq<string>): Result<CoinSet, CoinParseError> {
    if coinStrs == [] then Success([])
    else
      var coin :- parse(coinStrs[0]);
      var rest :- ParseAll(parse, coinStrs[1..]);
      Success([coin] + rest)
  }

  lemma {:induction false} ParseAllAppend(parse: string -> Result<Coin, CoinParseError>, front: seq<string>, last: string)
    ensures ParseAll(parse, front + [last])
            == if ParseAll(parse, front).Failure? then ParseAll(parse, front)
               else if parse(last).Failure? then Failure(parse(last).error)
               else Success(ParseAll(parse, front).value + [parse(last).value])
  {
    if front == [] {
      assert front + [last] == [last] && [last][1..] == [];
      assert ParseAll(parse, [last][1..]) == Success([]);
      if parse(last).Success? { assert [parse(last).value] + [] == [] + [parse(last).value]; }
    } else {
      assert (front + [last])[1..] == front[1..] + [last];
      ParseAllAppend(parse, front[1..], last);
      if ParseAll(parse, front).Success? && parse(last).Success? {
        var first, rest, c := parse(front[0]).value, ParseAll(parse, front[1..]).value, parse(last).value;
        assert [first] + (rest + [c]) == [first] + rest + [c];
      }
    }
  }

  /** An error in front is the error of the whole list. */
  lemma {:induction false} ParseAllFails(parse: string -> Result<Coin, CoinParseError>, coinStrs: seq<string>, n: nat)
    requires n <= |coinStrs| && ParseAll(parse, coinStrs[..n]).Failure?
    ensures ParseAll(parse, coinStrs) == ParseAll(parse, coinStrs[..n])
    decreases |coinStrs| - n
  {
    if n < |coinStrs| {
      assert coinStrs[..n + 1] == coinStrs[..n] + [coinStrs[n]];
      ParseAllAppend(parse, coinStrs[..n], coinStrs[n]);
      ParseAllFails(parse, coinStrs, n + 1);
    } else {
      assert coinStrs[..n] == coinStrs;
    }
  }

  method ParseEach(parse: string -> Result<Coin, CoinParseError>, coinStrs: seq<string>) returns (r: Result<CoinSet, CoinParseError>)
    ensures r == ParseAll(parse, coinStrs)
  {
    var decCoins: CoinSet := [];
    for i := 0 to |coinStrs|
      invariant ParseAll(parse, coinStrs[..i]) == Success(decCoins)
    {
      assert coinStrs[..i + 1] == coinStrs[..i] + [coinStrs[i]];
      ParseAllAppend(parse, coinStrs[..i], coinStrs[i]);
      var coin := parse(coinStrs[i]);
      if coin.Failure? {
        ParseAllFails(parse, coinStrs, i + 1);
        return Failure(coin.error);
      }
      decCoins := decCoins + [coin.value];
    }
    assert coinStrs[..|coinStrs|] == coinStrs;
    return Success(decCoins);
  }

  function ParseDecCoins(coinsStr: string): Result<CoinSet, CoinParseError> {
    var trimmed := TrimSpace(coinsStr);
    if trimmed == [] then Success([])
    else
      var coins :- ParseAll(ParseDecCoin, Split(trimmed, ','));
      var sorted := Sort(NonZero(coins));
      if Valid(sorted) then Success(sorted) else Failure(InvalidCoinSet)
  }

  method ParseCoins(coinsStr: string) returns (r: Result<CoinSet, CoinParseError>)
    ensures r == ParseDecCoins(coinsStr)
  {
    var trimmed := TrimSpace(coinsStr);
    if |trimmed| == 0 {
      return Success([]);
    }
    var decCoins :- ParseEach(ParseDecCoin, Split(trimmed, ','));
    var nonZero := RemoveZeroCoins(decCoins);
    var newDecCoins := Sort(nonZero);
    var valid := Validate(newDecCoins);
    return if valid then Success(newDecCoins) else Failure(InvalidCoinSet);
  }

  predicate Printable(coin: Coin) {
    coin.amount > 0 && ValidDenom(coin.denom)
  }

  /** A printed coin: digits, point, digits, denom; no comma, no space at either end. */
  lemma CoinTextParts(coin: Coin)
    requires Printable(coin)
    ensures Matches(CoinText(coin), DecText(coin.amount), coin.denom)
    ensures ',' !in CoinText(coin) && |CoinText(coin)| > 0
    ensures IsDigit(CoinText(coin)[0]) && CoinText(coin)[|CoinText(coin)| - 1] == coin.denom[|coin.denom| - 1]
  {
    TextValue(coin.amount / Decimal.P);
    PrintedAmount(coin.amount);
    Parts(Digits.Text(coin.amount / Decimal.P), Fixed(coin.amount % Decimal.P, PRECISION), coin.denom);
  }

  lemma Parts(whole: string, decimals: string, denom: string)
    requires AllDigits(whole) && AllDigits(decimals) && whole != [] && decimals != [] && ValidDenom(denom)
    ensures var amount := whole + "." + decimals; var s := amount + denom;
            Matches(s, amount, denom) && ',' !in s && |s| > 0 && IsDigit(s[0]) && s[|s| - 1] == denom[|denom| - 1]
  {
    var amount := whole + "." + decimals;
    assert IsAmount(amount);
    assert AllSpaces([]) && amount + denom == amount + [] + denom;
    NoComma(whole);
    NoComma(decimals);
    TailIsNotSpace(denom);
    assert IsDigit(whole[0]);
  }

  lemma PrintedAmount(d: int)
    requires d > 0
    ensures DecText(d) == Digits.Text(d / Decimal.P) + "." + Fixed(d % Decimal.P, PRECISION)
  {
    assert DecText(d) == "" + Magnitude(d);
  }

  lemma NoComma(digits: string)
    requires AllDigits(digits)
    ensures ',' !in digits
  {
  }

  lemma TailIsNotSpace(denom: string)
    requires ValidDenom(denom)
    ensures !IsSpace(denom[|denom| - 1]) && ',' !in denom
  {
  }

  lemma ParsePrintedCoin(coin: Coin)
    requires Printable(coin)
    ensures ParseDecCoin(CoinText(coin)) == Success(coin) && ',' !in CoinText(coin)
  {
    CoinTextParts(coin);
    TailIsNotSpace(coin.denom);
    TrimNothing(CoinText(coin));
    ScannerIsRegex(CoinText(coin), DecText(coin.amount), coin.denom);
    PrintParse(coin.amount);
  }

  predicate AllPrintable(coins: CoinSet) {
    forall i :: 0 <= i < |coins| ==> Printable(coins[i])
  }

  function Texts(coins: CoinSet): seq<string> {
    if coins == [] then [] else [CoinText(coins[0])] + Texts(coins[1..])
  }

  /** Splitting at the commas recovers the printed coins. */
  lemma {:induction false} SplitPrinted(coins: CoinSet)
    requires coins != [] && AllPrintable(coins)
    ensures Split(CoinsText(coins), ',') == Texts(coins)
  {
    CoinTextParts(coins[0]);
    if |coins| == 1 {
      SplitWithout(CoinText(coins[0]), ',');
      assert Texts(coins[1..]) == [];
    } else {
      SplitAt(CoinText(coins[0]), CoinsText(coins[1..]), ',');
      SplitPrinted(coins[1..]);
    }
  }

  lemma {:induction false} ParseTexts(coins: CoinSet)
    requires AllPrintable(coins)
    ensures ParseAll(ParseDecCoin, Texts(coins)) == Success(coins)
  {
    if coins != [] {
      ParsePrintedCoin(coins[0]);
      ParseTexts(coins[1..]);
      ParseOne(ParseDecCoin, CoinText(coins[0]), Texts(coins[1..]));
      assert coins == [coins[0]] + coins[1..];
    }
  }

  lemma ParseOne(parse: string -> Result<Coin, CoinParseError>, first: string, rest: seq<string>)
    requires parse(first).Success? && ParseAll(parse, rest).Success?
    ensures ParseAll(parse, [first] + rest) == Success([parse(first).value] + ParseAll(parse, rest).value)
  {
    assert ([first] + rest)[1..] == rest;
  }

  lemma {:induction false} TextEnds(coins: CoinSet)
    requires coins != [] && AllPrintable(coins)
    ensures CoinsText(coins) != [] && IsDigit(CoinsText(coins)[0]) && !IsSpace(CoinsText(coins)[|CoinsText(coins)| - 1])
  {
    CoinTextParts(coins[0]);
    TailIsNotSpace(coins[0].denom);
    if |coins| > 1 {
      TextEnds(coins[1..]);
    }
  }

  lemma {:induction false} SortSorted(coins: CoinSet)
    requires Sorted(coins)
    ensures Sort(coins) == coins
  {
    if coins != [] {
      SortedTail(coins);
      SortSorted(coins[1..]);
      if |coins| > 1 {
        ByteOrder.Trichotomy(coins[0].denom, coins[1].denom);
      }
      assert coins == [coins[0]] + coins[1..];
    }
  }

  lemma {:induction false} NonZeroIdentity(coins: CoinSet)
    requires ZeroFree(coins)
    ensures NonZero(coins) == coins
  {
    if coins != [] {
      NonZeroIdentity(coins[1..]);
      assert coins == [coins[0]] + coins[1..];
    }
  }

  lemma TrimNothing(s: string)
    requires s != [] && !IsSpace(s[0]) && !IsSpace(s[|s| - 1])
    ensures TrimSpace(s) == s
  {
  }

  /** Printing and then parsing is the identity on every valid non-empty set. */
  lemma PrintParseCoins(coins: CoinSet)
    requires Valid(coins) && coins != []
    ensures ParseDecCoins(CoinsText(coins)) == Success(coins)
  {
    assert AllPrintable(coins) && ZeroFree(coins);
    TextEnds(coins);
    TrimNothing(CoinsText(coins));
    SplitPrinted(coins);
    ParseTexts(coins);
    NonZeroIdentity(coins);
    SortSorted(coins);
  }

  // ---- what a parsed list is

  /** In order of denom, equal denoms allowed. */
  predicate Ordered(coins: CoinSet) {
    forall i, j :: 0 <= i < j < |coins| ==> !ByteOrder.Less(coins[j].denom, coins[i].denom)
  }

  lemma InOrder(a: string, b: string, c: string)
    requires !ByteOrder.Less(b, a) && !ByteOrder.Less(c, b)
    ensures !ByteOrder.Less(c, a)
  {
    ByteOrder.Trichotomy(a, b);
    ByteOrder.Trichotomy(b, c);
    if ByteOrder.Less(a, b) && ByteOrder.Less(b, c) {
      ByteOrder.Transitive(a, b, c);
      ByteOrder.Trichotomy(a, c);
    }
  }

  lemma {:induction false} InsertOrdered(coin: Coin, coins: CoinSet)
    requires Ordered(coins)
    ensures Ordered(Insert(coin, coins)) && multiset(Insert(coin, coins)) == multiset(coins) + multiset{coin}
  {
    if coins == [] || !ByteOrder.Less(coins[0].denom, coin.denom) {
      forall j | 0 < j <= |coins| ensures !ByteOrder.Less(([coin] + coins)[j].denom, coin.denom) {
        if j > 1 { InOrder(coin.denom, coins[0].denom, coins[j - 1].denom); }
      }
    } else {
      var rest := Insert(coin, coins[1..]);
      InsertOrdered(coin, coins[1..]);
      assert coins == [coins[0]] + coins[1..];
      ByteOrder.Trichotomy(coins[0].denom, coin.denom);
      forall j | 0 <= j < |rest| ensures !ByteOrder.Less(rest[j].denom, coins[0].denom) {
        assert rest[j] in multiset(rest);
        if rest[j] != coin {
          assert rest[j] in multiset(coins[1..]);
          var k :| 0 <= k < |coins[1..]| && coins[1..][k] == rest[j];
          assert coins[k + 1] == rest[j];
        }
      }
    }
  }

  /** Sort orders the coins by denom and neither loses nor invents one. */
  lemma {:induction false} SortMeaning(coins: CoinSet)
    ensures Ordered(Sort(coins)) && multiset(Sort(coins)) == multiset(coins)
  {
    if coins != [] {
      SortMeaning(coins[1..]);
      InsertOrdered(coins[0], Sort(coins[1..]));
      assert coins == [coins[0]] + coins[1..];
    }
  }

  /** A strictly sorted list is the only ordered list of its coins. */
  lemma {:induction false} OrderedUnique(coins: CoinSet, strict: CoinSet)
    requires Ordered(coins) && Sorted(strict) && multiset(coins) == multiset(strict)
    ensures coins == strict
  {
    if coins == [] {
      assert |multiset(strict)| == 0;
    } else {
      assert coins[0] in multiset(strict);
      assert strict[0] in multiset(coins);
      SameHead(coins, strict);
      assert coins == [coins[0]] + coins[1..] && strict == [strict[0]] + strict[1..];
      assert multiset(coins[1..]) == multiset(coins) - multiset{coins[0]};
      assert multiset(strict[1..]) == multiset(strict) - multiset{strict[0]};
      SortedTail(strict);
      OrderedUnique(coins[1..], strict[1..]);
    }
  }

  lemma SameHead(coins: CoinSet, strict: CoinSet)
    requires coins != [] && strict != [] && Ordered(coins) && Sorted(strict) && coins[0] in strict && strict[0] in coins
    ensures coins[0] == strict[0]
  {
  }

  lemma {:induction false} NonZeroCounts(coins: CoinSet, coin: Coin)
    ensures multiset(NonZero(coins))[coin] == if coin.amount == 0 then 0 else multiset(coins)[coin]
  {
    if coins != [] {
      NonZeroCounts(coins[1..], coin);
      assert coins == [coins[0]] + coins[1..];
    }
  }

  /** The parts parse to these coins, one by one. */
  predicate Parses(parse: string -> Result<Coin, CoinParseError>, parts: seq<string>, coins: CoinSet) {
    |parts| == |coins| && forall i :: 0 <= i < |parts| ==> parse(parts[i]) == Success(coins[i])
  }

  lemma {:induction false} ParseAllMeaning(parse: string -> Result<Coin, CoinParseError>, parts: seq<string>, coins: CoinSet)
    ensures ParseAll(parse, parts) == Success(coins) <==> Parses(parse, parts, coins)
  {
    if parts != [] {
      if coins != [] {
        ParseAllMeaning(parse, parts[1..], coins[1..]);
        assert coins == [coins[0]] + coins[1..];
        assert Parses(parse, parts, coins) <==> parse(parts[0]) == Success(coins[0]) && Parses(parse, parts[1..], coins[1..]) by {
          assert forall i :: 0 <= i < |parts| - 1 ==> parts[1..][i] == parts[i + 1];
          assert forall i :: 0 <= i < |coins| - 1 ==> coins[1..][i] == coins[i + 1];
          assert forall i :: 1 <= i < |parts| ==> parts[i] == parts[1..][i - 1];
        }
      }
    }
  }

  /** The coins that are not zero, each as often as it was parsed. */
  ghost predicate HoldsNonZero(result: CoinSet, coins: CoinSet) {
    forall coin: Coin :: multiset(result)[coin] == if coin.amount == 0 then 0 else multiset(coins)[coin]
  }

  /** An accepted list, in any order and with zero coins among it, is exactly the valid set of the
      parsed coins that are not zero. */
  lemma ParsedSet(s: string, coins: CoinSet, result: CoinSet)
    requires TrimSpace(s) != [] && Parses(ParseDecCoin, Split(TrimSpace(s), ','), coins)
    ensures ParseDecCoins(s) == Success(result) <==> Valid(result) && HoldsNonZero(result, coins)
    ensures ParseDecCoins(s).Failure? ==> ParseDecCoins(s) == Failure(InvalidCoinSet)
  {
    ParseAllMeaning(ParseDecCoin, Split(TrimSpace(s), ','), coins);
    SortedNonZero(coins, result);
  }

  /** Otherwise the error is that of the first expression that does not parse. */
  lemma FirstError(s: string, n: nat)
    requires TrimSpace(s) != [] && n < |Split(TrimSpace(s), ',')|
    requires forall i :: 0 <= i < n ==> ParseDecCoin(Split(TrimSpace(s), ',')[i]).Success?
    requires ParseDecCoin(Split(TrimSpace(s), ',')[n]).Failure?
    ensures ParseDecCoins(s) == Failure(ParseDecCoin(Split(TrimSpace(s), ',')[n]).error)
  {
    ParseAllFirst(ParseDecCoin, Split(TrimSpace(s), ','), n);
  }

  lemma {:induction false} ParseAllFirst(parse: string -> Result<Coin, CoinParseError>, parts: seq<string>, n: nat)
    requires n < |parts| && parse(parts[n]).Failure? && forall i :: 0 <= i < n ==> parse(parts[i]).Success?
    ensures ParseAll(parse, parts) == Failure(parse(parts[n]).error)
  {
    if n > 0 {
      ParseAllFirst(parse, parts[1..], n - 1);
    }
  }

  lemma SortedNonZero(coins: CoinSet, result: CoinSet)
    ensures HoldsNonZero(Sort(NonZero(coins)), coins)
    ensures Sorted(result) && HoldsNonZero(result, coins) ==> result == Sort(NonZero(coins))
  {
    var sorted := Sort(NonZero(coins));
    SortMeaning(NonZero(coins));
    forall coin: Coin ensures multiset(sorted)[coin] == if coin.amount == 0 then 0 else multiset(coins)[coin] {
      NonZeroCounts(coins, coin);
    }
    if Sorted(result) && HoldsNonZero(result, coins) {
      assert multiset(result) == multiset(sorted);
      OrderedUnique(sorted, result);
    }
  }

  /** A coin expression parses exactly when, without the surrounding spaces, it is an amount that
      is a decimal, spaces and a denom. */
  lemma ParseCoinMeaning(s: string, coin: Coin)
    ensures ParseDecCoin(s) == Success(coin)
            <==> exists amount :: Matches(TrimSpace(s), amount, coin.denom) && NewDecFromStr(amount) == Success(coin.amount)
    ensures ParseDecCoin(s) == Failure(InvalidExpression) <==> forall amount, denom :: !Matches(TrimSpace(s), amount, denom)
  {
    var t := TrimSpace(s);
    var matched := MatchDecCoin(t);
    forall amount, denom ensures Matches(t, amount, denom) <==> matched == Some((amount, denom)) {
      ScannerIsRegex(t, amount, denom);
    }
    if matched.Some? {
      assert Matches(t, matched.value.0, matched.value.1);
    }
  }

  /** TrimSpace takes all the spaces off both ends and nothing else. */
  lemma TrimSpaceMeaning(s: string) returns (left: string, right: string)
    ensures s == left + TrimSpace(s) + right && AllSpaces(left) && AllSpaces(right)
    ensures TrimSpace(s) != [] ==> !IsSpace(TrimSpace(s)[0]) && !IsSpace(TrimSpace(s)[|TrimSpace(s)| - 1])
  {
    var t := TrimLeft(s);
    TrimLeftSpaces(s);
    TrimLeftStops(s);
    left := s[..|s| - |t|];
    right := TrimRightSpaces(t);
    Associate(left, TrimSpace(s), right);
    if TrimSpace(s) != [] {
      assert t[0] == TrimSpace(s)[0];
    }
  }

  lemma {:induction false} TrimLeftStops(s: string)
    ensures TrimLeft(s) != [] ==> !IsSpace(TrimLeft(s)[0])
  {
    if s != [] && IsSpace(s[0]) {
      TrimLeftStops(s[1..]);
    }
  }

  lemma {:induction false} TrimRightSpaces(s: string) returns (right: string)
    ensures s == TrimRight(s) + right && AllSpaces(right)
    ensures TrimRight(s) != [] ==> !IsSpace(TrimRight(s)[|TrimRight(s)| - 1])
  {
    if s != [] && IsSpace(s[|s| - 1]) {
      var rest := TrimRightSpaces(s[..|s| - 1]);
      right := rest + [s[|s| - 1]];
      Associate(TrimRight(s), rest, [s[|s| - 1]]);
    } else {
      right := [];
    }
  }
}
