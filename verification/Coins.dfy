/** usecase/coin/coin.go and dec_coin.go: sets of coins kept as slices sorted by denom.  Coins and
    DecCoins run the same code on amounts of different width, so the width is a parameter. */
module Coins {
  import opened Wrappers
  import opened BigInt
  import opened IntBounds
  import opened SingleCoin
  import ByteOrder

  type CoinSet = seq<Coin>

  // ---- what a coin set means

  predicate Sorted(coins: CoinSet) {
    forall i, j :: 0 <= i < j < |coins| ==> ByteOrder.Less(coins[i].denom, coins[j].denom)
  }

  predicate ZeroFree(coins: CoinSet) {
    forall i :: 0 <= i < |coins| ==> coins[i].amount != 0
  }

  predicate AllFit(coins: CoinSet, bits: nat) {
    forall i :: 0 <= i < |coins| ==> Abs(coins[i].amount) < Pow2(bits)
  }

  /** The meaning of a coin set: a map from denoms to amounts, zero where it has no entry. */
  function Amount(coins: CoinSet, denom: string): int {
    if coins == [] then 0 else if coins[0].denom == denom then coins[0].amount else Amount(coins[1..], denom)
  }

  /** What Validate accepts: sorted, positive, valid denoms. */
  predicate Valid(coins: CoinSet) {
    && Sorted(coins)
    && forall i :: 0 <= i < |coins| ==> coins[i].amount > 0 && ValidDenom(coins[i].denom)
  }

  method Validate(coins: CoinSet) returns (ok: bool)
    ensures ok <==> Valid(coins)
  {
    if |coins| == 0 {
      return true;
    }
    if !ValidDenom(coins[0].denom) || coins[0].amount <= 0 {
      return false;
    }
    var lowDenom := coins[0].denom;
    var seenDenoms := {lowDenom};
    var i := 1;
    while i < |coins|
      invariant 1 <= i <= |coins|
      invariant Valid(coins[..i]) && lowDenom == coins[i - 1].denom
      invariant forall d :: d in seenDenoms <==> exists j :: 0 <= j < i && coins[j].denom == d
    {
      var coin := coins[i];
      if coin.denom in seenDenoms {
        var j :| 0 <= j < i && coins[j].denom == coin.denom;
        ByteOrder.Irreflexive(coin.denom);
        return false;
      }
      if !ValidDenom(coin.denom) || !ByteOrder.Less(lowDenom, coin.denom) || coin.amount <= 0 {
        return false;
      }
      forall j | 0 <= j < i ensures ByteOrder.Less(coins[j].denom, coin.denom) {
        if j < i - 1 {
          assert ByteOrder.Less(coins[..i][j].denom, coins[..i][i - 1].denom);
          ByteOrder.Transitive(coins[j].denom, lowDenom, coin.denom);
        }
      }
      assert coins[..i + 1] == coins[..i] + [coin];
      lowDenom := coin.denom;
      seenDenoms := seenDenoms + {coin.denom};
      i := i + 1;
    }
    assert coins[..i] == coins;
    return true;
  }

  // ---- addition

  function CheckBits(x: int, bits: nat): Checked {
    if BitLen(x) > bits then Failure(Overflow) else Success(x)
  }

  function Kept(coin: Coin): CoinSet {
    if coin.amount == 0 then [] else [coin]
  }

  function NonZero(coins: CoinSet): CoinSet {
    if coins == [] then [] else Kept(coins[0]) + NonZero(coins[1..])
  }

  method RemoveZeroCoins(coins: CoinSet) returns (result: CoinSet)
    ensures result == NonZero(coins)
  {
    result := [];
    var i := 0;
    while i < |coins|
      invariant 0 <= i <= |coins|
      invariant result + NonZero(coins[i..]) == NonZero(coins)
    {
      NextKept(result, coins, i);
      if coins[i].amount != 0 {
        result := result + [coins[i]];
      }
      i := i + 1;
    }
    assert result + [] == result;
  }

  lemma NextKept(result: CoinSet, coins: CoinSet, i: nat)
    requires i < |coins|
    ensures result + NonZero(coins[i..])
            == (if coins[i].amount == 0 then result else result + [coins[i]]) + NonZero(coins[i + 1..])
  {
    assert coins[i..][1..] == coins[i + 1..];
    var rest := NonZero(coins[i + 1..]);
    assert NonZero(coins[i..]) == Kept(coins[i]) + rest;
    assert result + ([coins[i]] + rest) == result + [coins[i]] + rest;
  }

  /** safeAdd: a merge of the two slices that drops zeros; only a sum of two entries is checked. */
  function Sum(a: CoinSet, b: CoinSet, bits: nat): Result<CoinSet, Panic>
    decreases |a| + |b|
  {
    if a == [] then Success(NonZero(b))
    else if b == [] then Success(NonZero(a))
    else if ByteOrder.Less(a[0].denom, b[0].denom) then
      var rest :- Sum(a[1..], b, bits);
      Success(Kept(a[0]) + rest)
    else if a[0].denom == b[0].denom then
      var amount :- CheckBits(a[0].amount + b[0].amount, bits);
      var rest :- Sum(a[1..], b[1..], bits);
      Success(Kept(Coin(a[0].denom, amount)) + rest)
    else
      var rest :- Sum(a, b[1..], bits);
      Success(Kept(b[0]) + rest)
  }

  function Prepend(front: CoinSet, r: Result<CoinSet, Panic>): Result<CoinSet, Panic> {
    if r.Failure? then r else Success(front + r.value)
  }

  method SafeAdd(a: CoinSet, b: CoinSet, bits: nat) returns (r: Result<CoinSet, Panic>)
    ensures r == Sum(a, b, bits)
  {
    var sum: CoinSet := [];
    var indexA, indexB := 0, 0;
    PrependNothing(Sum(a, b, bits));
    assert a[0..] == a && b[0..] == b;
    while true
      invariant 0 <= indexA <= |a| && 0 <= indexB <= |b|
      invariant Prepend(sum, Sum(a[indexA..], b[indexB..], bits)) == Sum(a, b, bits)
      decreases |a| - indexA + |b| - indexB
    {
      if indexA == |a| {
        var rest := RemoveZeroCoins(b[indexB..]);
        return Success(sum + rest);
      } else if indexB == |b| {
        var rest := RemoveZeroCoins(a[indexA..]);
        return Success(sum + rest);
      }
      var coinA, coinB := a[indexA], b[indexB];
      MergeRound(sum, a, b, indexA, indexB, bits);
      if ByteOrder.Less(coinA.denom, coinB.denom) {
        sum := sum + Kept(coinA);
        indexA := indexA + 1;
      } else if coinA.denom == coinB.denom {
        var amount :- CheckBits(coinA.amount + coinB.amount, bits);
        sum := sum + Kept(Coin(coinA.denom, amount));
        indexA, indexB := indexA + 1, indexB + 1;
      } else {
        sum := sum + Kept(coinB);
        indexB := indexB + 1;
      }
    }
  }

  lemma PrependNothing(r: Result<CoinSet, Panic>)
    ensures Prepend([], r) == r
  {
    if r.Success? {
      assert [] + r.value == r.value;
    }
  }

  /** One round of the merge moves an entry from the recursion to the accumulator. */
  lemma MergeRound(sum: CoinSet, a: CoinSet, b: CoinSet, i: nat, j: nat, bits: nat)
    requires i < |a| && j < |b|
    ensures var left := Prepend(sum, Sum(a[i..], b[j..], bits));
            var checked := CheckBits(a[i].amount + b[j].amount, bits);
            if ByteOrder.Less(a[i].denom, b[j].denom) then left == Prepend(sum + Kept(a[i]), Sum(a[i + 1..], b[j..], bits))
            else if a[i].denom != b[j].denom then left == Prepend(sum + Kept(b[j]), Sum(a[i..], b[j + 1..], bits))
            else if checked.Failure? then left == Failure(checked.error)
            else left == Prepend(sum + Kept(Coin(a[i].denom, checked.value)), Sum(a[i + 1..], b[j + 1..], bits))
  {
    var a', b' := a[i..], b[j..];
    assert a'[1..] == a[i + 1..] && b'[1..] == b[j + 1..];
    if ByteOrder.Less(a[i].denom, b[j].denom) {
      AppendAssociative(sum, Kept(a[i]), Sum(a'[1..], b', bits));
    } else if a[i].denom != b[j].denom {
      AppendAssociative(sum, Kept(b[j]), Sum(a', b'[1..], bits));
    } else {
      AppendAssociative(sum, Kept(Coin(a[i].denom, a[i].amount + b[j].amount)), Sum(a'[1..], b'[1..], bits));
    }
  }

  lemma AppendAssociative(x: CoinSet, y: CoinSet, r: Result<CoinSet, Panic>)
    ensures Prepend(x, Prepend(y, r)) == Prepend(x + y, r)
  {
    if r.Success? {
      assert x + (y + r.value) == x + y + r.value;
    }
  }

  // ---- the sum in terms of the maps

  /** Every denom of the set lies above the bound. */
  predicate Above(coins: CoinSet, denom: string) {
    forall i :: 0 <= i < |coins| ==> ByteOrder.Less(denom, coins[i].denom)
  }

  lemma SortedTail(coins: CoinSet)
    requires Sorted(coins) && coins != []
    ensures Sorted(coins[1..]) && Above(coins[1..], coins[0].denom)
  {
  }

  lemma SortedCons(coin: Coin, coins: CoinSet)
    requires Sorted(coins) && Above(coins, coin.denom)
    ensures Sorted([coin] + coins)
  {
  }

  lemma AboveLower(coins: CoinSet, low: string, denom: string)
    requires Above(coins, denom) && (low == denom || ByteOrder.Less(low, denom))
    ensures Above(coins, low)
  {
    forall i | 0 <= i < |coins| ensures ByteOrder.Less(low, coins[i].denom) {
      if low != denom { ByteOrder.Transitive(low, denom, coins[i].denom); }
    }
  }

  lemma {:induction false} AboveHasNone(coins: CoinSet, denom: string)
    requires Above(coins, denom)
    ensures Amount(coins, denom) == 0
  {
    if coins != [] {
      ByteOrder.Irreflexive(denom);
      AboveHasNone(coins[1..], denom);
    }
  }

  lemma {:induction false} NonZeroMeaning(coins: CoinSet, low: string)
    requires Sorted(coins)
    ensures Sorted(NonZero(coins)) && ZeroFree(NonZero(coins))
    ensures Above(coins, low) ==> Above(NonZero(coins), low)
    ensures forall d :: Amount(NonZero(coins), d) == Amount(coins, d)
  {
    if coins != [] {
      SortedTail(coins);
      var tail := NonZero(coins[1..]);
      NonZeroMeaning(coins[1..], coins[0].denom);
      NonZeroMeaning(coins[1..], low);
      HeadShape(coins[0], tail, low);
      AboveHasNone(coins[1..], coins[0].denom);
      forall d ensures Amount(NonZero(coins), d) == Amount(coins, d) {
        HeadAmount(coins[0], tail, d);
      }
    }
  }

  /** Putting a coin in front of a sorted zero-free set of higher denoms. */
  lemma HeadShape(coin: Coin, rest: CoinSet, low: string)
    requires Sorted(rest) && ZeroFree(rest) && Above(rest, coin.denom)
    ensures Sorted(Kept(coin) + rest) && ZeroFree(Kept(coin) + rest)
    ensures ByteOrder.Less(low, coin.denom) ==> Above(Kept(coin) + rest, low)
  {
    if coin.amount == 0 {
      assert Kept(coin) + rest == rest;
    } else {
      SortedCons(coin, rest);
    }
    if ByteOrder.Less(low, coin.denom) {
      AboveLower(rest, low, coin.denom);
    }
  }

  lemma HeadAmount(coin: Coin, rest: CoinSet, d: string)
    requires Above(rest, coin.denom)
    ensures Amount(Kept(coin) + rest, d) == if d == coin.denom then coin.amount else Amount(rest, d)
  {
    AboveHasNone(rest, coin.denom);
    if coin.amount == 0 {
      assert Kept(coin) + rest == rest;
    } else {
      assert (Kept(coin) + rest)[1..] == rest;
    }
  }

  lemma {:induction false} SumShape(a: CoinSet, b: CoinSet, bits: nat, low: string)
    requires Sorted(a) && Sorted(b) && Sum(a, b, bits).Success?
    ensures Sorted(Sum(a, b, bits).value) && ZeroFree(Sum(a, b, bits).value)
    ensures Above(a, low) && Above(b, low) ==> Above(Sum(a, b, bits).value, low)
    decreases |a| + |b|
  {
    if a == [] {
      NonZeroMeaning(b, low);
    } else if b == [] {
      NonZeroMeaning(a, low);
    } else {
      SortedTail(a);
      SortedTail(b);
      ByteOrder.Trichotomy(a[0].denom, b[0].denom);
      if ByteOrder.Less(a[0].denom, b[0].denom) {
        AboveLower(b[1..], a[0].denom, b[0].denom);
        SumShape(a[1..], b, bits, a[0].denom);
        HeadShape(a[0], Sum(a[1..], b, bits).value, low);
      } else if a[0].denom == b[0].denom {
        SumShape(a[1..], b[1..], bits, a[0].denom);
        HeadShape(Coin(a[0].denom, a[0].amount + b[0].amount), Sum(a[1..], b[1..], bits).value, low);
      } else {
        AboveLower(a[1..], b[0].denom, a[0].denom);
        SumShape(a, b[1..], bits, b[0].denom);
        HeadShape(b[0], Sum(a, b[1..], bits).value, low);
      }
    }
  }

  lemma {:induction false} SumAmount(a: CoinSet, b: CoinSet, bits: nat, d: string)
    requires Sorted(a) && Sorted(b) && Sum(a, b, bits).Success?
    ensures Amount(Sum(a, b, bits).value, d) == Amount(a, d) + Amount(b, d)
    decreases |a| + |b|
  {
    if a == [] {
      NonZeroMeaning(b, "");
    } else if b == [] {
      NonZeroMeaning(a, "");
    } else {
      SortedTail(a);
      SortedTail(b);
      ByteOrder.Trichotomy(a[0].denom, b[0].denom);
      if ByteOrder.Less(a[0].denom, b[0].denom) {
        LowestIsAbsent(a[0].denom, b);
        SumShape(a[1..], b, bits, a[0].denom);
        SumAmount(a[1..], b, bits, d);
        HeadAmount(a[0], Sum(a[1..], b, bits).value, d);
      } else if a[0].denom == b[0].denom {
        SumShape(a[1..], b[1..], bits, a[0].denom);
        SumAmount(a[1..], b[1..], bits, d);
        HeadAmount(Coin(a[0].denom, a[0].amount + b[0].amount), Sum(a[1..], b[1..], bits).value, d);
      } else {
        LowestIsAbsent(b[0].denom, a);
        SumShape(a, b[1..], bits, b[0].denom);
        SumAmount(a, b[1..], bits, d);
        HeadAmount(b[0], Sum(a, b[1..], bits).value, d);
      }
    }
  }

  /** A sum that does not panic fits on every denom. */
  lemma {:induction false} SumFits(a: CoinSet, b: CoinSet, bits: nat, d: string)
    requires Sorted(a) && Sorted(b) && AllFit(a, bits) && AllFit(b, bits) && Sum(a, b, bits).Success?
    ensures Abs(Amount(a, d) + Amount(b, d)) < Pow2(bits)
    decreases |a| + |b|
  {
    if a == [] {
      AmountFits(b, d, bits);
    } else if b == [] {
      AmountFits(a, d, bits);
    } else {
      SortedTail(a);
      SortedTail(b);
      ByteOrder.Trichotomy(a[0].denom, b[0].denom);
      if ByteOrder.Less(a[0].denom, b[0].denom) {
        LowestIsAbsent(a[0].denom, b);
        SumFits(a[1..], b, bits, d);
      } else if a[0].denom == b[0].denom {
        BitLenExceeds(a[0].amount + b[0].amount, bits);
        SumFits(a[1..], b[1..], bits, d);
      } else {
        LowestIsAbsent(b[0].denom, a);
        SumFits(a, b[1..], bits, d);
      }
    }
  }

  /** A panic points at a denom whose two amounts do not add up within the width. */
  lemma {:induction false} SumPanic(a: CoinSet, b: CoinSet, bits: nat) returns (d: string)
    requires Sorted(a) && Sorted(b) && Sum(a, b, bits).Failure?
    ensures Sum(a, b, bits).error == Overflow
    ensures Abs(Amount(a, d) + Amount(b, d)) >= Pow2(bits)
    ensures (exists i :: 0 <= i < |a| && a[i].denom == d) && (exists i :: 0 <= i < |b| && b[i].denom == d)
    decreases |a| + |b|
  {
    SortedTail(a);
    SortedTail(b);
    if ByteOrder.Less(a[0].denom, b[0].denom) {
      d := SumPanic(a[1..], b, bits);
      InTail(a, d);
    } else if a[0].denom == b[0].denom {
      BitLenExceeds(a[0].amount + b[0].amount, bits);
      if CheckBits(a[0].amount + b[0].amount, bits).Failure? {
        d := a[0].denom;
      } else {
        d := SumPanic(a[1..], b[1..], bits);
        InTail(a, d);
        InTail(b, d);
      }
    } else {
      d := SumPanic(a, b[1..], bits);
      InTail(b, d);
    }
  }

  lemma InTail(coins: CoinSet, d: string)
    requires Sorted(coins) && coins != [] && exists i :: 0 <= i < |coins[1..]| && coins[1..][i].denom == d
    ensures Amount(coins, d) == Amount(coins[1..], d) && exists i :: 0 <= i < |coins| && coins[i].denom == d
  {
    var i :| 0 <= i < |coins[1..]| && coins[1..][i].denom == d;
    assert coins[i + 1].denom == d;
    ByteOrder.Irreflexive(d);
  }

  /** On sorted sets, zero and negative amounts included, the sum is sorted and free of zeros
      and its amount per denom is the sum of the amounts.  It panics exactly when for some denom
      that sum is too wide. */
  lemma SumMeaning(a: CoinSet, b: CoinSet, bits: nat)
    requires Sorted(a) && Sorted(b) && AllFit(a, bits) && AllFit(b, bits)
    ensures match Sum(a, b, bits)
            case Success(s) =>
              && Sorted(s) && ZeroFree(s)
              && (forall d :: Amount(s, d) == Amount(a, d) + Amount(b, d))
              && (forall d :: Abs(Amount(a, d) + Amount(b, d)) < Pow2(bits))
            case Failure(panic) =>
              panic == Overflow && exists d :: Abs(Amount(a, d) + Amount(b, d)) >= Pow2(bits)
  {
    match Sum(a, b, bits) {
      case Success(s) =>
        SumShape(a, b, bits, "");
        forall d ensures Amount(s, d) == Amount(a, d) + Amount(b, d) && Abs(Amount(a, d) + Amount(b, d)) < Pow2(bits) {
          SumAmount(a, b, bits, d);
          SumFits(a, b, bits, d);
        }
      case Failure(_) =>
        var d := SumPanic(a, b, bits);
    }
  }

  lemma {:induction false} AmountFits(coins: CoinSet, denom: string, bits: nat)
    requires AllFit(coins, bits)
    ensures Abs(Amount(coins, denom)) < Pow2(bits)
  {
    if coins != [] {
      AmountFits(coins[1..], denom, bits);
    }
  }

  /** Sorted zero-free sets are determined by their meaning. */
  lemma {:induction false} Extensional(a: CoinSet, b: CoinSet)
    requires Sorted(a) && ZeroFree(a) && Sorted(b) && ZeroFree(b)
    requires forall d :: Amount(a, d) == Amount(b, d)
    ensures a == b
  {
    FirstAmount(a);
    FirstAmount(b);
    if a != [] && b != [] {
      SortedTail(a);
      SortedTail(b);
      ByteOrder.Trichotomy(a[0].denom, b[0].denom);
      if ByteOrder.Less(a[0].denom, b[0].denom) {
        LowestIsAbsent(a[0].denom, b);
      } else if ByteOrder.Less(b[0].denom, a[0].denom) {
        LowestIsAbsent(b[0].denom, a);
      } else {
        assert Amount(a, a[0].denom) == Amount(b, a[0].denom);
        forall d ensures Amount(a[1..], d) == Amount(b[1..], d) {
          assert Amount(a, d) == Amount(b, d);
          if d == a[0].denom {
            AboveHasNone(a[1..], d);
            AboveHasNone(b[1..], d);
          }
        }
        Extensional(a[1..], b[1..]);
        assert a == [a[0]] + a[1..] && b == [b[0]] + b[1..];
      }
    }
  }

  lemma FirstAmount(coins: CoinSet)
    ensures coins != [] ==> Amount(coins, coins[0].denom) == coins[0].amount
  {
  }

  lemma LowestIsAbsent(denom: string, coins: CoinSet)
    requires Sorted(coins) && coins != [] && ByteOrder.Less(denom, coins[0].denom)
    ensures Amount(coins, denom) == 0 && Above(coins, denom)
  {
    SortedTail(coins);
    AboveLower(coins[1..], denom, coins[0].denom);
    AboveHasNone(coins, denom);
  }

  // ---- the algebra of Add and Sub

  lemma SumCommutative(a: CoinSet, b: CoinSet, bits: nat)
    requires Sorted(a) && Sorted(b) && AllFit(a, bits) && AllFit(b, bits)
    ensures Sum(a, b, bits) == Sum(b, a, bits)
  {
    SumMeaning(a, b, bits);
    SumMeaning(b, a, bits);
    if Sum(a, b, bits).Success? && Sum(b, a, bits).Success? {
      Extensional(Sum(a, b, bits).value, Sum(b, a, bits).value);
    } else if Sum(a, b, bits).Failure? {
      var d :| Abs(Amount(a, d) + Amount(b, d)) >= Pow2(bits);
      assert Abs(Amount(b, d) + Amount(a, d)) >= Pow2(bits);
    }
  }

  predicate NonNegative(coins: CoinSet) {
    forall i :: 0 <= i < |coins| ==> coins[i].amount >= 0
  }

  lemma {:induction false} AmountAt(coins: CoinSet, i: nat)
    requires Sorted(coins) && i < |coins|
    ensures Amount(coins, coins[i].denom) == coins[i].amount
  {
    if i > 0 {
      ByteOrder.Irreflexive(coins[0].denom);
      AmountAt(coins[1..], i - 1);
    }
  }

  lemma {:induction false} AmountNonNegative(coins: CoinSet, denom: string)
    requires NonNegative(coins)
    ensures Amount(coins, denom) >= 0
  {
    if coins != [] {
      AmountNonNegative(coins[1..], denom);
    }
  }

  lemma NonNegativeIff(coins: CoinSet)
    requires Sorted(coins)
    ensures NonNegative(coins) <==> forall d :: Amount(coins, d) >= 0
  {
    if NonNegative(coins) {
      forall d ensures Amount(coins, d) >= 0 { AmountNonNegative(coins, d); }
    } else {
      var i :| 0 <= i < |coins| && coins[i].amount < 0;
      AmountAt(coins, i);
    }
  }

  lemma FitsIff(coins: CoinSet, bits: nat)
    requires Sorted(coins) && forall d :: Abs(Amount(coins, d)) < Pow2(bits)
    ensures AllFit(coins, bits)
  {
    forall i | 0 <= i < |coins| ensures Abs(coins[i].amount) < Pow2(bits) {
      AmountAt(coins, i);
    }
  }

  function AddTo(r: Result<CoinSet, Panic>, c: CoinSet, bits: nat): Result<CoinSet, Panic> {
    if r.Failure? then r else Sum(r.value, c, bits)
  }

  function AddOnto(a: CoinSet, r: Result<CoinSet, Panic>, bits: nat): Result<CoinSet, Panic> {
    if r.Failure? then r else Sum(a, r.value, bits)
  }

  function Total(a: CoinSet, b: CoinSet, c: CoinSet, d: string): int {
    Amount(a, d) + Amount(b, d) + Amount(c, d)
  }

  ghost predicate TotalTooWide(a: CoinSet, b: CoinSet, c: CoinSet, bits: nat) {
    exists d :: Total(a, b, c, d) >= Pow2(bits)
  }

  /** What adding up three sets should give, in whatever order. */
  ghost predicate AddsUp(r: Result<CoinSet, Panic>, a: CoinSet, b: CoinSet, c: CoinSet, bits: nat) {
    match r
    case Success(t) =>
      && Sorted(t) && ZeroFree(t)
      && forall d :: Amount(t, d) == Total(a, b, c, d) < Pow2(bits)
    case Failure(panic) => panic == Overflow && TotalTooWide(a, b, c, bits)
  }

  lemma TooWideInAnyOrder(a: CoinSet, b: CoinSet, c: CoinSet, bits: nat)
    ensures TotalTooWide(a, b, c, bits) <==> TotalTooWide(b, c, a, bits)
  {
    if d :| Total(a, b, c, d) >= Pow2(bits) { assert Total(b, c, a, d) >= Pow2(bits); }
    if d :| Total(b, c, a, d) >= Pow2(bits) { assert Total(a, b, c, d) >= Pow2(bits); }
  }

  lemma AddsUpUnique(x: Result<CoinSet, Panic>, y: Result<CoinSet, Panic>, a: CoinSet, b: CoinSet, c: CoinSet, bits: nat)
    requires AddsUp(x, a, b, c, bits) && AddsUp(y, b, c, a, bits)
    ensures x == y
  {
    TooWideInAnyOrder(a, b, c, bits);
    assert x.Success? <==> !TotalTooWide(a, b, c, bits);
    assert y.Success? <==> !TotalTooWide(b, c, a, bits);
    if x.Success? {
      forall d ensures Amount(x.value, d) == Amount(y.value, d) {
        assert Total(a, b, c, d) == Total(b, c, a, d);
      }
      Extensional(x.value, y.value);
    }
  }

  /** (a + b) + c = a + (b + c) for non-negative sets, overflow included. */
  lemma SumAssociative(a: CoinSet, b: CoinSet, c: CoinSet, bits: nat)
    requires Sorted(a) && Sorted(b) && Sorted(c) && AllFit(a, bits) && AllFit(b, bits) && AllFit(c, bits)
    requires NonNegative(a) && NonNegative(b) && NonNegative(c)
    ensures AddTo(Sum(a, b, bits), c, bits) == AddOnto(a, Sum(b, c, bits), bits)
  {
    Grouped(a, b, c, bits);
    Grouped(b, c, a, bits);
    AddsUpUnique(AddTo(Sum(a, b, bits), c, bits), AddTo(Sum(b, c, bits), a, bits), a, b, c, bits);
    if Sum(b, c, bits).Success? {
      SumMeaning(b, c, bits);
      FitsIff(Sum(b, c, bits).value, bits);
      SumCommutative(a, Sum(b, c, bits).value, bits);
    }
  }

  lemma Grouped(a: CoinSet, b: CoinSet, c: CoinSet, bits: nat)
    requires Sorted(a) && Sorted(b) && Sorted(c) && AllFit(a, bits) && AllFit(b, bits) && AllFit(c, bits)
    requires NonNegative(a) && NonNegative(b) && NonNegative(c)
    ensures AddsUp(AddTo(Sum(a, b, bits), c, bits), a, b, c, bits)
  {
    SumMeaning(a, b, bits);
    match Sum(a, b, bits) {
      case Success(s) =>
        FitsIff(s, bits);
        GroupedTail(a, b, s, c, bits);
      case Failure(_) =>
        var d :| Abs(Amount(a, d) + Amount(b, d)) >= Pow2(bits);
        TooWideAt(a, b, c, bits, d);
    }
  }

  lemma GroupedTail(a: CoinSet, b: CoinSet, s: CoinSet, c: CoinSet, bits: nat)
    requires Sorted(s) && Sorted(c) && AllFit(s, bits) && AllFit(c, bits)
    requires NonNegative(a) && NonNegative(b) && NonNegative(c)
    requires forall d :: Amount(s, d) == Amount(a, d) + Amount(b, d)
    ensures AddsUp(Sum(s, c, bits), a, b, c, bits)
  {
    SumMeaning(s, c, bits);
    match Sum(s, c, bits) {
      case Success(t) =>
        forall d ensures Amount(t, d) == Total(a, b, c, d) < Pow2(bits) {
          assert Total(a, b, c, d) == Amount(s, d) + Amount(c, d);
        }
      case Failure(_) =>
        var d :| Abs(Amount(s, d) + Amount(c, d)) >= Pow2(bits);
        assert Total(a, b, c, d) == Amount(s, d) + Amount(c, d);
        TooWideAt(a, b, c, bits, d);
    }
  }

  lemma TooWideAt(a: CoinSet, b: CoinSet, c: CoinSet, bits: nat, d: string)
    requires NonNegative(a) && NonNegative(b) && NonNegative(c)
    requires Abs(Amount(a, d) + Amount(b, d)) >= Pow2(bits) || Abs(Total(a, b, c, d)) >= Pow2(bits)
    ensures TotalTooWide(a, b, c, bits)
  {
    AmountNonNegative(a, d);
    AmountNonNegative(b, d);
    AmountNonNegative(c, d);
    assert Total(a, b, c, d) >= Pow2(bits);
  }

  function Negative(coins: CoinSet): CoinSet {
    if coins == [] then [] else [Coin(coins[0].denom, -coins[0].amount)] + Negative(coins[1..])
  }

  lemma {:induction false} NegativeMeaning(coins: CoinSet, bits: nat)
    requires Sorted(coins) && AllFit(coins, bits)
    ensures |Negative(coins)| == |coins|
    ensures forall i :: 0 <= i < |coins| ==> Negative(coins)[i] == Coin(coins[i].denom, -coins[i].amount)
    ensures Sorted(Negative(coins)) && AllFit(Negative(coins), bits)
    ensures forall d :: Amount(Negative(coins), d) == -Amount(coins, d)
  {
    if coins != [] {
      SortedTail(coins);
      NegativeMeaning(coins[1..], bits);
    }
  }

  /** SafeSub: the difference, and whether some amount of it is negative. */
  function SafeSub(a: CoinSet, b: CoinSet, bits: nat): Result<(CoinSet, bool), Panic> {
    var diff :- Sum(a, Negative(b), bits);
    Success((diff, exists i :: 0 <= i < |diff| && diff[i].amount < 0))
  }

  /** Coins.Sub: None is the panic, on a negative amount or an overflow. */
  function SubCoins(a: CoinSet, b: CoinSet, bits: nat): Option<CoinSet> {
    match SafeSub(a, b, bits)
    case Success((diff, false)) => Some(diff)
    case _ => None
  }

  method Negate(coins: CoinSet) returns (res: CoinSet)
    ensures res == Negative(coins)
  {
    res := [];
    assert coins[0..] == coins;
    for i := 0 to |coins|
      invariant res + Negative(coins[i..]) == Negative(coins)
    {
      NextNegated(res, coins, i);
      res := res + [Coin(coins[i].denom, -coins[i].amount)];
    }
    assert res + [] == res;
  }

  lemma NextNegated(res: CoinSet, coins: CoinSet, i: nat)
    requires i < |coins|
    ensures res + Negative(coins[i..]) == res + [Coin(coins[i].denom, -coins[i].amount)] + Negative(coins[i + 1..])
  {
    assert coins[i..][1..] == coins[i + 1..];
    var coin, rest := Coin(coins[i].denom, -coins[i].amount), Negative(coins[i + 1..]);
    assert Negative(coins[i..]) == [coin] + rest;
    assert res + ([coin] + rest) == res + [coin] + rest;
  }

  method IsAnyNegative(coins: CoinSet) returns (r: bool)
    ensures r <==> exists i :: 0 <= i < |coins| && coins[i].amount < 0
  {
    for i := 0 to |coins|
      invariant forall j :: 0 <= j < i ==> coins[j].amount >= 0
    {
      if coins[i].amount < 0 {
        return true;
      }
    }
    return false;
  }

  method ComputeSafeSub(a: CoinSet, b: CoinSet, bits: nat) returns (r: Result<(CoinSet, bool), Panic>)
    ensures r == SafeSub(a, b, bits)
  {
    var negative := Negate(b);
    var diff :- SafeAdd(a, negative, bits);
    var anyNegative := IsAnyNegative(diff);
    return Success((diff, anyNegative));
  }

  /** Subtracting what was added gives back the original, with no negative amount reported. */
  lemma AddThenSub(a: CoinSet, b: CoinSet, bits: nat)
    requires Sorted(a) && ZeroFree(a) && NonNegative(a) && Sorted(b) && AllFit(a, bits) && AllFit(b, bits)
    requires Sum(a, b, bits).Success?
    ensures SafeSub(Sum(a, b, bits).value, b, bits) == Success((a, false))
    ensures SubCoins(Sum(a, b, bits).value, b, bits) == Some(a)
  {
    var s := Sum(a, b, bits).value;
    SumMeaning(a, b, bits);
    FitsIff(s, bits);
    NegativeMeaning(b, bits);
    SumMeaning(s, Negative(b), bits);
    forall d ensures Amount(s, d) + Amount(Negative(b), d) == Amount(a, d) && Abs(Amount(a, d)) < Pow2(bits) {
      AmountFits(a, d, bits);
    }
    Extensional(Sum(s, Negative(b), bits).value, a);
  }

  /** SafeSub reports no negative exactly when a dominates b on every denom. */
  lemma SafeSubIffDominates(a: CoinSet, b: CoinSet, bits: nat)
    requires Sorted(a) && Sorted(b) && AllFit(a, bits) && AllFit(b, bits) && SafeSub(a, b, bits).Success?
    ensures !SafeSub(a, b, bits).value.1 <==> forall d :: Amount(a, d) >= Amount(b, d)
    ensures forall d :: Amount(SafeSub(a, b, bits).value.0, d) == Amount(a, d) - Amount(b, d)
  {
    NegativeMeaning(b, bits);
    SumMeaning(a, Negative(b), bits);
    var diff := SafeSub(a, b, bits).value.0;
    NonNegativeIff(diff);
    assert NonNegative(diff) <==> !SafeSub(a, b, bits).value.1;
    forall d ensures Amount(diff, d) == Amount(a, d) - Amount(b, d) {
      assert Amount(diff, d) == Amount(a, d) + Amount(Negative(b), d);
    }
    if forall d :: Amount(a, d) >= Amount(b, d) {
      assert forall d :: Amount(diff, d) >= 0;
    } else {
      var d :| Amount(a, d) < Amount(b, d);
      assert Amount(diff, d) == Amount(a, d) - Amount(b, d);
    }
  }

  /** Subtraction of non-negative sets never panics. */
  lemma SafeSubTotal(a: CoinSet, b: CoinSet, bits: nat)
    requires Sorted(a) && Sorted(b) && AllFit(a, bits) && AllFit(b, bits) && NonNegative(a) && NonNegative(b)
    ensures SafeSub(a, b, bits).Success?
  {
    NegativeMeaning(b, bits);
    NonNegativeIff(a);
    NonNegativeIff(b);
    SumMeaning(a, Negative(b), bits);
    forall d ensures Abs(Amount(a, d) + Amount(Negative(b), d)) < Pow2(bits) {
      AmountFits(a, d, bits);
      AmountFits(b, d, bits);
    }
  }

  /** Sub on valid sets panics exactly when some amount would be negative; otherwise the result
      is sorted, has positive amounts only, and holds the differences. */
  lemma SubIsPositive(a: CoinSet, b: CoinSet, bits: nat)
    requires Valid(a) && Valid(b) && AllFit(a, bits) && AllFit(b, bits)
    ensures SubCoins(a, b, bits).Some? <==> forall d :: Amount(a, d) >= Amount(b, d)
    ensures match SubCoins(a, b, bits)
            case Some(diff) =>
              && Sorted(diff) && (forall i :: 0 <= i < |diff| ==> diff[i].amount > 0)
              && (forall d :: Amount(diff, d) == Amount(a, d) - Amount(b, d))
            case None => true
  {
    SafeSubTotal(a, b, bits);
    SafeSubIffDominates(a, b, bits);
    NegativeMeaning(b, bits);
    SumShape(a, Negative(b), bits, "");
  }
}
