/** usecase/coin/dec_coin.go: truncating and intersecting sets of decimal coins. */
module DecCoins {
  import opened Wrappers
  import opened IntBounds
  import opened SingleCoin
  import opened Coins
  import opened CoinCompare
  import Decimal
  import ByteOrder

  const P: int := Decimal.P

  function WholePart(amount: int): int {
    Decimal.ChopTruncate(amount)
  }

  function Change(amount: int): int {
    amount - WholePart(amount) * P
  }

  lemma SplitAmount(amount: int)
    requires amount > 0
    ensures 0 <= WholePart(amount) <= amount && 0 <= Change(amount) < P
  {
  }

  /** Adding one coin behind all others appends it. */
  lemma {:induction false} SumAppendsLast(coins: CoinSet, last: Coin, bits: nat)
    requires Sorted(coins + [last]) && ZeroFree(coins) && last.amount != 0
    ensures Sum(coins, [last], bits) == Success(coins + [last])
  {
    assert [last][1..] == [];
    if coins == [] {
      assert NonZero([last]) == [last] && [] + [last] == [last];
    } else {
      assert (coins + [last])[0] == coins[0] && (coins + [last])[|coins|] == last;
      assert ByteOrder.Less(coins[0].denom, last.denom);
      assert (coins + [last])[1..] == coins[1..] + [last];
      SumAppendsLast(coins[1..], last, bits);
      assert [coins[0]] + (coins[1..] + [last]) == coins + [last];
    }
  }

  /** Mapping the amounts of a set and keeping the non-zero ones. */
  function Mapped(coins: CoinSet, f: int -> int): CoinSet {
    if coins == [] then []
    else Mapped(coins[..|coins| - 1], f) + Kept(Coin(coins[|coins| - 1].denom, f(coins[|coins| - 1].amount)))
  }

  lemma {:induction false} MappedShape(coins: CoinSet, f: int -> int)
    requires Sorted(coins)
    ensures Sorted(Mapped(coins, f)) && ZeroFree(Mapped(coins, f))
    ensures forall i :: 0 <= i < |Mapped(coins, f)| ==>
              exists j :: 0 <= j < |coins| && Mapped(coins, f)[i] == Coin(coins[j].denom, f(coins[j].amount))
  {
    if coins != [] {
      var front, last := coins[..|coins| - 1], coins[|coins| - 1];
      MappedShape(front, f);
      var m := Mapped(front, f);
      forall i | 0 <= i < |m| ensures ByteOrder.Less(m[i].denom, last.denom)
        && exists j :: 0 <= j < |coins| && m[i] == Coin(coins[j].denom, f(coins[j].amount)) {
        var j :| 0 <= j < |front| && m[i] == Coin(front[j].denom, f(front[j].amount));
        assert coins[j] == front[j];
      }
    }
  }

  lemma {:induction false} MappedAmount(coins: CoinSet, f: int -> int, d: string)
    requires Sorted(coins) && f(0) == 0
    ensures Amount(Mapped(coins, f), d) == f(Amount(coins, d))
  {
    if coins != [] {
      var front, last := coins[..|coins| - 1], coins[|coins| - 1];
      assert coins == front + [last];
      MappedAmount(front, f, d);
      MappedShape(front, f);
      AmountOfLast(front, last, d);
      var kept := Coin(last.denom, f(last.amount));
      if kept.amount == 0 {
        assert Mapped(coins, f) == Mapped(front, f);
      } else {
        assert Sorted(Mapped(coins, f)) by { MappedShape(coins, f); }
        AmountOfLast(Mapped(front, f), kept, d);
      }
      if d == last.denom {
        NotAmong(front, last);
        AbsentAmount(front, d);
      }
    }
  }

  lemma {:induction false} AmountOfLast(front: CoinSet, last: Coin, d: string)
    requires Sorted(front + [last])
    ensures Amount(front + [last], d) == if d == last.denom then last.amount else Amount(front, d)
  {
    if front == [] {
      assert front + [last] == [last];
    } else {
      assert (front + [last])[1..] == front[1..] + [last];
      AmountOfLast(front[1..], last, d);
      assert (front + [last])[0] == front[0] && (front + [last])[|front|] == last;
      ByteOrder.Irreflexive(last.denom);
    }
  }

  lemma NotAmong(front: CoinSet, last: Coin)
    requires Sorted(front + [last])
    ensures forall i :: 0 <= i < |front| ==> front[i].denom != last.denom
  {
    ByteOrder.Irreflexive(last.denom);
    forall i | 0 <= i < |front| ensures front[i].denom != last.denom {
      assert (front + [last])[i] == front[i] && (front + [last])[|front|] == last;
    }
  }

  lemma MappedNext(coins: CoinSet, i: nat, f: int -> int)
    requires Sorted(coins) && i < |coins|
    ensures Mapped(coins[..i + 1], f) == Mapped(coins[..i], f) + Kept(Coin(coins[i].denom, f(coins[i].amount)))
    ensures Sorted(Mapped(coins[..i + 1], f)) && ZeroFree(Mapped(coins[..i], f))
  {
    assert coins[..i + 1][..i] == coins[..i];
    MappedShape(coins[..i + 1], f);
    MappedShape(coins[..i], f);
  }

  /** Adding a coin to the set collected so far, unless it is zero. */
  method Collect(collected: CoinSet, coin: Coin, bits: nat) returns (r: CoinSet)
    requires Sorted(collected + Kept(coin)) && ZeroFree(collected)
    ensures r == collected + Kept(coin)
  {
    if coin.amount == 0 {
      return collected;
    }
    assert Kept(coin) == [coin];
    SumAppendsLast(collected, coin, bits);
    var added := SafeAdd(collected, [coin], bits);
    return added.value;
  }

  /** DecCoin.TruncateDecimal: one coin split into its whole part and its change.  Both
      constructors panic on an invalid denom or a negative amount. */
  method TruncateCoin(coin: Coin) returns (r: Result<(Coin, Coin), CoinError>)
    ensures r == if !Bounded(WholePart(coin.amount)) then Failure(Panicked(Overflow))
                 else if !ValidDenom(coin.denom) then Failure(InvalidDenom)
                 else if coin.amount < 0 then Failure(NegativeAmount)
                 else Success((Coin(coin.denom, WholePart(coin.amount)), Coin(coin.denom, Change(coin.amount))))
  {
    Decimal.TruncateIntIff(coin.amount);
    SplitSigns(coin.amount);
    var truncated :- Lift(Decimal.TruncateInt(coin.amount));
    var change := coin.amount - truncated * P;
    var whole :- NewCoin(coin.denom, truncated);
    var rest :- NewCoin(coin.denom, change);
    return Success((whole, rest));
  }

  /** Both parts have the sign of the amount, and a negative amount leaves a negative part. */
  lemma SplitSigns(amount: int)
    ensures amount >= 0 ==> WholePart(amount) >= 0 && Change(amount) >= 0
    ensures amount < 0 ==> WholePart(amount) < 0 || Change(amount) < 0
  {
  }

  /** DecCoins.TruncateDecimal: the whole parts and the change, each collected with Add.  On a
      valid set it panics only when a whole part does not fit in 255 bits. */
  method TruncateDecimal(coins: CoinSet) returns (r: Result<(CoinSet, CoinSet), CoinError>)
    requires Valid(coins)
    ensures r.Success? <==> forall i :: 0 <= i < |coins| ==> Bounded(WholePart(coins[i].amount))
    ensures r.Failure? ==> r.error == Panicked(Overflow)
    ensures r.Success? ==> r.value == (Mapped(coins, WholePart), Mapped(coins, Change))
  {
    var truncatedCoins: CoinSet, changeCoins: CoinSet := [], [];
    for i := 0 to |coins|
      invariant truncatedCoins == Mapped(coins[..i], WholePart)
      invariant changeCoins == Mapped(coins[..i], Change)
      invariant forall j :: 0 <= j < i ==> Bounded(WholePart(coins[j].amount))
    {
      var parts :- TruncateCoin(coins[i]);
      var (truncated, change) := parts;
      MappedNext(coins, i, WholePart);
      MappedNext(coins, i, Change);
      truncatedCoins := Collect(truncatedCoins, truncated, MAX_BIT_LEN);
      changeCoins := Collect(changeCoins, change, Decimal.MAX_DEC_BIT_LEN);
    }
    assert coins[..|coins|] == coins;
    return Success((truncatedCoins, changeCoins));
  }

  /** Truncation conserves value: per denom the whole part and the change add up to the input,
      the change is below one unit, and both results are valid sets. */
  lemma TruncationConserves(coins: CoinSet, d: string)
    requires Valid(coins)
    ensures Amount(Mapped(coins, WholePart), d) * P + Amount(Mapped(coins, Change), d) == Amount(coins, d)
    ensures 0 <= Amount(Mapped(coins, Change), d) < P && Amount(Mapped(coins, WholePart), d) >= 0
    ensures Valid(Mapped(coins, WholePart)) && Valid(Mapped(coins, Change))
  {
    MappedAmount(coins, WholePart, d);
    MappedAmount(coins, Change, d);
    AmountNonNegative(coins, d);
    if Amount(coins, d) > 0 { SplitAmount(Amount(coins, d)); }
    MappedValid(coins, WholePart);
    MappedValid(coins, Change);
  }

  lemma MappedValid(coins: CoinSet, f: int -> int)
    requires Valid(coins) && (forall x :: x > 0 ==> f(x) >= 0)
    ensures Valid(Mapped(coins, f))
  {
    MappedShape(coins, f);
  }

  // ---- Intersect

  function MinDec(x: int, y: int): int {
    if x < y then x else y
  }

  /** DecCoins.Intersect: every coin cut down to what the other set holds; zeros removed. */
  method Intersect(a: CoinSet, b: CoinSet) returns (r: CoinSet)
    requires Valid(a) && Valid(b)
    ensures Valid(r)
    ensures forall d :: Amount(r, d) == MinDec(Amount(a, d), Amount(b, d))
  {
    var res: CoinSet := [];
    for i := 0 to |a|
      invariant |res| == i
      invariant forall j :: 0 <= j < i ==> res[j] == Coin(a[j].denom, MinDec(a[j].amount, Amount(b, a[j].denom)))
    {
      SearchIsLookup(b, a[i].denom);
      res := res + [Coin(a[i].denom, MinDec(a[i].amount, AmountOf(b, a[i].denom).value))];
    }
    IntersectMeaning(a, b, res);
    r := RemoveZeroCoins(res);
    NonZeroMeaning(res, "");
    forall i | 0 <= i < |res| ensures res[i].amount >= 0 { AmountNonNegative(b, a[i].denom); }
    NonZeroValid(res);
  }

  lemma IntersectMeaning(a: CoinSet, b: CoinSet, res: CoinSet)
    requires Valid(a) && Valid(b) && |res| == |a|
    requires forall j :: 0 <= j < |a| ==> res[j] == Coin(a[j].denom, MinDec(a[j].amount, Amount(b, a[j].denom)))
    ensures Sorted(res) && forall d :: Amount(res, d) == MinDec(Amount(a, d), Amount(b, d))
  {
    forall d ensures Amount(res, d) == MinDec(Amount(a, d), Amount(b, d)) {
      AmountNonNegative(b, d);
      if i :| 0 <= i < |a| && a[i].denom == d {
        AmountAt(a, i);
        AmountAt(res, i);
      } else {
        AbsentAmount(a, d);
        AbsentAmount(res, d);
      }
    }
  }

  lemma {:induction false} NonZeroValid(coins: CoinSet)
    requires forall i :: 0 <= i < |coins| ==> coins[i].amount >= 0 && ValidDenom(coins[i].denom)
    ensures forall i :: 0 <= i < |NonZero(coins)| ==> NonZero(coins)[i].amount > 0 && ValidDenom(NonZero(coins)[i].denom)
  {
    if coins != [] {
      NonZeroValid(coins[1..]);
    }
  }

  /** The intersection is the per-denom minimum, so it does not depend on the order. */
  lemma IntersectionUnique(a: CoinSet, b: CoinSet, ab: CoinSet, ba: CoinSet)
    requires Valid(ab) && Valid(ba)
    requires forall d :: Amount(ab, d) == MinDec(Amount(a, d), Amount(b, d))
    requires forall d :: Amount(ba, d) == MinDec(Amount(b, d), Amount(a, d))
    ensures ab == ba
  {
    Extensional(ab, ba);
  }
}
