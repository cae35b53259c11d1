/** usecase/coin/denom.go: the registry of denom units, and conversion between denoms. */
module Denoms {
  import opened Wrappers
  import opened BigInt
  import opened SingleCoin
  import IntBounds
  import Decimal

  // ---- the registry

  class DenomRegistry {
    var denomUnits: map<string, int>
    var baseDenom: string

    /** The base denom is a registered denom of minimal unit; it is missing only while nothing
        is registered. */
    ghost predicate Valid()
      reads this
    {
      && (baseDenom == "" <==> denomUnits == map[])
      && (forall d :: d in denomUnits ==> ValidDenom(d))
      && (baseDenom != "" ==>
            baseDenom in denomUnits && forall d :: d in denomUnits ==> denomUnits[baseDenom] <= denomUnits[d])
    }

    constructor ()
      ensures Valid() && denomUnits == map[]
    {
      denomUnits := map[];
      baseDenom := "";
    }

    /** The base moves only to a denom of strictly smaller unit, so the earliest of equals keeps it. */
    method RegisterDenom(denom: string, unit: int) returns (r: Result<(), CoinError>)
      requires Valid()
      modifies this
      ensures Valid()
      ensures r.Success? <==> ValidDenom(denom) && denom !in old(denomUnits)
      ensures r.Success? ==> denomUnits == old(denomUnits)[denom := unit]
      ensures r.Success? ==>
                baseDenom == if old(baseDenom) == "" || unit < old(denomUnits)[old(baseDenom)] then denom else old(baseDenom)
      ensures r.Failure? ==> denomUnits == old(denomUnits) && baseDenom == old(baseDenom)
      ensures r.Failure? ==> r.error == if ValidDenom(denom) then AlreadyRegistered else InvalidDenom
    {
      if !ValidDenom(denom) {
        return Failure(InvalidDenom);
      }
      if denom in denomUnits {
        return Failure(AlreadyRegistered);
      }
      denomUnits := denomUnits[denom := unit];
      if baseDenom == "" || unit < denomUnits[baseDenom] {
        baseDenom := denom;
      }
      return Success(());
    }
  }

  // ---- conversion

  function GetDenomUnit(units: map<string, int>, denom: string): Option<int> {
    if ValidDenom(denom) && denom in units then Some(units[denom]) else None
  }

  function ConvertCoin(units: map<string, int>, coin: Coin, denom: string): Result<Coin, CoinError> {
    if !ValidDenom(denom) then Failure(InvalidDenom)
    else
      var src := GetDenomUnit(units, coin.denom);
      if src.None? then Failure(SourceNotRegistered)
      else
        var dst := GetDenomUnit(units, denom);
        if dst.None? then Failure(DestinationNotRegistered)
        else if src == dst then NewCoin(denom, coin.amount)
        else
          var scaled :- Lift(Decimal.MulDec(coin.amount * Decimal.P, src.value));
          var quotient :- Lift(Decimal.QuoDec(scaled, dst.value));
          var amount :- Lift(Decimal.TruncateInt(quotient));
          NewCoin(denom, amount)
  }

  /** The amount ConvertCoin computes from n = amount * srcUnit and d = dstUnit, bounds aside. */
  function ConvertedAmount(n: int, d: int): int
    requires d != 0
  {
    Decimal.ChopTruncate(Decimal.ChopRound(Quo(n * Decimal.P * Decimal.P, d)))
  }

  /** Scaling a whole amount by the source unit is exact: the first rounding does nothing. */
  lemma WholeTimesUnitExact(amount: int, unit: int)
    ensures Decimal.ChopRound(amount * Decimal.P * unit) == amount * unit
  {
    assert amount * Decimal.P * unit == (amount * unit) * Decimal.P;
    Decimal.ChopRoundIsNearestEven((amount * unit) * Decimal.P, amount * unit);
  }

  /** Half-even rounding inside Quo followed by truncation yields the floor of n/d, plus one
      exactly when n/d lies within 1/(2P) of the next whole unit. */
  lemma ConvertedAmountExactly(n: nat, d: int)
    requires d > 0
    ensures ConvertedAmount(n, d) == n / d + (if 2 * Decimal.P * (d - n % d) <= d then 1 else 0)
  {
    DivNonNegative(n, d);
    DivScaled(n, d, PP);
    RoundThenTruncate(n / d, n % d * PP / d);
    FloorAtLeast(n % d * PP, d, PP - Decimal.FIVE_PRECISION);
    Threshold(n % d, d);
    assert n * Decimal.P * Decimal.P == n * PP;
  }

  const PP: int := Decimal.P * Decimal.P

  lemma Threshold(r: int, d: int)
    ensures r * PP >= (PP - Decimal.FIVE_PRECISION) * d <==> 2 * Decimal.P * (d - r) <= d
  {
  }

  lemma RoundThenTruncate(k: nat, s: nat)
    requires s < PP
    ensures Decimal.ChopTruncate(Decimal.ChopRound(k * PP + s))
            == k + (if s >= PP - Decimal.FIVE_PRECISION then 1 else 0)
  {
    var x := k * PP + s;
    assert x / Decimal.P == k * Decimal.P + s / Decimal.P;
    assert x % Decimal.P == s % Decimal.P;
  }

  /** The conversion mirrors in the sign of either operand, so it truncates toward zero. */
  lemma ConvertedAmountOdd(n: int, d: int)
    requires d != 0
    ensures ConvertedAmount(-n, d) == -ConvertedAmount(n, d)
    ensures ConvertedAmount(n, -d) == -ConvertedAmount(n, d)
  {
    var x := n * Decimal.P * Decimal.P;
    assert (-n) * Decimal.P * Decimal.P == -x;
    QuoOdd(x, d);
    ChopsOdd(Quo(x, d), Quo(-x, d));
    ChopsOdd(Quo(x, d), Quo(x, -d));
  }

  lemma ChopsOdd(x: int, y: int)
    requires y == -x
    ensures Decimal.ChopTruncate(Decimal.ChopRound(y)) == -Decimal.ChopTruncate(Decimal.ChopRound(x))
  {
    Decimal.ChopRoundOdd(x);
    QuoOdd(Decimal.ChopRound(x), Decimal.P);
  }

  /** The converted amount is the floor for every n exactly when the destination unit is below 2. */
  lemma ConversionIsFloorIff(d: int)
    requires d > 0
    ensures (forall n: nat :: ConvertedAmount(n, d) == n / d) <==> d < 2 * Decimal.P
  {
    if d < 2 * Decimal.P {
      forall n: nat ensures ConvertedAmount(n, d) == n / d {
        ConvertedAmountExactly(n, d);
      }
    } else {
      OneTooMany(d);
      assert ConvertedAmount(d - 1, d) != (d - 1) / d;
    }
  }

  lemma OneTooMany(d: int)
    requires d >= 2 * Decimal.P
    ensures ConvertedAmount(d - 1, d) == 1 && (d - 1) / d == 0
  {
    DivUnique(d - 1, d, 0, d - 1);
    ConvertedAmountExactly(d - 1, d);
  }

  /** ConvertCoin between registered denoms of different units: the converted amount, or a panic
      on the first of three results that does not fit. */
  lemma ConvertCoinOutcome(units: map<string, int>, coin: Coin, denom: string)
    requires ValidDenom(coin.denom) && ValidDenom(denom) && coin.denom in units && denom in units
    requires units[coin.denom] != units[denom] && units[denom] != 0
    ensures var n, d := coin.amount * units[coin.denom], units[denom];
            ConvertCoin(units, coin, denom)
            == if Decimal.DecBounded(n) && Decimal.DecBounded(Decimal.ChopRound(Quo(n * Decimal.P * Decimal.P, d)))
                  && IntBounds.Bounded(ConvertedAmount(n, d))
               then NewCoin(denom, ConvertedAmount(n, d)) else Failure(Panicked(IntBounds.Overflow))
  {
    var n, d := coin.amount * units[coin.denom], units[denom];
    WholeTimesUnitExact(coin.amount, units[coin.denom]);
    Decimal.CheckDecIff(n);
    Decimal.CheckDecIff(Decimal.ChopRound(Quo(n * Decimal.P * Decimal.P, d)));
    Decimal.TruncateIntIff(Decimal.ChopRound(Quo(n * Decimal.P * Decimal.P, d)));
  }

  /** The refusals, in the order of the checks, and the amount that is kept between equal units. */
  lemma ConvertCoinRefusals(units: map<string, int>, coin: Coin, denom: string)
    ensures var known := ValidDenom(coin.denom) && coin.denom in units;
            && (!ValidDenom(denom) ==> ConvertCoin(units, coin, denom) == Failure(InvalidDenom))
            && (ValidDenom(denom) && !known ==> ConvertCoin(units, coin, denom) == Failure(SourceNotRegistered))
            && (ValidDenom(denom) && known && denom !in units ==>
                  ConvertCoin(units, coin, denom) == Failure(DestinationNotRegistered))
            && (ValidDenom(denom) && known && denom in units && units[coin.denom] == units[denom] ==>
                  ConvertCoin(units, coin, denom)
                  == if coin.amount < 0 then Failure(NegativeAmount) else Success(Coin(denom, coin.amount)))
            && (ValidDenom(denom) && known && denom in units && units[coin.denom] != 0 == units[denom] ==>
                  ConvertCoin(units, coin, denom)
                  == Failure(Panicked(if Decimal.DecBounded(coin.amount * units[coin.denom]) then IntBounds.DivisionByZero
                                      else IntBounds.Overflow)))
  {
    if ValidDenom(coin.denom) && coin.denom in units {
      WholeTimesUnitExact(coin.amount, units[coin.denom]);
      Decimal.CheckDecIff(coin.amount * units[coin.denom]);
    }
  }

  /** One of the three intermediate results of a conversion, which are n, n/d in decimals and its
      whole part, does not fit. */
  predicate TooWide(n: int, d: int)
    requires d > 0
  {
    || !Decimal.DecBounded(n)
    || !Decimal.DecBounded(Decimal.ChopRound(Quo(n * Decimal.P * Decimal.P, d)))
    || !IntBounds.Bounded(Abs(n) / d)
  }

  /** To a denom whose unit is in (0, 2), ConvertCoin yields floor(amount * srcUnit / dstUnit) of
      the destination, and panics exactly on overflow. */
  lemma ConvertCoinIsFloor(units: map<string, int>, coin: Coin, denom: string)
    requires ValidDenom(coin.denom) && ValidDenom(denom) && coin.denom in units && denom in units
    requires coin.amount >= 0 && units[coin.denom] >= 0
    requires units[coin.denom] != units[denom] && 0 < units[denom] < 2 * Decimal.P
    ensures var n, d := coin.amount * units[coin.denom], units[denom];
            ConvertCoin(units, coin, denom)
            == if TooWide(n, d) then Failure(Panicked(IntBounds.Overflow)) else Success(Coin(denom, n / d))
  {
    var n, d := coin.amount * units[coin.denom], units[denom];
    ConvertCoinOutcome(units, coin, denom);
    MulMonotone(0, coin.amount, units[coin.denom]);
    ConvertedAmountExactly(n, d);
    DivNonNegative(n, d);
  }

  /** A coin worth just less than one destination unit of 2 or more converts into a whole one:
      for instance d - 1 of the smallest source unit, or 1 of source unit d - 1. */
  lemma ConvertCoinOneTooMany(units: map<string, int>, coin: Coin, denom: string)
    requires ValidDenom(coin.denom) && ValidDenom(denom) && coin.denom in units && denom in units
    requires units[denom] >= 2 * Decimal.P && Decimal.DecBounded(units[denom])
    requires units[coin.denom] != units[denom] && coin.amount * units[coin.denom] == units[denom] - 1
    ensures ConvertCoin(units, coin, denom) == Success(Coin(denom, 1)) && (units[denom] - 1) / units[denom] == 0
  {
    var d := units[denom];
    ConvertCoinOutcome(units, coin, denom);
    OneTooMany(d);
    QuotientBelowOne(d);
    SmallIsBounded();
  }

  lemma QuotientBelowOne(d: int)
    requires d > 0
    ensures 0 <= Decimal.ChopRound(Quo((d - 1) * Decimal.P * Decimal.P, d)) <= Decimal.P
  {
    var n := (d - 1) * Decimal.P * Decimal.P;
    assert n == (d - 1) * PP;
    DivNonNegative(n, d);
    FloorAtLeast(n, d, PP + 1);
    MulMonotone(0, PP, 1);
    assert Quo(n, d) == n / d <= PP;
  }

  lemma SmallIsBounded()
    ensures IntBounds.Bounded(1)
    ensures forall x :: 0 <= x <= Decimal.P ==> Decimal.DecBounded(x)
  {
    Decimal.PrecisionFitsIn64Bits();
    Pow2Monotone(64, Decimal.MAX_DEC_BIT_LEN);
    Pow2Monotone(64, IntBounds.MAX_BIT_LEN);
  }

  /** What a conversion should give: the floor, or the panic exactly on overflow. */
  predicate FloorOrOverflow(units: map<string, int>, coin: Coin, denom: string)
    requires coin.denom in units && denom in units && units[denom] > 0
  {
    var n, d := coin.amount * units[coin.denom], units[denom];
    ConvertCoin(units, coin, denom)
    == if TooWide(n, d) then Failure(Panicked(IntBounds.Overflow)) else Success(Coin(denom, n / d))
  }

  /** ConvertCoin is the floor for every amount and every other source unit exactly when the
      destination unit is below 2. */
  lemma ConvertCoinIsFloorIff(src: string, dst: string, d: int)
    requires ValidDenom(src) && ValidDenom(dst) && src != dst && d > 0 && Decimal.DecBounded(d)
    ensures (forall amount: nat, unit: nat :: unit != d ==> FloorOrOverflow(map[src := unit, dst := d], Coin(src, amount), dst))
            <==> d < 2 * Decimal.P
  {
    if d < 2 * Decimal.P {
      forall amount: nat, unit: nat | unit != d
        ensures FloorOrOverflow(map[src := unit, dst := d], Coin(src, amount), dst)
      {
        ConvertCoinIsFloor(map[src := unit, dst := d], Coin(src, amount), dst);
      }
    } else {
      FloorMissed(src, dst, d);
      assert !FloorOrOverflow(map[src := d - 1, dst := d], Coin(src, 1), dst);
    }
  }

  lemma FloorMissed(src: string, dst: string, d: int)
    requires ValidDenom(src) && ValidDenom(dst) && src != dst && d >= 2 * Decimal.P && Decimal.DecBounded(d)
    ensures !FloorOrOverflow(map[src := d - 1, dst := d], Coin(src, 1), dst)
  {
    ConvertCoinOneTooMany(map[src := d - 1, dst := d], Coin(src, 1), dst);
  }

  // ---- normalisation

  /** Conversion to the base denom, falling back to the coin itself on anything but a panic. */
  function NormalizeCoin(units: map<string, int>, baseDenom: string, coin: Coin): Result<Coin, CoinError> {
    if baseDenom == "" then Success(coin)
    else
      match ConvertCoin(units, coin, baseDenom)
      case Success(converted) => Success(converted)
      case Failure(Panicked(panic)) => Failure(Panicked(panic))
      case Failure(_) => Success(coin)
  }

  /** The coin is kept while nothing is registered, when its own denom is not registered, or when
      it would convert to a negative amount; otherwise the floor of its value in the base denom
      comes out; it panics exactly when the conversion overflows. */
  lemma NormalizeCoinExactly(units: map<string, int>, baseDenom: string, coin: Coin)
    requires forall d :: d in units ==> ValidDenom(d) && units[d] >= 0
    requires baseDenom != "" ==> baseDenom in units && 0 < units[baseDenom] < 2 * Decimal.P
    ensures baseDenom == "" || coin.denom !in units ==> NormalizeCoin(units, baseDenom, coin) == Success(coin)
    ensures baseDenom != "" && coin.denom in units && units[coin.denom] == units[baseDenom] ==>
              NormalizeCoin(units, baseDenom, coin) == Success(if coin.amount >= 0 then Coin(baseDenom, coin.amount) else coin)
    ensures baseDenom != "" && coin.denom in units && units[coin.denom] != units[baseDenom] ==>
              var n, d := coin.amount * units[coin.denom], units[baseDenom];
              NormalizeCoin(units, baseDenom, coin)
              == if TooWide(n, d) then Failure(Panicked(IntBounds.Overflow))
                 else Success(if coin.amount >= 0 then Coin(baseDenom, n / d)
                              else if Abs(n) / d == 0 then Coin(baseDenom, 0) else coin)
  {
    if baseDenom != "" && coin.denom in units && units[coin.denom] != units[baseDenom] {
      if coin.amount >= 0 {
        ConvertCoinIsFloor(units, coin, baseDenom);
      } else {
        ConvertNegative(units, coin, baseDenom);
      }
    }
  }

  lemma ConvertNegative(units: map<string, int>, coin: Coin, denom: string)
    requires ValidDenom(coin.denom) && ValidDenom(denom) && coin.denom in units && denom in units
    requires coin.amount < 0 && units[coin.denom] >= 0
    requires units[coin.denom] != units[denom] && 0 < units[denom] < 2 * Decimal.P
    ensures var n, d := coin.amount * units[coin.denom], units[denom];
            ConvertCoin(units, coin, denom)
            == if TooWide(n, d) then Failure(Panicked(IntBounds.Overflow))
               else if Abs(n) / d == 0 then Success(Coin(denom, 0)) else Failure(NegativeAmount)
  {
    var n, d := coin.amount * units[coin.denom], units[denom];
    assert n <= 0 by { MulMonotone(coin.amount, 0, units[coin.denom]); }
    assert Abs(n) == -n;
    ConvertCoinOutcome(units, coin, denom);
    NegativeOutcome(-n, d, denom);
  }

  lemma NegativeOutcome(n: int, d: int, denom: string)
    requires n >= 0 && 0 < d < 2 * Decimal.P && ValidDenom(denom)
    ensures IntBounds.Bounded(ConvertedAmount(-n, d)) == IntBounds.Bounded(n / d)
    ensures NewCoin(denom, ConvertedAmount(-n, d))
            == if n / d == 0 then Success(Coin(denom, 0)) else Failure(NegativeAmount)
  {
    NegatedFloor(n, d);
  }

  lemma NegatedFloor(n: int, d: int)
    requires n >= 0 && 0 < d < 2 * Decimal.P
    ensures ConvertedAmount(-n, d) == -(n / d) && n / d >= 0
  {
    ConvertedAmountOdd(n, d);
    ConvertedAmountExactly(n, d);
    DivNonNegative(n, d);
  }
}
