/** usecase/coin/coin.go: looking up and comparing sorted coin sets. */
module CoinCompare {
  import opened Wrappers
  import opened SingleCoin
  import opened Coins
  import ByteOrder

  /** The binary search inside AmountOf. */
  function Search(coins: CoinSet, denom: string): int
    decreases |coins|
  {
    if |coins| == 0 then 0
    else if |coins| == 1 then if coins[0].denom == denom then coins[0].amount else 0
    else
      var midIdx := |coins| / 2;
      if ByteOrder.Less(denom, coins[midIdx].denom) then Search(coins[..midIdx], denom)
      else if denom == coins[midIdx].denom then coins[midIdx].amount
      else Search(coins[midIdx + 1..], denom)
  }

  /** AmountOf panics on an invalid denom. */
  function AmountOf(coins: CoinSet, denom: string): Option<int> {
    if ValidDenom(denom) then Some(Search(coins, denom)) else None
  }

  lemma {:induction false} AbsentAmount(coins: CoinSet, denom: string)
    requires forall i :: 0 <= i < |coins| ==> coins[i].denom != denom
    ensures Amount(coins, denom) == 0
  {
    if coins != [] {
      AbsentAmount(coins[1..], denom);
    }
  }

  lemma {:induction false} SearchFinds(coins: CoinSet, i: nat)
    requires Sorted(coins) && i < |coins|
    ensures Search(coins, coins[i].denom) == coins[i].amount
    decreases |coins|
  {
    if |coins| > 1 {
      var midIdx, denom := |coins| / 2, coins[i].denom;
      ByteOrder.Trichotomy(denom, coins[midIdx].denom);
      if i < midIdx {
        assert ByteOrder.Less(denom, coins[midIdx].denom);
        SearchFinds(coins[..midIdx], i);
      } else if i > midIdx {
        assert ByteOrder.Less(coins[midIdx].denom, denom);
        SearchFinds(coins[midIdx + 1..], i - midIdx - 1);
      }
    }
  }

  lemma {:induction false} SearchMisses(coins: CoinSet, denom: string)
    requires forall i :: 0 <= i < |coins| ==> coins[i].denom != denom
    ensures Search(coins, denom) == 0
    decreases |coins|
  {
    if |coins| > 1 {
      SearchMisses(coins[..|coins| / 2], denom);
      SearchMisses(coins[|coins| / 2 + 1..], denom);
    }
  }

  /** On sorted sets binary search finds what a linear scan finds. */
  lemma SearchIsLookup(coins: CoinSet, denom: string)
    requires Sorted(coins)
    ensures Search(coins, denom) == Amount(coins, denom)
  {
    if i :| 0 <= i < |coins| && coins[i].denom == denom {
      SearchFinds(coins, i);
      AmountAt(coins, i);
    } else {
      SearchMisses(coins, denom);
      AbsentAmount(coins, denom);
    }
  }

  // ---- comparisons

  /** The methods below look a denom up only when it comes from a valid set, where AmountOf does
      not panic. */
  method DenomsSubsetOf(coins: CoinSet, coinsB: CoinSet) returns (r: bool)
    requires Valid(coins) && Valid(coinsB)
    ensures r <==> |coins| <= |coinsB| && forall i :: 0 <= i < |coins| ==> Amount(coinsB, coins[i].denom) != 0
    ensures r <==> forall i :: 0 <= i < |coins| ==> Amount(coinsB, coins[i].denom) != 0
  {
    if forall i :: 0 <= i < |coins| ==> Amount(coinsB, coins[i].denom) != 0 {
      NoMoreDenoms(coins, coinsB);
    }
    if |coins| > |coinsB| {
      return false;
    }
    for i := 0 to |coins|
      invariant forall j :: 0 <= j < i ==> Amount(coinsB, coins[j].denom) != 0
    {
      SearchIsLookup(coinsB, coins[i].denom);
      if AmountOf(coinsB, coins[i].denom).value == 0 {
        return false;
      }
    }
    return true;
  }

  function DenomSet(coins: CoinSet): set<string> {
    set i | 0 <= i < |coins| :: coins[i].denom
  }

  lemma {:induction false} DenomSetSize(coins: CoinSet)
    requires Sorted(coins)
    ensures |DenomSet(coins)| == |coins|
  {
    if coins != [] {
      SortedTail(coins);
      DenomSetSize(coins[1..]);
      assert coins[0].denom !in DenomSet(coins[1..]) by { ByteOrder.Irreflexive(coins[0].denom); }
      assert DenomSet(coins) == {coins[0].denom} + DenomSet(coins[1..]) by {
        forall d | d in DenomSet(coins) ensures d in {coins[0].denom} + DenomSet(coins[1..]) {
          var i :| 0 <= i < |coins| && coins[i].denom == d;
          if i > 0 { assert coins[1..][i - 1].denom == d; }
        }
        forall d | d in DenomSet(coins[1..]) ensures d in DenomSet(coins) {
          var i :| 0 <= i < |coins[1..]| && coins[1..][i].denom == d;
          assert coins[i + 1].denom == d;
        }
      }
    }
  }

  lemma SubsetSize(s: set<string>, t: set<string>)
    requires s <= t
    ensures |s| <= |t|
    decreases s
  {
    if s != {} {
      var x :| x in s;
      SubsetSize(s - {x}, t - {x});
    }
  }

  lemma PresentAmount(coins: CoinSet, denom: string)
    requires Amount(coins, denom) != 0
    ensures denom in DenomSet(coins)
  {
    if denom !in DenomSet(coins) {
      AbsentAmount(coins, denom);
    }
  }

  /** The length shortcut is sound: a set that has every denom of another has no fewer entries. */
  lemma NoMoreDenoms(a: CoinSet, b: CoinSet)
    requires Sorted(a) && Sorted(b)
    requires forall i :: 0 <= i < |a| ==> Amount(b, a[i].denom) != 0
    ensures |a| <= |b|
  {
    forall d | d in DenomSet(a) ensures d in DenomSet(b) {
      PresentAmount(b, d);
    }
    DenomSetSize(a);
    DenomSetSize(b);
    SubsetSize(DenomSet(a), DenomSet(b));
  }

  /** IsAllGT holds exactly when the receiver has some coin and exceeds the argument on every
      denom of the argument. */
  method IsAllGT(coins: CoinSet, coinsB: CoinSet) returns (r: bool)
    requires Valid(coins) && Valid(coinsB)
    ensures r <==> coins != [] && forall i :: 0 <= i < |coinsB| ==> Amount(coins, coinsB[i].denom) > coinsB[i].amount
  {
    if |coins| == 0 {
      return false;
    }
    if |coinsB| == 0 {
      return true;
    }
    var subset := DenomsSubsetOf(coinsB, coins);
    if !subset {
      return false;
    }
    for i := 0 to |coinsB|
      invariant forall j :: 0 <= j < i ==> Amount(coins, coinsB[j].denom) > coinsB[j].amount
    {
      SearchIsLookup(coins, coinsB[i].denom);
      if AmountOf(coins, coinsB[i].denom).value <= coinsB[i].amount {
        return false;
      }
    }
    return true;
  }

  /** IsAllGTE holds exactly when the receiver dominates the argument on every denom. */
  method IsAllGTE(coins: CoinSet, coinsB: CoinSet) returns (r: bool)
    requires Valid(coins) && Valid(coinsB)
    ensures r <==> forall d :: Amount(coins, d) >= Amount(coinsB, d)
  {
    DominatesByEntries(coins, coinsB);
    if |coinsB| == 0 {
      return true;
    }
    if |coins| == 0 {
      AmountAt(coinsB, 0);
      return false;
    }
    for i := 0 to |coinsB|
      invariant forall j :: 0 <= j < i ==> coinsB[j].amount <= Amount(coins, coinsB[j].denom)
    {
      SearchIsLookup(coins, coinsB[i].denom);
      if coinsB[i].amount > AmountOf(coins, coinsB[i].denom).value {
        return false;
      }
    }
    return true;
  }

  lemma DominatesByEntries(a: CoinSet, b: CoinSet)
    requires Valid(a) && Valid(b)
    ensures (forall d :: Amount(a, d) >= Amount(b, d))
            <==> forall i :: 0 <= i < |b| ==> b[i].amount <= Amount(a, b[i].denom)
  {
    if forall d :: Amount(a, d) >= Amount(b, d) {
      forall i | 0 <= i < |b| ensures b[i].amount <= Amount(a, b[i].denom) {
        AmountAt(b, i);
      }
    } else {
      var d :| Amount(a, d) < Amount(b, d);
      DominatedEntry(a, b, d);
    }
  }

  lemma DominatedEntry(a: CoinSet, b: CoinSet, d: string)
    requires Valid(a) && Valid(b) && Amount(a, d) < Amount(b, d)
    ensures exists i :: 0 <= i < |b| && b[i].amount > Amount(a, b[i].denom)
  {
    AmountNonNegative(a, d);
    if i :| 0 <= i < |b| && b[i].denom == d {
      AmountAt(b, i);
    } else {
      AbsentAmount(b, d);
      assert false;
    }
  }

  /** IsAllGTE and SafeSub agree: one holds exactly when the other reports no negative. */
  lemma DominanceIffSafeSub(a: CoinSet, b: CoinSet, bits: nat)
    requires Valid(a) && Valid(b) && AllFit(a, bits) && AllFit(b, bits)
    ensures SafeSub(a, b, bits).Success?
    ensures !SafeSub(a, b, bits).value.1 <==> forall i :: 0 <= i < |b| ==> b[i].amount <= Amount(a, b[i].denom)
  {
    SafeSubTotal(a, b, bits);
    SafeSubIffDominates(a, b, bits);
    DominatesByEntries(a, b);
  }
}
