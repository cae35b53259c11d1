/** usecase/coin/coin.go: denominations and single coins. */
module SingleCoin {
  import opened Wrappers
  import IntBounds

  predicate IsLetter(c: char) {
    'a' <= c <= 'z' || 'A' <= c <= 'Z'
  }

  predicate IsDenomTail(c: char) {
    IsLetter(c) || '0' <= c <= '9' || c == '/'
  }

  /** ValidateDenom: a letter, then 2 to 127 letters, digits or slashes. */
  predicate ValidDenom(denom: string) {
    && 3 <= |denom| <= 128
    && IsLetter(denom[0])
    && forall i :: 1 <= i < |denom| ==> IsDenomTail(denom[i])
  }

  /** The limits of the expression: three to 128 characters, a letter in front, no digit or slash
      there, and nothing but letters, digits and slashes. */
  lemma DenomLimits(n: nat)
    ensures ValidDenom(seq(n, _ => 'a')) <==> 3 <= n <= 128
    ensures ValidDenom("a0/") && ValidDenom("Zz9") && !ValidDenom("0aa") && !ValidDenom("/aa") && !ValidDenom("a-a")
  {
    assert "a-a"[1] == '-';
  }

  datatype Coin = Coin(denom: string, amount: int)

  datatype CoinError =
    | InvalidDenom
    | NegativeAmount
    | AlreadyRegistered
    | SourceNotRegistered
    | DestinationNotRegistered
    | Panicked(panic: IntBounds.Panic)

  function Lift(c: IntBounds.Checked): Result<int, CoinError> {
    match c
    case Success(x) => Success(x)
    case Failure(panic) => Failure(Panicked(panic))
  }

  function NewCoin(denom: string, amount: int): Result<Coin, CoinError> {
    if !ValidDenom(denom) then Failure(InvalidDenom)
    else if amount < 0 then Failure(NegativeAmount)
    else Success(Coin(denom, amount))
  }
}
