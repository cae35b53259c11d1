/** projection/ibc_channel: the two token lists of a channel row, and the four helpers that
    add to and subtract from them. */
module BondedTokens {
  import opened Wrappers
  import BigInt
  import IntBounds

  datatype Token = Token(denom: string, amount: int)

  datatype LedgerError = DenomNotFound | AmountOverflow | ChannelNotFound | BadAmount

  type Tokens = seq<Token>

  /** The amount recorded for a denom: that of its first entry, 0 when there is none. */
  function Balance(tokens: Tokens, denom: string): int {
    if tokens == [] then 0
    else if tokens[0].denom == denom then tokens[0].amount
    else Balance(tokens[1..], denom)
  }

  predicate Has(tokens: Tokens, denom: string) {
    exists i :: 0 <= i < |tokens| && tokens[i].denom == denom
  }

  /** What an honest ledger looks like: one entry per denom, each of a positive amount
      that fits in 255 bits. */
  predicate Sound(tokens: Tokens) {
    && (forall i, j :: 0 <= i < j < |tokens| ==> tokens[i].denom != tokens[j].denom)
    && (forall i :: 0 <= i < |tokens| ==> tokens[i].amount > 0 && IntBounds.Bounded(tokens[i].amount))
  }

  /** addTokenOn...Chain: grow the first entry of the denom, or append a new one. */
  function Added(tokens: Tokens, token: Token): Result<Tokens, LedgerError> {
    if tokens == [] then Success([token])
    else if tokens[0].denom == token.denom then
      var sum := IntBounds.Add(tokens[0].amount, token.amount);
      if sum.Failure? then Failure(AmountOverflow)
      else Success([Token(token.denom, sum.value)] + tokens[1..])
    else
      var rest :- Added(tokens[1..], token);
      Success([tokens[0]] + rest)
  }

  /** subtractTokenOn...Chain: shrink the first entry of the denom and drop it at zero. */
  function Subtracted(tokens: Tokens, token: Token): Result<Tokens, LedgerError> {
    if tokens == [] then Failure(DenomNotFound)
    else if tokens[0].denom == token.denom then
      var difference := IntBounds.Sub(tokens[0].amount, token.amount);
      if difference.Failure? then Failure(AmountOverflow)
      else if difference.value == 0 then Success(tokens[1..])
      else Success([Token(token.denom, difference.value)] + tokens[1..])
    else
      var rest :- Subtracted(tokens[1..], token);
      Success([tokens[0]] + rest)
  }

  /** The BondedTokens object that is read from a row, edited in place and written back. */
  class BondedTokens {
    var onThisChain: Tokens
    var onCounterpartyChain: Tokens

    constructor (onThisChain: Tokens, onCounterpartyChain: Tokens)
      ensures this.onThisChain == onThisChain
      ensures this.onCounterpartyChain == onCounterpartyChain
    {
      this.onThisChain := onThisChain;
      this.onCounterpartyChain := onCounterpartyChain;
    }

    method AddTokenOnThisChain(token: Token) returns (r: Result<(), LedgerError>)
      modifies this`onThisChain
      ensures Applied(r, Added(old(onThisChain), token), old(onThisChain), onThisChain)
    {
      var updated := AddToken(onThisChain, token);
      if updated.Failure? {
        return Failure(updated.error);
      }
      onThisChain := updated.value;
      return Success(());
    }

    method AddTokenOnCounterpartyChain(token: Token) returns (r: Result<(), LedgerError>)
      modifies this`onCounterpartyChain
      ensures Applied(r, Added(old(onCounterpartyChain), token), old(onCounterpartyChain), onCounterpartyChain)
    {
      var updated := AddToken(onCounterpartyChain, token);
      if updated.Failure? {
        return Failure(updated.error);
      }
      onCounterpartyChain := updated.value;
      return Success(());
    }

    method SubtractTokenOnThisChain(token: Token) returns (r: Result<(), LedgerError>)
      modifies this`onThisChain
      ensures Applied(r, Subtracted(old(onThisChain), token), old(onThisChain), onThisChain)
    {
      var updated := SubtractToken(onThisChain, token);
      if updated.Failure? {
        return Failure(updated.error);
      }
      onThisChain := updated.value;
      return Success(());
    }

    method SubtractTokenOnCounterpartyChain(token: Token) returns (r: Result<(), LedgerError>)
      modifies this`onCounterpartyChain
      ensures Applied(r, Subtracted(old(onCounterpartyChain), token), old(onCounterpartyChain), onCounterpartyChain)
    {
      var updated := SubtractToken(onCounterpartyChain, token);
      if updated.Failure? {
        return Failure(updated.error);
      }
      onCounterpartyChain := updated.value;
      return Success(());
    }
  }

  /** A helper either stores the specified list, or reports the error and stores nothing. */
  predicate Applied(r: Result<(), LedgerError>, spec: Result<Tokens, LedgerError>, before: Tokens, after: Tokens) {
    match spec
    case Success(tokens) => r.Success? && after == tokens
    case Failure(error) => r == Failure(error) && after == before
  }

  /** The scan shared by the two add helpers. */
  method AddToken(tokens: Tokens, token: Token) returns (r: Result<Tokens, LedgerError>)
    ensures r == Added(tokens, token)
  {
    var i := 0;
    while i < |tokens|
      invariant 0 <= i <= |tokens|
      invariant forall j :: 0 <= j < i ==> tokens[j].denom != token.denom
    {
      if tokens[i].denom == token.denom {
        AddedAt(tokens, token, i);
        var sum := IntBounds.Add(tokens[i].amount, token.amount);
        if sum.Failure? {
          return Failure(AmountOverflow);
        }
        return Success(tokens[i := Token(token.denom, sum.value)]);
      }
      i := i + 1;
    }
    AddedNew(tokens, token);
    return Success(tokens + [token]);
  }

  /** The scan shared by the two subtract helpers. */
  method SubtractToken(tokens: Tokens, token: Token) returns (r: Result<Tokens, LedgerError>)
    ensures r == Subtracted(tokens, token)
  {
    var i := 0;
    while i < |tokens|
      invariant 0 <= i <= |tokens|
      invariant forall j :: 0 <= j < i ==> tokens[j].denom != token.denom
    {
      if tokens[i].denom == token.denom {
        SubtractedAt(tokens, token, i);
        var difference := IntBounds.Sub(tokens[i].amount, token.amount);
        if difference.Failure? {
          return Failure(AmountOverflow);
        }
        if difference.value == 0 {
          return Success(tokens[..i] + tokens[i + 1..]);
        }
        return Success(tokens[i := Token(token.denom, difference.value)]);
      }
      i := i + 1;
    }
    SubtractedMissing(tokens, token);
    return Failure(DenomNotFound);
  }

  lemma {:induction false} AddedAt(tokens: Tokens, token: Token, i: nat)
    requires i < |tokens| && tokens[i].denom == token.denom
    requires forall j :: 0 <= j < i ==> tokens[j].denom != token.denom
    ensures var sum := IntBounds.Add(tokens[i].amount, token.amount);
            Added(tokens, token) == if sum.Failure? then Failure(AmountOverflow)
                                    else Success(tokens[i := Token(token.denom, sum.value)])
  {
    if i > 0 {
      AddedAt(tokens[1..], token, i - 1);
      var sum := IntBounds.Add(tokens[i].amount, token.amount);
      if sum.Success? {
        var t := Token(token.denom, sum.value);
        assert [tokens[0]] + tokens[1..][i - 1 := t] == tokens[i := t];
      }
    } else if IntBounds.Add(tokens[0].amount, token.amount).Success? {
      var t := Token(token.denom, IntBounds.Add(tokens[0].amount, token.amount).value);
      assert [t] + tokens[1..] == tokens[0 := t];
    }
  }

  lemma {:induction false} AddedNew(tokens: Tokens, token: Token)
    requires !Has(tokens, token.denom)
    ensures Added(tokens, token) == Success(tokens + [token])
  {
    if tokens != [] {
      HasTail(tokens, token.denom);
      AddedNew(tokens[1..], token);
      assert [tokens[0]] + (tokens[1..] + [token]) == tokens + [token];
    } else {
      assert tokens + [token] == [token];
    }
  }

  lemma {:induction false} SubtractedAt(tokens: Tokens, token: Token, i: nat)
    requires i < |tokens| && tokens[i].denom == token.denom
    requires forall j :: 0 <= j < i ==> tokens[j].denom != token.denom
    ensures var difference := IntBounds.Sub(tokens[i].amount, token.amount);
            Subtracted(tokens, token) == if difference.Failure? then Failure(AmountOverflow)
                                         else if difference.value == 0 then Success(tokens[..i] + tokens[i + 1..])
                                         else Success(tokens[i := Token(token.denom, difference.value)])
  {
    var difference := IntBounds.Sub(tokens[i].amount, token.amount);
    if i > 0 {
      SubtractedAt(tokens[1..], token, i - 1);
      assert [tokens[0]] + (tokens[1..][..i - 1] + tokens[1..][i..]) == tokens[..i] + tokens[i + 1..];
      if difference.Success? {
        var t := Token(token.denom, difference.value);
        assert [tokens[0]] + tokens[1..][i - 1 := t] == tokens[i := t];
      }
    } else {
      assert tokens[..0] + tokens[1..] == tokens[1..];
      if difference.Success? {
        var t := Token(token.denom, difference.value);
        assert [t] + tokens[1..] == tokens[0 := t];
      }
    }
  }

  lemma {:induction false} SubtractedMissing(tokens: Tokens, token: Token)
    requires !Has(tokens, token.denom)
    ensures Subtracted(tokens, token) == Failure(DenomNotFound)
  {
    if tokens != [] {
      HasTail(tokens, token.denom);
      SubtractedMissing(tokens[1..], token);
    }
  }

  lemma HasTail(tokens: Tokens, denom: string)
    requires tokens != []
    ensures Has(tokens, denom) <==> tokens[0].denom == denom || Has(tokens[1..], denom)
  {
    if Has(tokens[1..], denom) {
      var i :| 0 <= i < |tokens[1..]| && tokens[1..][i].denom == denom;
      assert tokens[i + 1].denom == denom;
    }
    if Has(tokens, denom) && tokens[0].denom != denom {
      var i :| 0 <= i < |tokens| && tokens[i].denom == denom;
      assert tokens[1..][i - 1].denom == denom;
    }
  }

  /** In a sound list an entry is present exactly when its balance is positive. */
  lemma {:induction false} PresentIffPositive(tokens: Tokens, denom: string)
    requires Sound(tokens)
    ensures Balance(tokens, denom) >= 0
    ensures Has(tokens, denom) <==> Balance(tokens, denom) > 0
  {
    if tokens != [] {
      HasTail(tokens, denom);
      PresentIffPositive(tokens[1..], denom);
    }
  }

  /** Adding a positive amount moves one balance by exactly that amount, keeps the list sound,
      and is refused only when the new balance would not fit in 255 bits. */
  lemma {:induction false} AddedEffect(tokens: Tokens, token: Token)
    requires Sound(tokens) && token.amount > 0 && IntBounds.Bounded(token.amount)
    ensures match Added(tokens, token)
            case Success(after) =>
              && IntBounds.Bounded(Balance(tokens, token.denom) + token.amount)
              && Sound(after)
              && (forall d :: Has(after, d) <==> Has(tokens, d) || d == token.denom)
              && (forall d :: Balance(after, d) == Balance(tokens, d) + (if d == token.denom then token.amount else 0))
            case Failure(error) =>
              error == AmountOverflow && !IntBounds.Bounded(Balance(tokens, token.denom) + token.amount)
  {
    if tokens == [] {
      assert forall d :: Balance([token], d) == if d == token.denom then token.amount else 0;
      assert Has([token], token.denom) by { assert [token][0].denom == token.denom; }
    } else {
      forall d ensures Has(tokens, d) <==> tokens[0].denom == d || Has(tokens[1..], d) { HasTail(tokens, d); }
      BoundedCheck(tokens[0].amount + token.amount);
      if tokens[0].denom != token.denom {
        AddedEffect(tokens[1..], token);
      }
      if Added(tokens, token).Success? {
        ConsSound(tokens, token, Added(tokens, token).value);
      }
    }
  }

  lemma BoundedCheck(x: int)
    ensures IntBounds.Check(x) == if IntBounds.Bounded(x) then Success(x) else Failure(IntBounds.Overflow)
  {
    BigInt.BitLenExceeds(x, IntBounds.MAX_BIT_LEN);
  }

  /** The head/tail bookkeeping of AddedEffect. */
  lemma ConsSound(tokens: Tokens, token: Token, after: Tokens)
    requires tokens != [] && Sound(tokens) && after != [] && after[0].denom == tokens[0].denom
    requires after[0].amount > 0 && IntBounds.Bounded(after[0].amount)
    requires Sound(after[1..])
    requires forall d :: Has(after[1..], d) ==> Has(tokens[1..], d) || (d == token.denom && d != tokens[0].denom)
    ensures Sound(after)
    ensures forall d :: Has(after, d) <==> tokens[0].denom == d || Has(after[1..], d)
  {
    forall d ensures Has(after, d) <==> tokens[0].denom == d || Has(after[1..], d) { HasTail(after, d); }
    forall j | 1 <= j < |after| ensures after[0].denom != after[j].denom {
      assert after[1..][j - 1].denom == after[j].denom;
      assert Has(after[1..], after[j].denom);
    }
    forall i, j | 0 <= i < j < |after| ensures after[i].denom != after[j].denom {
      if i > 0 { assert after[1..][i - 1] == after[i] && after[1..][j - 1] == after[j]; }
    }
    forall i | 0 <= i < |after| ensures after[i].amount > 0 && IntBounds.Bounded(after[i].amount) {
      if i > 0 { assert after[1..][i - 1] == after[i]; }
    }
  }

  /** Subtracting no more than the balance never fails, moves that one balance, and keeps the
      list sound; an absent denom is the only "not found". */
  lemma {:induction false} SubtractedEffect(tokens: Tokens, token: Token)
    requires Sound(tokens)
    requires 0 < token.amount && (Has(tokens, token.denom) ==> token.amount <= Balance(tokens, token.denom))
    ensures match Subtracted(tokens, token)
            case Success(after) =>
              && Has(tokens, token.denom) && Sound(after)
              && (forall d :: Has(after, d) ==> Has(tokens, d))
              && (forall d :: Balance(after, d) == Balance(tokens, d) - (if d == token.denom then token.amount else 0))
            case Failure(error) =>
              error == DenomNotFound && !Has(tokens, token.denom)
  {
    if tokens != [] {
      forall d ensures Has(tokens, d) <==> tokens[0].denom == d || Has(tokens[1..], d) { HasTail(tokens, d); }
      BoundedCheck(tokens[0].amount - token.amount);
      if tokens[0].denom != token.denom {
        SubtractedEffect(tokens[1..], token);
      } else if tokens[0].amount == token.amount {
        PresentIffPositive(tokens[1..], token.denom);
        assert !Has(tokens[1..], token.denom);
      }
      if Subtracted(tokens, token).Success? && (tokens[0].denom != token.denom || tokens[0].amount != token.amount) {
        ConsSound(tokens, token, Subtracted(tokens, token).value);
      }
    }
  }
}
