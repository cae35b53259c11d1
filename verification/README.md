# Chain indexing: a verified model

A Dafny model of the state-changing and arithmetic core of the chain indexer, with proofs about
it. `dafny verify dfyconfig.toml` checks all of it.

Four parts of the indexer are modelled, each in the form the Go code has: objects that are
updated in place are classes, loops are loops with invariants, recursion and pure expressions are
functions. Every loop or class method is proved equal to a specification function or states its
result outright; the theorems are about those functions and about runs of the state machines.

- **IBC bonded tokens** (`BondedTokens`, `IbcChannel`, `IbcLink`). The two token lists of a channel
  row and what transfer, receive, acknowledgement and timeout events do to them. `IbcLink` joins
  two chains, each with its own vouchers and escrow, and their two indexers by one channel, with
  packets in flight. What a chain may do depends on the chains alone. Over all honest runs of the
  packet relay of ICS-20 over ICS-04 the ledgers obey the conservation law and are true of the chains.
- **Decimals and coin sets** (`BigInt`, `IntBounds`, `Decimal`, `DecimalPower`, `NewtonSqrt`, `RelativePow`, `PowerError`,
  `Digits`, `DecimalText`, `ByteOrder`, `SortableDec`, `SingleCoin`, `Denoms`, `Coins`, `CoinCompare`,
  `DecCoins`, `DecCoinText`). 18-digit decimals over big integers with their rounding, powers and roots
  and how far these are from the exact ones, printer, parser and sortable encoding; sorted coin slices
  against the finite maps they stand for; unit conversion. A `Dec` is represented by the integer that is 10^18 times its value, a panic by a
  `Failure` result. `Coins` serves `Coins` and `DecCoins` alike: the code is the same on amounts of
  255 and of 315 bits, so the width is a parameter.
- **Block synchronisation** (`Window`, `SyncManager`, `EventStore`, `EventRegistry`, `ProjectionRunner`). Windows of
  concurrent workers, execution and commit of blocks with failures of any statement and crashes
  between any two steps, counted by an `Environment` so that a call can promise success when none
  happens, and the event-store mode in which independent runners chase the writer, as a transition
  system that refines direct mode.
- **Materialised totals** (`NftTotals`, `Proposals`). Counters that are updated incrementally
  against a recount of the tables. A database table is a map or a sequence, a transaction a copy that
  replaces the table or is dropped.

`Wrappers` holds `Option` and `Result`.

## Where the code departs from its documentation or its purpose

The model follows the code. The lemma named in each case gives the exact condition or the effect.

- The test whether a transferred token goes home compares the denom with `port/channel` and no
  separator, where ICS-20 has `port/channel/`. A denom such as `transfer/channel-10/uatom` sent over
  `channel-1` therefore stops the indexer with "denom not found", and only such denoms do
  (`IbcLink.SendFailsIffAmbiguous`).
- `SortableDecBytes` is documented to sort like the decimals; between two negative values above the
  minimum it is reversed (`SortableDec.SortsIff`).
- `ConvertCoin` yields the floor for every amount exactly when the destination unit is below 2.0
  (`Denoms.ConvertCoinIsFloorIff`, with failing coins in `Denoms.ConvertCoinOneTooMany`).
- `NewDecFromStr` takes a second sign after a leading minus, and any sign `SetString` takes
  (`DecimalText.AcceptedIsLiteral`).
- `QuoRoundUp` is not a ceiling when the inner division has dropped the whole remainder
  (`Decimal.RoundUpIsCeilingIff`, `Decimal.RoundUpMissesCeiling`).
- `ApproxSqrt` stops after a hundred rounds. That is enough up to 2^178; from 2^204 on it returns,
  without an error, at least four times the root (`NewtonSqrt.SqrtIsAccurate`,
  `NewtonSqrt.SqrtOvershoots`).
- An NFT edit that changes the drop moves the eight owner totals but not the owner-free ones, so the
  recount fails exactly then (`NftTotals.EditKeepsRecountIff`, `NftTotals.DropEditBreaksRecount`).
- The decrementing upsert of the totals creates a missing row at +1 (`NftTotals.DecrementAll`).
- The event registry has no decoder for genesis validators, so event-store mode stops in front of a
  genesis that lists one (`ProjectionRunner.GenesisValidatorsBlock`).
- A commit whose reply is lost leaves a runner of event-store mode one height behind what it has
  persisted. It then handles that height again, unless it is restarted first: a projection follows
  direct mode exactly as long as each height it handles is the one after its persisted height, a
  test the loop omits (`ProjectionRunner.StoreModeRefinesDirectIff`, `ProjectionRunner.LostReplyWitness`).
- A window of size zero makes a sync call with work to do go round for ever, and a negative one
  panics (`SyncManager.SyncManager.SyncBlocks`, `Window.WindowProgressIff`).

## Model

| member | source | states |
|---|---|---|
| IbcLink.CrossChainConservation | projection/ibc_channel/ibc_channel.go:789-987 | In every world reachable by honest sends, deliveries, refusals, acknowledgements and timeouts over one channel, for every token d of either chain and the key port/channel/d that d has across the channel: what its indexer records on the counterparty equals what the other indexer records on its own chain plus what of d is in flight in either direction; the two records are the escrow of d and the vouchers for it |
| IbcLink.NoOtherEntries | projection/ibc_channel/ibc_channel.go:789-987 | In every such world each entry of the two lists is under the port and channel of the chain it is held on |
| IbcLink.SendRaisesItsEntry | projection/ibc_channel/ibc_channel.go:838-879 | Sending a token that is not a voucher of the channel raises the counterparty entry port/channel/d by the amount and changes no other balance |
| IbcLink.StepKeepsInvariant | projection/ibc_channel/ibc_channel.go:368-716 | Any step the chains allow, judged by their own voucher holdings and not by the ledgers, whose denom the prefix test reads correctly keeps the invariant, or its amount or the balance it leads to exceeds 255 bits: no transfer, receive or revert ever hits "denom not found" |
| IbcLink.StepKeepsTruth | projection/ibc_channel/ibc_channel.go:789-919 | After each step the indexer's two lists hold, per denom, what its chain holds in vouchers and, under port/channel/d, what it holds of d in escrow by the rules of ICS-20 |
| IbcLink.BankNeverOverdrawn | projection/ibc_channel/ibc_channel.go:789-919 | No burn, release or refund takes more than the chain has, so the chains' own steps never fail for lack of funds |
| IbcLink.StepConserves | projection/ibc_channel/ibc_channel.go:789-919 | Each step moves the ledgers and the packets in flight by the same amount, per home chain and denom |
| IbcLink.RunKeepsInvariant | projection/ibc_channel/ibc_channel.go:111-787 | The invariant holds after every honest run from a world that satisfies it |
| IbcLink.SendFailsIffAmbiguous | projection/ibc_channel/ibc_channel.go:838-879 | A transfer of a bounded amount that the chain's holdings allow ends in "denom not found" exactly when its denom starts with the channel's string without a separator behind it |
| IbcLink.AmbiguousWitness | projection/ibc_channel/ibc_channel.go:921-924 | transfer/channel-10/uatom sent over channel-1 from empty ledgers is allowed by the chain and stops the indexer |
| IbcLink.HonestRunIsPayable | projection/ibc_channel/ibc_channel.go:111-787 | The events one indexer sees in an honest run are all payable and all succeed, so the per-row results apply to it |
| IbcChannel.TestsDisagreeIffAmbiguous | projection/ibc_channel/ibc_channel.go:921-924 | The prefix test differs from the ICS-20 test, which includes the trailing separator, exactly on ambiguous denoms, and then it always errs towards "source" |
| IbcChannel.RefundCancelsTransfer | projection/ibc_channel/ibc_channel.go:881-919 | A failed acknowledgement or timeout cancels its transfer on the denom-to-amount maps, whatever events come in between |
| IbcChannel.HandledEffect | projection/ibc_channel/ibc_channel.go:789-919 | An event with a positive amount on a row that can pay for it moves exactly one balance by exactly its amount and keeps the row sound, and fails only when that amount or the new balance exceeds 255 bits |
| IbcChannel.EventMoves | projection/ibc_channel/ibc_channel.go:789-919 | The same with the keys spelled out: which event moves the denom itself and which one port/channel/denom, on which of the two lists, in which direction |
| IbcChannel.ChannelsAreIndependent | projection/ibc_channel/ibc_channel.go:111-787 | After a block the row of a channel is what that channel's own events make of it |
| IbcChannel.BlockSucceedsIff | projection/ibc_channel/ibc_channel.go:111-787 | A block succeeds exactly when every event finds its channel and every channel absorbs its own events |
| IbcChannel.ChannelsView.UpdateWhenTransfer | projection/ibc_channel/ibc_channel.go:838-879 | Reads the row, subtracts from this chain's list or adds to the counterparty's, writes the row back; on an error no row changes |
| IbcChannel.ChannelsView.UpdateWhenRecvPacket | projection/ibc_channel/ibc_channel.go:789-836 | Subtracts from the counterparty's list or adds to this chain's under the destination prefix; other rows and error cases unchanged |
| IbcChannel.ChannelsView.RevertTransfer | projection/ibc_channel/ibc_channel.go:881-919 | Adds back to this chain's list or subtracts from the counterparty's; other rows and error cases unchanged |
| IbcChannel.ChannelsView.HandleEvent | projection/ibc_channel/ibc_channel.go:368-716 | Which of the three updates each event triggers, on which channel, that an unsuccessful receive, a successful acknowledgement and events that are no transfers move no token, and that other channels keep their rows |
| IbcChannel.HandleEvents | projection/ibc_channel/ibc_channel.go:111-787 | The events of a block in one transaction: the rows after all of them in order, or the first error |
| BondedTokens.AddToken | projection/ibc_channel/ibc_channel.go:959-987 | The scan of the two add helpers: grows the first entry of the denom or appends one; a sum beyond 255 bits is an error |
| BondedTokens.SubtractToken | projection/ibc_channel/ibc_channel.go:926-957 | The scan of the two subtract helpers: shrinks the first entry, removes it at zero, "denom not found" when there is none |
| BondedTokens.AddedEffect | projection/ibc_channel/ibc_channel.go:959-987 | On a sound list adding a positive amount moves that one balance, keeps denoms unique and amounts positive, and fails exactly when the new balance does not fit |
| BondedTokens.SubtractedEffect | projection/ibc_channel/ibc_channel.go:926-957 | Subtracting at most the balance moves that one balance and keeps the list sound; the only failure is an absent denom |
| Decimal.ChopRoundIsNearestEven | usecase/coin/decimal.go:493-523 | An integer is the half-even rounding of x/10^18 exactly when it is the result of chopPrecisionAndRound, for every sign of x |
| Decimal.ChopPrecisionAndRound | usecase/coin/decimal.go:493-523 | The big integer passed in is overwritten with its rounded quotient and returned, through the sign flip and the recursive call |
| Decimal.ChopPrecisionAndRoundUp | usecase/coin/decimal.go:525-545 | The same for rounding up, where a negative argument is truncated |
| Decimal.MulExact | usecase/coin/decimal.go:243-251 | Mul is the exact product rounded once half to even; it panics only when that does not fit in 315 bits; it is odd in each argument |
| Decimal.QuoTruncateOnce | usecase/coin/decimal.go:300-312 | Two nested truncated divisions equal one: QuoTruncate is a*10^18/b truncated once, and its panic condition is exact |
| Decimal.QuoWithinHalfUlp | usecase/coin/decimal.go:285-297 | Quo truncates a*10^36/b and rounds that half to even: within 1/2 + 10^-18 units in the last place of the exact quotient; it panics exactly when the rounded number does not fit in 315 bits |
| Decimal.QuotientOrder | usecase/coin/decimal.go:285-327 | On non-negative quotients QuoTruncate <= Quo <= QuoRoundUp <= QuoTruncate + 1, and the smaller never panics where the larger does not; on negative ones QuoRoundUp is QuoTruncate, panics included, and QuoTruncate - 1 <= Quo <= QuoTruncate; all three panic on a zero divisor |
| Decimal.RoundUpIsCeilingIff | usecase/coin/decimal.go:315-327 | For every sign of the operands QuoRoundUp is the ceiling of the exact quotient, or one unit less exactly when the quotient is positive and the inner division drops a remainder; it panics exactly when that number does not fit |
| Decimal.RoundUpMissesCeiling | usecase/coin/decimal.go:315-327 | 10^-18 divided by 2*10^18 is rounded up to zero although the ceiling is one unit |
| Decimal.RoundUpIsCeilingBelowOne | usecase/coin/decimal.go:315-327 | For a divisor of absolute value at most one QuoRoundUp is always the ceiling, or the panic exactly when that does not fit |
| Decimal.Ceil | usecase/coin/decimal.go:599-615 | The result is whole, not below d, and less than one above it |
| DecimalPower.ComputePower | usecase/coin/decimal.go:390-407 | The squaring loop computes the recursive power, every multiplication rounded and checked |
| DecimalPower.PowerWhole | usecase/coin/decimal.go:390-407 | A whole base is raised exactly; the call panics exactly when the true power does not fit in 315 bits, never early |
| DecimalPower.PowerMonotone | usecase/coin/decimal.go:390-407 | On non-negative bases rounded power is monotone, and a smaller base never panics where a larger one does not |
| DecimalPower.PowerInUnitInterval | usecase/coin/decimal.go:390-407 | [0,1] is closed under Power, without panics |
| PowerError.PowerErrorInUnit | usecase/coin/decimal.go:390-407 | On [0,1] the rounded power of every exponent n succeeds and is within n/2 units in the last place of the exact power |
| PowerError.PowerErrorAboveOne | usecase/coin/decimal.go:390-407 | From 1 upwards, where it fits, it is the exact power up to n factors between 1 - 1/(2*10^18) and 1 + 1/(2*10^18) |
| PowerError.PowerSign | usecase/coin/decimal.go:390-407 | A negative base changes the sign of the odd powers and nothing else, panics included |
| DecimalPower.NewtonLoop | usecase/coin/decimal.go:360-384 | The Newton loop stops within 100 rounds and computes the specified iteration |
| DecimalPower.ComputeRoot | usecase/coin/decimal.go:347-387 | The early exits and the loop of ApproxRoot on a non-negative argument compute the specified root |
| DecimalPower.ApproxRootPositive | usecase/coin/decimal.go:347-387 | For a positive argument and a root of at least 2 the result is positive, and it is one, converged to within one unit, or the hundredth guess |
| DecimalPower.StepStaysPositive | usecase/coin/decimal.go:364-383 | From a positive guess every Newton step leads to a positive guess, so no division by zero can come of it |
| DecimalPower.ApproxRootOdd | usecase/coin/decimal.go:347-358 | Negating the argument negates the root, and fails when it fails |
| DecimalPower.ResidualOnConvergence | usecase/coin/decimal.go:362-384 | Where the iteration stops, guess * D and d differ by at most 2*root units of D, where D is guess^(root-1) or one unit if that rounds to zero |
| DecimalPower.NewtonStepMeaning | usecase/coin/decimal.go:374-384 | One step from any positive guess: the guess plus root times the step solves guess * D = d up to root units of D |
| DecimalPower.ApproxRootTrivial | usecase/coin/decimal.go:347-362 | The first root is the number itself, every root of 0, 1 and -1 is the number itself, and the zeroth root of any other number is 1 with its sign |
| PowerError.RootOfUnit | usecase/coin/decimal.go:341-387 | For every root, a guess of at most 1 at which the iteration stops has an exact power within (5*root + 1)/2 units of d |
| PowerError.RootAboveOne | usecase/coin/decimal.go:341-387 | For every root, a guess from 1 upwards at which the iteration stops is a root of d up to 2*root units and the factors of the rounded power |
| DecimalPower.SqrtWithinFiveUlps | usecase/coin/decimal.go:411-413 | A converged square root is within five units in the last place of the true square root |
| NewtonSqrt.SqrtIsAccurate | usecase/coin/decimal.go:347-413 | For every positive decimal up to 2^178 a hundred rounds are enough: the square root succeeds and is within five units in the last place of the true one |
| NewtonSqrt.SqrtOvershoots | usecase/coin/decimal.go:341-387 | From 2^204 on (up to where the width check has room) they are not: without an error the result is at least four times the true root |
| NewtonSqrt.SquaringRounds | usecase/coin/decimal.go:362-384 | Once the excess over the root is below a quarter of it, each round squares the relative excess, until the iteration stops |
| NewtonSqrt.HalvingRounds | usecase/coin/decimal.go:362-384 | Before that each round at least halves the excess |
| RelativePow.ComputePower | usecase/coin/uint.go:242-274 | The loop over x, z and n computes the recursive form, with every 256-bit check in place |
| RelativePow.RelativePowWhole | usecase/coin/uint.go:242-274 | RelativePow(k*b, n, b) = k^n*b for every b > 0, k = 0 included; it panics exactly when n >= 2 and the last raw product exceeds 256 bits |
| PowerError.MulScaledHalfUp | usecase/coin/uint.go:242-274 | One scaled product is x*y/b rounded half up and panics exactly when the raw product plus b/2 exceeds 256 bits or b is zero |
| PowerError.RelativePowError | usecase/coin/uint.go:242-274 | For x up to b the result is within n/2 units of the exact x^n/b^(n-1), for every n, and cannot panic when b*b + b/2 fits |
| PowerError.RelativePowErrorAboveOne | usecase/coin/uint.go:242-274 | For x from b upwards the result, if any, is the exact one up to n factors between 1 - 1/(2*b) and 1 + 1/(2*b) |
| RelativePow.CheckUintIff | usecase/coin/uint.go:212-238 | The 256-bit check accepts exactly the integers in [0, 2^256) |
| IntBounds.MulPanicsIffOutOfRange | usecase/coin/int.go:255-266 | Mul panics exactly when abs(a*b) >= 2^255: the bit-length guess never refuses a product that fits and the later check misses none |
| IntBounds.OperationsStayBounded | usecase/coin/int.go:225-303 | Add, Sub, Quo and Neg on bounded operands stay bounded; Add and Sub panic exactly when the exact result does not fit |
| IntBounds.QuoIntTruncates | usecase/coin/int.go:273-280 | Quo is the only quotient whose remainder is smaller than the divisor and of the dividend's sign; it panics exactly on a zero divisor |
| BigInt.BitLenExceeds | usecase/coin/int.go:101-106 | BitLen() > n is abs(x) >= 2^n |
| DecimalText.String | usecase/coin/decimal.go:428-478 | Filling the byte buffer around the point yields sign, whole part without leading zeros, point, 18 digits, in both layouts |
| DecimalText.PrintParse | usecase/coin/decimal.go:139-187 | NewDecFromStr(d.String()) = d for every decimal of whatever size |
| DecimalText.ParseDocumented | usecase/coin/decimal.go:126-187 | Every string of the documented form with at most 18 decimals parses to its exact value |
| DecimalText.ParseLiteral | usecase/coin/decimal.go:139-187 | Every literal, with a second sign or a missing whole part included, parses to its exact value or is refused for more than 18 decimals |
| DecimalText.AcceptedIsLiteral | usecase/coin/decimal.go:139-187 | A string parses if and only if it is such a literal |
| DecimalText.SecondSignAccepted | usecase/coin/decimal.go:126-153 | "--5" parses to 5 although the documented form has one sign |
| DecimalText.RefusedShapes | usecase/coin/decimal.go:139-172 | Which error an empty body, a second point, a point at either end and more than 18 decimals give, after an optional minus |
| SortableDec.SortsIff | usecase/coin/decimal.go:621-651 | For all valid a < b the bytes of a sort below those of b if and only if b >= 0 or a is the minimum; otherwise they sort above |
| SortableDec.SortsNonNegative | usecase/coin/decimal.go:621-651 | The documented use: strictly increasing on [0, max], negatives below non-negatives, "--" first, "max" last |
| SortableDec.Injective | usecase/coin/decimal.go:633-651 | No two valid decimals share their bytes |
| SortableDec.BytesOf | usecase/coin/decimal.go:633-651 | Strictly inside the bounds the bytes are two fixed-width digit fields around the point, 37 characters, with a minus in front of negative ones |
| SortableDec.NegativesAreReversed | usecase/coin/decimal.go:633-651 | -2 and -1 come out in the wrong order |
| SortableDec.MaxSortableIsReciprocalOfSmallest | usecase/coin/decimal.go:617-628 | The bound, computed by dividing one by the smallest decimal, is exactly 10^18 |
| Denoms.DenomRegistry.RegisterDenom | usecase/coin/denom.go:16-31 | Registers a valid new denom, refuses others with the right error and no change, and keeps the base denom registered and of minimal unit |
| Denoms.ConvertedAmountExactly | usecase/coin/denom.go:59-79 | The converted amount is floor(n/d), plus one exactly when n/d is within 1/(2*10^18) of the next whole unit |
| Denoms.ConversionIsFloorIff | usecase/coin/denom.go:59-79 | The converted amount, before the width checks, is the floor for every amount if and only if the destination unit is below 2.0 |
| Denoms.ConvertCoinIsFloorIff | usecase/coin/denom.go:59-79 | ConvertCoin itself is the floor, or the panic exactly on overflow, for every amount and every other source unit if and only if the destination unit is below 2.0 |
| Denoms.ConvertCoinOneTooMany | usecase/coin/denom.go:59-79 | For every destination unit from 2.0 up a coin worth one smallest unit less than it converts into a whole coin, where the floor is zero |
| Denoms.ConvertCoinOutcome | usecase/coin/denom.go:59-79 | Between registered denoms of different units ConvertCoin returns the converted amount or panics exactly when one of three intermediate results does not fit |
| Denoms.ConvertCoinRefusals | usecase/coin/denom.go:59-79 | The errors in the order of the checks, the amount kept between equal units, and the panic on a zero destination unit |
| Denoms.ConvertCoinIsFloor | usecase/coin/denom.go:59-79 | Between registered denoms of different units, the destination's in (0, 2), ConvertCoin returns floor(amount*srcUnit/dstUnit) of the destination, or panics exactly when one of the three results does not fit |
| Denoms.ConvertedAmountOdd | usecase/coin/denom.go:59-79 | Conversion mirrors in the sign of either operand |
| Denoms.WholeTimesUnitExact | usecase/coin/denom.go:70-75 | The first multiplication of a conversion does not round |
| Denoms.NormalizeCoinExactly | usecase/coin/denom.go:108-118 | Normalising keeps the coin while there is no base denom, when its denom is not registered or when it would become negative; otherwise it gives the floor of its value in the base denom; it panics exactly when the conversion overflows |
| Coins.Validate | usecase/coin/coin.go:283-328 | Accepts exactly the slices with valid denoms in strictly increasing byte order and positive amounts |
| Coins.SafeAdd | usecase/coin/coin.go:356-402 | The two-index merge computes the recursive sum, zeros dropped, only sums of two entries checked |
| Coins.SumMeaning | usecase/coin/coin.go:356-402 | On sorted slices, zero and negative amounts included, the sum is sorted and zero-free and its amount per denom is the sum of the amounts; it panics exactly when such a sum is too wide |
| Coins.SumPanic | usecase/coin/coin.go:356-402 | A panic points at a denom present in both operands whose amounts do not add up within the width |
| Coins.Extensional | usecase/coin/coin.go:283-328 | Sorted zero-free slices with equal amounts per denom are the same slice |
| Coins.SumCommutative | usecase/coin/coin.go:347-402 | Add is commutative, panics included |
| Coins.SumAssociative | usecase/coin/coin.go:347-402 | Add is associative on non-negative sets, panics included |
| Coins.RemoveZeroCoins | usecase/coin/coin.go:662-672 | Keeps the non-zero coins in order |
| Coins.ComputeSafeSub | usecase/coin/coin.go:441-444 | Negating, merging and scanning for a negative computes the specified difference and flag |
| Coins.SafeSubIffDominates | usecase/coin/coin.go:441-444 | SafeSub reports no negative exactly when the receiver dominates on every denom, and its amounts are the differences |
| Coins.SafeSubTotal | usecase/coin/coin.go:441-444 | On non-negative sets SafeSub never panics |
| Coins.SubIsPositive | usecase/coin/coin.go:421-437 | Sub panics exactly when some amount would be negative; otherwise its result is sorted, positive and holds the differences |
| Coins.AddThenSub | usecase/coin/coin.go:430-444 | (a.Add(b)).Sub(b) = a |
| CoinCompare.SearchIsLookup | usecase/coin/coin.go:581-607 | On sorted slices binary search finds what a linear scan finds |
| CoinCompare.DenomsSubsetOf | usecase/coin/coin.go:406-419 | Holds exactly when every denom of the receiver is in the argument, the length shortcut notwithstanding |
| CoinCompare.NoMoreDenoms | usecase/coin/coin.go:406-411 | The pigeonhole argument behind the shortcut: a set that has every denom of another has no fewer entries |
| CoinCompare.IsAllGT | usecase/coin/coin.go:448-469 | Holds exactly when the receiver is non-empty and strictly exceeds the argument on every denom of the argument |
| CoinCompare.IsAllGTE | usecase/coin/coin.go:474-490 | Holds exactly when the receiver dominates the argument on every denom |
| CoinCompare.DominanceIffSafeSub | usecase/coin/coin.go:441-490 | IsAllGTE holds exactly when SafeSub reports no negative |
| DecCoins.TruncateDecimal | usecase/coin/dec_coin.go:236-248 | The collected whole parts and changes are the entry-wise ones, zeros left out; it panics exactly when a whole part exceeds 255 bits |
| DecCoins.TruncateCoin | usecase/coin/dec_coin.go:130-134 | One coin splits into its truncated amount and the rest; it panics on a whole part beyond 255 bits, an invalid denom or a negative amount |
| DecCoins.TruncationConserves | usecase/coin/dec_coin.go:233-248 | Per denom whole part plus change equals the input, the change is in [0,1), and both results are valid sets |
| DecCoins.Intersect | usecase/coin/dec_coin.go:348-358 | The intersection is a valid set holding the per-denom minimum |
| DecCoins.IntersectionUnique | usecase/coin/dec_coin.go:348-358 | Hence it does not depend on the order of the operands |
| DecCoinText.String | usecase/coin/dec_coin.go:220-231 | The coins joined by commas, the last comma cut off |
| DecCoinText.ScannerIsRegex | usecase/coin/coin.go:697-726 | A string matches the decimal-coin expression with a given amount and denom exactly when the scan finds that pair, so the match is unique |
| DecCoinText.ParseCoins | usecase/coin/dec_coin.go:689-712 | Splitting, parsing in order, removing zeros, sorting and validating, first error first |
| DecCoinText.SortMeaning | usecase/coin/dec_coin.go:190-198 | Sorting orders the coins by denom and keeps the multiset of coins |
| DecCoinText.ParsedSet | usecase/coin/dec_coin.go:689-712 | When every part parses, the result is R exactly when R is a valid set and holds the parsed coins that are not zero, each as often as it was given; in any order of the parts; otherwise the set is refused |
| DecCoinText.FirstError | usecase/coin/dec_coin.go:689-712 | Otherwise the error is that of the first part that does not parse |
| DecCoinText.ParseCoinMeaning | usecase/coin/dec_coin.go:650-671 | A part parses to a coin exactly when, trimmed, it matches the expression with that denom and an amount that parses to that decimal; no match is the one cause of an expression error |
| DecCoinText.TrimSpaceMeaning | usecase/coin/dec_coin.go:650-692 | Trimming takes the spaces off both ends, all of them, and nothing else |
| DecCoinText.PrintParseCoins | usecase/coin/dec_coin.go:220-231 | ParseDecCoins(c.String()) = c for every valid non-empty set |
| Window.Sync | usecase/syncstrategy/window.go:31-81 | For every completion order of the workers: success exports worker(begin), ..., worker(end) in order; any failing worker yields no block, its error, and the height before the window |
| Window.CommandWindow.Put | usecase/syncstrategy/window.go:83-98 | Writes exactly the slot of its height; every call made is in bounds |
| Window.WindowProgressIff | usecase/syncstrategy/window.go:31-43 | A window makes progress exactly when its size is at least one, never passes the target, and is full unless it reaches the target |
| Window.WindowsPartition | usecase/syncstrategy/window.go:31-43 | Successive windows partition [current, target] in order, each of 1 to size heights and all but the last of exactly size |
| SyncManager.SyncManager.SyncBlocks | bootstrap/syncmanager.go:131-193 | However a call ends, the database holds blocks 0..n in order, each once, with persisted height n, grown but never beyond the target; on success up to the target exactly; a call fails only if a statement, a worker or the process fails or the window is negative, and goes round for ever only with an empty window and work to do |
| SyncManager.SyncManager.RowsHoldCommands | bootstrap/syncmanager.go:131-193 | At all times the rows of a committed height are the events of its commands, one per command, in command order, and no other height has rows |
| SyncManager.SyncManager.RowsInOrder | bootstrap/syncmanager.go:131-193 | The rows are in order of height, all below the committed height |
| SyncManager.SyncManager.FetchWindow | bootstrap/syncmanager.go:152-158 | The commands of the next heights in order, at least one height if the window has a size; it fails exactly when a worker does or on a negative window |
| SyncManager.SyncManager.Run | bootstrap/syncmanager.go:241-295 | The same over any sequence of calls, retries or not, with failures and crashes in between, never above a height passed in; if nothing fails and the window has a size, every height passed in without a retry is committed |
| SyncManager.SyncManager.CommitBlock | bootstrap/syncmanager.go:163-189 | One height is committed at most once, and exactly once on success; it fails exactly when a command, a statement or the process does |
| SyncManager.SyncManager.ExecuteCommands | bootstrap/syncmanager.go:163-176 | Event i of a block is that of its command i, one per command; it fails exactly when a command does |
| SyncManager.LedgerAtHeight | bootstrap/syncmanager.go:131-193 | In the committed table height k holds exactly the events of block k |
| EventStore.Transaction.InsertAll | appinterface/event/rdbstore.go:150-198 | Statements of 1 to 500 rows that together insert exactly the events in order; it fails exactly when a statement does |
| EventStore.EventStoreHandler.HandleEvents | appinterface/eventhandler/rdbeventstore.go:45-65 | Events and height reach the tables together or not at all, also when the commit's reply is lost |
| EventStore.EventStoreHandler.GetLastHandledEventHeight | appinterface/rdbstatusstore/rdbstatusstore.go:37-118 | Creates the status row on first use without changing the height it reports |
| ProjectionRunner.StoreModeRefinesDirectIff | entity/projection/manager.go:55-135 | In every run, whatever the interleaving of writer and runners, failures, crashes and lost commit replies, a projection has handled exactly the first batches of direct mode if and only if every height it handled was at that moment the one after its persisted height |
| ProjectionRunner.StoreModeRefinesDirect | entity/projection/manager.go:55-135 | Hence without lost replies it always has, and it is not beyond the committed heights |
| ProjectionRunner.HandlesAtLeastOnce | entity/projection/manager.go:55-135 | In every run the batches are those of direct mode up to the persisted height, none skipped and none ahead of the store, some handled again right after themselves |
| ProjectionRunner.StepStaysDirect | entity/projection/manager.go:72-133 | A step keeps a projection on the direct sequence exactly when it was on it and the step handles no stale height: a batch out of sequence is never repaired |
| ProjectionRunner.StepKeepsInv | entity/projection/manager.go:55-135 | Each single step of writer or runner, a lost reply included, keeps every runner at most one height behind its persisted height, on decoded events of committed blocks |
| ProjectionRunner.RestartCatchesUp | entity/projection/manager.go:55-135 | From every reachable world a stopped runner can restart and handle each remaining committed block once, provided all are decodable and the last has an event |
| ProjectionRunner.UnregisteredBlocks | usecase/event/events.go:7-160 | In no run, lost replies included, is a batch handled at or beyond a height with an event of unregistered type |
| ProjectionRunner.GenesisValidatorsBlock | usecase/event/events.go:7-160 | With the registered event types of the source, a genesis that lists a validator keeps every projection of event-store mode from handling anything |
| EventRegistry.GenesisValidatorIsUnregistered | usecase/event/events.go:7-160 | GenesisValidatorCreated is none of the 121 registered event names |
| ProjectionRunner.LostReplyHandlesTwice | entity/projection/manager.go:86-127 | After any lost reply in any reachable world the runner is free to fetch and handle the same batch again |
| ProjectionRunner.LostReplyWitness | entity/projection/manager.go:86-127 | A run of seven steps from the start in which the only batch is handled twice |
| ProjectionRunner.CrashAfterLossWitness | entity/projection/manager.go:64-78 | The same loss followed by a crash and a restart stays on the direct sequence |
| ProjectionRunner.LatestHeightBelow | appinterface/event/rdbstore.go:44-64 | MAX(height) is below the committed count and is the last height when that block has an event |
| ProjectionRunner.LatestHeightIsMax | appinterface/event/rdbstore.go:44-64 | The latest height is a height of the table that none exceeds, and missing only from an empty table |
| ProjectionRunner.Projection.HandleBlock | appinterface/eventhandler/projection.go:29-54 | Direct mode extends the handled batches by one, with the height and exactly the listened events of the next block; it fails exactly when the projection's transaction does, and then changes nothing |
| ProjectionRunner.FilterEvents | entity/projection/manager.go:97-110 | The result is the events at increasing indices, and those are exactly the indices whose event name is listened to |
| ProjectionRunner.BatchesHoldListened | entity/projection/manager.go:55-135 | In every run each batch handled at a height holds exactly the listened events of that committed block, in order |
| ProjectionRunner.IsListening | entity/projection/manager.go:137-146 | True exactly when the name is in the list |
| NftTotals.StableRunRecounts | projection/nft/nft.go:96-358 | After any sequence of mints, edits, transfers and burns that keep each token's drop, each wildcard total holds the number of live tokens matching it, although updates touch only 8 of the 16 keys |
| NftTotals.RecountWithoutDrops | projection/nft/nft.go:166-346 | With EnableDrop off and ordinary denoms and addresses this holds after every sequence of events from the empty tables |
| NftTotals.StableWithoutDrops | projection/nft/nft.go:225-270 | With EnableDrop off every sequence of ordinary events keeps the drops |
| NftTotals.StableKeepsSound | projection/nft/nft.go:166-346 | One event that keeps the drop keeps every total equal to the recount, and cannot fail on a live token |
| NftTotals.StableOutcome | projection/nft/nft.go:166-346 | When an event that keeps the drop succeeds and with which error it fails: a mint needs a new token whose keys are distinct, every other event a live token |
| NftTotals.EditKeepsRecountIff | projection/nft/nft.go:225-270 | An edit of an ordinary token keeps the totals right if and only if it keeps the drop |
| NftTotals.DropEditBreaksRecount | projection/nft/nft.go:394-432 | A mint and an edit of the drop after which a total is wrong |
| NftTotals.UpdateKeepsRecountIff | projection/nft/nft.go:394-432 | The recount survives an update if and only if the owner-free identities are unchanged |
| NftTotals.OwnerFreeIffSameDrop | projection/nft/nft.go:404-430 | For well-formed tokens of one denom and minter that is if and only if the drop is unchanged |
| NftTotals.InsertKeepsRecount | projection/nft/nft.go:434-461 | An insert keeps the recount; it fails exactly on an existing token or coinciding identities |
| NftTotals.UpdateMovesOwner | projection/nft/nft.go:394-432 | An update of a live token moves exactly its eight owner totals, from the old row to the new one |
| NftTotals.DeleteKeepsRecount | projection/nft/nft.go:463-508 | A burn of a live token keeps the recount and cannot fail |
| NftTotals.BurnFindsMessages | projection/nft/nft.go:479-486 | In every run, drop edits included, the row count that a burn checks is never zero |
| NftTotals.CleanIff | projection/nft/nft.go:434-461 | With colon-free fields the sixteen identities are distinct exactly when no field is "-" |
| NftTotals.IdentityMeansPattern | projection/nft/nft.go:434-461 | A wildcard key counts exactly the tokens that agree with it on every named field |
| NftTotals.Nft.HandleEvents | projection/nft/nft.go:96-358 | A block in one transaction, in whatever state the tables are: the specified tables, or the first error and no change |
| NftTotals.Nft.HandleEvent | projection/nft/nft.go:166-346 | Which rows and which totals a mint, edit, transfer or burn changes, and its errors |
| NftTotals.EventEffect | projection/nft/nft.go:166-346 | Field by field: a mint makes a row of its sender and recipient, an edit changes at most the drop, a transfer the owner alone, a burn removes the row and its messages; no other token changes; messages count up by one |
| NftTotals.OwnersAreLastRecipients | projection/nft/nft.go:166-346 | After any run from the empty tables the rows are the tokens minted and not burnt since, each owned by the recipient of its last mint or transfer and minted by the sender of its last mint |
| NftTotals.Nft.InsertToken | projection/nft/nft.go:434-461 | A new row and sixteen totals up; an existing row or a repeated key is an error |
| NftTotals.Nft.UpdateToken | projection/nft/nft.go:394-432 | Drop and owner of the row, eight totals down and eight up; a missing row or a repeated key is an error |
| NftTotals.Nft.DeleteToken | projection/nft/nft.go:463-508 | Row and messages gone and sixteen totals down; a missing row, no messages or a repeated key is an error |
| NftTotals.AllIdentityTexts | projection/nft/nft.go:434-461 | The sixteen keys of an insert or a burn, written out |
| NftTotals.OwnerIdentityTexts | projection/nft/nft.go:404-430 | The eight keys of an update, written out |
| NftTotals.IncrementAll | appinterface/projection/view/total.go:79-114 | Every given key goes up by one and no other changes; fails exactly when a key is given twice |
| NftTotals.DecrementAll | appinterface/projection/view/total.go:116-151 | Every given key goes down by one, or to plus one if it was missing, and no other changes; fails exactly when a key is given twice |
| Proposals.ProposalProjection.HandleEvents | projection/proposal/proposal.go:128-608 | After any sequence of blocks the tables agree with the events: both vote counters are the number of distinct voters, histories plus current answer list each voter's votes in order, the depositor rows are the proposer's and depositors' names and amounts in order with their number as counter and their sum as total deposit, the status is that of the last submit or status event, and the initial deposit that of the submit; an error leaves everything as it was |
| Proposals.ProposalProjection.HandleSubmit | projection/proposal/proposal.go:160-211 | A new proposal with its first depositor row and counter; a duplicate is an error |
| Proposals.ProposalProjection.HandleStatus | projection/proposal/proposal.go:433-480 | Voting period, inactive and the three end results set that status and nothing else; an unknown result or proposal is an error |
| Proposals.ProposalProjection.HandleDeposit | projection/proposal/proposal.go:482-522 | The deposit is added to the total, a row and a count are added; overflow and unknown proposals are errors |
| Proposals.ProposalProjection.HandleVote | projection/proposal/proposal.go:524-595 | A first vote adds a row and one to both counters; a repeated one moves the current answer to the histories |
| Proposals.VoteAgrees | projection/proposal/proposal.go:524-595 | A vote keeps the counters and histories in agreement with the events |
| Proposals.DepositEventAgrees | projection/proposal/proposal.go:482-522 | A deposit keeps total and counter in agreement with the rows |
| Proposals.StatusEventAgrees | projection/proposal/proposal.go:433-480 | A status event keeps the status of every proposal that of its last submit or status event, and changes no vote and no deposit |
| Proposals.SubmitAgrees | projection/proposal/proposal.go:160-211 | A submission keeps counters, total deposit and depositor rows of every proposal in agreement with the events |
| Proposals.EventOutcome | projection/proposal/proposal.go:160-595 | When each kind of event succeeds and with which error it fails: duplicate or unknown proposal, unknown end result, a deposit that takes a denom of the total beyond 255 bits |
| Proposals.SumIsPayment | projection/proposal/proposal.go:482-490 | The total of two payments is again a sorted, non-negative, bounded set with the amounts added |

## Left out

- HTTP and RPC clients, SQL text, pgx, migrations, logging, metrics, timers and back-off: only "may fail" and "commits or not" remain of them.
- bech32, SHA-256, base64, JSON and struct decoding: registered events are taken to survive encoding and decoding.
- The per-message parsers, command and event wrappers, and the account dispatch ladders: long and flat.
- The other columns of the IBC rows: relay counters, success rates, sequence numbers, trusting periods and the denom hash mapping.
- Both ends of a link are live and honest in `IbcLink`; a channel that is closed, or a second channel between the same chains, adds no ledger entries of another kind.
- An indexer that lags behind its chain: a step of `IbcLink` puts an event on the chain and into that chain's ledger at once.
- SyncManager.SyncManager.Run: the subscription to new heights and the drained channel are an arbitrary sequence of calls; the delay between retries is left out.
- RegisterProjection and the spawning of the runners: the list of projections is fixed in the model.
- The persisted height of a projection is written by the same atomic step as its batch; the read-then-insert-or-update of its row is not modelled apart.
- The view packages are maps with insert, update, increment and find; a row that cannot be written for other reasons is a failed transaction.
- The message total of the NFT projection, which a burn does not take down, the removal of NUL characters, and the message rows' contents.
- Proposals: titles, times, addresses of validators and the community-pool and parameter payloads are not modelled; the four other kinds of submission do what the text one does.
- PowerError.PowerErrorAboveOne: speaks of powers that fit; on fractional bases above one the exact panic condition is not stated, only its monotonicity.
- DecimalPower.ResidualOnConvergence: for roots above the second it speaks of convergence only; whether a hundred rounds bring it about is decided for square roots alone.
- NewtonSqrt.SqrtIsAccurate: between 2^178 and 2^204, where the rounds begin to run out, no bound is stated.
- NftTotals.StableRunRecounts: stated for events that keep the drop, because the totals are wrong otherwise, as EditKeepsRecountIff states.
- CoinCompare.IsAllGT: stated on valid sets, the documented invariant of the slices; on other slices the binary search may miss entries.
- Mod, MulTruncate, the scaling of whole sets, NewCoins and the one-coin operations: the same shapes as those proved.
- Coins.IsEqual, which sorts its arguments in place and panics on differing denoms.
- DecCoinText.ParseCoins: sort.Sort is an insertion sort here, and TrimSpace knows the ASCII spaces only; Validate refuses the inputs on which another sort could differ.
- Amounts in the IBC rows and proposals are integers: their decimal text in the database is taken to read back as itself.
- Padding with `%0*s` follows the Go release named in go.mod, which pads strings with zeros.
- The bound on sortable decimals is used as a constant; that its computation gives that constant is proved.
- Floating-point uptime, pagination counts, and the validator projection's vote loop.
