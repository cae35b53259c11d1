/** projection/ibc_channel: what the transfer, receive, acknowledgement and timeout branches do
    to the row of a channel, and the class whose methods do it. */
module IbcChannel {
  import opened Wrappers
  import opened BondedTokens
  import IntBounds

  /** One end of a channel, and the string it contributes to a denom trace. */
  datatype End = End(port: string, channel: string) {
    function Prefix(): string {
      port + "/" + channel
    }

    /** The prefix with which ICS-20 marks a token that came in over this end. */
    function Slashed(): string {
      Prefix() + "/"
    }
  }

  datatype Packet = Packet(source: End, destination: End, denom: string, amount: int) {
    function Wrapped(): string {
      destination.Slashed() + denom
    }
  }

  datatype Row = Row(onThisChain: Tokens, onCounterpartyChain: Tokens)

  const EMPTY_ROW := Row([], [])

  /** receiverChainIsTokenSource: a prefix test without the separator that ends the channel. */
  predicate ReceiverChainIsTokenSource(packet: Packet) {
    packet.source.Prefix() <= packet.denom
  }

  /** The test ICS-20 prescribes: the denom goes back over the end it came in by. */
  predicate ReturnsHome(packet: Packet) {
    packet.source.Slashed() <= packet.denom
  }

  /** The denoms on which the two tests disagree: the channel's own string is a prefix, but it
      is not followed by a separator, as in transfer/channel-10/atom sent over channel-1. */
  predicate Ambiguous(packet: Packet) {
    && packet.source.Prefix() <= packet.denom
    && (|packet.denom| == |packet.source.Prefix()| || packet.denom[|packet.source.Prefix()|] != '/')
  }

  lemma TestsDisagreeIffAmbiguous(packet: Packet)
    ensures ReceiverChainIsTokenSource(packet) == ReturnsHome(packet) <==> !Ambiguous(packet)
    ensures ReturnsHome(packet) ==> ReceiverChainIsTokenSource(packet)
  {
    var p, d := packet.source.Prefix(), packet.denom;
    if ReturnsHome(packet) {
      assert d[..|p| + 1] == p + "/";
      assert d[..|p|] == d[..|p| + 1][..|p|] == p;
      assert d[|p|] == d[..|p| + 1][|p|];
    }
  }

  // ---- the effect of one event on a row

  function Transferred(row: Row, packet: Packet): Result<Row, LedgerError> {
    if !IntBounds.Bounded(packet.amount) then Failure(BadAmount)
    else if ReceiverChainIsTokenSource(packet) then
      var tokens :- Subtracted(row.onThisChain, Token(packet.denom, packet.amount));
      Success(row.(onThisChain := tokens))
    else
      var tokens :- Added(row.onCounterpartyChain, Token(packet.Wrapped(), packet.amount));
      Success(row.(onCounterpartyChain := tokens))
  }

  function Received(row: Row, packet: Packet): Result<Row, LedgerError> {
    if !IntBounds.Bounded(packet.amount) then Failure(BadAmount)
    else if ReceiverChainIsTokenSource(packet) then
      var tokens :- Subtracted(row.onCounterpartyChain, Token(packet.denom, packet.amount));
      Success(row.(onCounterpartyChain := tokens))
    else
      var tokens :- Added(row.onThisChain, Token(packet.Wrapped(), packet.amount));
      Success(row.(onThisChain := tokens))
  }

  function Reverted(row: Row, packet: Packet): Result<Row, LedgerError> {
    if !IntBounds.Bounded(packet.amount) then Failure(BadAmount)
    else if ReceiverChainIsTokenSource(packet) then
      var tokens :- Added(row.onThisChain, Token(packet.denom, packet.amount));
      Success(row.(onThisChain := tokens))
    else
      var tokens :- Subtracted(row.onCounterpartyChain, Token(packet.Wrapped(), packet.amount));
      Success(row.(onCounterpartyChain := tokens))
  }

  datatype RowEvent =
    | Transfer(packet: Packet)
    | RecvPacket(packet: Packet, isTransfer: bool, success: bool)
    | Acknowledgement(packet: Packet, isTransfer: bool, success: bool)
    | Timeout(packet: Packet, isTransfer: bool)

  /** The channel whose row an event touches: the local end of its packet. */
  function ChannelOf(event: RowEvent): string {
    if event.RecvPacket? then event.packet.destination.channel else event.packet.source.channel
  }

  function Handled(row: Row, event: RowEvent): Result<Row, LedgerError> {
    match event
    case Transfer(packet) => Transferred(row, packet)
    case RecvPacket(packet, isTransfer, success) =>
      if isTransfer && success then Received(row, packet) else Success(row)
    case Acknowledgement(packet, isTransfer, success) =>
      if isTransfer && !success then Reverted(row, packet) else Success(row)
    case Timeout(packet, isTransfer) =>
      if isTransfer then Reverted(row, packet) else Success(row)
  }

  predicate TouchesTokens(event: RowEvent) {
    match event
    case Transfer(_) => true
    case RecvPacket(_, isTransfer, success) => isTransfer && success
    case Acknowledgement(_, isTransfer, success) => isTransfer && !success
    case Timeout(_, isTransfer) => isTransfer
  }

  /** The channel table inside the projection's database transaction. */
  class ChannelsView {
    var rows: map<string, Row>

    constructor (rows: map<string, Row>)
      ensures this.rows == rows
    {
      this.rows := rows;
    }

    method FindBondedTokensBy(channel: string) returns (r: Result<BondedTokens, LedgerError>)
      ensures r.Success? <==> channel in rows
      ensures match r
              case Success(bonded) =>
                && fresh(bonded)
                && rows[channel] == Row(bonded.onThisChain, bonded.onCounterpartyChain)
              case Failure(error) => error == ChannelNotFound
    {
      if channel !in rows {
        return Failure(ChannelNotFound);
      }
      var bonded := new BondedTokens(rows[channel].onThisChain, rows[channel].onCounterpartyChain);
      return Success(bonded);
    }

    method UpdateBondedTokens(channel: string, bonded: BondedTokens)
      modifies this
      ensures rows == old(rows)[channel := Row(bonded.onThisChain, bonded.onCounterpartyChain)]
    {
      rows := rows[channel := Row(bonded.onThisChain, bonded.onCounterpartyChain)];
    }

    /** Only the row of the event's channel changes, as specified; an error changes nothing. */
    static ghost predicate Wrote(before: map<string, Row>, after: map<string, Row>, channel: string,
        r: Result<(), LedgerError>, spec: Row -> Result<Row, LedgerError>)
    {
      if channel !in before then r == Failure(ChannelNotFound) && after == before
      else match spec(before[channel])
           case Success(row) => r.Success? && after == before[channel := row]
           case Failure(error) => r == Failure(error) && after == before
    }

    method UpdateWhenTransfer(channel: string, packet: Packet) returns (r: Result<(), LedgerError>)
      modifies this
      ensures Wrote(old(rows), rows, channel, r, row => Transferred(row, packet))
    {
      var bonded :- FindBondedTokensBy(channel);
      if !IntBounds.Bounded(packet.amount) {
        return Failure(BadAmount);
      }
      if ReceiverChainIsTokenSource(packet) {
        var _ :- bonded.SubtractTokenOnThisChain(Token(packet.denom, packet.amount));
      } else {
        var newDenom := packet.destination.port + "/" + packet.destination.channel + "/" + packet.denom;
        var _ :- bonded.AddTokenOnCounterpartyChain(Token(newDenom, packet.amount));
      }
      UpdateBondedTokens(channel, bonded);
      return Success(());
    }

    method UpdateWhenRecvPacket(channel: string, packet: Packet) returns (r: Result<(), LedgerError>)
      modifies this
      ensures Wrote(old(rows), rows, channel, r, row => Received(row, packet))
    {
      var bonded :- FindBondedTokensBy(channel);
      if !IntBounds.Bounded(packet.amount) {
        return Failure(BadAmount);
      }
      if ReceiverChainIsTokenSource(packet) {
        var _ :- bonded.SubtractTokenOnCounterpartyChain(Token(packet.denom, packet.amount));
      } else {
        var newDenom := packet.destination.port + "/" + packet.destination.channel + "/" + packet.denom;
        var _ :- bonded.AddTokenOnThisChain(Token(newDenom, packet.amount));
      }
      UpdateBondedTokens(channel, bonded);
      return Success(());
    }

    method RevertTransfer(channel: string, packet: Packet) returns (r: Result<(), LedgerError>)
      modifies this
      ensures Wrote(old(rows), rows, channel, r, row => Reverted(row, packet))
    {
      var bonded :- FindBondedTokensBy(channel);
      if !IntBounds.Bounded(packet.amount) {
        return Failure(BadAmount);
      }
      if ReceiverChainIsTokenSource(packet) {
        var _ :- bonded.AddTokenOnThisChain(Token(packet.denom, packet.amount));
      } else {
        var newDenom := packet.destination.port + "/" + packet.destination.channel + "/" + packet.denom;
        var _ :- bonded.SubtractTokenOnCounterpartyChain(Token(newDenom, packet.amount));
      }
      UpdateBondedTokens(channel, bonded);
      return Success(());
    }

    /** The branch of HandleEvents for one event, restricted to the bonded-token columns. */
    method HandleEvent(event: RowEvent) returns (r: Result<(), LedgerError>)
      modifies this
      ensures Wrote(old(rows), rows, ChannelOf(event), r, row => Handled(row, event))
      ensures var own := if event.RecvPacket? then event.packet.destination.channel else event.packet.source.channel;
              forall channel :: channel in old(rows) && channel != own ==> channel in rows && rows[channel] == old(rows)[channel]
      ensures match event
              case Transfer(_) => true
              case RecvPacket(_, isTransfer, success) => !isTransfer || !success ==> rows == old(rows)
              case Acknowledgement(_, isTransfer, success) => !isTransfer || success ==> rows == old(rows)
              case Timeout(_, isTransfer) => !isTransfer ==> rows == old(rows)
    {
      var channel := ChannelOf(event);
      if channel !in rows {
        // the counters of the row are updated first, and no row is updated
        r := Failure(ChannelNotFound);
      } else if TouchesTokens(event) {
        match event {
          case Transfer(packet) => r := UpdateWhenTransfer(channel, packet);
          case RecvPacket(packet, _, _) => r := UpdateWhenRecvPacket(channel, packet);
          case Acknowledgement(packet, _, _) => r := RevertTransfer(channel, packet);
          case Timeout(packet, _) => r := RevertTransfer(channel, packet);
        }
      } else {
        assert rows == rows[channel := rows[channel]];
        r := Success(());
      }
    }
  }

  /** The events of one block in one database transaction: it commits the rows after all of
      them, or leaves the table as it was. */
  method HandleEvents(rows: map<string, Row>, events: seq<RowEvent>) returns (r: Result<map<string, Row>, LedgerError>)
    ensures r == RowsAfter(rows, events)
  {
    var view := new ChannelsView(rows);
    assert events[0..] == events;
    for i := 0 to |events|
      invariant fresh(view)
      invariant RowsAfter(view.rows, events[i..]) == RowsAfter(rows, events)
    {
      assert events[i..][1..] == events[i + 1..];
      var handled := view.HandleEvent(events[i]);
      if handled.Failure? {
        return Failure(handled.error);
      }
    }
    return Success(view.rows);
  }

  function RowsAfter(rows: map<string, Row>, events: seq<RowEvent>): Result<map<string, Row>, LedgerError>
    decreases |events|
  {
    if events == [] then Success(rows)
    else if ChannelOf(events[0]) !in rows then Failure(ChannelNotFound)
    else
      var row :- Handled(rows[ChannelOf(events[0])], events[0]);
      RowsAfter(rows[ChannelOf(events[0]) := row], events[1..])
  }

  /** Channels do not interfere: after a block, the row of a channel is what its own events make
      of it. */
  lemma {:induction false} ChannelsAreIndependent(rows: map<string, Row>, events: seq<RowEvent>, channel: string)
    requires RowsAfter(rows, events).Success? && channel in rows
    ensures channel in RowsAfter(rows, events).value
    ensures HandledAll(rows[channel], EventsOn(events, channel)) == Success(RowsAfter(rows, events).value[channel])
    decreases |events|
  {
    if events != [] {
      var own := ChannelOf(events[0]);
      var row := Handled(rows[own], events[0]).value;
      ChannelsAreIndependent(rows[own := row], events[1..], channel);
      if own == channel {
        assert EventsOn(events, channel)[1..] == EventsOn(events[1..], channel);
      }
    }
  }

  /** A block succeeds exactly when every event finds its channel and every channel absorbs its own
      events. */
  lemma {:induction false} BlockSucceedsIff(rows: map<string, Row>, events: seq<RowEvent>)
    ensures RowsAfter(rows, events).Success?
            <==> && (forall i :: 0 <= i < |events| ==> ChannelOf(events[i]) in rows)
                 && (forall channel :: channel in rows ==> HandledAll(rows[channel], EventsOn(events, channel)).Success?)
    decreases |events|
  {
    if events != [] && ChannelOf(events[0]) in rows {
      var own := ChannelOf(events[0]);
      assert EventsOn(events, own)[1..] == EventsOn(events[1..], own);
      if Handled(rows[own], events[0]).Success? {
        var rows' := rows[own := Handled(rows[own], events[0]).value];
        BlockSucceedsIff(rows', events[1..]);
        assert forall i :: 1 <= i < |events| ==> events[i] == events[1..][i - 1];
        assert forall i :: 0 <= i < |events| - 1 ==> events[1..][i] == events[i + 1];
        forall channel | channel in rows
          ensures HandledAll(rows[channel], EventsOn(events, channel)).Success?
                  == HandledAll(rows'[channel], EventsOn(events[1..], channel)).Success? {
        }
      } else {
        assert HandledAll(rows[own], EventsOn(events, own)).Failure?;
      }
    }
  }

  function EventsOn(events: seq<RowEvent>, channel: string): seq<RowEvent> {
    if events == [] then []
    else if ChannelOf(events[0]) == channel then [events[0]] + EventsOn(events[1..], channel)
    else EventsOn(events[1..], channel)
  }

  // ---- a revert undoes its transfer

  /** The signed change an event makes to one balance of the row: this is what it does to the
      denom-to-amount maps, whatever the order of the list entries. */
  function Delta(event: RowEvent, onThis: bool, denom: string): int {
    if !TouchesTokens(event) then 0
    else
      var home := ReceiverChainIsTokenSource(event.packet);
      var key := if home then event.packet.denom else event.packet.Wrapped();
      var hitsThis := if event.RecvPacket? then !home else home;
      var grows := if event.Acknowledgement? || event.Timeout? then home else !home;
      if onThis == hitsThis && denom == key then (if grows then event.packet.amount else -event.packet.amount) else 0
  }

  function RowBalance(row: Row, onThis: bool, denom: string): int {
    Balance(if onThis then row.onThisChain else row.onCounterpartyChain, denom)
  }

  predicate SoundRow(row: Row) {
    Sound(row.onThisChain) && Sound(row.onCounterpartyChain)
  }

  /** An event the row can absorb: a positive amount, and enough balance when it subtracts. */
  ghost predicate Payable(row: Row, event: RowEvent) {
    TouchesTokens(event) ==>
      && event.packet.amount > 0
      && (forall onThis, denom :: RowBalance(row, onThis, denom) + Delta(event, onThis, denom) >= 0)
  }

  /** The two refusals of a payable event: the amount itself, or the balance it would lead to, does not
      fit in 255 bits. */
  ghost predicate DoesNotFit(row: Row, event: RowEvent, error: LedgerError) {
    && TouchesTokens(event)
    && if !IntBounds.Bounded(event.packet.amount) then error == BadAmount
       else error == AmountOverflow
            && exists onThis, denom :: !IntBounds.Bounded(RowBalance(row, onThis, denom) + Delta(event, onThis, denom))
  }

  /** A payable event on a sound row: the balances move by Delta and nothing else and the row stays
      sound, or an amount does not fit in 255 bits. */
  lemma HandledEffect(row: Row, event: RowEvent)
    requires SoundRow(row) && Payable(row, event)
    ensures match Handled(row, event)
            case Success(after) =>
              && SoundRow(after)
              && forall onThis, denom :: RowBalance(after, onThis, denom) == RowBalance(row, onThis, denom) + Delta(event, onThis, denom)
            case Failure(error) => DoesNotFit(row, event, error)
  {
    if TouchesTokens(event) && IntBounds.Bounded(event.packet.amount) {
      var home := ReceiverChainIsTokenSource(event.packet);
      var key := if home then event.packet.denom else event.packet.Wrapped();
      var hitsThis := if event.RecvPacket? then !home else home;
      assert RowBalance(row, hitsThis, key) + Delta(event, hitsThis, key) >= 0;
      if Delta(event, hitsThis, key) > 0 {
        RowGrows(row, hitsThis, Token(key, event.packet.amount));
      } else {
        RowShrinks(row, hitsThis, Token(key, event.packet.amount));
      }
    }
  }

  function ListOf(row: Row, onThis: bool): Tokens {
    if onThis then row.onThisChain else row.onCounterpartyChain
  }

  function WithList(row: Row, onThis: bool, tokens: Tokens): Row {
    if onThis then row.(onThisChain := tokens) else row.(onCounterpartyChain := tokens)
  }

  lemma RowGrows(row: Row, onThis: bool, token: Token)
    requires SoundRow(row) && token.amount > 0 && IntBounds.Bounded(token.amount)
    ensures match Added(ListOf(row, onThis), token)
            case Success(tokens) =>
              && SoundRow(WithList(row, onThis, tokens))
              && forall side, denom :: RowBalance(WithList(row, onThis, tokens), side, denom)
                                       == RowBalance(row, side, denom) + (if side == onThis && denom == token.denom then token.amount else 0)
            case Failure(error) => error == AmountOverflow && !IntBounds.Bounded(RowBalance(row, onThis, token.denom) + token.amount)
  {
    AddedEffect(ListOf(row, onThis), token);
  }

  lemma RowShrinks(row: Row, onThis: bool, token: Token)
    requires SoundRow(row) && 0 < token.amount <= RowBalance(row, onThis, token.denom)
    ensures match Subtracted(ListOf(row, onThis), token)
            case Success(tokens) =>
              && SoundRow(WithList(row, onThis, tokens))
              && forall side, denom :: RowBalance(WithList(row, onThis, tokens), side, denom)
                                       == RowBalance(row, side, denom) - (if side == onThis && denom == token.denom then token.amount else 0)
            case Failure(_) => false
  {
    PresentIffPositive(ListOf(row, onThis), token.denom);
    SubtractedEffect(ListOf(row, onThis), token);
  }

  /** HandledEffect spelled out.  With `voucher` the denom across the channel: a transfer or its refund
      moves the denom itself on this chain when the prefix test holds, and the voucher on the counterparty
      when it does not; a receive moves the denom itself on the counterparty, or the voucher on this chain. */
  lemma EventMoves(row: Row, event: RowEvent, denom: string)
    requires SoundRow(row) && Payable(row, event) && Handled(row, event).Success?
    ensures var p, after := event.packet, Handled(row, event).value;
            var home := p.source.port + "/" + p.source.channel <= p.denom;
            var voucher := p.destination.port + "/" + p.destination.channel + "/" + p.denom;
            var onThis := Balance(after.onThisChain, denom) - Balance(row.onThisChain, denom);
            var onCounterparty := Balance(after.onCounterpartyChain, denom) - Balance(row.onCounterpartyChain, denom);
            match event
            case Transfer(_) =>
              && onThis == (if home && denom == p.denom then -p.amount else 0)
              && onCounterparty == (if !home && denom == voucher then p.amount else 0)
            case RecvPacket(_, isTransfer, success) =>
              && onCounterparty == (if isTransfer && success && home && denom == p.denom then -p.amount else 0)
              && onThis == (if isTransfer && success && !home && denom == voucher then p.amount else 0)
            case Acknowledgement(_, isTransfer, success) =>
              && onThis == (if isTransfer && !success && home && denom == p.denom then p.amount else 0)
              && onCounterparty == (if isTransfer && !success && !home && denom == voucher then -p.amount else 0)
            case Timeout(_, isTransfer) =>
              && onThis == (if isTransfer && home && denom == p.denom then p.amount else 0)
              && onCounterparty == (if isTransfer && !home && denom == voucher then -p.amount else 0)
  {
    HandledEffect(row, event);
    var after := Handled(row, event).value;
    assert RowBalance(after, true, denom) == RowBalance(row, true, denom) + Delta(event, true, denom);
    assert RowBalance(after, false, denom) == RowBalance(row, false, denom) + Delta(event, false, denom);
  }

  function HandledAll(row: Row, events: seq<RowEvent>): Result<Row, LedgerError>
    decreases |events|
  {
    if events == [] then Success(row)
    else
      var next :- Handled(row, events[0]);
      HandledAll(next, events[1..])
  }

  ghost predicate PayableAll(row: Row, events: seq<RowEvent>)
    decreases |events|
  {
    events == [] || (Payable(row, events[0]) && (Handled(row, events[0]).Success? ==> PayableAll(Handled(row, events[0]).value, events[1..])))
  }

  function Deltas(events: seq<RowEvent>, onThis: bool, denom: string): int {
    if events == [] then 0 else Delta(events[0], onThis, denom) + Deltas(events[1..], onThis, denom)
  }

  lemma {:induction false} HandledAllEffect(row: Row, events: seq<RowEvent>)
    requires SoundRow(row) && PayableAll(row, events) && HandledAll(row, events).Success?
    ensures SoundRow(HandledAll(row, events).value)
    ensures forall onThis, denom ::
              RowBalance(HandledAll(row, events).value, onThis, denom) == RowBalance(row, onThis, denom) + Deltas(events, onThis, denom)
    decreases |events|
  {
    if events != [] {
      HandledEffect(row, events[0]);
      HandledAllEffect(Handled(row, events[0]).value, events[1..]);
    }
  }

  lemma {:induction false} DeltasAppend(first: seq<RowEvent>, second: seq<RowEvent>, onThis: bool, denom: string)
    ensures Deltas(first + second, onThis, denom) == Deltas(first, onThis, denom) + Deltas(second, onThis, denom)
  {
    if first == [] {
      assert first + second == second;
    } else {
      assert (first + second)[1..] == first[1..] + second;
      DeltasAppend(first[1..], second, onThis, denom);
    }
  }

  predicate Refunds(event: RowEvent, packet: Packet) {
    TouchesTokens(event) && event.packet == packet && (event.Acknowledgement? || event.Timeout?)
  }

  /** A refund cancels its transfer: with any events whatever between the two, the balances end
      up where those events alone take them. */
  lemma RefundCancelsTransfer(row: Row, packet: Packet, between: seq<RowEvent>, refund: RowEvent)
    requires SoundRow(row) && Refunds(refund, packet)
    requires var with := [Transfer(packet)] + between + [refund];
             PayableAll(row, with) && HandledAll(row, with).Success?
    ensures forall onThis, denom ::
              RowBalance(HandledAll(row, [Transfer(packet)] + between + [refund]).value, onThis, denom)
              == RowBalance(row, onThis, denom) + Deltas(between, onThis, denom)
    ensures PayableAll(row, between) && HandledAll(row, between).Success? ==>
              forall onThis, denom ::
                RowBalance(HandledAll(row, [Transfer(packet)] + between + [refund]).value, onThis, denom)
                == RowBalance(HandledAll(row, between).value, onThis, denom)
  {
    HandledAllEffect(row, [Transfer(packet)] + between + [refund]);
    if PayableAll(row, between) && HandledAll(row, between).Success? {
      HandledAllEffect(row, between);
    }
    forall onThis, denom
      ensures Deltas([Transfer(packet)] + between + [refund], onThis, denom) == Deltas(between, onThis, denom)
    {
      DeltasAppend([Transfer(packet)] + between, [refund], onThis, denom);
      DeltasAppend([Transfer(packet)], between, onThis, denom);
      assert Deltas([Transfer(packet)], onThis, denom) == Delta(Transfer(packet), onThis, denom);
      assert Deltas([refund], onThis, denom) == Delta(refund, onThis, denom);
    }
  }
}
