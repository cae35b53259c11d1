/** Two chains joined by one channel, each with its own indexer.  The chains follow the packet
    relay of ICS-20 over ICS-04: a packet is sent once and then received once, refused, or timed
    out; a delivery, a refusal or a timeout is reported back to the sender once.  Each indexer
    handles the events of its own chain with the ledger of IbcChannel. */
module IbcLink {
  import opened Wrappers
  import opened BondedTokens
  import opened IbcChannel
  import BigInt
  import IntBounds

  datatype Side = A | B {
    function Other(): Side {
      if A? then B else A
    }
  }

  /** Pending: sent and not yet received.  Delivered, Refused: the receiver wrote an acknowledgement,
      of success or of an error, that the sender has not processed.  Settled: nothing more will come
      of it. */
  datatype Status = Pending | Delivered | Refused | Settled

  datatype Flight = Flight(sender: Side, packet: Packet, status: Status)

  datatype Link = Link(endA: End, endB: End) {
    function EndOf(side: Side): End {
      if side.A? then endA else endB
    }

    function PacketFrom(side: Side, denom: string, amount: int): Packet {
      Packet(EndOf(side), EndOf(side.Other()), denom, amount)
    }
  }

  /** What a chain itself holds on account of the channel: the vouchers in circulation on it, and
      the tokens it has in escrow, each under the denom it has on this chain. */
  datatype Bank = Bank(vouchers: map<string, int>, escrowed: map<string, int>)

  /** Two chains and their two indexers: a chain has a bank, its indexer has a row. */
  datatype World = World(rowA: Row, rowB: Row, bankA: Bank, bankB: Bank, flights: seq<Flight>) {
    function RowOf(side: Side): Row {
      if side.A? then rowA else rowB
    }

    function BankOf(side: Side): Bank {
      if side.A? then bankA else bankB
    }

    function With(side: Side, row: Row, bank: Bank, flights: seq<Flight>): World {
      if side.A? then World(row, rowB, bank, bankB, flights) else World(rowA, row, bankA, bank, flights)
    }
  }

  const EMPTY_BANK := Bank(map[], map[])

  const GENESIS := World(EMPTY_ROW, EMPTY_ROW, EMPTY_BANK, EMPTY_BANK, [])

  datatype Step =
    | Send(side: Side, denom: string, amount: int)
    | Deliver(i: nat)
    | ReportDelivery(i: nat)
    | Refuse(i: nat)
    | ReportRefusal(i: nat)
    | ExpireAndReport(i: nat)

  // ---- what the chains allow

  function Held(coins: map<string, int>, denom: string): int {
    if denom in coins then coins[denom] else 0
  }

  function Moved(coins: map<string, int>, denom: string, amount: int): map<string, int> {
    coins[denom := Held(coins, denom) + amount]
  }

  /** The bank movements ICS-20 prescribes, by its own test with the separator: a voucher is burned
      when it goes home and minted again on a refund; any other token is escrowed, and released on a
      refund; a receiver releases its own token, what is left of the denom without the source prefix,
      from escrow and mints a voucher for any other. */
  function BankAfter(bank: Bank, event: RowEvent): Bank {
    var p := event.packet;
    var source, destination := p.source.port + "/" + p.source.channel + "/", p.destination.port + "/" + p.destination.channel + "/";
    match event
    case Transfer(_) =>
      if source <= p.denom then bank.(vouchers := Moved(bank.vouchers, p.denom, -p.amount))
      else bank.(escrowed := Moved(bank.escrowed, p.denom, p.amount))
    case RecvPacket(_, isTransfer, success) =>
      if !isTransfer || !success then bank
      else if source <= p.denom then bank.(escrowed := Moved(bank.escrowed, p.denom[|source|..], -p.amount))
      else bank.(vouchers := Moved(bank.vouchers, destination + p.denom, p.amount))
    case Acknowledgement(_, isTransfer, success) => if isTransfer && !success then Refunded(bank, p) else bank
    case Timeout(_, isTransfer) => if isTransfer then Refunded(bank, p) else bank
  }

  function Refunded(bank: Bank, p: Packet): Bank {
    if p.source.port + "/" + p.source.channel + "/" <= p.denom then bank.(vouchers := Moved(bank.vouchers, p.denom, p.amount))
    else bank.(escrowed := Moved(bank.escrowed, p.denom, -p.amount))
  }

  /** An honest chain sends positive amounts, and sends back over the channel no more of a
      voucher than it holds; any other token it may escrow freely.  A packet is resolved once.
      The indexers have no say in it. */
  predicate Allowed(link: Link, w: World, step: Step) {
    match step
    case Send(side, denom, amount) =>
      && amount > 0
      && (ReturnsHome(link.PacketFrom(side, denom, amount)) ==> amount <= Held(w.BankOf(side).vouchers, denom))
    case Deliver(i) => i < |w.flights| && w.flights[i].status.Pending?
    case ReportDelivery(i) => i < |w.flights| && w.flights[i].status.Delivered?
    case Refuse(i) => i < |w.flights| && w.flights[i].status.Pending?
    case ReportRefusal(i) => i < |w.flights| && w.flights[i].status.Refused?
    case ExpireAndReport(i) => i < |w.flights| && w.flights[i].status.Pending?
  }

  // ---- what the indexers record

  /** The event a step puts on a chain, and the side whose indexer handles it. */
  function EventOf(link: Link, w: World, step: Step): (r: (Side, RowEvent))
    requires Allowed(link, w, step)
  {
    match step
    case Send(side, denom, amount) => (side, Transfer(link.PacketFrom(side, denom, amount)))
    case Deliver(i) => (w.flights[i].sender.Other(), RecvPacket(w.flights[i].packet, true, true))
    case ReportDelivery(i) => (w.flights[i].sender, Acknowledgement(w.flights[i].packet, true, true))
    case Refuse(i) => (w.flights[i].sender.Other(), RecvPacket(w.flights[i].packet, true, false))
    case ReportRefusal(i) => (w.flights[i].sender, Acknowledgement(w.flights[i].packet, true, false))
    case ExpireAndReport(i) => (w.flights[i].sender, Timeout(w.flights[i].packet, true))
  }

  function Resolved(flights: seq<Flight>, i: nat, status: Status): seq<Flight>
    requires i < |flights|
  {
    flights[i := flights[i].(status := status)]
  }

  function FlightsAfter(link: Link, w: World, step: Step): seq<Flight>
    requires Allowed(link, w, step)
  {
    match step
    case Send(side, denom, amount) => w.flights + [Flight(side, link.PacketFrom(side, denom, amount), Pending)]
    case Deliver(i) => Resolved(w.flights, i, Delivered)
    case ReportDelivery(i) => Resolved(w.flights, i, Settled)
    case Refuse(i) => Resolved(w.flights, i, Refused)
    case ReportRefusal(i) => Resolved(w.flights, i, Settled)
    case ExpireAndReport(i) => Resolved(w.flights, i, Settled)
  }

  function Next(link: Link, w: World, step: Step): Result<World, LedgerError>
    requires Allowed(link, w, step)
  {
    var (side, event) := EventOf(link, w, step);
    var row :- Handled(w.RowOf(side), event);
    Success(w.With(side, row, BankAfter(w.BankOf(side), event), FlightsAfter(link, w, step)))
  }

  // ---- the conservation invariant

  /** What one packet contributes to the tokens of `home` that have left it and are not yet
      recorded on the other chain: outbound tokens of its own, or its tokens on their way back. */
  function Carried(flight: Flight, home: Side, denom: string): int {
    if flight.status.Settled? || flight.status.Delivered? then 0
    else if flight.sender == home then
      if !ReceiverChainIsTokenSource(flight.packet) && flight.packet.Wrapped() == denom then flight.packet.amount else 0
    else
      if ReceiverChainIsTokenSource(flight.packet) && flight.packet.denom == denom then flight.packet.amount else 0
  }

  function InFlight(flights: seq<Flight>, home: Side, denom: string): int {
    if flights == [] then 0 else Carried(flights[0], home, denom) + InFlight(flights[1..], home, denom)
  }

  predicate Conserved(w: World, home: Side, denom: string) {
    Balance(w.RowOf(home).onCounterpartyChain, denom)
    == Balance(w.RowOf(home.Other()).onThisChain, denom) + InFlight(w.flights, home, denom)
  }

  predicate Keyed(tokens: Tokens, prefix: string) {
    forall i :: 0 <= i < |tokens| ==> prefix <= tokens[i].denom
  }

  predicate HonestFlight(link: Link, flight: Flight) {
    && flight.packet == link.PacketFrom(flight.sender, flight.packet.denom, flight.packet.amount)
    && flight.packet.amount > 0
    && IntBounds.Bounded(flight.packet.amount)
    && !Ambiguous(flight.packet)
  }

  predicate HonestFlights(link: Link, flights: seq<Flight>) {
    forall i :: 0 <= i < |flights| ==> HonestFlight(link, flights[i])
  }

  /** One indexer's row: unique positive entries, keyed by the end the tokens came in over. */
  predicate SoundSide(link: Link, w: World, side: Side) {
    && SoundRow(w.RowOf(side))
    && Keyed(w.RowOf(side).onThisChain, link.EndOf(side).Slashed())
    && Keyed(w.RowOf(side).onCounterpartyChain, link.EndOf(side.Other()).Slashed())
  }

  ghost predicate AllConserved(w: World, home: Side) {
    forall denom :: Conserved(w, home, denom)
  }

  /** The indexer's row is the truth about its chain: for every denom the list of this chain holds the
      vouchers, and the list of the other one holds the escrow under the other end's prefix. */
  ghost predicate Truthful(row: Row, bank: Bank, other: End) {
    && (forall voucher :: Held(bank.vouchers, voucher) == Balance(row.onThisChain, voucher))
    && (forall d :: Held(bank.escrowed, d) == Balance(row.onCounterpartyChain, other.port + "/" + other.channel + "/" + d))
  }

  ghost predicate Invariant(link: Link, w: World) {
    && SoundSide(link, w, A) && SoundSide(link, w, B)
    && HonestFlights(link, w.flights)
    && AllConserved(w, A) && AllConserved(w, B)
    && Truthful(w.rowA, w.bankA, link.endB) && Truthful(w.rowB, w.bankB, link.endA)
  }

  lemma {:induction false} InFlightAppend(flights: seq<Flight>, flight: Flight, home: Side, denom: string)
    ensures InFlight(flights + [flight], home, denom) == InFlight(flights, home, denom) + Carried(flight, home, denom)
  {
    if flights == [] {
      assert [] + [flight] == [flight];
    } else {
      assert (flights + [flight])[1..] == flights[1..] + [flight];
      InFlightAppend(flights[1..], flight, home, denom);
    }
  }

  lemma {:induction false} InFlightUpdate(flights: seq<Flight>, i: nat, flight: Flight, home: Side, denom: string)
    requires i < |flights|
    ensures InFlight(flights[i := flight], home, denom)
            == InFlight(flights, home, denom) - Carried(flights[i], home, denom) + Carried(flight, home, denom)
  {
    if i == 0 {
      assert flights[0 := flight][1..] == flights[1..];
    } else {
      assert flights[i := flight][1..] == flights[1..][i - 1 := flight];
      InFlightUpdate(flights[1..], i - 1, flight, home, denom);
    }
  }

  lemma {:induction false} InFlightBounds(flights: seq<Flight>, i: nat, link: Link, home: Side, denom: string)
    requires HonestFlights(link, flights)
    ensures InFlight(flights, home, denom) >= 0
    ensures i < |flights| ==> InFlight(flights, home, denom) >= Carried(flights[i], home, denom)
  {
    if flights != [] {
      InFlightBounds(flights[1..], if i == 0 then 0 else i - 1, link, home, denom);
      if i > 0 {
        InFlightBounds(flights[1..], i - 1, link, home, denom);
      }
    }
  }

  /** Sending a denom on which the indexer's prefix test errs. */
  predicate SendsAmbiguous(link: Link, step: Step) {
    step.Send? && Ambiguous(link.PacketFrom(step.side, step.denom, step.amount))
  }

  /** What the three kinds of ledger entry do to the two lists is what the packet carries. */
  lemma DeltaIsCarried(flight: Flight, denom: string)
    requires flight.status.Pending? || flight.status.Refused?
    ensures var sent, recv := Transfer(flight.packet), RecvPacket(flight.packet, true, true);
            var ours, theirs := Carried(flight, flight.sender, denom), Carried(flight, flight.sender.Other(), denom);
            && Delta(sent, false, denom) == ours && Delta(sent, true, denom) == -theirs
            && Delta(recv, true, denom) == ours && Delta(recv, false, denom) == -theirs
            && forall refund :: Refunds(refund, flight.packet) ==> Delta(refund, false, denom) == -ours && Delta(refund, true, denom) == theirs
  {
  }

  /** In a world that satisfies the invariant every allowed step finds the balance it needs. */
  lemma StepHasFunds(link: Link, w: World, step: Step, onThis: bool, denom: string)
    requires Invariant(link, w) && Allowed(link, w, step) && !SendsAmbiguous(link, step)
    ensures var (side, event) := EventOf(link, w, step);
            event.packet.amount > 0 && RowBalance(w.RowOf(side), onThis, denom) + Delta(event, onThis, denom) >= 0
  {
    var (side, event) := EventOf(link, w, step);
    assert SoundSide(link, w, side) && SoundSide(link, w, side.Other());
    PresentIffPositive(w.RowOf(side).onThisChain, denom);
    PresentIffPositive(w.RowOf(side).onCounterpartyChain, denom);
    if step.Send? {
      TestsDisagreeIffAmbiguous(event.packet);
      assert Truthful(w.RowOf(side), w.BankOf(side), link.EndOf(side.Other()));
      assert Held(w.BankOf(side).vouchers, denom) == Balance(w.RowOf(side).onThisChain, denom);
    } else if step.ReportDelivery? {
      assert HonestFlight(link, w.flights[step.i]);
    } else {
      ResolutionHasFunds(link, w, step.i, side, event, onThis, denom);
    }
  }

  lemma ResolutionHasFunds(link: Link, w: World, i: nat, home: Side, event: RowEvent, onThis: bool, denom: string)
    requires Invariant(link, w) && i < |w.flights| && (w.flights[i].status.Pending? || w.flights[i].status.Refused?) && event.packet == w.flights[i].packet
    requires if home == w.flights[i].sender then Refunds(event, event.packet) else event.RecvPacket?
    ensures event.packet.amount > 0 && RowBalance(w.RowOf(home), onThis, denom) + Delta(event, onThis, denom) >= 0
  {
    assert HonestFlight(link, w.flights[i]);
    assert SoundSide(link, w, home) && SoundSide(link, w, home.Other());
    assert AllConserved(w, home) && Conserved(w, home, denom);
    PresentIffPositive(w.RowOf(home).onThisChain, denom);
    PresentIffPositive(w.RowOf(home).onCounterpartyChain, denom);
    PresentIffPositive(w.RowOf(home.Other()).onThisChain, denom);
    InFlightBounds(w.flights, i, link, home, denom);
    DeltaIsCarried(w.flights[i], denom);
  }

  lemma StepIsPayable(link: Link, w: World, step: Step)
    requires Invariant(link, w) && Allowed(link, w, step) && !SendsAmbiguous(link, step)
    ensures var (side, event) := EventOf(link, w, step);
            SoundRow(w.RowOf(side)) && Payable(w.RowOf(side), event)
  {
    var (side, event) := EventOf(link, w, step);
    assert SoundSide(link, w, side);
    forall onThis, denom
      ensures event.packet.amount > 0 && RowBalance(w.RowOf(side), onThis, denom) + Delta(event, onThis, denom) >= 0
    {
      StepHasFunds(link, w, step, onThis, denom);
    }
  }

  /** Each step moves the ledgers and the packets in flight by the same amount. */
  lemma StepConserves(link: Link, w: World, step: Step, home: Side, denom: string)
    requires Invariant(link, w) && Allowed(link, w, step) && !SendsAmbiguous(link, step)
    requires Next(link, w, step).Success?
    ensures Conserved(Next(link, w, step).value, home, denom)
  {
    var (side, event) := EventOf(link, w, step);
    StepIsPayable(link, w, step);
    HandledEffect(w.RowOf(side), event);
    var w' := Next(link, w, step).value;
    assert AllConserved(w, home) && Conserved(w, home, denom);
    assert RowBalance(w'.RowOf(side), true, denom) == RowBalance(w.RowOf(side), true, denom) + Delta(event, true, denom);
    assert RowBalance(w'.RowOf(side), false, denom) == RowBalance(w.RowOf(side), false, denom) + Delta(event, false, denom);
    InFlightMoves(link, w, step, home, denom);
  }

  lemma InFlightMoves(link: Link, w: World, step: Step, home: Side, denom: string)
    requires Allowed(link, w, step) && HonestFlights(link, w.flights)
    ensures var (side, event) := EventOf(link, w, step);
            InFlight(FlightsAfter(link, w, step), home, denom) - InFlight(w.flights, home, denom)
            == if home == side then Delta(event, false, denom) else -Delta(event, true, denom)
  {
    var flights' := FlightsAfter(link, w, step);
    if step.Send? {
      InFlightAppend(w.flights, flights'[|w.flights|], home, denom);
      DeltaIsCarried(flights'[|w.flights|], denom);
    } else {
      InFlightUpdate(w.flights, step.i, flights'[step.i], home, denom);
      if !step.ReportDelivery? { DeltaIsCarried(w.flights[step.i], denom); }
    }
  }

  lemma KeyedAfterAdding(tokens: Tokens, token: Token, prefix: string)
    requires Sound(tokens) && token.amount > 0 && IntBounds.Bounded(token.amount)
    requires Keyed(tokens, prefix) && prefix <= token.denom
    requires Added(tokens, token).Success?
    ensures Keyed(Added(tokens, token).value, prefix)
  {
    AddedEffect(tokens, token);
    var after := Added(tokens, token).value;
    forall i | 0 <= i < |after| ensures prefix <= after[i].denom {
      assert Has(after, after[i].denom);
    }
  }

  lemma KeyedAfterSubtracting(tokens: Tokens, token: Token, prefix: string)
    requires Sound(tokens) && 0 < token.amount <= Balance(tokens, token.denom)
    requires Keyed(tokens, prefix)
    requires Subtracted(tokens, token).Success?
    ensures Keyed(Subtracted(tokens, token).value, prefix)
  {
    SubtractedEffect(tokens, token);
    var after := Subtracted(tokens, token).value;
    forall i | 0 <= i < |after| ensures prefix <= after[i].denom {
      assert Has(after, after[i].denom);
    }
  }

  lemma StepKeepsSide(link: Link, w: World, step: Step)
    requires Invariant(link, w) && Allowed(link, w, step) && !SendsAmbiguous(link, step)
    requires Next(link, w, step).Success?
    ensures SoundSide(link, Next(link, w, step).value, EventOf(link, w, step).0)
  {
    var (side, event) := EventOf(link, w, step);
    var row := w.RowOf(side);
    StepIsPayable(link, w, step);
    HandledEffect(row, event);
    assert SoundSide(link, w, side);
    if TouchesTokens(event) {
      var p := event.packet;
      if !step.Send? { assert HonestFlight(link, w.flights[step.i]); }
      assert p.destination.Slashed() <= p.Wrapped();
      var home := ReceiverChainIsTokenSource(p);
      var key := if home then p.denom else p.Wrapped();
      var hitsThis := if event.RecvPacket? then !home else home;
      var prefix := if hitsThis then link.EndOf(side).Slashed() else link.EndOf(side.Other()).Slashed();
      var tokens := if hitsThis then row.onThisChain else row.onCounterpartyChain;
      TestsDisagreeIffAmbiguous(p);
      StepHasFunds(link, w, step, hitsThis, key);
      if Delta(event, hitsThis, key) > 0 {
        KeyedAfterAdding(tokens, Token(key, p.amount), prefix);
      } else {
        KeyedAfterSubtracting(tokens, Token(key, p.amount), prefix);
      }
    }
  }

  lemma StepKeepsFlights(link: Link, w: World, step: Step)
    requires Invariant(link, w) && Allowed(link, w, step) && !SendsAmbiguous(link, step)
    requires Next(link, w, step).Success?
    ensures HonestFlights(link, Next(link, w, step).value.flights)
  {
    if step.Send? {
      SentIsHonest(link, w, step);
    } else {
      forall status ensures HonestFlights(link, Resolved(w.flights, step.i, status)) {
        ResolvedIsHonest(link, w.flights, step.i, status);
      }
    }
  }

  lemma SentIsHonest(link: Link, w: World, step: Step)
    requires HonestFlights(link, w.flights) && Allowed(link, w, step) && step.Send? && !SendsAmbiguous(link, step)
    requires Next(link, w, step).Success?
    ensures HonestFlights(link, FlightsAfter(link, w, step))
  {
    assert IntBounds.Bounded(step.amount);
    assert HonestFlight(link, Flight(step.side, link.PacketFrom(step.side, step.denom, step.amount), Pending));
  }

  lemma ResolvedIsHonest(link: Link, flights: seq<Flight>, i: nat, status: Status)
    requires i < |flights| && HonestFlights(link, flights)
    ensures HonestFlights(link, Resolved(flights, i, status))
  {
    assert HonestFlight(link, flights[i]);
    assert HonestFlight(link, flights[i].(status := status));
  }

  lemma EventIsUnambiguous(link: Link, w: World, step: Step)
    requires Invariant(link, w) && Allowed(link, w, step) && !SendsAmbiguous(link, step)
    ensures !Ambiguous(EventOf(link, w, step).1.packet)
  {
    if !step.Send? {
      assert HonestFlight(link, w.flights[step.i]);
    }
  }

  /** The end across the channel from the side that an event happens on. */
  predicate Across(event: RowEvent, other: End) {
    if event.RecvPacket? then event.packet.source == other else event.packet.destination == other
  }

  lemma EventAcross(link: Link, w: World, step: Step)
    requires HonestFlights(link, w.flights) && Allowed(link, w, step)
    ensures var (side, event) := EventOf(link, w, step);
            Across(event, link.EndOf(side.Other())) && ChannelOf(event) == link.EndOf(side).channel
  {
    if !step.Send? {
      assert HonestFlight(link, w.flights[step.i]);
    }
  }

  lemma PrefixCancels(prefix: string, d: string, e: string)
    ensures prefix + d == prefix + e <==> d == e
    ensures prefix <= prefix + d && (prefix + d)[|prefix|..] == d
  {
    if prefix + d == prefix + e {
      assert d == (prefix + d)[|prefix|..] == (prefix + e)[|prefix|..] == e;
    }
  }

  lemma PrefixSplits(prefix: string, s: string)
    requires prefix <= s
    ensures s == prefix + s[|prefix|..]
  {
  }

  /** On denoms that the indexer reads correctly the bank moves as the row does: vouchers under their
      own denom, escrow of d under the denom that d has across the channel. */
  lemma BankMoves(bank: Bank, event: RowEvent, other: End, d: string)
    requires !Ambiguous(event.packet) && Across(event, other)
    ensures Held(BankAfter(bank, event).vouchers, d) == Held(bank.vouchers, d) + Delta(event, true, d)
    ensures Held(BankAfter(bank, event).escrowed, d)
            == Held(bank.escrowed, d) + Delta(event, false, other.port + "/" + other.channel + "/" + d)
  {
    var p := event.packet;
    var prefix := other.port + "/" + other.channel + "/";
    TestsDisagreeIffAmbiguous(p);
    PrefixCancels(prefix, d, p.denom);
    if event.RecvPacket? && ReturnsHome(p) {
      PrefixSplits(prefix, p.denom);
      PrefixCancels(prefix, d, p.denom[|prefix|..]);
    }
  }

  lemma StepKeepsTruth(link: Link, w: World, step: Step)
    requires Invariant(link, w) && Allowed(link, w, step) && !SendsAmbiguous(link, step)
    requires Next(link, w, step).Success?
    ensures var side := EventOf(link, w, step).0;
            Truthful(Next(link, w, step).value.RowOf(side), Next(link, w, step).value.BankOf(side), link.EndOf(side.Other()))
  {
    var (side, event) := EventOf(link, w, step);
    var row, bank, other := w.RowOf(side), w.BankOf(side), link.EndOf(side.Other());
    var row' := Handled(row, event).value;
    StepIsPayable(link, w, step);
    HandledEffect(row, event);
    EventIsUnambiguous(link, w, step);
    EventAcross(link, w, step);
    assert Truthful(row, bank, other);
    forall d
      ensures Held(BankAfter(bank, event).vouchers, d) == Balance(row'.onThisChain, d)
      ensures Held(BankAfter(bank, event).escrowed, d) == Balance(row'.onCounterpartyChain, other.port + "/" + other.channel + "/" + d)
    {
      var key := other.port + "/" + other.channel + "/" + d;
      BankMoves(bank, event, other, d);
      assert RowBalance(row', true, d) == RowBalance(row, true, d) + Delta(event, true, d);
      assert RowBalance(row', false, key) == RowBalance(row, false, key) + Delta(event, false, key);
    }
  }

  /** No bank movement takes more than there is: a chain always has the escrow that a returning
      voucher or a refund releases, and the vouchers that it burns. */
  lemma BankNeverOverdrawn(link: Link, w: World, step: Step, d: string)
    requires Invariant(link, w) && Allowed(link, w, step) && !SendsAmbiguous(link, step)
    ensures var (side, event) := EventOf(link, w, step);
            var bank := BankAfter(w.BankOf(side), event);
            Held(bank.vouchers, d) >= 0 && Held(bank.escrowed, d) >= 0
  {
    var (side, event) := EventOf(link, w, step);
    var other := link.EndOf(side.Other());
    EventIsUnambiguous(link, w, step);
    EventAcross(link, w, step);
    BankMoves(w.BankOf(side), event, other, d);
    StepHasFunds(link, w, step, true, d);
    StepHasFunds(link, w, step, false, other.port + "/" + other.channel + "/" + d);
    assert Truthful(w.RowOf(side), w.BankOf(side), other);
    assert Held(w.BankOf(side).vouchers, d) == Balance(w.RowOf(side).onThisChain, d);
  }

  /** Every step of honest chains keeps the invariant, and no indexer ever reports "denom not
      found": the one thing that can stop it is an amount beyond 255 bits. */
  lemma StepKeepsInvariant(link: Link, w: World, step: Step)
    requires Invariant(link, w) && Allowed(link, w, step) && !SendsAmbiguous(link, step)
    ensures match Next(link, w, step)
            case Success(w') => Invariant(link, w')
            case Failure(error) => var (side, event) := EventOf(link, w, step); DoesNotFit(w.RowOf(side), event, error)
  {
    var (side, event) := EventOf(link, w, step);
    StepIsPayable(link, w, step);
    HandledEffect(w.RowOf(side), event);
    if Next(link, w, step).Success? {
      var w' := Next(link, w, step).value;
      StepKeepsSide(link, w, step);
      StepKeepsFlights(link, w, step);
      StepKeepsTruth(link, w, step);
      assert SoundSide(link, w, side.Other());
      assert SoundSide(link, w', side.Other());
      forall denom ensures Conserved(w', A, denom) && Conserved(w', B, denom) {
        StepConserves(link, w, step, A, denom);
        StepConserves(link, w, step, B, denom);
      }
    }
  }

  /** An ambiguous denom stops the sender's indexer: the chain escrows the tokens, the indexer
      takes them for vouchers going home and finds none.  With StepKeepsInvariant this makes
      `!Ambiguous` the exact condition for a transfer never to hit "denom not found". */
  lemma SendFailsIffAmbiguous(link: Link, w: World, step: Step)
    requires Invariant(link, w) && Allowed(link, w, step) && step.Send? && IntBounds.Bounded(step.amount)
    ensures Next(link, w, step) == Failure(DenomNotFound) <==> SendsAmbiguous(link, step)
  {
    if SendsAmbiguous(link, step) {
      var tokens := w.RowOf(step.side).onThisChain;
      var packet := link.PacketFrom(step.side, step.denom, step.amount);
      TestsDisagreeIffAmbiguous(packet);
      assert SoundSide(link, w, step.side);
      assert !Has(tokens, step.denom);
      SubtractedMissing(tokens, Token(step.denom, step.amount));
    } else {
      StepKeepsInvariant(link, w, step);
    }
  }

  /** A concrete ambiguous transfer, from the two empty indexers. */
  lemma AmbiguousWitness()
    ensures var link := Link(End("transfer", "channel-1"), End("transfer", "channel-7"));
            var step := Send(A, "transfer/channel-10/uatom", 5);
            Allowed(link, GENESIS, step) && SendsAmbiguous(link, step)
            && Next(link, GENESIS, step) == Failure(DenomNotFound)
  {
    var end := End("transfer", "channel-1");
    var denom := "transfer/channel-10/uatom";
    assert end.Prefix() == "transfer/channel-1" == denom[..18];
    assert end.Slashed() == "transfer/channel-1/" && denom[18] == '0';
    assert !(end.Slashed() <= denom) by {
      assert end.Slashed()[18] == '/';
    }
    BigIntFive();
  }

  lemma BigIntFive()
    ensures IntBounds.Bounded(5)
  {
    BigInt.Pow2Monotone(3, IntBounds.MAX_BIT_LEN);
  }

  // ---- runs

  ghost predicate HonestRun(link: Link, w: World, steps: seq<Step>, last: World)
    decreases |steps|
  {
    if steps == [] then last == w
    else
      && Allowed(link, w, steps[0]) && !SendsAmbiguous(link, steps[0])
      && Next(link, w, steps[0]).Success?
      && HonestRun(link, Next(link, w, steps[0]).value, steps[1..], last)
  }

  lemma GenesisInvariant(link: Link)
    ensures Invariant(link, GENESIS)
  {
    assert forall denom :: Conserved(GENESIS, A, denom) && Conserved(GENESIS, B, denom);
    assert Truthful(EMPTY_ROW, EMPTY_BANK, link.endB) && Truthful(EMPTY_ROW, EMPTY_BANK, link.endA);
  }

  lemma {:induction false} RunKeepsInvariant(link: Link, w: World, steps: seq<Step>, last: World)
    requires Invariant(link, w) && HonestRun(link, w, steps, last)
    ensures Invariant(link, last)
    decreases |steps|
  {
    if steps != [] {
      StepKeepsInvariant(link, w, steps[0]);
      RunKeepsInvariant(link, Next(link, w, steps[0]).value, steps[1..], last);
    }
  }

  /** What one packet carries of the token d of `home`, in the chains' own terms: its way out, under
      its own denom and not itself a voucher of this channel, or its way back, under the prefix of the
      end that it comes back from. */
  function Travels(link: Link, flight: Flight, home: Side, d: string): int {
    var here, there := link.EndOf(home), link.EndOf(home.Other());
    if !flight.status.Pending? && !flight.status.Refused? then 0
    else if flight.sender == home then
      if flight.packet.denom == d && !(here.port + "/" + here.channel + "/" <= d) then flight.packet.amount else 0
    else
      if flight.packet.denom == there.port + "/" + there.channel + "/" + d then flight.packet.amount else 0
  }

  function Travelling(link: Link, flights: seq<Flight>, home: Side, d: string): int {
    if flights == [] then 0 else Travels(link, flights[0], home, d) + Travelling(link, flights[1..], home, d)
  }

  lemma TravelsIsCarried(link: Link, flight: Flight, home: Side, d: string)
    requires HonestFlight(link, flight)
    ensures var there := link.EndOf(home.Other());
            Travels(link, flight, home, d) == Carried(flight, home, there.port + "/" + there.channel + "/" + d)
  {
    var there := link.EndOf(home.Other());
    var prefix := there.port + "/" + there.channel + "/";
    TestsDisagreeIffAmbiguous(flight.packet);
    PrefixCancels(prefix, d, flight.packet.denom);
  }

  lemma {:induction false} TravellingIsInFlight(link: Link, flights: seq<Flight>, home: Side, d: string)
    requires HonestFlights(link, flights)
    ensures var there := link.EndOf(home.Other());
            Travelling(link, flights, home, d) == InFlight(flights, home, there.port + "/" + there.channel + "/" + d)
  {
    if flights != [] {
      assert HonestFlight(link, flights[0]);
      TravelsIsCarried(link, flights[0], home, d);
      TravellingIsInFlight(link, flights[1..], home, d);
    }
  }

  /** In every reachable world, for every token d of a chain: what its indexer records on the other
      chain, under the denom that d has there, is what the other indexer records as held there, plus
      what of d is in flight in either direction; and the two records are the escrow of d and the
      vouchers for it. */
  lemma CrossChainConservation(link: Link, steps: seq<Step>, w: World, home: Side, d: string)
    requires HonestRun(link, GENESIS, steps, w)
    ensures var there := link.EndOf(home.Other());
            var voucher := there.port + "/" + there.channel + "/" + d;
            && Balance(w.RowOf(home).onCounterpartyChain, voucher)
               == Balance(w.RowOf(home.Other()).onThisChain, voucher) + Travelling(link, w.flights, home, d)
            && Balance(w.RowOf(home).onCounterpartyChain, voucher) == Held(w.BankOf(home).escrowed, d)
            && Balance(w.RowOf(home.Other()).onThisChain, voucher) == Held(w.BankOf(home.Other()).vouchers, voucher)
    ensures SoundRow(w.RowOf(home))
  {
    var there := link.EndOf(home.Other());
    var voucher := there.port + "/" + there.channel + "/" + d;
    GenesisInvariant(link);
    RunKeepsInvariant(link, GENESIS, steps, w);
    assert AllConserved(w, home) && Conserved(w, home, voucher);
    assert SoundSide(link, w, home);
    assert Truthful(w.RowOf(home), w.BankOf(home), there);
    assert Truthful(w.RowOf(home.Other()), w.BankOf(home.Other()), link.EndOf(home));
    assert Held(w.BankOf(home).escrowed, d) == Balance(w.RowOf(home).onCounterpartyChain, voucher);
    TravellingIsInFlight(link, w.flights, home, d);
  }

  /** The ledgers hold nothing else: every entry is under the denom of some token across the channel. */
  lemma NoOtherEntries(link: Link, steps: seq<Step>, w: World, side: Side, i: nat)
    requires HonestRun(link, GENESIS, steps, w)
    ensures var here, there := link.EndOf(side), link.EndOf(side.Other());
            && (i < |w.RowOf(side).onThisChain| ==> here.port + "/" + here.channel + "/" <= w.RowOf(side).onThisChain[i].denom)
            && (i < |w.RowOf(side).onCounterpartyChain| ==> there.port + "/" + there.channel + "/" <= w.RowOf(side).onCounterpartyChain[i].denom)
  {
    GenesisInvariant(link);
    RunKeepsInvariant(link, GENESIS, steps, w);
    assert SoundSide(link, w, side);
  }

  /** Sending d, not a voucher of this channel, raises the entry of d across the channel by the amount
      and changes no other. */
  lemma SendRaisesItsEntry(link: Link, w: World, side: Side, d: string, amount: int, denom: string)
    requires Invariant(link, w) && Allowed(link, w, Send(side, d, amount)) && !SendsAmbiguous(link, Send(side, d, amount))
    requires !(link.EndOf(side).port + "/" + link.EndOf(side).channel + "/" <= d)
    requires Next(link, w, Send(side, d, amount)).Success?
    ensures var row, row' := w.RowOf(side), Next(link, w, Send(side, d, amount)).value.RowOf(side);
            var there := link.EndOf(side.Other());
            && Balance(row'.onCounterpartyChain, denom) == Balance(row.onCounterpartyChain, denom)
                 + (if denom == there.port + "/" + there.channel + "/" + d then amount else 0)
            && Balance(row'.onThisChain, denom) == Balance(row.onThisChain, denom)
  {
    var step := Send(side, d, amount);
    StepIsPayable(link, w, step);
    var event := EventOf(link, w, step).1;
    TestsDisagreeIffAmbiguous(event.packet);
    EventMoves(w.RowOf(side), event, denom);
  }

  /** The events one indexer sees in a run. */
  function SideEvents(link: Link, w: World, steps: seq<Step>, side: Side): seq<RowEvent>
    decreases |steps|
  {
    if steps == [] || !Allowed(link, w, steps[0]) || Next(link, w, steps[0]).Failure? then []
    else
      (if EventOf(link, w, steps[0]).0 == side then [EventOf(link, w, steps[0]).1] else [])
      + SideEvents(link, Next(link, w, steps[0]).value, steps[1..], side)
  }

  /** In an honest run each indexer's events are all payable and all succeed, so what is proved
      about such event sequences, RefundCancelsTransfer included, holds of every honest run. */
  lemma {:induction false} HonestRunIsPayable(link: Link, w: World, steps: seq<Step>, last: World, side: Side)
    requires Invariant(link, w) && HonestRun(link, w, steps, last)
    ensures PayableAll(w.RowOf(side), SideEvents(link, w, steps, side))
    ensures HandledAll(w.RowOf(side), SideEvents(link, w, steps, side)) == Success(last.RowOf(side))
    decreases |steps|
  {
    if steps != [] {
      var (actor, event) := EventOf(link, w, steps[0]);
      var next := Next(link, w, steps[0]).value;
      StepIsPayable(link, w, steps[0]);
      StepKeepsInvariant(link, w, steps[0]);
      HonestRunIsPayable(link, next, steps[1..], last, side);
      var rest := SideEvents(link, next, steps[1..], side);
      if actor == side {
        assert SideEvents(link, w, steps, side) == [event] + rest;
        assert ([event] + rest)[1..] == rest;
      } else {
        assert SideEvents(link, w, steps, side) == [] + rest == rest;
        assert next.RowOf(side) == w.RowOf(side);
      }
    }
  }
}
