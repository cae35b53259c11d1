/** projection/proposal/proposal.go: proposals with their deposits and votes, and the counters
    that are kept beside the tables. */
module Proposals {
  import opened Wrappers
  import opened BigInt
  import opened IntBounds
  import opened Coins

  datatype Status = DepositPeriod | VotingPeriod | Inactive | Passed | Failed | Rejected

  datatype Proposal = Proposal(status: Status, initialDeposit: CoinSet, totalDeposit: CoinSet, totalVote: int)

  /** One vote as cast: transaction, height and answer. */
  datatype Ballot = Ballot(transactionHash: string, height: int, answer: string)

  datatype VoteRow = VoteRow(current: Ballot, histories: seq<Ballot>)

  datatype DepositorRow = DepositorRow(proposalId: string, depositor: string, amount: CoinSet)

  datatype Event =
    | Submit(proposalId: string, proposer: string, initialDeposit: CoinSet)
    | VotingPeriodStarted(proposalId: string)
    | Inactived(proposalId: string)
    | Ended(proposalId: string, result: string)
    | Deposit(proposalId: string, depositor: string, amount: CoinSet)
    | Vote(proposalId: string, voter: string, ballot: Ballot)

  datatype ProposalError = DuplicateProposal | ProposalNotFound | UnrecognizedEndStatus | AmountPanic

  // ---- what a sequence of events amounts to

  /** The votes of one voter on one proposal, in order. */
  function Ballots(log: seq<Event>, proposalId: string, voter: string): seq<Ballot> {
    if log == [] then []
    else
      var last := log[|log| - 1];
      Ballots(log[..|log| - 1], proposalId, voter)
      + (if last.Vote? && last.proposalId == proposalId && last.voter == voter then [last.ballot] else [])
  }

  function Voters(log: seq<Event>, proposalId: string): set<string> {
    if log == [] then {}
    else
      var last := log[|log| - 1];
      Voters(log[..|log| - 1], proposalId) + (if last.Vote? && last.proposalId == proposalId then {last.voter} else {})
  }

  /** The deposits on a proposal with their depositors, the initial one included. */
  function DepositsOn(log: seq<Event>, proposalId: string): seq<(string, CoinSet)> {
    if log == [] then []
    else
      var last := log[|log| - 1];
      DepositsOn(log[..|log| - 1], proposalId)
      + (if last.Submit? && last.proposalId == proposalId then [(last.proposer, last.initialDeposit)]
         else if last.Deposit? && last.proposalId == proposalId then [(last.depositor, last.amount)] else [])
  }

  function Deposited(deposits: seq<(string, CoinSet)>, denom: string): int {
    if deposits == [] then 0 else Deposited(deposits[..|deposits| - 1], denom) + Amount(deposits[|deposits| - 1].1, denom)
  }

  predicate IsSubmitted(log: seq<Event>, proposalId: string) {
    exists i :: 0 <= i < |log| && log[i].Submit? && log[i].proposalId == proposalId
  }

  /** The status that the last submit or status event on the proposal calls for. */
  function StatusIn(log: seq<Event>, proposalId: string): Status {
    if log == [] then DepositPeriod
    else
      var last, before := log[|log| - 1], log[..|log| - 1];
      if last.proposalId != proposalId then StatusIn(before, proposalId)
      else match last
           case Submit(_, _, _) => DepositPeriod
           case VotingPeriodStarted(_) => VotingPeriod
           case Inactived(_) => Inactive
           case Ended(_, result) =>
             if result == "proposal_passed" then Passed
             else if result == "proposal_failed" then Failed
             else if result == "proposal_rejected" then Rejected
             else StatusIn(before, proposalId)
           case _ => StatusIn(before, proposalId)
  }

  /** The deposit that the proposal was last submitted with. */
  function SubmittedWith(log: seq<Event>, proposalId: string): CoinSet {
    if log == [] then []
    else if log[|log| - 1].Submit? && log[|log| - 1].proposalId == proposalId then log[|log| - 1].initialDeposit
    else SubmittedWith(log[..|log| - 1], proposalId)
  }

  function RowsOf(rows: seq<DepositorRow>, proposalId: string): seq<(string, CoinSet)> {
    if rows == [] then []
    else
      var last := rows[|rows| - 1];
      RowsOf(rows[..|rows| - 1], proposalId) + (if last.proposalId == proposalId then [(last.depositor, last.amount)] else [])
  }

  function Count(totals: map<string, int>, key: string): int {
    if key in totals then totals[key] else 0
  }

  /** Message amounts are sorted coin sets without negative amounts, as the chain validates. */
  predicate Payment(coins: CoinSet) {
    Sorted(coins) && NonNegative(coins) && AllFit(coins, MAX_BIT_LEN)
  }

  predicate WellFormed(event: Event) {
    && (event.Submit? ==> Payment(event.initialDeposit))
    && (event.Deposit? ==> Payment(event.amount))
  }

  lemma {:induction false} VotersHaveBallots(log: seq<Event>, proposalId: string, voter: string)
    ensures voter in Voters(log, proposalId) <==> Ballots(log, proposalId, voter) != []
  {
    if log != [] {
      VotersHaveBallots(log[..|log| - 1], proposalId, voter);
    }
  }

  /** The tables inside the projection's database transaction. */
  datatype Tables = Tables(
    proposals: map<string, Proposal>,
    depositors: seq<DepositorRow>,
    depositorsTotal: map<string, int>,
    votes: map<(string, string), VoteRow>,
    votesTotal: map<string, int>)

  const EMPTY_TABLES := Tables(map[], [], map[], map[], map[])

  /** Both vote counters are the number of distinct voters, and each vote row, histories and then
      current answer, is that voter's votes in order. */
  ghost predicate VotesAgree(t: Tables, log: seq<Event>, id: string) {
    && (id in t.proposals ==> t.proposals[id].totalVote == |Voters(log, id)|)
    && (id !in t.proposals ==> Voters(log, id) == {})
    && Count(t.votesTotal, id) == |Voters(log, id)|
    && (forall voter :: (id, voter) in t.votes <==> voter in Voters(log, id))
    && (forall voter :: (id, voter) in t.votes ==>
          t.votes[(id, voter)].histories + [t.votes[(id, voter)].current] == Ballots(log, id, voter))
  }

  /** The depositor rows are the deposits in order, their counter is their number, and the total
      deposit is their sum on every denom. */
  ghost predicate DepositsAgree(t: Tables, log: seq<Event>, id: string) {
    && RowsOf(t.depositors, id) == DepositsOn(log, id)
    && Count(t.depositorsTotal, id) == |DepositsOn(log, id)|
    && (id !in t.proposals ==> DepositsOn(log, id) == [])
    && (id in t.proposals ==>
          && Payment(t.proposals[id].totalDeposit)
          && forall d :: Amount(t.proposals[id].totalDeposit, d) == Deposited(DepositsOn(log, id), d))
  }

  /** The proposals are the submitted ones, each with the status of its last submit or status event and
      the deposit of its submission. */
  ghost predicate StatusAgrees(t: Tables, log: seq<Event>, id: string) {
    && (id in t.proposals <==> IsSubmitted(log, id))
    && (id in t.proposals ==>
          t.proposals[id].status == StatusIn(log, id) && t.proposals[id].initialDeposit == SubmittedWith(log, id))
  }

  ghost predicate Agree(t: Tables, log: seq<Event>) {
    forall id :: VotesAgree(t, log, id) && DepositsAgree(t, log, id) && StatusAgrees(t, log, id)
  }

  // ---- what each branch does to the tables

  function WithDeposit(t: Tables, id: string, proposal: Proposal, row: DepositorRow): Tables {
    t.(proposals := t.proposals[id := proposal], depositors := t.depositors + [row],
       depositorsTotal := t.depositorsTotal[id := Count(t.depositorsTotal, id) + 1])
  }

  function AfterSubmit(t: Tables, event: Event): Tables
    requires event.Submit?
  {
    WithDeposit(t, event.proposalId, Proposal(DepositPeriod, event.initialDeposit, event.initialDeposit, 0),
                DepositorRow(event.proposalId, event.proposer, event.initialDeposit))
  }

  function AfterDeposit(t: Tables, event: Event, total: CoinSet): Tables
    requires event.Deposit? && event.proposalId in t.proposals
  {
    WithDeposit(t, event.proposalId, t.proposals[event.proposalId].(totalDeposit := total),
                DepositorRow(event.proposalId, event.depositor, event.amount))
  }

  function AfterStatus(t: Tables, id: string, status: Status): Tables
    requires id in t.proposals
  {
    t.(proposals := t.proposals[id := t.proposals[id].(status := status)])
  }

  function AfterVote(t: Tables, event: Event): Tables
    requires event.Vote? && event.proposalId in t.proposals
  {
    var id, key := event.proposalId, (event.proposalId, event.voter);
    if key in t.votes then
      t.(votes := t.votes[key := VoteRow(event.ballot, t.votes[key].histories + [t.votes[key].current])])
    else
      t.(votes := t.votes[key := VoteRow(event.ballot, [])],
         proposals := t.proposals[id := t.proposals[id].(totalVote := t.proposals[id].totalVote + 1)],
         votesTotal := t.votesTotal[id := Count(t.votesTotal, id) + 1])
  }

  /** The status a status event sets; none for an end result that is not recognised. */
  function StatusAfter(event: Event): Option<Status> {
    if event.VotingPeriodStarted? then Some(VotingPeriod)
    else if event.Inactived? then Some(Inactive)
    else if !event.Ended? then None
    else if event.result == "proposal_passed" then Some(Passed)
    else if event.result == "proposal_failed" then Some(Failed)
    else if event.result == "proposal_rejected" then Some(Rejected)
    else None
  }

  function TablesAfter(t: Tables, event: Event): Result<Tables, ProposalError> {
    var id := event.proposalId;
    if event.Submit? then
      if id in t.proposals then Failure(DuplicateProposal) else Success(AfterSubmit(t, event))
    else if id !in t.proposals then Failure(ProposalNotFound)
    else if event.Vote? then Success(AfterVote(t, event))
    else if event.Deposit? then
      var total := Sum(t.proposals[id].totalDeposit, event.amount, MAX_BIT_LEN);
      if total.Failure? then Failure(AmountPanic) else Success(AfterDeposit(t, event, total.value))
    else
      var status := StatusAfter(event);
      if status.None? then Failure(UnrecognizedEndStatus) else Success(AfterStatus(t, id, status.value))
  }

  function TablesAfterAll(t: Tables, events: seq<Event>): Result<Tables, ProposalError>
    decreases |events|
  {
    if events == [] then Success(t)
    else
      var next :- TablesAfter(t, events[0]);
      TablesAfterAll(next, events[1..])
  }

  // ---- each branch keeps the tables in agreement with the events

  lemma LogFront(log: seq<Event>, event: Event)
    ensures (log + [event])[..|log + [event]| - 1] == log && (log + [event])[|log + [event]| - 1] == event
  {
  }

  lemma SubmittedNext(log: seq<Event>, event: Event, id: string)
    ensures IsSubmitted(log + [event], id) <==> IsSubmitted(log, id) || (event.Submit? && event.proposalId == id)
    ensures (log + [event])[..|log|] == log && (log + [event])[|log|] == event
  {
    var more := log + [event];
    if IsSubmitted(log, id) {
      var i :| 0 <= i < |log| && log[i].Submit? && log[i].proposalId == id;
      assert more[i] == log[i];
    }
    if event.Submit? && event.proposalId == id { assert more[|log|] == event; }
  }

  lemma VotesUntouched(t: Tables, t': Tables, log: seq<Event>, event: Event, id: string)
    requires VotesAgree(t, log, id) && (!event.Vote? || event.proposalId != id)
    requires t'.votesTotal == t.votesTotal || (event.Vote? && t'.votesTotal == t.votesTotal[event.proposalId := Count(t'.votesTotal, event.proposalId)])
    requires t'.votes == t.votes || (event.Vote? && (forall voter :: (id, voter) in t'.votes <==> (id, voter) in t.votes)
                                     && (forall voter :: (id, voter) in t.votes ==> t'.votes[(id, voter)] == t.votes[(id, voter)]))
    requires id in t.proposals ==> id in t'.proposals
    requires id in t'.proposals ==> t'.proposals[id].totalVote == if id in t.proposals then t.proposals[id].totalVote else 0
    ensures VotesAgree(t', log + [event], id)
  {
    LogFront(log, event);
    assert Voters(log + [event], id) == Voters(log, id);
    forall voter ensures Ballots(log + [event], id, voter) == Ballots(log, id, voter) {
    }
  }

  lemma DepositsUntouched(t: Tables, t': Tables, log: seq<Event>, event: Event, id: string)
    requires DepositsAgree(t, log, id) && ((!event.Submit? && !event.Deposit?) || event.proposalId != id)
    requires RowsOf(t'.depositors, id) == RowsOf(t.depositors, id)
    requires Count(t'.depositorsTotal, id) == Count(t.depositorsTotal, id)
    requires id in t.proposals <==> id in t'.proposals
    requires id in t'.proposals ==> t'.proposals[id].totalDeposit == t.proposals[id].totalDeposit
    ensures DepositsAgree(t', log + [event], id)
  {
    LogFront(log, event);
    assert DepositsOn(log + [event], id) == DepositsOn(log, id);
  }

  lemma RowsOfAppend(rows: seq<DepositorRow>, row: DepositorRow, id: string)
    ensures RowsOf(rows + [row], id) == RowsOf(rows, id) + (if row.proposalId == id then [(row.depositor, row.amount)] else [])
  {
    assert (rows + [row])[..|rows|] == rows;
  }

  lemma DepositedAppend(deposits: seq<(string, CoinSet)>, deposit: (string, CoinSet), d: string)
    ensures Deposited(deposits + [deposit], d) == Deposited(deposits, d) + Amount(deposit.1, d)
  {
    assert (deposits + [deposit])[..|deposits|] == deposits;
  }

  /** A new deposit: one row, one count, and the amounts move by the deposit. */
  lemma DepositAgrees(t: Tables, t': Tables, log: seq<Event>, event: Event, depositor: string, amount: CoinSet, id: string)
    requires DepositsAgree(t, log, id)
    requires (event.Deposit? && event.proposalId == id && event.depositor == depositor && event.amount == amount)
             || (event.Submit? && event.proposalId == id && event.proposer == depositor && event.initialDeposit == amount)
    requires RowsOf(t'.depositors, id) == RowsOf(t.depositors, id) + [(depositor, amount)]
    requires Count(t'.depositorsTotal, id) == Count(t.depositorsTotal, id) + 1
    requires id in t'.proposals && Payment(t'.proposals[id].totalDeposit)
    requires forall d :: Amount(t'.proposals[id].totalDeposit, d)
                         == (if id in t.proposals then Amount(t.proposals[id].totalDeposit, d) else 0) + Amount(amount, d)
    ensures DepositsAgree(t', log + [event], id)
  {
    LogFront(log, event);
    var deposits := DepositsOn(log, id);
    assert DepositsOn(log + [event], id) == deposits + [(depositor, amount)];
    forall d ensures Amount(t'.proposals[id].totalDeposit, d) == Deposited(deposits + [(depositor, amount)], d) {
      DepositedAppend(deposits, (depositor, amount), d);
    }
  }

  lemma SubmitAgrees(t: Tables, log: seq<Event>, event: Event)
    requires Agree(t, log) && event.Submit? && WellFormed(event) && event.proposalId !in t.proposals
    ensures Agree(AfterSubmit(t, event), log + [event])
  {
    var t' := AfterSubmit(t, event);
    forall id ensures VotesAgree(t', log + [event], id) && DepositsAgree(t', log + [event], id) && StatusAgrees(t', log + [event], id) {
      assert VotesAgree(t, log, id) && DepositsAgree(t, log, id) && StatusAgrees(t, log, id);
      SubmittedNext(log, event, id);
      RowsOfAppend(t.depositors, t'.depositors[|t.depositors|], id);
      VotesUntouched(t, t', log, event, id);
      if id == event.proposalId {
        DepositAgrees(t, t', log, event, event.proposer, event.initialDeposit, id);
      } else {
        DepositsUntouched(t, t', log, event, id);
      }
    }
  }

  lemma DepositEventAgrees(t: Tables, log: seq<Event>, event: Event, total: CoinSet)
    requires Agree(t, log) && event.Deposit? && WellFormed(event) && event.proposalId in t.proposals
    requires Sum(t.proposals[event.proposalId].totalDeposit, event.amount, MAX_BIT_LEN) == Success(total)
    ensures Agree(AfterDeposit(t, event, total), log + [event])
  {
    var t', log' := AfterDeposit(t, event, total), log + [event];
    forall id ensures VotesAgree(t', log', id) && DepositsAgree(t', log', id) && StatusAgrees(t', log', id) {
      assert VotesAgree(t, log, id) && DepositsAgree(t, log, id) && StatusAgrees(t, log, id);
      VotesUntouched(t, t', log, event, id);
      DepositKeepsStatus(t, log, event, total, id);
      DepositKeepsSum(t, log, event, total, id);
    }
  }

  lemma DepositKeepsStatus(t: Tables, log: seq<Event>, event: Event, total: CoinSet, id: string)
    requires StatusAgrees(t, log, id) && event.Deposit? && event.proposalId in t.proposals
    ensures StatusAgrees(AfterDeposit(t, event, total), log + [event], id)
  {
    SubmittedNext(log, event, id);
  }

  lemma DepositKeepsSum(t: Tables, log: seq<Event>, event: Event, total: CoinSet, id: string)
    requires DepositsAgree(t, log, id) && event.Deposit? && WellFormed(event) && event.proposalId in t.proposals
    requires Sum(t.proposals[event.proposalId].totalDeposit, event.amount, MAX_BIT_LEN) == Success(total)
    ensures DepositsAgree(AfterDeposit(t, event, total), log + [event], id)
  {
    var t' := AfterDeposit(t, event, total);
    RowsOfAppend(t.depositors, t'.depositors[|t.depositors|], id);
    if id == event.proposalId {
      SumIsPayment(t.proposals[id].totalDeposit, event.amount, total);
      DepositAgrees(t, t', log, event, event.depositor, event.amount, id);
    } else {
      DepositsUntouched(t, t', log, event, id);
    }
  }

  lemma StatusEventAgrees(t: Tables, log: seq<Event>, event: Event, status: Status)
    requires Agree(t, log) && StatusAfter(event) == Some(status) && event.proposalId in t.proposals
    ensures Agree(AfterStatus(t, event.proposalId, status), log + [event])
  {
    var t' := AfterStatus(t, event.proposalId, status);
    forall id ensures VotesAgree(t', log + [event], id) && DepositsAgree(t', log + [event], id) && StatusAgrees(t', log + [event], id) {
      assert VotesAgree(t, log, id) && DepositsAgree(t, log, id) && StatusAgrees(t, log, id);
      SubmittedNext(log, event, id);
      VotesUntouched(t, t', log, event, id);
      DepositsUntouched(t, t', log, event, id);
    }
  }

  lemma VoteAgrees(t: Tables, log: seq<Event>, event: Event)
    requires Agree(t, log) && event.Vote? && event.proposalId in t.proposals
    ensures Agree(AfterVote(t, event), log + [event])
  {
    var t', log' := AfterVote(t, event), log + [event];
    forall id ensures VotesAgree(t', log', id) && DepositsAgree(t', log', id) && StatusAgrees(t', log', id) {
      assert VotesAgree(t, log, id) && DepositsAgree(t, log, id) && StatusAgrees(t, log, id);
      DepositsUntouched(t, t', log, event, id);
      VoteKeepsStatus(t, log, event, id);
      if id == event.proposalId {
        OwnVoteAgrees(t, log, event);
      } else {
        VotesUntouched(t, t', log, event, id);
      }
    }
  }

  lemma VoteKeepsStatus(t: Tables, log: seq<Event>, event: Event, id: string)
    requires StatusAgrees(t, log, id) && event.Vote? && event.proposalId in t.proposals
    ensures StatusAgrees(AfterVote(t, event), log + [event], id)
  {
    SubmittedNext(log, event, id);
  }

  lemma BallotsAppend(log: seq<Event>, event: Event, voter: string)
    requires event.Vote?
    ensures Ballots(log + [event], event.proposalId, voter)
            == Ballots(log, event.proposalId, voter) + (if voter == event.voter then [event.ballot] else [])
  {
    LogFront(log, event);
  }

  lemma VotersAppend(log: seq<Event>, event: Event)
    requires event.Vote?
    ensures var before, after := Voters(log, event.proposalId), Voters(log + [event], event.proposalId);
            after == before + {event.voter} && |after| == |before| + (if event.voter in before then 0 else 1)
  {
    LogFront(log, event);
    var before := Voters(log, event.proposalId);
    assert event.voter in before ==> before + {event.voter} == before;
  }

  lemma OwnVoteAgrees(t: Tables, log: seq<Event>, event: Event)
    requires event.Vote? && event.proposalId in t.proposals && VotesAgree(t, log, event.proposalId)
    ensures VotesAgree(AfterVote(t, event), log + [event], event.proposalId)
  {
    var t', id := AfterVote(t, event), event.proposalId;
    VotersAppend(log, event);
    VotersHaveBallots(log, id, event.voter);
    forall voter | (id, voter) in t'.votes
      ensures t'.votes[(id, voter)].histories + [t'.votes[(id, voter)].current] == Ballots(log + [event], id, voter)
    {
      BallotsAppend(log, event, voter);
      if voter != event.voter {
        assert t'.votes[(id, voter)] == t.votes[(id, voter)];
      } else if (id, voter) !in t.votes {
        assert Ballots(log, id, voter) == [];
      }
    }
  }

  lemma SumIsPayment(a: CoinSet, b: CoinSet, sum: CoinSet)
    requires Payment(a) && Payment(b) && Sum(a, b, MAX_BIT_LEN) == Success(sum)
    ensures Payment(sum) && forall d :: Amount(sum, d) == Amount(a, d) + Amount(b, d)
  {
    SumMeaning(a, b, MAX_BIT_LEN);
    forall d ensures Amount(sum, d) >= 0 && Abs(Amount(sum, d)) < Pow2(MAX_BIT_LEN) {
      AmountNonNegative(a, d);
      AmountNonNegative(b, d);
    }
    NonNegativeIff(sum);
    FitsIff(sum, MAX_BIT_LEN);
  }

  /** When an event succeeds and with which error it fails. */
  lemma EventOutcome(t: Tables, event: Event)
    requires WellFormed(event)
    requires event.Deposit? && event.proposalId in t.proposals ==> Payment(t.proposals[event.proposalId].totalDeposit)
    ensures var id, r := event.proposalId, TablesAfter(t, event);
            match event
            case Submit(_, _, _) => if id in t.proposals then r == Failure(DuplicateProposal) else r.Success?
            case VotingPeriodStarted(_) => if id in t.proposals then r.Success? else r == Failure(ProposalNotFound)
            case Inactived(_) => if id in t.proposals then r.Success? else r == Failure(ProposalNotFound)
            case Vote(_, _, _) => if id in t.proposals then r.Success? else r == Failure(ProposalNotFound)
            case Ended(_, result) =>
              if id !in t.proposals then r == Failure(ProposalNotFound)
              else if result == "proposal_passed" || result == "proposal_failed" || result == "proposal_rejected" then r.Success?
              else r == Failure(UnrecognizedEndStatus)
            case Deposit(_, _, amount) =>
              if id !in t.proposals then r == Failure(ProposalNotFound)
              else if exists d :: Amount(t.proposals[id].totalDeposit, d) + Amount(amount, d) >= Pow2(MAX_BIT_LEN) then r == Failure(AmountPanic)
              else r.Success?
  {
    if event.Deposit? && event.proposalId in t.proposals {
      var total := t.proposals[event.proposalId].totalDeposit;
      SumMeaning(total, event.amount, MAX_BIT_LEN);
      forall d ensures Amount(total, d) >= 0 && Amount(event.amount, d) >= 0 {
        AmountNonNegative(total, d);
        AmountNonNegative(event.amount, d);
      }
    }
  }

  /** One more event fails when it or one before it does. */
  lemma {:induction false} OneMoreEvent(t: Tables, events: seq<Event>, last: Event)
    ensures TablesAfterAll(t, []) == Success(t)
    ensures TablesAfterAll(t, events + [last])
            == if TablesAfterAll(t, events).Failure? then TablesAfterAll(t, events)
               else TablesAfter(TablesAfterAll(t, events).value, last)
    decreases |events|
  {
    if events == [] {
      assert events + [last] == [last] && [last][1..] == [];
      if TablesAfter(t, last).Success? {
        assert TablesAfterAll(TablesAfter(t, last).value, [last][1..]).Success?;
      }
    } else {
      assert (events + [last])[0] == events[0] && (events + [last])[1..] == events[1..] + [last];
      if TablesAfter(t, events[0]).Success? {
        OneMoreEvent(TablesAfter(t, events[0]).value, events[1..], last);
      }
    }
  }

  // ---- the projection

  /** A branch either makes the specified tables and logs the event, in agreement with each
      other, or reports the specified error. */
  ghost predicate Did(before: Tables, log: seq<Event>, event: Event, r: Result<(), ProposalError>, after: Tables, log': seq<Event>) {
    match TablesAfter(before, event)
    case Success(t) => r.Success? && after == t && log' == log + [event] && Agree(t, log')
    case Failure(error) => r == Failure(error)
  }

  class ProposalProjection {
    var tables: Tables
    /** The events handled so far. */
    ghost var log: seq<Event>

    ghost predicate Valid()
      reads this
    {
      Agree(tables, log)
    }

    constructor ()
      ensures Valid() && log == [] && tables == EMPTY_TABLES
    {
      tables := EMPTY_TABLES;
      log := [];
    }

    method HandleSubmit(event: Event) returns (r: Result<(), ProposalError>)
      requires Valid() && event.Submit? && WellFormed(event)
      modifies this
      ensures Did(old(tables), old(log), event, r, tables, log)
    {
      if event.proposalId in tables.proposals {
        return Failure(DuplicateProposal);
      }
      SubmitAgrees(tables, log, event);
      tables := AfterSubmit(tables, event);
      log := log + [event];
      return Success(());
    }

    method HandleStatus(event: Event) returns (r: Result<(), ProposalError>)
      requires Valid() && (event.VotingPeriodStarted? || event.Inactived? || event.Ended?)
      modifies this
      ensures Did(old(tables), old(log), event, r, tables, log)
    {
      var id := event.proposalId;
      if id !in tables.proposals {
        return Failure(ProposalNotFound);
      }
      var status;
      if event.VotingPeriodStarted? {
        status := VotingPeriod;
      } else if event.Inactived? {
        status := Inactive;
      } else if event.result == "proposal_passed" {
        status := Passed;
      } else if event.result == "proposal_failed" {
        status := Failed;
      } else if event.result == "proposal_rejected" {
        status := Rejected;
      } else {
        return Failure(UnrecognizedEndStatus);
      }
      StatusEventAgrees(tables, log, event, status);
      tables := AfterStatus(tables, id, status);
      log := log + [event];
      return Success(());
    }

    method HandleDeposit(event: Event) returns (r: Result<(), ProposalError>)
      requires Valid() && event.Deposit? && WellFormed(event)
      modifies this
      ensures Did(old(tables), old(log), event, r, tables, log)
    {
      var id := event.proposalId;
      if id !in tables.proposals {
        return Failure(ProposalNotFound);
      }
      var total := SafeAdd(tables.proposals[id].totalDeposit, event.amount, MAX_BIT_LEN);
      if total.Failure? {
        return Failure(AmountPanic);
      }
      DepositEventAgrees(tables, log, event, total.value);
      tables := AfterDeposit(tables, event, total.value);
      log := log + [event];
      return Success(());
    }

    /** A first vote inserts a row before the proposal is looked up; a repeated one moves the
        current answer into the histories and counts nothing. */
    method HandleVote(event: Event) returns (r: Result<(), ProposalError>)
      requires Valid() && event.Vote?
      modifies this
      ensures Did(old(tables), old(log), event, r, tables, log)
    {
      var id, key := event.proposalId, (event.proposalId, event.voter);
      assert VotesAgree(tables, log, id);
      if key !in tables.votes {
        if id !in tables.proposals {
          return Failure(ProposalNotFound);
        }
      }
      VoteAgrees(tables, log, event);
      tables := AfterVote(tables, event);
      log := log + [event];
      return Success(());
    }

    /** All events of a block in one transaction: either all are in the log, or none.  Valid then
        says that the counters agree with the tables after any sequence of events. */
    method HandleEvents(events: seq<Event>) returns (r: Result<(), ProposalError>)
      requires Valid() && forall i :: 0 <= i < |events| ==> WellFormed(events[i])
      modifies this
      ensures Valid()
      ensures match TablesAfterAll(old(tables), events)
              case Success(t) => r.Success? && tables == t && log == old(log) + events
              case Failure(error) => r == Failure(error) && tables == old(tables) && log == old(log)
    {
      var committed := tables;
      assert events[..0] == [] && events[0..] == events;
      for i := 0 to |events|
        invariant Valid() && log == old(log) + events[..i]
        invariant TablesAfterAll(tables, events[i..]) == TablesAfterAll(old(tables), events)
      {
        assert events[i..][1..] == events[i + 1..];
        match events[i] {
          case Submit(_, _, _) => r := HandleSubmit(events[i]);
          case Deposit(_, _, _) => r := HandleDeposit(events[i]);
          case Vote(_, _, _) => r := HandleVote(events[i]);
          case _ => r := HandleStatus(events[i]);
        }
        if r.Failure? {
          tables, log := committed, old(log);
          return;
        }
        assert events[..i + 1] == events[..i] + [events[i]];
      }
      assert events[..|events|] == events;
      return Success(());
    }
  }
}
