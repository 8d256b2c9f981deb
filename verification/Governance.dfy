/** The community fund: blockchain/contracts/community_fund_governance.go. */
module Governance {
  import opened Machine
  import opened Sums

  const VOTING_PERIOD := 7 * 24 * 60 * 60
  const MINIMUM_DEPOSIT := 1000000000
  const QUORUM_PERCENT: uint64 := 10
  const APPROVAL_THRESHOLD := 60

  type Id = string

  datatype Status = Active | Passed | Rejected | Executed | Expired

  datatype Vote = Vote(support: bool, power: uint64)

  datatype Proposal = Proposal(
    proposer: string, amount: uint64, recipient: string, deposit: uint64, votingEndTime: int,
    votesFor: uint64, votesAgainst: uint64, voters: map<string, Vote>, status: Status)

  datatype State = State(fundBalance: uint64, proposals: map<Id, Proposal>, totalVotingPower: uint64)

  datatype Reply =
    | Done | DepositTooLow | ZeroAmount | NoRecipient | NotFound | NotActive | PeriodEnded | AlreadyVoted | ZeroPower
    | PeriodNotEnded | AlreadyFinalized | DivisionByZero | NotPassed | FundTooLow

  datatype Call =
    | AddFunds(amount: uint64)
    | Create(id: Id, proposer: string, amount: uint64, recipient: string, deposit: uint64)
    | Cast(id: Id, voter: string, support: bool, power: uint64)
    | Finalize(id: Id)
    | Execute(id: Id)
    | SetPower(total: uint64)

  // ----- what each call does -----

  datatype Verdict = Approve | Decline | Crash

  /** The decision of `FinalizeVoting`, on uint64. */
  function VerdictOn(votesFor: uint64, votesAgainst: uint64, totalPower: uint64): Verdict {
    var totalVotes := Add(votesFor, votesAgainst);
    if totalVotes < Mul(totalPower, QUORUM_PERCENT) / 100 then Decline
    else if votesFor == 0 then Decline
    else if totalVotes == 0 then Crash
    else if Mul(votesFor, 100) / totalVotes >= APPROVAL_THRESHOLD then Approve
    else Decline
  }

  function ReplyTo(s: State, call: Call, now: int): Reply {
    match call
    case AddFunds(_) => Done
    case SetPower(_) => Done
    case Create(_, _, amount, recipient, deposit) =>
      if deposit < MINIMUM_DEPOSIT then DepositTooLow
      else if amount == 0 then ZeroAmount
      else if recipient == "" then NoRecipient
      else Done
    case Cast(id, voter, _, power) =>
      if id !in s.proposals then NotFound
      else
        var p := s.proposals[id];
        if p.status != Active then NotActive
        else if now > p.votingEndTime then PeriodEnded
        else if voter in p.voters then AlreadyVoted
        else if power == 0 then ZeroPower
        else Done
    case Finalize(id) =>
      if id !in s.proposals then NotFound
      else
        var p := s.proposals[id];
        if now <= p.votingEndTime then PeriodNotEnded
        else if p.status != Active then AlreadyFinalized
        else if VerdictOn(p.votesFor, p.votesAgainst, s.totalVotingPower) == Crash then DivisionByZero
        else Done
    case Execute(id) =>
      if id !in s.proposals then NotFound
      else if s.proposals[id].status != Passed then NotPassed
      else if s.fundBalance < s.proposals[id].amount then FundTooLow
      else Done
  }

  function Counted(p: Proposal, voter: string, vote: Vote): Proposal {
    p.(voters := p.voters[voter := vote],
       votesFor := if vote.support then Add(p.votesFor, vote.power) else p.votesFor,
       votesAgainst := if vote.support then p.votesAgainst else Add(p.votesAgainst, vote.power))
  }

  function Update(s: State, id: Id, p: Proposal): State {
    s.(proposals := s.proposals[id := p])
  }

  /** The state after a call; the one failing call that writes is a late vote, which lets the proposal expire. */
  function Next(s: State, call: Call, now: int): State {
    var reply := ReplyTo(s, call, now);
    match call
    case AddFunds(amount) =>
      s.(fundBalance := if s.fundBalance + amount < TWO64 then s.fundBalance + amount else MAX_UINT64)
    case SetPower(total) => s.(totalVotingPower := total)
    case Create(id, proposer, amount, recipient, deposit) =>
      if reply != Done then s
      else Update(s, id, Proposal(proposer, amount, recipient, deposit, now + VOTING_PERIOD, 0, 0, map[], Active))
    case Cast(id, voter, support, power) =>
      if reply == PeriodEnded then Update(s, id, s.proposals[id].(status := Expired))
      else if reply != Done then s
      else Update(s, id, Counted(s.proposals[id], voter, Vote(support, power)))
    case Finalize(id) =>
      if reply != Done then s
      else
        var p := s.proposals[id];
        var approved := VerdictOn(p.votesFor, p.votesAgainst, s.totalVotingPower) == Approve;
        Update(s, id, p.(status := if approved then Passed else Rejected))
    case Execute(id) =>
      if reply != Done then s
      else
        var p := s.proposals[id];
        Update(s, id, p.(status := Executed)).(fundBalance := s.fundBalance - p.amount)
  }

  class CommunityFundGovernanceContract {
    var fundBalance: uint64
    var proposals: map<Id, Proposal>
    var totalVotingPower: uint64

    function Now(): State
      reads this
    {
      State(fundBalance, proposals, totalVotingPower)
    }

    constructor ()
      ensures Now() == State(0, map[], 0)
    {
      fundBalance, proposals, totalVotingPower := 0, map[], 0;
    }

    method AddFunds(amount: uint64)
      modifies this
      ensures Now() == Next(old(Now()), Call.AddFunds(amount), 0)
    {
      if fundBalance > MAX_UINT64 - amount {
        fundBalance := MAX_UINT64;
      } else {
        fundBalance := fundBalance + amount;
      }
    }

    method SetTotalVotingPower(total: uint64)
      modifies this
      ensures Now() == Next(old(Now()), Call.SetPower(total), 0)
    {
      totalVotingPower := total;
    }

    /** The identifier is a hash over random data; here the caller brings it. */
    method CreateProposal(id: Id, proposer: string, amount: uint64, recipient: string, deposit: uint64, now: int)
        returns (reply: Reply)
      modifies this
      ensures Now() == Next(old(Now()), Call.Create(id, proposer, amount, recipient, deposit), now)
      ensures reply == ReplyTo(old(Now()), Call.Create(id, proposer, amount, recipient, deposit), now)
    {
      if deposit < MINIMUM_DEPOSIT {
        return DepositTooLow;
      }
      if amount == 0 {
        return ZeroAmount;
      }
      if recipient == "" {
        return NoRecipient;
      }
      proposals := proposals[id := Proposal(proposer, amount, recipient, deposit, now + VOTING_PERIOD, 0, 0, map[], Active)];
      return Done;
    }

    method CastVote(id: Id, voter: string, support: bool, power: uint64, now: int) returns (reply: Reply)
      modifies this
      ensures Now() == Next(old(Now()), Call.Cast(id, voter, support, power), now)
      ensures reply == ReplyTo(old(Now()), Call.Cast(id, voter, support, power), now)
    {
      if id !in proposals {
        return NotFound;
      }
      var p := proposals[id];
      if p.status != Active {
        return NotActive;
      }
      if now > p.votingEndTime {
        proposals := proposals[id := p.(status := Expired)];
        return PeriodEnded;
      }
      if voter in p.voters {
        return AlreadyVoted;
      }
      if power == 0 {
        return ZeroPower;
      }
      p := p.(voters := p.voters[voter := Vote(support, power)]);
      if support {
        p := p.(votesFor := Add(p.votesFor, power));
      } else {
        p := p.(votesAgainst := Add(p.votesAgainst, power));
      }
      proposals := proposals[id := p];
      return Done;
    }

    method FinalizeVoting(id: Id, now: int) returns (reply: Reply)
      modifies this
      ensures Now() == Next(old(Now()), Call.Finalize(id), now)
      ensures reply == ReplyTo(old(Now()), Call.Finalize(id), now)
    {
      if id !in proposals {
        return NotFound;
      }
      var p := proposals[id];
      if now <= p.votingEndTime {
        return PeriodNotEnded;
      }
      if p.status != Active {
        return AlreadyFinalized;
      }
      var totalVotes := Add(p.votesFor, p.votesAgainst);
      var quorumVotes := Mul(totalVotingPower, QUORUM_PERCENT) / 100;
      if totalVotes < quorumVotes || p.votesFor == 0 {
        proposals := proposals[id := p.(status := Rejected)];
        return Done;
      }
      if totalVotes == 0 {
        return DivisionByZero;
      }
      var approvalPercent := Mul(p.votesFor, 100) / totalVotes;
      if approvalPercent >= APPROVAL_THRESHOLD {
        proposals := proposals[id := p.(status := Passed)];
      } else {
        proposals := proposals[id := p.(status := Rejected)];
      }
      return Done;
    }

    method ExecuteProposal(id: Id) returns (reply: Reply)
      modifies this
      ensures Now() == Next(old(Now()), Call.Execute(id), 0)
      ensures reply == ReplyTo(old(Now()), Call.Execute(id), 0)
    {
      if id !in proposals {
        return NotFound;
      }
      var p := proposals[id];
      if p.status != Passed {
        return NotPassed;
      }
      if fundBalance < p.amount {
        return FundTooLow;
      }
      fundBalance := fundBalance - p.amount;
      proposals := proposals[id := p.(status := Executed)];
      return Done;
    }
  }

  // ----- every run -----

  datatype Event = Event(call: Call, now: int)

  function Run(s: State, events: seq<Event>): State {
    if events == [] then s
    else
      var n := |events| - 1;
      Next(Run(s, events[..n]), events[n].call, events[n].now)
  }

  /** Identifiers of new proposals are new. */
  ghost predicate FreshIds(s: State, events: seq<Event>) {
    forall i :: 0 <= i < |events| && events[i].call.Create? ==> events[i].call.id !in Run(s, events[..i]).proposals
  }

  lemma FreshPrefix(s: State, events: seq<Event>)
    requires FreshIds(s, events) && events != []
    ensures FreshIds(s, events[..|events| - 1])
    ensures
      var e := events[|events| - 1];
      e.call.Create? ==> e.call.id !in Run(s, events[..|events| - 1]).proposals
  {
    var shorter := events[..|events| - 1];
    forall i | 0 <= i < |shorter| && shorter[i].call.Create?
      ensures shorter[i].call.id !in Run(s, shorter[..i]).proposals
    {
      assert shorter[..i] == events[..i] && shorter[i] == events[i];
    }
  }

  // tallies

  ghost function PowerOf(voters: map<string, Vote>, support: bool): map<string, int> {
    map v | v in voters :: if voters[v].support == support then voters[v].power else 0
  }

  /** The tallies are the summed power of the recorded voters on each side, modulo 2^64. */
  ghost predicate Tallied(p: Proposal) {
    && MapSum(PowerOf(p.voters, true)) >= 0
    && MapSum(PowerOf(p.voters, false)) >= 0
    && p.votesFor == Wrap(MapSum(PowerOf(p.voters, true)))
    && p.votesAgainst == Wrap(MapSum(PowerOf(p.voters, false)))
  }

  ghost predicate AllTallied(s: State) {
    forall id :: id in s.proposals ==> Tallied(s.proposals[id])
  }

  lemma PowerAdded(voters: map<string, Vote>, voter: string, vote: Vote, side: bool)
    requires voter !in voters
    ensures MapSum(PowerOf(voters[voter := vote], side))
         == MapSum(PowerOf(voters, side)) + (if vote.support == side then vote.power else 0)
  {
    var power := if vote.support == side then vote.power else 0;
    assert PowerOf(voters[voter := vote], side) == PowerOf(voters, side)[voter := power];
    SumUpdate(PowerOf(voters, side), voter, power);
  }

  lemma CountedTallied(p: Proposal, voter: string, vote: Vote)
    requires Tallied(p) && voter !in p.voters
    ensures Tallied(Counted(p, voter, vote))
  {
    PowerAdded(p.voters, voter, vote, true);
    PowerAdded(p.voters, voter, vote, false);
    SumWraps(MapSum(PowerOf(p.voters, vote.support)), vote.power);
  }

  lemma UpdateTallied(s: State, id: Id, p: Proposal)
    requires AllTallied(s) && Tallied(p)
    ensures AllTallied(Update(s, id, p))
  {
  }

  lemma NextTallied(s: State, call: Call, now: int)
    requires AllTallied(s)
    ensures AllTallied(Next(s, call, now))
  {
    if call.Cast? {
      CastTallied(s, call, now);
    } else if call.Create? {
      assert PowerOf(map[], true) == map[] && PowerOf(map[], false) == map[];
    }
  }

  lemma CastTallied(s: State, call: Call, now: int)
    requires AllTallied(s) && call.Cast?
    ensures AllTallied(Next(s, call, now))
  {
    if ReplyTo(s, call, now) == Done {
      var vote := Vote(call.support, call.power);
      CountedTallied(s.proposals[call.id], call.voter, vote);
      UpdateTallied(s, call.id, Counted(s.proposals[call.id], call.voter, vote));
    }
  }

  /** In every run the tallies are what the recorded votes say. */
  lemma {:induction false} RunTallied(s: State, events: seq<Event>)
    requires AllTallied(s)
    ensures AllTallied(Run(s, events))
  {
    if events != [] {
      var n := |events| - 1;
      RunTallied(s, events[..n]);
      NextTallied(Run(s, events[..n]), events[n].call, events[n].now);
    }
  }

  /** A tally is the exact sum exactly when the sum fits into uint64. */
  lemma TallyExactIff(p: Proposal)
    requires Tallied(p)
    ensures p.votesFor == MapSum(PowerOf(p.voters, true)) <==> MapSum(PowerOf(p.voters, true)) < TWO64
    ensures p.votesAgainst == MapSum(PowerOf(p.voters, false)) <==> MapSum(PowerOf(p.voters, false)) < TWO64
  {
  }

  // proposals only move forward

  ghost predicate StatusMoves(from: Status, to: Status) {
    || from == to
    || (from == Active && to in {Passed, Rejected, Expired, Executed})
    || (from == Passed && to == Executed)
  }

  /** What may happen to a proposal: terms fixed, status forward, votes only added, and only while it is active. */
  ghost predicate Evolves(p: Proposal, q: Proposal) {
    && (p.proposer, p.amount, p.recipient, p.deposit, p.votingEndTime)
       == (q.proposer, q.amount, q.recipient, q.deposit, q.votingEndTime)
    && StatusMoves(p.status, q.status)
    && (p.status != Active ==> (p.votesFor, p.votesAgainst, p.voters) == (q.votesFor, q.votesAgainst, q.voters))
    && forall v :: v in p.voters ==> v in q.voters && q.voters[v] == p.voters[v]
  }

  lemma NextEvolves(s: State, call: Call, now: int, id: Id)
    requires id in s.proposals && (call.Create? ==> call.id != id)
    ensures id in Next(s, call, now).proposals
    ensures Evolves(s.proposals[id], Next(s, call, now).proposals[id])
    ensures s.proposals[id].status == Active ==> Next(s, call, now).proposals[id].status != Executed
  {
  }

  /** In every run, from any state of it to any later one. */
  lemma {:induction false} RunEvolves(s: State, events: seq<Event>, id: Id)
    requires FreshIds(s, events) && id in s.proposals
    ensures id in Run(s, events).proposals && Evolves(s.proposals[id], Run(s, events).proposals[id])
  {
    if events != [] {
      var n := |events| - 1;
      FreshPrefix(s, events);
      RunEvolves(s, events[..n], id);
      NextEvolves(Run(s, events[..n]), events[n].call, events[n].now, id);
    }
  }

  // no execution without an approval

  /** Event `i` is the vote count that passed the proposal, on the tallies it still has at the end. */
  ghost predicate PassedAt(s: State, events: seq<Event>, id: Id, i: nat) {
    && i < |events|
    && events[i].call == Finalize(id)
    && var before := Run(s, events[..i]);
       && id in before.proposals
       && var p := before.proposals[id];
          && p.status == Active
          && events[i].now > p.votingEndTime
          && VerdictOn(p.votesFor, p.votesAgainst, before.totalVotingPower) == Approve
          && id in Run(s, events).proposals
          && p.votesFor == Run(s, events).proposals[id].votesFor
          && p.votesAgainst == Run(s, events).proposals[id].votesAgainst
  }

  ghost predicate Settled(s: State, id: Id) {
    id in s.proposals && s.proposals[id].status in {Passed, Executed}
  }

  /** How a proposal comes to be passed or executed in one step. */
  lemma NextSettled(s: State, call: Call, now: int, id: Id)
    requires Settled(Next(s, call, now), id) && !Settled(s, id) && (call.Create? ==> call.id !in s.proposals)
    ensures call == Finalize(id) && id in s.proposals
    ensures
      var p, q := s.proposals[id], Next(s, call, now).proposals[id];
      && p.status == Active && now > p.votingEndTime
      && VerdictOn(p.votesFor, p.votesAgainst, s.totalVotingPower) == Approve
      && (p.votesFor, p.votesAgainst) == (q.votesFor, q.votesAgainst)
  {
  }

  lemma NextKeepsSettled(s: State, call: Call, now: int, id: Id)
    requires Settled(s, id) && (call.Create? ==> call.id !in s.proposals)
    ensures
      var p, q := s.proposals[id], Next(s, call, now).proposals;
      id in q && (p.votesFor, p.votesAgainst) == (q[id].votesFor, q[id].votesAgainst)
  {
  }

  /** In every run, a proposal that ends passed or executed was counted after its deadline and approved then. */
  lemma {:induction false} SettledWasApproved(s: State, events: seq<Event>, id: Id) returns (i: nat)
    requires FreshIds(s, events) && !Settled(s, id) && Settled(Run(s, events), id)
    ensures PassedAt(s, events, id, i)
  {
    var n := |events| - 1;
    var shorter, last := events[..n], events[n];
    FreshPrefix(s, events);
    var before := Run(s, shorter);
    if Settled(before, id) {
      i := SettledWasApproved(s, shorter, id);
      NextKeepsSettled(before, last.call, last.now, id);
      assert events[..i] == shorter[..i] && events[i] == shorter[i];
    } else {
      NextSettled(before, last.call, last.now, id);
      i := n;
    }
  }

  // the fund

  ghost function Payouts(s: State): map<Id, int> {
    map id | id in s.proposals :: if s.proposals[id].status == Executed then s.proposals[id].amount else 0
  }

  ghost function Spent(s: State): int {
    MapSum(Payouts(s))
  }

  function AddedIn(events: seq<Event>): nat {
    if events == [] then 0
    else
      var last := events[|events| - 1].call;
      AddedIn(events[..|events| - 1]) + (if last.AddFunds? then last.amount else 0)
  }

  /** What a call adds beyond the range of uint64, and the saturating addition drops. */
  function Dropped(s: State, call: Call): nat {
    if call.AddFunds? && s.fundBalance + call.amount > MAX_UINT64 then s.fundBalance + call.amount - MAX_UINT64 else 0
  }

  function DroppedIn(s: State, events: seq<Event>): nat {
    if events == [] then 0
    else
      var n := |events| - 1;
      DroppedIn(s, events[..n]) + Dropped(Run(s, events[..n]), events[n].call)
  }

  lemma SpentUpdate(s: State, id: Id, p: Proposal)
    ensures Spent(Update(s, id, p))
         == Spent(s) - (if id in s.proposals && s.proposals[id].status == Executed then s.proposals[id].amount else 0)
            + (if p.status == Executed then p.amount else 0)
  {
    var paid := if p.status == Executed then p.amount else 0;
    assert Payouts(Update(s, id, p)) == Payouts(s)[id := paid];
    SumUpdate(Payouts(s), id, paid);
  }

  lemma NextFund(s: State, call: Call, now: int)
    requires call.Create? ==> call.id !in s.proposals
    ensures
      var t := Next(s, call, now);
      t.fundBalance + Spent(t) + Dropped(s, call)
      == s.fundBalance + Spent(s) + (if call.AddFunds? then call.amount else 0)
  {
    var t := Next(s, call, now);
    if t.proposals == s.proposals {
      assert Payouts(t) == Payouts(s);
    } else {
      var id := call.id;
      SpentUpdate(s, id, t.proposals[id]);
      assert Payouts(t) == Payouts(Update(s, id, t.proposals[id]));
    }
  }

  /** In every run: what is in the fund, was paid out or was dropped adds up to what came in. */
  lemma {:induction false} FundConserved(s: State, events: seq<Event>)
    requires FreshIds(s, events)
    ensures Run(s, events).fundBalance + Spent(Run(s, events)) + DroppedIn(s, events)
         == s.fundBalance + Spent(s) + AddedIn(events)
  {
    if events != [] {
      var n := |events| - 1;
      FreshPrefix(s, events);
      FundConserved(s, events[..n]);
      NextFund(Run(s, events[..n]), events[n].call, events[n].now);
    }
  }

  /** From a new contract the balance is funds added minus amounts executed exactly when no addition saturated. */
  lemma FundBalanceIff(events: seq<Event>)
    requires FreshIds(State(0, map[], 0), events)
    ensures
      var s := State(0, map[], 0);
      Run(s, events).fundBalance == AddedIn(events) - Spent(Run(s, events)) <==> DroppedIn(s, events) == 0
  {
    FundConserved(State(0, map[], 0), events);
    assert Payouts(State(0, map[], 0)) == map[];
  }

  // the verdict

  /** The rule as it is meant, on unbounded numbers: a tenth of the power votes, and 60 percent of them for it. */
  predicate Approved(votesFor: nat, votesAgainst: nat, totalPower: nat) {
    votesFor + votesAgainst >= totalPower * 10 / 100 && MeetsThreshold(votesFor, votesAgainst)
  }

  predicate MeetsThreshold(votesFor: nat, votesAgainst: nat) {
    votesFor > 0 && 100 * votesFor >= 60 * (votesFor + votesAgainst)
  }

  lemma QuotientAtLeast(x: nat, t: nat)
    requires t > 0
    ensures x / t >= 60 <==> x >= 60 * t
  {
    if x / t >= 60 {
      assert t * (x / t) >= t * 60;
    } else {
      assert t * (x / t) <= t * 59;
    }
  }

  /** A wrapped percentage never reaches the threshold. */
  lemma WrappedPercentageFails(votesFor: uint64, total: uint64)
    requires votesFor <= total && 100 * votesFor >= TWO64
    ensures Mul(votesFor, 100) < 60 * total
  {
    if 60 * total < TWO64 {
      assert 100 * votesFor < 2 * TWO64;
    }
  }

  /** What the machine takes for the quorum. */
  function MachineQuorum(totalPower: uint64): uint64 {
    Mul(totalPower, QUORUM_PERCENT) / 100
  }

  /**
   While the sum of the votes fits, a proposal is approved exactly under the rule's threshold, a hundredfold that fits
   and the machine's quorum; and the count never crashes.
   */
  lemma VerdictIff(votesFor: uint64, votesAgainst: uint64, totalPower: uint64)
    requires votesFor + votesAgainst < TWO64
    ensures VerdictOn(votesFor, votesAgainst, totalPower) == Approve
       <==> && votesFor + votesAgainst >= MachineQuorum(totalPower)
            && MeetsThreshold(votesFor, votesAgainst) && 100 * votesFor < TWO64
    ensures VerdictOn(votesFor, votesAgainst, totalPower) != Crash
  {
    var total: uint64 := votesFor + votesAgainst;
    if votesFor > 0 {
      QuotientAtLeast(Mul(votesFor, 100), total);
      if 100 * votesFor >= TWO64 {
        WrappedPercentageFails(votesFor, total);
      }
    }
  }

  /** When the sum wraps, what is left of it decides: nothing left crashes the count if the quorum is 0 as well. */
  lemma WrappedVerdictIff(votesFor: uint64, votesAgainst: uint64, totalPower: uint64)
    requires votesFor + votesAgainst >= TWO64
    ensures
      var left: uint64 := votesFor + votesAgainst - TWO64;
      var verdict := VerdictOn(votesFor, votesAgainst, totalPower);
      && (verdict == Crash <==> left == 0 && MachineQuorum(totalPower) == 0)
      && (verdict == Approve <==>
          left > 0 && left >= MachineQuorum(totalPower) && Mul(votesFor, 100) >= APPROVAL_THRESHOLD * left)
  {
    var left: uint64 := votesFor + votesAgainst - TWO64;
    if left > 0 {
      QuotientAtLeast(Mul(votesFor, 100), left);
    }
  }

  /** The verdict the rule gives. */
  predicate Right(votesFor: uint64, votesAgainst: uint64, totalPower: uint64) {
    VerdictOn(votesFor, votesAgainst, totalPower) == if Approved(votesFor, votesAgainst, totalPower) then Approve else Decline
  }

  /** A proposal above the threshold that misses the quorum, but not the wrapped quorum of the machine. */
  predicate QuorumWrappedAway(votesFor: uint64, votesAgainst: uint64, totalPower: uint64) {
    && MachineQuorum(totalPower) <= votesFor + votesAgainst < totalPower * QUORUM_PERCENT / 100
    && MeetsThreshold(votesFor, votesAgainst)
  }

  /**
   While the sum fits, the verdict is wrong in two cases only: the rule approves and the hundredfold of the votes for it
   wraps; or it fits, and the quorum that is missed was wrapped away.
   */
  lemma VerdictRightIff(votesFor: uint64, votesAgainst: uint64, totalPower: uint64)
    requires votesFor + votesAgainst < TWO64
    ensures Right(votesFor, votesAgainst, totalPower)
       <==> if 100 * votesFor < TWO64 then !QuorumWrappedAway(votesFor, votesAgainst, totalPower)
            else !Approved(votesFor, votesAgainst, totalPower)
  {
    VerdictIff(votesFor, votesAgainst, totalPower);
  }

  /** When it wraps, the verdict is right exactly where the threshold on what is left agrees with the true one. */
  lemma WrappedVerdictRightIff(votesFor: uint64, votesAgainst: uint64, totalPower: uint64)
    requires votesFor + votesAgainst >= TWO64
    ensures
      var left: uint64 := votesFor + votesAgainst - TWO64;
      Right(votesFor, votesAgainst, totalPower) <==>
        if MeetsThreshold(votesFor, votesAgainst)
        then left > 0 && left >= MachineQuorum(totalPower) && Mul(votesFor, 100) >= APPROVAL_THRESHOLD * left
        else left < MachineQuorum(totalPower) || (left > 0 && Mul(votesFor, 100) < APPROVAL_THRESHOLD * left)
  {
    WrappedVerdictIff(votesFor, votesAgainst, totalPower);
  }

  /** Beyond that range the verdict can be wrong: two votes beat 2^64 - 1, and one vote crashes the count. */
  lemma WrappedVotes()
    ensures VerdictOn(2, MAX_UINT64, 0) == Approve && !Approved(2, MAX_UINT64, 0)
    ensures VerdictOn(1, MAX_UINT64, 0) == Crash
  {
  }

  /** Joined: whatever ends passed or executed met the threshold when it was counted, and the quorum, if nothing wrapped there. */
  lemma SettledMetTheRule(s: State, events: seq<Event>, id: Id) returns (i: nat)
    requires FreshIds(s, events) && !Settled(s, id) && Settled(Run(s, events), id)
    ensures PassedAt(s, events, id, i)
    ensures
      var before, q := Run(s, events[..i]), Run(s, events).proposals[id];
      q.votesFor + q.votesAgainst < TWO64 ==>
        && MeetsThreshold(q.votesFor, q.votesAgainst)
        && (before.totalVotingPower * QUORUM_PERCENT < TWO64 ==>
              Approved(q.votesFor, q.votesAgainst, before.totalVotingPower))
  {
    i := SettledWasApproved(s, events, id);
    var before, q := Run(s, events[..i]), Run(s, events).proposals[id];
    if q.votesFor + q.votesAgainst < TWO64 {
      VerdictIff(q.votesFor, q.votesAgainst, before.totalVotingPower);
    }
  }

  // where the sums leave uint64

  /** Two votes of 2^64 - 1 and 1 for a proposal: the tally is back at 0. */
  lemma TallyWraps(p: Proposal)
    requires p.voters == map[] && p.votesFor == 0
    ensures
      var q := Counted(Counted(p, "a", Vote(true, MAX_UINT64)), "b", Vote(true, 1));
      q.votesFor == 0 && MapSum(PowerOf(q.voters, true)) == TWO64
  {
    var one := Counted(p, "a", Vote(true, MAX_UINT64));
    assert PowerOf(p.voters, true) == map[];
    PowerAdded(p.voters, "a", Vote(true, MAX_UINT64), true);
    PowerAdded(one.voters, "b", Vote(true, 1), true);
  }

  /** Funds of 2^64 - 1 and then 1: the second addition is dropped. */
  lemma FundSaturates(now: int)
    ensures
      var events := [Event(AddFunds(MAX_UINT64), now), Event(AddFunds(1), now)];
      var s := Run(State(0, map[], 0), events);
      s.fundBalance == MAX_UINT64 && Spent(s) == 0 && AddedIn(events) == TWO64
  {
    var events := [Event(AddFunds(MAX_UINT64), now), Event(AddFunds(1), now)];
    assert events[..1] == [events[0]] && events[..1][..0] == [];
    assert Run(State(0, map[], 0), events[..1]) == State(MAX_UINT64, map[], 0);
    assert AddedIn(events[..1]) == MAX_UINT64;
    assert Payouts(Run(State(0, map[], 0), events)) == map[];
  }
}
