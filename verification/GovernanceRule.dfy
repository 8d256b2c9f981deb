/** What becomes of a proposal and of a vote in every run of the fund contract, both ways. */
module GovernanceRule {
  import opened Machine
  import opened Governance

  // ----- the count -----

  /** What the machine takes for a tenth of the voting power. */
  function Quorum(power: uint64): nat {
    10 * power % TWO64 / 100
  }

  /** The count passes the proposal: while the votes' sum fits, and on what is left of it when it wraps. */
  predicate Carries(votesFor: uint64, votesAgainst: uint64, power: uint64) {
    if votesFor + votesAgainst < TWO64 then
      && Quorum(power) <= votesFor + votesAgainst
      && 0 < votesFor && 60 * (votesFor + votesAgainst) <= 100 * votesFor < TWO64
    else
      var left := votesFor + votesAgainst - TWO64;
      0 < left && Quorum(power) <= left && 60 * left <= 100 * votesFor % TWO64
  }

  /** The count divides by 0 and stops the program. */
  predicate Stops(votesFor: uint64, votesAgainst: uint64, power: uint64) {
    votesFor + votesAgainst == TWO64 && Quorum(power) == 0
  }

  lemma CountIs(votesFor: uint64, votesAgainst: uint64, power: uint64)
    ensures VerdictOn(votesFor, votesAgainst, power) == Approve <==> Carries(votesFor, votesAgainst, power)
    ensures VerdictOn(votesFor, votesAgainst, power) == Crash <==> Stops(votesFor, votesAgainst, power)
  {
    MulNonNegative(power, 10);
    WrapIsModulo(power * 10);
    WrapIsModulo(votesFor * 100);
    if votesFor + votesAgainst < TWO64 {
      VerdictIff(votesFor, votesAgainst, power);
    } else {
      WrappedVerdictIff(votesFor, votesAgainst, power);
    }
  }

  /** Where nothing leaves uint64 the machine carries what the rule approves. */
  lemma CarriesApproved(votesFor: uint64, votesAgainst: uint64, power: uint64)
    requires votesFor + votesAgainst < TWO64 && 100 * votesFor < TWO64 && 10 * power < TWO64
    ensures Carries(votesFor, votesAgainst, power) <==> Approved(votesFor, votesAgainst, power)
    ensures !Stops(votesFor, votesAgainst, power)
  {
  }

  // ----- what a run can do to a proposal -----

  predicate NewId(s: State, e: Event) {
    e.call.Create? ==> e.call.id !in s.proposals
  }

  type Property = Proposal -> bool

  type Cause = (State, Event) -> bool

  /** Whatever the state, a step gives a proposal the property exactly by being its cause, and never takes it away. */
  ghost predicate Brings(cause: Cause, id: Id, property: Property) {
    forall s: State, e :: id in s.proposals && NewId(s, e) ==> BroughtBy(cause, id, property, s, e)
  }

  ghost predicate BroughtBy(cause: Cause, id: Id, property: Property, s: State, e: Event)
    requires id in s.proposals
  {
    var after := Next(s, e.call, e.now).proposals;
    id in after && (property(after[id]) <==> property(s.proposals[id]) || cause(s, e))
  }

  /** Event i of the run is the cause. */
  ghost predicate CausedAt(cause: Cause, s: State, events: seq<Event>, i: nat) {
    i < |events| && cause(Run(s, events[..i]), events[i])
  }

  ghost predicate Caused(cause: Cause, s: State, events: seq<Event>) {
    exists i :: CausedAt(cause, s, events, i)
  }

  lemma CausedStep(cause: Cause, s: State, events: seq<Event>)
    requires events != []
    ensures
      var n := |events| - 1;
      Caused(cause, s, events) <==> Caused(cause, s, events[..n]) || cause(Run(s, events[..n]), events[n])
  {
    var n := |events| - 1;
    forall i: nat | i < n ensures CausedAt(cause, s, events, i) <==> CausedAt(cause, s, events[..n], i) {
      assert events[..n][..i] == events[..i];
    }
    if Caused(cause, s, events[..n]) {
      var i :| CausedAt(cause, s, events[..n], i);
      assert CausedAt(cause, s, events, i);
    } else if cause(Run(s, events[..n]), events[n]) {
      assert CausedAt(cause, s, events, n);
    }
  }

  /** Then in every run the proposal has the property at the end exactly if it had it or some event was the cause. */
  lemma {:induction false} HasIff(cause: Cause, id: Id, property: Property, s: State, events: seq<Event>)
    requires Brings(cause, id, property) && FreshIds(s, events) && id in s.proposals
    ensures id in Run(s, events).proposals
    ensures property(Run(s, events).proposals[id]) <==> property(s.proposals[id]) || Caused(cause, s, events)
  {
    if events != [] {
      var n := |events| - 1;
      FreshPrefix(s, events);
      HasIff(cause, id, property, s, events[..n]);
      CausedStep(cause, s, events);
      assert BroughtBy(cause, id, property, Run(s, events[..n]), events[n]);
    }
  }

  // ----- the status -----

  predicate Active(s: State, id: Id) {
    id in s.proposals && s.proposals[id].status == Status.Active
  }

  /** The event counts the votes of an active proposal after its deadline. */
  predicate Counts(s: State, e: Event, id: Id) {
    Active(s, id) && e.call == Finalize(id) && e.now > s.proposals[id].votingEndTime
  }

  predicate Passes(s: State, e: Event, id: Id) {
    Counts(s, e, id) && Carries(s.proposals[id].votesFor, s.proposals[id].votesAgainst, s.totalVotingPower)
  }

  predicate Rejects(s: State, e: Event, id: Id) {
    && Counts(s, e, id) && !Passes(s, e, id)
    && !Stops(s.proposals[id].votesFor, s.proposals[id].votesAgainst, s.totalVotingPower)
  }

  /** A vote on an active proposal after its deadline. */
  predicate Expires(s: State, e: Event, id: Id) {
    Active(s, id) && e.call.Cast? && e.call.id == id && e.now > s.proposals[id].votingEndTime
  }

  /** A passed proposal the fund covers. */
  predicate Pays(s: State, e: Event, id: Id) {
    && id in s.proposals && s.proposals[id].status == Passed
    && e.call == Execute(id) && s.proposals[id].amount <= s.fundBalance
  }

  function Passing(id: Id): Cause {
    (s, e) => Passes(s, e, id)
  }

  function Rejecting(id: Id): Cause {
    (s, e) => Rejects(s, e, id)
  }

  function Expiring(id: Id): Cause {
    (s, e) => Expires(s, e, id)
  }

  function Paying(id: Id): Cause {
    (s, e) => Pays(s, e, id)
  }

  lemma CountStep(s: State, e: Event, id: Id)
    requires id in s.proposals && NewId(s, e)
    ensures
      var p, after := s.proposals[id], Next(s, e.call, e.now).proposals;
      && id in after
      && (after[id].status in {Passed, Executed} <==> p.status in {Passed, Executed} || Passes(s, e, id))
      && (after[id].status == Rejected <==> p.status == Rejected || Rejects(s, e, id))
      && (after[id].status == Expired <==> p.status == Expired || Expires(s, e, id))
      && (after[id].status == Executed <==> p.status == Executed || Pays(s, e, id))
  {
    CountIs(s.proposals[id].votesFor, s.proposals[id].votesAgainst, s.totalVotingPower);
  }

  /**
   In every run, for a proposal that starts out active: it ends passed or executed exactly if some count after its
   deadline carried it, rejected exactly if some such count did not, expired exactly if a vote came too late, executed
   exactly if an execution found it passed and covered.
   */
  lemma StatusIff(s: State, events: seq<Event>, id: Id)
    requires FreshIds(s, events) && Active(s, id)
    ensures id in Run(s, events).proposals
    ensures
      var status := Run(s, events).proposals[id].status;
      && (status in {Passed, Executed} <==> Caused(Passing(id), s, events))
      && (status == Rejected <==> Caused(Rejecting(id), s, events))
      && (status == Expired <==> Caused(Expiring(id), s, events))
      && (status == Executed <==> Caused(Paying(id), s, events))
  {
    PassedIff(s, events, id);
    RejectedIff(s, events, id);
    ExpiredIff(s, events, id);
    ExecutedIff(s, events, id);
  }

  lemma PassedIff(s: State, events: seq<Event>, id: Id)
    requires FreshIds(s, events) && id in s.proposals
    ensures id in Run(s, events).proposals
    ensures Run(s, events).proposals[id].status in {Passed, Executed}
       <==> s.proposals[id].status in {Passed, Executed} || Caused(Passing(id), s, events)
  {
    var cause, property := Passing(id), (p: Proposal) => p.status in {Passed, Executed};
    forall s: State, e | id in s.proposals && NewId(s, e) ensures BroughtBy(cause, id, property, s, e) {
      CountStep(s, e, id);
    }
    HasIff(cause, id, property, s, events);
  }

  lemma RejectedIff(s: State, events: seq<Event>, id: Id)
    requires FreshIds(s, events) && id in s.proposals
    ensures id in Run(s, events).proposals
    ensures Run(s, events).proposals[id].status == Rejected
       <==> s.proposals[id].status == Rejected || Caused(Rejecting(id), s, events)
  {
    var cause, property := Rejecting(id), (p: Proposal) => p.status == Rejected;
    forall s: State, e | id in s.proposals && NewId(s, e) ensures BroughtBy(cause, id, property, s, e) {
      CountStep(s, e, id);
    }
    HasIff(cause, id, property, s, events);
  }

  lemma ExpiredIff(s: State, events: seq<Event>, id: Id)
    requires FreshIds(s, events) && id in s.proposals
    ensures id in Run(s, events).proposals
    ensures Run(s, events).proposals[id].status == Expired
       <==> s.proposals[id].status == Expired || Caused(Expiring(id), s, events)
  {
    var cause, property := Expiring(id), (p: Proposal) => p.status == Expired;
    forall s: State, e | id in s.proposals && NewId(s, e) ensures BroughtBy(cause, id, property, s, e) {
      CountStep(s, e, id);
    }
    HasIff(cause, id, property, s, events);
  }

  lemma ExecutedIff(s: State, events: seq<Event>, id: Id)
    requires FreshIds(s, events) && id in s.proposals
    ensures id in Run(s, events).proposals
    ensures Run(s, events).proposals[id].status == Executed
       <==> s.proposals[id].status == Executed || Caused(Paying(id), s, events)
  {
    var cause, property := Paying(id), (p: Proposal) => p.status == Executed;
    forall s: State, e | id in s.proposals && NewId(s, e) ensures BroughtBy(cause, id, property, s, e) {
      CountStep(s, e, id);
    }
    HasIff(cause, id, property, s, events);
  }

  lemma RunAppend(s: State, events: seq<Event>, e: Event)
    ensures Run(s, events + [e]) == Next(Run(s, events), e.call, e.now)
  {
    assert (events + [e])[..|events|] == events;
  }

  /** None of the count's numbers leaves uint64. */
  predicate CountFits(p: Proposal, power: uint64) {
    p.votesFor + p.votesAgainst < TWO64 && 100 * p.votesFor < TWO64 && 10 * power < TWO64
  }

  /**
   After every run, a count of an active proposal past its deadline, with its numbers within uint64, passes it if and
   only if the rule approves and rejects it otherwise; executed next, a passed one that the fund covers is paid.
   */
  lemma ApprovedIsPaid(s: State, events: seq<Event>, id: Id, now: int, later: int)
    requires Counts(Run(s, events), Event(Finalize(id), now), id)
    requires CountFits(Run(s, events).proposals[id], Run(s, events).totalVotingPower)
    ensures
      var t, counted := Run(s, events), events + [Event(Finalize(id), now)];
      var p := t.proposals[id];
      var approved := Approved(p.votesFor, p.votesAgainst, t.totalVotingPower);
      && Run(s, counted) == Update(t, id, p.(status := if approved then Passed else Rejected))
      && Run(s, counted + [Event(Execute(id), later)]) ==
         if approved && p.amount <= t.fundBalance
         then Update(t, id, p.(status := Executed)).(fundBalance := t.fundBalance - p.amount)
         else Run(s, counted)
  {
    var t, counted := Run(s, events), events + [Event(Finalize(id), now)];
    var p := t.proposals[id];
    CountIs(p.votesFor, p.votesAgainst, t.totalVotingPower);
    CarriesApproved(p.votesFor, p.votesAgainst, t.totalVotingPower);
    RunAppend(s, events, Event(Finalize(id), now));
    RunAppend(s, counted, Event(Execute(id), later));
  }

  // ----- votes -----

  /** A first vote of some power, on an active proposal and in time. */
  predicate Votes(s: State, e: Event, id: Id, voter: string, vote: Vote) {
    && Active(s, id) && voter !in s.proposals[id].voters
    && e.call == Cast(id, voter, vote.support, vote.power)
    && vote.power > 0 && e.now <= s.proposals[id].votingEndTime
  }

  function Voting(id: Id, voter: string, vote: Vote): Cause {
    (s, e) => Votes(s, e, id, voter, vote)
  }

  lemma VoteStep(s: State, e: Event, id: Id, voter: string, vote: Vote)
    requires id in s.proposals && NewId(s, e)
    ensures
      var p, after := s.proposals[id].voters, Next(s, e.call, e.now).proposals;
      && id in after
      && (Recorded(after[id], voter, vote) <==> Recorded(s.proposals[id], voter, vote) || Votes(s, e, id, voter, vote))
  {
  }

  predicate Recorded(p: Proposal, voter: string, vote: Vote) {
    voter in p.voters && p.voters[voter] == vote
  }

  /** In every run a vote is on record exactly if it was, or some event was its casting: first, in time, with power. */
  lemma RecordedIff(s: State, events: seq<Event>, id: Id, voter: string, vote: Vote)
    requires FreshIds(s, events) && id in s.proposals
    ensures id in Run(s, events).proposals
    ensures Recorded(Run(s, events).proposals[id], voter, vote)
       <==> Recorded(s.proposals[id], voter, vote) || Caused(Voting(id, voter, vote), s, events)
  {
    var cause, property := Voting(id, voter, vote), (p: Proposal) => Recorded(p, voter, vote);
    forall s: State, e | id in s.proposals && NewId(s, e) ensures BroughtBy(cause, id, property, s, e) {
      VoteStep(s, e, id, voter, vote);
    }
    HasIff(cause, id, property, s, events);
  }

  // ----- proposals -----

  /** A deposit of ten coins, something to pay and somebody to pay it to. */
  predicate Acceptable(amount: uint64, recipient: string, deposit: uint64) {
    deposit >= 1000000000 && amount > 0 && |recipient| > 0
  }

  /** Every run that ends with a new proposal has it, with its terms, a week to vote and no votes, exactly if acceptable. */
  lemma ProposedIff(
      s: State, events: seq<Event>, id: Id, proposer: string, amount: uint64, recipient: string, deposit: uint64, now: int)
    ensures
      var t := Run(s, events);
      Run(s, events + [Event(Create(id, proposer, amount, recipient, deposit), now)]) ==
        if Acceptable(amount, recipient, deposit)
        then Update(t, id, Proposal(proposer, amount, recipient, deposit, now + 604800, 0, 0, map[], Status.Active))
        else t
  {
    RunAppend(s, events, Event(Create(id, proposer, amount, recipient, deposit), now));
  }

  // ----- the voting power -----

  /** In every run the voting power is the one set last, if it was set at all. */
  lemma {:induction false} PowerIsLastSet(s: State, events: seq<Event>, i: nat)
    requires i <= |events|
    requires forall j :: i <= j < |events| ==> !events[j].call.SetPower?
    ensures i == 0 ==> Run(s, events).totalVotingPower == s.totalVotingPower
    ensures i > 0 && events[i - 1].call.SetPower? ==> Run(s, events).totalVotingPower == events[i - 1].call.total
    decreases |events|
  {
    if i < |events| {
      PowerIsLastSet(s, events[..|events| - 1], i);
    }
  }

  // ----- replies -----

  /** The caller is told that a call is done exactly when it had its effect. */
  lemma DoneIff(s: State, call: Call, now: int)
    ensures ReplyTo(s, call, now) == Done <==>
      match call
      case AddFunds(_) => true
      case SetPower(_) => true
      case Create(_, _, amount, recipient, deposit) => Acceptable(amount, recipient, deposit)
      case Cast(id, voter, support, power) => Votes(s, Event(call, now), id, voter, Vote(support, power))
      case Finalize(id) => Passes(s, Event(call, now), id) || Rejects(s, Event(call, now), id)
      case Execute(id) => Pays(s, Event(call, now), id)
  {
    if call.Finalize? && call.id in s.proposals {
      CountIs(s.proposals[call.id].votesFor, s.proposals[call.id].votesAgainst, s.totalVotingPower);
    }
  }

  /** The reason is true of the call. */
  predicate TrueOf(s: State, call: Call, now: int, reply: Reply) {
    match call
    case Create(_, _, amount, recipient, deposit) =>
      (reply == DepositTooLow && deposit < 1000000000) || (reply == ZeroAmount && amount == 0)
      || (reply == NoRecipient && |recipient| == 0)
    case Cast(id, voter, _, power) =>
      if id !in s.proposals then reply == NotFound
      else
        var p := s.proposals[id];
        (reply == NotActive && p.status != Status.Active) || (reply == PeriodEnded && now > p.votingEndTime)
        || (reply == AlreadyVoted && voter in p.voters) || (reply == ZeroPower && power == 0)
    case Finalize(id) =>
      if id !in s.proposals then reply == NotFound
      else
        var p := s.proposals[id];
        (reply == PeriodNotEnded && now <= p.votingEndTime) || (reply == AlreadyFinalized && p.status != Status.Active)
        || (reply == DivisionByZero && Stops(p.votesFor, p.votesAgainst, s.totalVotingPower))
    case Execute(id) =>
      if id !in s.proposals then reply == NotFound
      else
        var p := s.proposals[id];
        (reply == NotPassed && p.status != Passed) || (reply == FundTooLow && s.fundBalance < p.amount)
    case _ => false
  }

  /** A refusal gives a reason that is true. */
  lemma ReasonIsTrue(s: State, call: Call, now: int)
    requires ReplyTo(s, call, now) != Done
    ensures TrueOf(s, call, now, ReplyTo(s, call, now))
  {
    if call.Finalize? && call.id in s.proposals {
      CountIs(s.proposals[call.id].votesFor, s.proposals[call.id].votesAgainst, s.totalVotingPower);
    }
  }
}
