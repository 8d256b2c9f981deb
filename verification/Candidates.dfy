/** The pool of competing blocks per height: `SubmitCandidate` and `selectBest` in blockchain/core/candidate_pool.go. */
module Candidates {
  import opened Machine
  import opened Sorting
  import opened Election

  type Height = uint64

  /** Durations and instants are nanoseconds. */
  datatype Settings = Settings(
    totalInterval: int, minWindow: int, maxLateness: int, maxCandidates: int, maxExtension: int)

  datatype HeightPool = HeightPool(firstArrival: int, deadline: int, candidates: seq<Candidate>, closed: bool)

  datatype State = State(pools: map<Height, HeightPool>, stopped: bool)

  datatype Refusal = Stopped | EmptyHash | Late | WindowClosed | DuplicateHash | DuplicateSource | Full

  datatype Reply = Added | Refused(reason: Refusal) | Elected(ranking: seq<Candidate>) | Quiet

  /** A submission reads the clock for lateness, on finding the pool, and for the mining time. */
  datatype Clock = Clock(entry: int, found: int, mined: int)

  datatype Call = Submit(c: Candidate, minedAt: int, clock: Clock) | Select(height: Height) | Stop

  function HeightOf(b: Block): Height {
    if b.headerHeight == 0 && b.height != 0 then b.height else b.headerHeight
  }

  // ----- one submission -----

  /** The first earlier candidate with this hash or this source decides. */
  function Clash(candidates: seq<Candidate>, c: Candidate): Option<Refusal> {
    if candidates == [] then None
    else if candidates[0].block.hash == c.block.hash then Some(DuplicateHash)
    else if candidates[0].source == c.source then Some(DuplicateSource)
    else Clash(candidates[1..], c)
  }

  predicate Apart(a: Candidate, b: Candidate) {
    a.block.hash != b.block.hash && a.source != b.source
  }

  lemma {:induction false} ClashIff(candidates: seq<Candidate>, c: Candidate)
    ensures Clash(candidates, c).None? <==> forall i :: 0 <= i < |candidates| ==> Apart(candidates[i], c)
  {
    if candidates != [] {
      ClashIff(candidates[1..], c);
      assert forall i :: 1 <= i < |candidates| ==> candidates[i] == candidates[1..][i - 1];
      if Clash(candidates, c).None? {
        forall i | 0 <= i < |candidates| ensures Apart(candidates[i], c) {
          assert i > 0 ==> Apart(candidates[1..][i - 1], c);
        }
      } else if Apart(candidates[0], c) {
        var i :| 0 <= i < |candidates[1..]| && !Apart(candidates[1..][i], c);
        assert !Apart(candidates[i + 1], c);
      }
    }
  }

  function Window(settings: Settings, mining: int): int {
    var spent := if mining < 0 then 0 else mining;
    var left := if spent <= settings.totalInterval then settings.totalInterval - spent else settings.minWindow;
    var atLeast := if left < settings.minWindow then settings.minWindow else left;
    if atLeast > settings.maxExtension then settings.maxExtension else atLeast
  }

  function RefusalOf(settings: Settings, s: State, c: Candidate, minedAt: int, clock: Clock): Option<Refusal> {
    var h := HeightOf(c.block);
    if s.stopped then Some(Stopped)
    else if c.block.hash == [] then Some(EmptyHash)
    else if clock.entry - minedAt > settings.maxLateness then Some(Late)
    else if h !in s.pools then None
    else if s.pools[h].closed || clock.found > s.pools[h].deadline then Some(WindowClosed)
    else if Clash(s.pools[h].candidates, c).Some? then Clash(s.pools[h].candidates, c)
    else if |s.pools[h].candidates| >= settings.maxCandidates then Some(Full)
    else None
  }

  function Opened(settings: Settings, minedAt: int, clock: Clock): HeightPool {
    HeightPool(clock.found, clock.found + Window(settings, clock.mined - minedAt), [], false)
  }

  function PoolFor(settings: Settings, s: State, c: Candidate, minedAt: int, clock: Clock): HeightPool {
    if HeightOf(c.block) in s.pools then s.pools[HeightOf(c.block)] else Opened(settings, minedAt, clock)
  }

  function WithCandidate(pool: HeightPool, c: Candidate): HeightPool {
    pool.(candidates := pool.candidates + [c])
  }

  // ----- calls -----

  function ReplyToSubmit(settings: Settings, s: State, call: Call): Reply
    requires call.Submit?
  {
    match RefusalOf(settings, s, call.c, call.minedAt, call.clock) case Some(reason) => Refused(reason) case None => Added
  }

  function ReplyTo(settings: Settings, sha256: Sha256, s: State, call: Call): Reply {
    match call
    case Submit(_, _, _) => ReplyToSubmit(settings, s, call)
    case Select(h) =>
      if h in s.pools && s.pools[h].candidates != [] then Elected(Ranking(sha256, s.pools[h].candidates)) else Quiet
    case Stop => Quiet
  }

  function AfterSubmit(settings: Settings, s: State, c: Candidate, minedAt: int, clock: Clock): State {
    if RefusalOf(settings, s, c, minedAt, clock).Some? then s
    else s.(pools := s.pools[HeightOf(c.block) := WithCandidate(PoolFor(settings, s, c, minedAt, clock), c)])
  }

  function AfterSelect(s: State, h: Height): State {
    if h !in s.pools then s
    else if s.pools[h].candidates == [] then s.(pools := s.pools[h := s.pools[h].(closed := true)])
    else s.(pools := s.pools - {h})
  }

  function AfterStop(s: State): State {
    if s.stopped then s
    else State(map h | h in s.pools :: s.pools[h].(closed := true), true)
  }

  function Next(settings: Settings, s: State, call: Call): State {
    match call
    case Submit(c, minedAt, clock) => AfterSubmit(settings, s, c, minedAt, clock)
    case Select(h) => AfterSelect(s, h)
    case Stop => AfterStop(s)
  }

  /** The scan for a duplicate. */
  method FindClash(candidates: seq<Candidate>, c: Candidate) returns (clash: Option<Refusal>)
    ensures clash == Clash(candidates, c)
  {
    for i := 0 to |candidates|
      invariant Clash(candidates, c) == Clash(candidates[i..], c)
    {
      if candidates[i].block.hash == c.block.hash {
        return Some(DuplicateHash);
      }
      if candidates[i].source == c.source {
        return Some(DuplicateSource);
      }
    }
    return None;
  }

  class CandidatePool {
    const settings: Settings
    const sha256: Sha256
    var pools: map<Height, HeightPool>
    var stopped: bool

    constructor (settings: Settings, sha256: Sha256)
      ensures this.settings == settings && this.sha256 == sha256
      ensures Abstract() == State(map[], false)
    {
      this.settings, this.sha256 := settings, sha256;
      pools, stopped := map[], false;
    }

    ghost function Abstract(): State
      reads this
    {
      State(pools, stopped)
    }

    method SubmitCandidate(c: Candidate, minedAt: int, clock: Clock) returns (reply: Reply)
      modifies this
      ensures reply == ReplyTo(settings, sha256, old(Abstract()), Submit(c, minedAt, clock))
      ensures Abstract() == Next(settings, old(Abstract()), Submit(c, minedAt, clock))
    {
      if stopped {
        return Refused(Stopped);
      }
      if |c.block.hash| == 0 {
        return Refused(EmptyHash);
      }
      var height := c.block.headerHeight;
      if height == 0 && c.block.height != 0 {
        height := c.block.height;
      }
      if clock.entry - minedAt > settings.maxLateness {
        return Refused(Late);
      }
      var pool;
      if height in pools {
        pool := pools[height];
        if pool.closed || clock.found > pool.deadline {
          return Refused(WindowClosed);
        }
        var clash := FindClash(pool.candidates, c);
        if clash.Some? {
          return Refused(clash.value);
        }
        if |pool.candidates| >= settings.maxCandidates {
          return Refused(Full);
        }
      } else {
        pool := OpenPool(settings, minedAt, clock);
      }
      pools := pools[height := pool.(candidates := pool.candidates + [c])];
      return Added;
    }

    method SelectBest(height: Height) returns (reply: Reply)
      modifies this
      ensures reply == ReplyTo(settings, sha256, old(Abstract()), Select(height))
      ensures Abstract() == Next(settings, old(Abstract()), Select(height))
    {
      if height !in pools {
        return Quiet;
      }
      var pool := pools[height];
      if |pool.candidates| == 0 {
        pools := pools[height := pool.(closed := true)];
        return Quiet;
      }
      var ranking := Sort(Order(sha256), pool.candidates);
      pools := pools - {height};
      return Elected(ranking);
    }

    method StopAll() returns (reply: Reply)
      modifies this
      ensures reply == ReplyTo(settings, sha256, old(Abstract()), Stop)
      ensures Abstract() == Next(settings, old(Abstract()), Stop)
    {
      if !stopped {
        stopped := true;
        pools := map h | h in pools :: pools[h].(closed := true);
      }
      return Quiet;
    }
  }

  /** The branch that opens a pool and sets its deadline. */
  method OpenPool(settings: Settings, minedAt: int, clock: Clock) returns (pool: HeightPool)
    ensures pool == Opened(settings, minedAt, clock)
  {
    var mining := clock.mined - minedAt;
    if mining < 0 {
      mining := 0;
    }
    var remaining;
    if mining <= settings.totalInterval {
      remaining := settings.totalInterval - mining;
    } else {
      remaining := settings.minWindow;
    }
    if remaining < settings.minWindow {
      remaining := settings.minWindow;
    }
    if remaining > settings.maxExtension {
      remaining := settings.maxExtension;
    }
    return HeightPool(clock.found, clock.found + remaining, [], false);
  }

  // ----- which submissions are accepted -----

  /** Open and in time, with room, and with neither the hash nor the source in it. */
  predicate Takes(settings: Settings, pool: HeightPool, c: Candidate, found: int) {
    && !pool.closed && found <= pool.deadline
    && |pool.candidates| < settings.maxCandidates
    && forall i :: 0 <= i < |pool.candidates| ==>
         pool.candidates[i].block.hash != c.block.hash && pool.candidates[i].source != c.source
  }

  /** What is left of the interval after the time spent mining, at least the one limit and at most the other. */
  predicate LastsAsLeft(settings: Settings, mining: int, window: int) {
    var left := settings.totalInterval - (if mining > 0 then mining else 0);
    && window <= settings.maxExtension
    && (left >= 0 && left >= settings.minWindow ==> window == left || window == settings.maxExtension < left)
    && (left < 0 || left < settings.minWindow ==>
          window == settings.minWindow || window == settings.maxExtension < settings.minWindow)
  }

  /** A new height's pool, or the old one, with the candidate at its end. */
  predicate Joined(settings: Settings, s: State, t: State, h: Height, c: Candidate, minedAt: int, clock: Clock) {
    && h in t.pools && t == s.(pools := s.pools[h := t.pools[h]])
    && if h in s.pools then t.pools[h] == s.pools[h].(candidates := s.pools[h].candidates + [c])
       else
         && t.pools[h].firstArrival == clock.found && t.pools[h].candidates == [c] && !t.pools[h].closed
         && LastsAsLeft(settings, clock.mined - minedAt, t.pools[h].deadline - clock.found)
  }

  /**
   A submission is accepted exactly while the pool runs, with a hash, not too late, and if the pool of its height, where
   there is one, takes it; it then stands last in that pool, and otherwise nothing changes.
   */
  lemma AddedIff(settings: Settings, sha256: Sha256, s: State, c: Candidate, minedAt: int, clock: Clock)
    ensures
      var call := Submit(c, minedAt, clock);
      var h := if c.block.headerHeight != 0 then c.block.headerHeight else c.block.height;
      var added := ReplyTo(settings, sha256, s, call) == Added;
      && (added <==>
            && !s.stopped && |c.block.hash| > 0 && clock.entry <= minedAt + settings.maxLateness
            && (h in s.pools ==> Takes(settings, s.pools[h], c, clock.found)))
      && (added ==> Joined(settings, s, Next(settings, s, call), h, c, minedAt, clock))
      && (!added ==> Next(settings, s, call) == s)
  {
    var h := HeightOf(c.block);
    if h in s.pools {
      ClashIff(s.pools[h].candidates, c);
    }
  }

  /** A refusal gives a reason that is true. */
  lemma RefusalIsTrue(settings: Settings, s: State, c: Candidate, minedAt: int, clock: Clock)
    requires RefusalOf(settings, s, c, minedAt, clock).Some?
    ensures
      var h := HeightOf(c.block);
      match RefusalOf(settings, s, c, minedAt, clock).value
      case Stopped => s.stopped
      case EmptyHash => c.block.hash == []
      case Late => clock.entry > minedAt + settings.maxLateness
      case WindowClosed => h in s.pools && (s.pools[h].closed || clock.found > s.pools[h].deadline)
      case DuplicateHash =>
        h in s.pools && exists i :: 0 <= i < |s.pools[h].candidates| && s.pools[h].candidates[i].block.hash == c.block.hash
      case DuplicateSource =>
        h in s.pools && exists i :: 0 <= i < |s.pools[h].candidates| && s.pools[h].candidates[i].source == c.source
      case Full => h in s.pools && |s.pools[h].candidates| >= settings.maxCandidates
  {
    var h := HeightOf(c.block);
    if h in s.pools {
      ClashIsTrue(s.pools[h].candidates, c);
    }
  }

  lemma {:induction false} ClashIsTrue(candidates: seq<Candidate>, c: Candidate)
    ensures Clash(candidates, c) in {None, Some(DuplicateHash), Some(DuplicateSource)}
    ensures Clash(candidates, c) == Some(DuplicateHash) ==>
      exists i :: 0 <= i < |candidates| && candidates[i].block.hash == c.block.hash
    ensures Clash(candidates, c) == Some(DuplicateSource) ==>
      exists i :: 0 <= i < |candidates| && candidates[i].source == c.source
  {
    if candidates != [] {
      var rest := candidates[1..];
      ClashIsTrue(rest, c);
      forall i | 0 <= i < |rest| ensures rest[i] == candidates[i + 1] {
      }
    }
  }

  /** Once stopped, in every run: no pool is opened and no candidate added. */
  lemma {:induction false} StopIsFinal(settings: Settings, s: State, calls: seq<Call>)
    requires s.stopped
    ensures
      var t := Run(settings, s, calls);
      && t.stopped && t.pools.Keys <= s.pools.Keys
      && forall h :: h in t.pools ==> t.pools[h].candidates == s.pools[h].candidates
  {
    if calls != [] {
      StopIsFinal(settings, s, calls[..|calls| - 1]);
    }
  }

  // ----- what every run keeps -----

  function Run(settings: Settings, s: State, calls: seq<Call>): State {
    if calls == [] then s
    else Next(settings, Run(settings, s, calls[..|calls| - 1]), calls[|calls| - 1])
  }

  ghost predicate PairwiseApart(candidates: seq<Candidate>) {
    forall i, j :: 0 <= i < j < |candidates| ==> Apart(candidates[i], candidates[j])
  }

  predicate SizeWithin(settings: Settings, candidates: seq<Candidate>) {
    1 <= |candidates| && (|candidates| == 1 || |candidates| <= settings.maxCandidates)
  }

  /** Within the two limits, or at the upper one where they cross. */
  predicate WindowWithin(settings: Settings, window: int) {
    if settings.minWindow <= settings.maxExtension then settings.minWindow <= window <= settings.maxExtension
    else window == settings.maxExtension
  }

  ghost predicate PoolSound(settings: Settings, h: Height, pool: HeightPool) {
    && SizeWithin(settings, pool.candidates)
    && PairwiseApart(pool.candidates)
    && (forall i :: 0 <= i < |pool.candidates| ==> HeightOf(pool.candidates[i].block) == h)
    && WindowWithin(settings, pool.deadline - pool.firstArrival)
  }

  ghost predicate Sound(settings: Settings, s: State) {
    && (forall h :: h in s.pools ==> PoolSound(settings, h, s.pools[h]))
    && (s.stopped ==> forall h :: h in s.pools ==> s.pools[h].closed)
  }

  lemma AddingKeepsSound(settings: Settings, s: State, c: Candidate, minedAt: int, clock: Clock)
    requires Sound(settings, s) && RefusalOf(settings, s, c, minedAt, clock).None?
    ensures PoolSound(settings, HeightOf(c.block), WithCandidate(PoolFor(settings, s, c, minedAt, clock), c))
  {
    var h := HeightOf(c.block);
    if h in s.pools {
      assert PoolSound(settings, h, s.pools[h]);
      ClashIff(s.pools[h].candidates, c);
    }
  }

  lemma NextKeepsSound(settings: Settings, s: State, call: Call)
    requires Sound(settings, s)
    ensures Sound(settings, Next(settings, s, call))
  {
    if call.Submit? && RefusalOf(settings, s, call.c, call.minedAt, call.clock).None? {
      AddingKeepsSound(settings, s, call.c, call.minedAt, call.clock);
    }
  }

  /** In every run every pool is small, holds each hash and each source once, and has its window in bounds. */
  lemma {:induction false} RunKeepsSound(settings: Settings, calls: seq<Call>)
    ensures Sound(settings, Run(settings, State(map[], false), calls))
  {
    if calls != [] {
      RunKeepsSound(settings, calls[..|calls| - 1]);
      NextKeepsSound(settings, Run(settings, State(map[], false), calls[..|calls| - 1]), calls[|calls| - 1]);
    }
  }

  // ----- no candidate lost, none ranked twice -----

  function Held(s: State, h: Height): multiset<Candidate> {
    if h in s.pools then multiset(s.pools[h].candidates) else multiset{}
  }

  /** How often a call adds a candidate to the pool of a height. */
  function Gain(settings: Settings, s: State, call: Call, h: Height, x: Candidate): nat {
    if call.Submit? && call.c == x && HeightOf(x.block) == h && ReplyToSubmit(settings, s, call).Added? then 1 else 0
  }

  /** How often a call ranks it there. */
  function Ranked(sha256: Sha256, s: State, call: Call, h: Height, x: Candidate): nat {
    if call == Select(h) && h in s.pools then multiset(Ranking(sha256, s.pools[h].candidates))[x] else 0
  }

  function Gains(settings: Settings, s: State, calls: seq<Call>, h: Height, x: Candidate): nat {
    if calls == [] then 0
    else
      var before := calls[..|calls| - 1];
      Gains(settings, s, before, h, x) + Gain(settings, Run(settings, s, before), calls[|calls| - 1], h, x)
  }

  function TimesRanked(settings: Settings, sha256: Sha256, s: State, calls: seq<Call>, h: Height, x: Candidate): nat {
    if calls == [] then 0
    else
      var before := calls[..|calls| - 1];
      TimesRanked(settings, sha256, s, before, h, x) + Ranked(sha256, Run(settings, s, before), calls[|calls| - 1], h, x)
  }

  lemma SubmitConserves(settings: Settings, s: State, call: Call, h: Height, x: Candidate)
    requires call.Submit?
    ensures Held(s, h)[x] + Gain(settings, s, call, h, x) == Held(Next(settings, s, call), h)[x]
  {
  }

  lemma SelectConserves(sha256: Sha256, s: State, k: Height, h: Height, x: Candidate)
    ensures Held(s, h)[x] == Held(AfterSelect(s, k), h)[x] + Ranked(sha256, s, Select(k), h, x)
  {
    if k in s.pools {
      SortKeeps(Order(sha256), s.pools[k].candidates);
    }
  }

  lemma NextConserves(settings: Settings, sha256: Sha256, s: State, call: Call, h: Height, x: Candidate)
    ensures Held(s, h)[x] + Gain(settings, s, call, h, x)
         == Held(Next(settings, s, call), h)[x] + Ranked(sha256, s, call, h, x)
  {
    match call
    case Submit(_, _, _) => SubmitConserves(settings, s, call, h, x);
    case Select(k) => SelectConserves(sha256, s, k, h, x);
    case Stop =>
  }

  /** At every height, each accepted candidate is either still held or has been ranked, exactly once. */
  lemma {:induction false} RunConserves(
    settings: Settings, sha256: Sha256, s: State, calls: seq<Call>, h: Height, x: Candidate)
    ensures Held(s, h)[x] + Gains(settings, s, calls, h, x)
         == Held(Run(settings, s, calls), h)[x] + TimesRanked(settings, sha256, s, calls, h, x)
  {
    if calls != [] {
      var before := calls[..|calls| - 1];
      RunConserves(settings, sha256, s, before, h, x);
      NextConserves(settings, sha256, Run(settings, s, before), calls[|calls| - 1], h, x);
    }
  }

  // ----- two nodes, one winner -----

  /** Nodes that hold the same candidates, whenever each arrived, elect the same ranking if none tie. */
  lemma SameCandidatesSameRanking(
    settings: Settings, sha256: Sha256, here: State, there: State, h: Height)
    requires h in here.pools && h in there.pools && here.pools[h].candidates != []
    requires Held(here, h) == Held(there, h)
    requires SameLengths(Held(here, h)) && NoTies(sha256, Held(here, h))
    ensures ReplyTo(settings, sha256, here, Select(h)) == ReplyTo(settings, sha256, there, Select(h))
    ensures ReplyTo(settings, sha256, here, Select(h)).Elected?
  {
    SameLength(here.pools[h].candidates, there.pools[h].candidates);
    OrderOfArrivalIrrelevant(sha256, here.pools[h].candidates, there.pools[h].candidates);
  }

  /** In every pool of every run the winner is fixed for all orders of arrival exactly when one candidate beats all others. */
  lemma PoolWinnerFixedIff(settings: Settings, sha256: Sha256, calls: seq<Call>, h: Height)
    requires h in Run(settings, State(map[], false), calls).pools
    ensures
      var candidates := Run(settings, State(map[], false), calls).pools[h].candidates;
      candidates != [] && (WinnerFixed(sha256, candidates) <==> SomeBeatsAll(sha256, candidates))
  {
    RunKeepsSound(settings, calls);
    var pool := Run(settings, State(map[], false), calls).pools[h];
    assert PoolSound(settings, h, pool);
    forall i, j | 0 <= i < j < |pool.candidates| ensures pool.candidates[i] != pool.candidates[j] {
      assert Apart(pool.candidates[i], pool.candidates[j]);
    }
    WinnerFixedIff(sha256, pool.candidates);
  }
}
