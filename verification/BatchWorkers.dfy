/**
 * The worker pool of `processBatchJobs` in blockchain/api/tx_batch_handlers.go as a state machine: the sending loop,
 * the workers, the two channels and the collecting loop, under every interleaving of their steps.
 */
module BatchWorkers {
  import opened Machine
  import Ledger

  type Tx = Ledger.Tx

  datatype Outcome = Accepted(txId: string) | Rejected(error: string)

  /** A job keeps the index its transaction had in the request. */
  datatype Job = Job(index: nat, tx: Tx)

  datatype Result = Result(index: nat, outcome: Outcome)

  /** One call of `submitSingleTransaction`. */
  datatype Submission = Submission(tx: Tx, outcome: Outcome)

  datatype Worker = Idle | Busy(p: nat) | Holding(p: nat, outcome: Outcome) | Done

  /** How far a job has come; kept beside the state the program has, for stating what holds of it. */
  datatype Place = Unsent | Queued | Taken(w: nat) | Answered(w: nat) | Posted | Collected

  datatype State = State(
    sent: nat,
    jobsClosed: bool,
    queue: seq<nat>,
    workers: seq<Worker>,
    results: seq<Result>,
    resultsClosed: bool,
    slots: seq<Option<Outcome>>,
    finished: bool,
    calls: seq<seq<Submission>>,
    place: seq<Place>)

  /** One step of one of the goroutines; the answer of a submission can be anything. */
  datatype Step =
    | Send
    | CloseJobs
    | Take(w: nat)
    | Answer(w: nat, outcome: Outcome)
    | Post(w: nat)
    | Exit(w: nat)
    | CloseResults
    | Collect
    | Finish

  function WorkerCount(n: nat): nat {
    if n < 4 then n else 4
  }

  function Initial(n: nat): State {
    State(0, false, [], seq(WorkerCount(n), _ => Idle), [], false,
          seq(n, _ => None), false, seq(n, _ => []), seq(n, _ => Unsent))
  }

  /** Request indices are not repeated. */
  predicate DistinctIndices(jobs: seq<Job>) {
    forall i, j :: 0 <= i < j < |jobs| ==> jobs[i].index != jobs[j].index
  }

  /** The slot an index belongs to; where indices repeat, the last one, as in the map the program builds. */
  function SlotOf(jobs: seq<Job>, index: nat): (slot: Option<nat>)
    ensures slot.Some? ==> slot.value < |jobs| && jobs[slot.value].index == index
    ensures slot.None? ==> forall p :: 0 <= p < |jobs| ==> jobs[p].index != index
  {
    if jobs == [] then None
    else if jobs[|jobs| - 1].index == index then Some(|jobs| - 1)
    else SlotOf(jobs[..|jobs| - 1], index)
  }

  predicate Enabled(jobs: seq<Job>, s: State, step: Step) {
    match step
    case Send => s.sent < |jobs| && |s.queue| < |jobs|
    case CloseJobs => s.sent == |jobs| && !s.jobsClosed
    case Take(w) => w < |s.workers| && s.workers[w].Idle? && s.queue != []
    case Answer(w, _) => w < |s.workers| && s.workers[w].Busy?
    case Post(w) => w < |s.workers| && s.workers[w].Holding? && |s.results| < |jobs|
    case Exit(w) => w < |s.workers| && s.workers[w].Idle? && s.queue == [] && s.jobsClosed
    case CloseResults => s.jobsClosed && !s.resultsClosed && AllDone(s)
    case Collect => s.resultsClosed && s.results != []
    case Finish => s.resultsClosed && s.results == [] && !s.finished
  }

  predicate AllDone(s: State) {
    forall w :: 0 <= w < |s.workers| ==> s.workers[w].Done?
  }

  // ----- the steps -----

  function Moved(s: State, p: nat, place: Place): State {
    if p < |s.place| then s.(place := s.place[p := place]) else s
  }

  function WithWorker(s: State, w: nat, worker: Worker): State
    requires w < |s.workers|
  {
    s.(workers := s.workers[w := worker])
  }

  function AfterAnswer(jobs: seq<Job>, s: State, w: nat, outcome: Outcome): State
    requires w < |s.workers| && s.workers[w].Busy?
  {
    var p := s.workers[w].p;
    if p < |jobs| && p < |s.calls| then
      Moved(WithWorker(s, w, Holding(p, outcome)), p, Answered(w))
        .(calls := s.calls[p := s.calls[p] + [Submission(jobs[p].tx, outcome)]])
    else s
  }

  function AfterPost(jobs: seq<Job>, s: State, w: nat): State
    requires w < |s.workers| && s.workers[w].Holding?
  {
    var Holding(p, outcome) := s.workers[w];
    if p < |jobs| then
      Moved(WithWorker(s, w, Idle), p, Posted).(results := s.results + [Result(jobs[p].index, outcome)])
    else s
  }

  function AfterCollect(jobs: seq<Job>, s: State): State
    requires s.results != []
  {
    var rest := s.(results := s.results[1..]);
    match SlotOf(jobs, s.results[0].index)
    case None => rest
    case Some(p) =>
      if p < |s.slots| then Moved(rest, p, Collected).(slots := s.slots[p := Some(s.results[0].outcome)]) else rest
  }

  function Next(jobs: seq<Job>, s: State, step: Step): State
    requires Enabled(jobs, s, step)
  {
    match step
    case Send => Moved(s.(sent := s.sent + 1, queue := s.queue + [s.sent]), s.sent, Queued)
    case CloseJobs => s.(jobsClosed := true)
    case Take(w) => Moved(WithWorker(s, w, Busy(s.queue[0])).(queue := s.queue[1..]), s.queue[0], Taken(w))
    case Answer(w, outcome) => AfterAnswer(jobs, s, w, outcome)
    case Post(w) => AfterPost(jobs, s, w)
    case Exit(w) => WithWorker(s, w, Done)
    case CloseResults => s.(resultsClosed := true)
    case Collect => AfterCollect(jobs, s)
    case Finish => s.(finished := true)
  }

  // ----- what every step keeps -----

  predicate Shaped(jobs: seq<Job>, s: State) {
    && |s.slots| == |s.calls| == |s.place| == |jobs|
    && |s.workers| == WorkerCount(|jobs|)
    && s.sent <= |jobs|
    && (s.jobsClosed ==> s.sent == |jobs|)
    && (s.resultsClosed ==> s.jobsClosed && AllDone(s))
    && (s.finished ==> s.resultsClosed && s.results == [])
    && (forall w :: 0 <= w < |s.workers| && s.workers[w].Done? ==> s.jobsClosed && s.queue == [])
  }

  /** Before its answer a job has no call, then one, on its own transaction; a filled slot holds that answer. */
  predicate JobSound(job: Job, place: Place, calls: seq<Submission>, slot: Option<Outcome>) {
    match place
    case Answered(_) => |calls| == 1 && calls[0].tx == job.tx && slot.None?
    case Posted => |calls| == 1 && calls[0].tx == job.tx && slot.None?
    case Collected => |calls| == 1 && calls[0].tx == job.tx && slot == Some(calls[0].outcome)
    case _ => calls == [] && slot.None?
  }

  predicate JobsSound(jobs: seq<Job>, place: seq<Place>, calls: seq<seq<Submission>>, slots: seq<Option<Outcome>>) {
    && |place| == |calls| == |slots| == |jobs|
    && forall p :: 0 <= p < |jobs| ==> JobSound(jobs[p], place[p], calls[p], slots[p])
  }

  predicate SendingSound(sent: nat, place: seq<Place>) {
    forall p :: 0 <= p < |place| ==> (place[p].Unsent? <==> p >= sent)
  }

  predicate Distinct(s: seq<nat>) {
    forall i, j :: 0 <= i < j < |s| ==> s[i] != s[j]
  }

  predicate QueueSound(queue: seq<nat>, place: seq<Place>) {
    && Distinct(queue)
    && (forall i :: 0 <= i < |queue| ==> queue[i] < |place| && place[queue[i]].Queued?)
    && (forall p :: 0 <= p < |place| && place[p].Queued? ==> p in queue)
  }

  /** Worker w at this stage goes with job p at this place, with these calls behind it. */
  predicate Matches(w: nat, worker: Worker, p: nat, place: Place, calls: seq<Submission>) {
    match worker
    case Busy(q) => q == p && place == Taken(w)
    case Holding(q, outcome) => q == p && place == Answered(w) && |calls| == 1 && calls[0].outcome == outcome
    case _ => false
  }

  predicate AtWork(worker: Worker) {
    worker.Busy? || worker.Holding?
  }

  predicate WithWorkers(place: Place) {
    place.Taken? || place.Answered?
  }

  predicate WorkersSound(workers: seq<Worker>, place: seq<Place>, calls: seq<seq<Submission>>) {
    && |calls| == |place|
    && (forall w :: 0 <= w < |workers| && AtWork(workers[w]) ==>
         workers[w].p < |place| && Matches(w, workers[w], workers[w].p, place[workers[w].p], calls[workers[w].p]))
    && (forall p :: 0 <= p < |place| && WithWorkers(place[p]) ==>
         place[p].w < |workers| && AtWork(workers[place[p].w]) && workers[place[p].w].p == p)
  }

  /** A result on the channel belongs to a posted job and carries that job's own answer. */
  predicate ResultSound(jobs: seq<Job>, r: Result, place: seq<Place>, calls: seq<seq<Submission>>)
    requires |place| == |calls| == |jobs|
  {
    var slot := SlotOf(jobs, r.index);
    slot.Some? && place[slot.value].Posted? && |calls[slot.value]| == 1 && calls[slot.value][0].outcome == r.outcome
  }

  predicate OnChannel(results: seq<Result>, index: nat) {
    exists i :: 0 <= i < |results| && results[i].index == index
  }

  predicate ResultsSound(jobs: seq<Job>, results: seq<Result>, place: seq<Place>, calls: seq<seq<Submission>>) {
    && |place| == |calls| == |jobs|
    && (forall i, j :: 0 <= i < j < |results| ==> results[i].index != results[j].index)
    && (forall i :: 0 <= i < |results| ==> ResultSound(jobs, results[i], place, calls))
    && (forall p :: 0 <= p < |jobs| && place[p].Posted? ==> OnChannel(results, jobs[p].index))
  }

  predicate Sound(jobs: seq<Job>, s: State) {
    && Shaped(jobs, s)
    && JobsSound(jobs, s.place, s.calls, s.slots)
    && SendingSound(s.sent, s.place)
    && QueueSound(s.queue, s.place)
    && WorkersSound(s.workers, s.place, s.calls)
    && ResultsSound(jobs, s.results, s.place, s.calls)
  }

  lemma InitialSound(jobs: seq<Job>)
    ensures Sound(jobs, Initial(|jobs|))
  {
  }

  lemma SlotIsOwn(jobs: seq<Job>, p: nat)
    requires DistinctIndices(jobs) && p < |jobs|
    ensures SlotOf(jobs, jobs[p].index) == Some(p)
  {
    var slot := SlotOf(jobs, jobs[p].index);
    assert slot.Some? && jobs[slot.value].index == jobs[p].index;
  }

  // One job moves from place to place; each part of the state sees at most its own end of the move.

  lemma QueueAside(queue: seq<nat>, place: seq<Place>, q: nat, to: Place)
    requires QueueSound(queue, place) && q < |place| && !place[q].Queued? && !to.Queued?
    ensures QueueSound(queue, place[q := to])
  {
  }

  lemma QueuePush(queue: seq<nat>, place: seq<Place>, q: nat)
    requires QueueSound(queue, place) && q < |place| && !place[q].Queued?
    ensures QueueSound(queue + [q], place[q := Queued])
  {
    assert q !in queue;
    assert (queue + [q])[|queue|] == q;
    forall p | 0 <= p < |place| && place[q := Queued][p].Queued? ensures p in queue + [q] {
      assert p != q ==> p in queue;
    }
  }

  lemma QueuePop(queue: seq<nat>, place: seq<Place>, to: Place)
    requires QueueSound(queue, place) && queue != [] && !to.Queued?
    ensures queue[0] < |place| && QueueSound(queue[1..], place[queue[0] := to])
  {
    forall p | 0 <= p < |place| && place[queue[0] := to][p].Queued? ensures p in queue[1..] {
      assert p in queue;
      var i :| 0 <= i < |queue| && queue[i] == p;
      assert queue[1..][i - 1] == p;
    }
  }

  lemma WorkersAside(workers: seq<Worker>, place: seq<Place>, calls: seq<seq<Submission>>, q: nat, to: Place)
    requires WorkersSound(workers, place, calls) && q < |place| && !WithWorkers(place[q]) && !WithWorkers(to)
    ensures WorkersSound(workers, place[q := to], calls)
  {
  }

  /** Worker w turns to the next stage with a job that no other worker has. */
  lemma WorkersTurn(
    workers: seq<Worker>, place: seq<Place>, calls: seq<seq<Submission>>,
    w: nat, worker: Worker, q: nat, to: Place, now: seq<Submission>)
    requires WorkersSound(workers, place, calls) && w < |workers| && q < |place|
    requires if AtWork(workers[w]) then workers[w].p == q else !WithWorkers(place[q])
    requires if AtWork(worker) then Matches(w, worker, q, to, now) else !WithWorkers(to)
    ensures WorkersSound(workers[w := worker], place[q := to], calls[q := now])
  {
  }

  lemma ResultsAside(
    jobs: seq<Job>, results: seq<Result>, place: seq<Place>, calls: seq<seq<Submission>>,
    q: nat, to: Place, now: seq<Submission>)
    requires ResultsSound(jobs, results, place, calls) && q < |place| && !place[q].Posted? && !to.Posted?
    ensures ResultsSound(jobs, results, place[q := to], calls[q := now])
  {
    forall i | 0 <= i < |results| ensures ResultSound(jobs, results[i], place[q := to], calls[q := now]) {
      assert ResultSound(jobs, results[i], place, calls);
    }
  }

  lemma ResultsPush(
    jobs: seq<Job>, results: seq<Result>, place: seq<Place>, calls: seq<seq<Submission>>, q: nat)
    requires DistinctIndices(jobs)
    requires ResultsSound(jobs, results, place, calls) && q < |place| && !place[q].Posted? && |calls[q]| == 1
    ensures ResultsSound(jobs, results + [Result(jobs[q].index, calls[q][0].outcome)], place[q := Posted], calls)
  {
    SlotIsOwn(jobs, q);
    var after := results + [Result(jobs[q].index, calls[q][0].outcome)];
    forall i | 0 <= i < |results|
      ensures ResultSound(jobs, after[i], place[q := Posted], calls) && after[i].index != jobs[q].index
    {
      assert ResultSound(jobs, results[i], place, calls);
    }
    assert after[|results|].index == jobs[q].index;
    forall p | 0 <= p < |jobs| && place[q := Posted][p].Posted? ensures OnChannel(after, jobs[p].index) {
      if p != q {
        assert OnChannel(results, jobs[p].index);
        var i :| 0 <= i < |results| && results[i].index == jobs[p].index;
        assert after[i].index == jobs[p].index;
      }
    }
  }

  lemma ResultsPop(jobs: seq<Job>, results: seq<Result>, place: seq<Place>, calls: seq<seq<Submission>>, q: nat)
    requires DistinctIndices(jobs) && results != [] && SlotOf(jobs, results[0].index) == Some(q)
    requires ResultsSound(jobs, results, place, calls)
    ensures ResultsSound(jobs, results[1..], place[q := Collected], calls)
  {
    var rest := results[1..];
    forall i | 0 <= i < |rest| ensures ResultSound(jobs, rest[i], place[q := Collected], calls) {
      assert ResultSound(jobs, results[i + 1], place, calls);
    }
    forall p | 0 <= p < |jobs| && place[q := Collected][p].Posted? ensures OnChannel(rest, jobs[p].index) {
      assert OnChannel(results, jobs[p].index);
      var i :| 0 <= i < |results| && results[i].index == jobs[p].index;
      SlotIsOwn(jobs, p);
      assert rest[i - 1].index == jobs[p].index;
    }
  }

  lemma SendSound(jobs: seq<Job>, s: State)
    requires Sound(jobs, s) && Enabled(jobs, s, Send)
    ensures Sound(jobs, Next(jobs, s, Send))
  {
    var q := s.sent;
    assert JobSound(jobs[q], s.place[q], s.calls[q], s.slots[q]);
    QueuePush(s.queue, s.place, q);
    WorkersAside(s.workers, s.place, s.calls, q, Queued);
    ResultsAside(jobs, s.results, s.place, s.calls, q, Queued, s.calls[q]);
    assert s.calls[q := s.calls[q]] == s.calls;
  }

  lemma TakeSound(jobs: seq<Job>, s: State, w: nat)
    requires Sound(jobs, s) && Enabled(jobs, s, Take(w))
    ensures Sound(jobs, Next(jobs, s, Take(w)))
  {
    var q := s.queue[0];
    assert q < |jobs| && s.place[q].Queued?;
    assert JobSound(jobs[q], s.place[q], s.calls[q], s.slots[q]);
    QueuePop(s.queue, s.place, Taken(w));
    WorkersTurn(s.workers, s.place, s.calls, w, Busy(q), q, Taken(w), s.calls[q]);
    ResultsAside(jobs, s.results, s.place, s.calls, q, Taken(w), s.calls[q]);
    assert s.calls[q := s.calls[q]] == s.calls;
  }

  lemma AnswerSound(jobs: seq<Job>, s: State, w: nat, outcome: Outcome)
    requires Sound(jobs, s) && Enabled(jobs, s, Answer(w, outcome))
    ensures Sound(jobs, Next(jobs, s, Answer(w, outcome)))
  {
    var q := s.workers[w].p;
    assert JobSound(jobs[q], s.place[q], s.calls[q], s.slots[q]);
    var now := s.calls[q] + [Submission(jobs[q].tx, outcome)];
    QueueAside(s.queue, s.place, q, Answered(w));
    WorkersTurn(s.workers, s.place, s.calls, w, Holding(q, outcome), q, Answered(w), now);
    ResultsAside(jobs, s.results, s.place, s.calls, q, Answered(w), now);
  }

  lemma PostSound(jobs: seq<Job>, s: State, w: nat)
    requires Sound(jobs, s) && DistinctIndices(jobs) && Enabled(jobs, s, Post(w))
    ensures Sound(jobs, Next(jobs, s, Post(w)))
  {
    var q := s.workers[w].p;
    assert JobSound(jobs[q], s.place[q], s.calls[q], s.slots[q]);
    QueueAside(s.queue, s.place, q, Posted);
    WorkersTurn(s.workers, s.place, s.calls, w, Idle, q, Posted, s.calls[q]);
    ResultsPush(jobs, s.results, s.place, s.calls, q);
    assert s.calls[q := s.calls[q]] == s.calls;
  }

  lemma CollectSound(jobs: seq<Job>, s: State)
    requires Sound(jobs, s) && DistinctIndices(jobs) && Enabled(jobs, s, Collect)
    ensures Sound(jobs, Next(jobs, s, Collect))
  {
    assert ResultSound(jobs, s.results[0], s.place, s.calls);
    var q := SlotOf(jobs, s.results[0].index).value;
    assert JobSound(jobs[q], s.place[q], s.calls[q], s.slots[q]);
    QueueAside(s.queue, s.place, q, Collected);
    WorkersAside(s.workers, s.place, s.calls, q, Collected);
    ResultsPop(jobs, s.results, s.place, s.calls, q);
  }

  lemma ExitSound(jobs: seq<Job>, s: State, w: nat)
    requires Sound(jobs, s) && Enabled(jobs, s, Exit(w))
    ensures Sound(jobs, Next(jobs, s, Exit(w)))
  {
  }

  lemma NextSound(jobs: seq<Job>, s: State, step: Step)
    requires Sound(jobs, s) && DistinctIndices(jobs) && Enabled(jobs, s, step)
    ensures Sound(jobs, Next(jobs, s, step))
  {
    match step
    case Send => SendSound(jobs, s);
    case Take(w) => TakeSound(jobs, s, w);
    case Answer(w, outcome) => AnswerSound(jobs, s, w, outcome);
    case Post(w) => PostSound(jobs, s, w);
    case Collect => CollectSound(jobs, s);
    case Exit(w) => ExitSound(jobs, s, w);
    case _ =>
  }

  // ----- the channels never fill -----

  lemma {:induction false} Pigeonhole(s: seq<nat>, n: nat)
    requires Distinct(s) && forall i :: 0 <= i < |s| ==> s[i] < n
    ensures |s| <= n
    decreases n
  {
    if s == [] {
    } else if s[0] < n && n - 1 in s {
      var k :| 0 <= k < |s| && s[k] == n - 1;
      var rest := s[..k] + s[k + 1..];
      assert forall i :: 0 <= i < |rest| ==> rest[i] == s[if i < k then i else i + 1];
      Pigeonhole(rest, n - 1);
    } else {
      Pigeonhole(s, n - 1);
    }
  }

  /** The sending loop never waits for room. */
  lemma QueueHasRoom(jobs: seq<Job>, s: State)
    requires Sound(jobs, s) && s.sent < |jobs|
    ensures Enabled(jobs, s, Send)
  {
    Pigeonhole(s.queue, s.sent);
  }

  /** Nor does a worker with a result. */
  lemma ResultsHaveRoom(jobs: seq<Job>, s: State, w: nat)
    requires Sound(jobs, s) && w < |s.workers| && s.workers[w].Holding?
    ensures Enabled(jobs, s, Post(w))
  {
    var q := s.workers[w].p;
    forall i | 0 <= i < |s.results| ensures SlotOf(jobs, s.results[i].index).Some? {
      assert ResultSound(jobs, s.results[i], s.place, s.calls);
    }
    var slots := seq(|s.results|, i requires 0 <= i < |s.results| => SlotOf(jobs, s.results[i].index).value);
    forall i | 0 <= i < |slots| ensures slots[i] < |jobs| && slots[i] != q {
      assert ResultSound(jobs, s.results[i], s.place, s.calls);
    }
    Pigeonhole(slots + [q], |jobs|);
  }

  // ----- how long a run is -----

  function Weight(place: Place): nat {
    match place
    case Unsent => 5
    case Queued => 4
    case Taken(_) => 3
    case Answered(_) => 2
    case Posted => 1
    case Collected => 0
  }

  function Weights(place: seq<Place>): nat {
    if place == [] then 0 else Weights(place[..|place| - 1]) + Weight(place[|place| - 1])
  }

  function Running(workers: seq<Worker>): nat {
    if workers == [] then 0
    else Running(workers[..|workers| - 1]) + if workers[|workers| - 1].Done? then 0 else 1
  }

  lemma {:induction false} WeightsUpdate(place: seq<Place>, p: nat, to: Place)
    requires p < |place|
    ensures Weights(place[p := to]) + Weight(place[p]) == Weights(place) + Weight(to)
  {
    var n := |place| - 1;
    if p < n {
      WeightsUpdate(place[..n], p, to);
      assert place[p := to][..n] == place[..n][p := to];
    } else {
      assert place[p := to][..n] == place[..n];
    }
  }

  lemma {:induction false} RunningUpdate(workers: seq<Worker>, w: nat, to: Worker)
    requires w < |workers|
    ensures Running(workers[w := to]) + (if workers[w].Done? then 0 else 1)
         == Running(workers) + if to.Done? then 0 else 1
  {
    var n := |workers| - 1;
    if w < n {
      RunningUpdate(workers[..n], w, to);
      assert workers[w := to][..n] == workers[..n][w := to];
    } else {
      assert workers[w := to][..n] == workers[..n];
    }
  }

  function Flag(done: bool): nat {
    if done then 0 else 1
  }

  /** How many steps are left to take. */
  function Left(s: State): nat {
    Weights(s.place) + Running(s.workers) + Flag(s.jobsClosed) + Flag(s.resultsClosed) + Flag(s.finished)
  }

  /** One job moved on by one place, at a worker that stays on. */
  predicate OneStage(s: State, t: State, p: nat, w: nat) {
    && p < |s.place| && w < |s.workers| && |t.place| == |s.place| && |t.workers| == |s.workers|
    && t == t.(place := s.place[p := t.place[p]], workers := s.workers[w := t.workers[w]])
    && Weight(t.place[p]) + 1 == Weight(s.place[p]) && !s.workers[w].Done? && !t.workers[w].Done?
    && t.jobsClosed == s.jobsClosed && t.resultsClosed == s.resultsClosed && t.finished == s.finished
  }

  lemma OneStageLeft(s: State, t: State, p: nat, w: nat)
    requires OneStage(s, t, p, w)
    ensures Left(t) == Left(s) - 1
  {
    WeightsUpdate(s.place, p, t.place[p]);
    RunningUpdate(s.workers, w, t.workers[w]);
  }

  lemma WorkerStages(jobs: seq<Job>, s: State, step: Step)
    requires Sound(jobs, s) && Enabled(jobs, s, step) && (step.Take? || step.Answer? || step.Post?)
    ensures OneStage(s, Next(jobs, s, step), if step.Take? then s.queue[0] else s.workers[step.w].p, step.w)
  {
  }

  lemma NextLeft(jobs: seq<Job>, s: State, step: Step)
    requires Sound(jobs, s) && Enabled(jobs, s, step)
    ensures Left(Next(jobs, s, step)) == Left(s) - 1
  {
    if step.Take? || step.Answer? || step.Post? {
      WorkerStages(jobs, s, step);
      OneStageLeft(s, Next(jobs, s, step), if step.Take? then s.queue[0] else s.workers[step.w].p, step.w);
    } else {
      MainLeft(jobs, s, step);
    }
  }

  lemma MainLeft(jobs: seq<Job>, s: State, step: Step)
    requires Sound(jobs, s) && Enabled(jobs, s, step) && !step.Take? && !step.Answer? && !step.Post?
    ensures Left(Next(jobs, s, step)) == Left(s) - 1
  {
    match step
    case Send => WeightsUpdate(s.place, s.sent, Queued);
    case Exit(w) => RunningUpdate(s.workers, w, Done);
    case Collect =>
      assert ResultSound(jobs, s.results[0], s.place, s.calls);
      CollectLeft(jobs, s);
    case _ =>
  }

  lemma CollectLeft(jobs: seq<Job>, s: State)
    requires s.results != [] && |s.slots| == |s.calls| == |s.place| == |jobs|
    requires ResultSound(jobs, s.results[0], s.place, s.calls)
    ensures Left(AfterCollect(jobs, s)) == Left(s) - 1
  {
    WeightsUpdate(s.place, SlotOf(jobs, s.results[0].index).value, Collected);
  }

  lemma {:induction false} InitialWeights(n: nat)
    ensures Weights(seq(n, _ => Unsent)) == 5 * n
  {
    if n > 0 {
      InitialWeights(n - 1);
      assert seq(n, _ => Unsent)[..n - 1] == seq(n - 1, _ => Unsent);
    }
  }

  lemma {:induction false} InitialRunning(n: nat)
    ensures Running(seq(n, _ => Idle)) == n
  {
    if n > 0 {
      InitialRunning(n - 1);
      assert seq(n, _ => Idle)[..n - 1] == seq(n - 1, _ => Idle);
    }
  }

  function RunLength(n: nat): nat {
    5 * n + WorkerCount(n) + 3
  }

  // ----- runs -----

  predicate IsRun(jobs: seq<Job>, steps: seq<Step>)
    decreases |steps|, 0
  {
    steps == [] ||
    (var before := steps[..|steps| - 1]; IsRun(jobs, before) && Enabled(jobs, After(jobs, before), steps[|steps| - 1]))
  }

  function After(jobs: seq<Job>, steps: seq<Step>): State
    requires IsRun(jobs, steps)
    decreases |steps|, 1
  {
    if steps == [] then Initial(|jobs|)
    else Next(jobs, After(jobs, steps[..|steps| - 1]), steps[|steps| - 1])
  }

  /** Every run keeps the invariant and counts down by one a step. */
  lemma {:induction false} RunSound(jobs: seq<Job>, steps: seq<Step>)
    requires DistinctIndices(jobs) && IsRun(jobs, steps)
    ensures Sound(jobs, After(jobs, steps))
    ensures Left(After(jobs, steps)) + |steps| == RunLength(|jobs|)
    decreases |steps|
  {
    if steps == [] {
      InitialSound(jobs);
      InitialWeights(|jobs|);
      InitialRunning(WorkerCount(|jobs|));
    } else {
      var before := steps[..|steps| - 1];
      RunSound(jobs, before);
      NextSound(jobs, After(jobs, before), steps[|steps| - 1]);
      NextLeft(jobs, After(jobs, before), steps[|steps| - 1]);
    }
  }

  /** Short of the end, some goroutine can go on; an answer may then be any. */
  lemma SomeStep(jobs: seq<Job>, s: State, outcome: Outcome) returns (step: Step)
    requires Sound(jobs, s) && !s.finished
    ensures Enabled(jobs, s, step)
  {
    if w :| 0 <= w < |s.workers| && s.workers[w].Busy? {
      step := Answer(w, outcome);
    } else if w :| 0 <= w < |s.workers| && s.workers[w].Holding? {
      ResultsHaveRoom(jobs, s, w);
      step := Post(w);
    } else if s.queue != [] {
      assert s.queue[0] < |jobs|;
      step := Take(0);
    } else if s.sent < |jobs| {
      step := Send;
    } else if !s.jobsClosed {
      step := CloseJobs;
    } else if w :| 0 <= w < |s.workers| && s.workers[w].Idle? {
      step := Exit(w);
    } else if !s.resultsClosed {
      step := CloseResults;
    } else if s.results != [] {
      step := Collect;
    } else {
      step := Finish;
    }
  }

  /** What a finished batch means: one call per job, on its own transaction, and its answer in the job's slot. */
  predicate AllServed(jobs: seq<Job>, s: State) {
    && |s.calls| == |s.slots| == |jobs|
    && forall p :: 0 <= p < |jobs| ==> Served(jobs[p], s.calls[p], s.slots[p])
  }

  predicate Served(job: Job, calls: seq<Submission>, slot: Option<Outcome>) {
    |calls| == 1 && calls[0].tx == job.tx && slot == Some(calls[0].outcome)
  }

  lemma FinishedServes(jobs: seq<Job>, s: State)
    requires Sound(jobs, s) && s.finished
    ensures AllServed(jobs, s)
  {
    forall p | 0 <= p < |jobs| ensures Served(jobs[p], s.calls[p], s.slots[p]) {
      assert JobSound(jobs[p], s.place[p], s.calls[p], s.slots[p]);
      assert s.workers[0].Done?;
      assert !s.place[p].Unsent? && !s.place[p].Queued?;
      assert !WithWorkers(s.place[p]);
      assert s.place[p].Posted? ==> OnChannel(s.results, jobs[p].index);
    }
  }

  /** No run gets stuck and all complete runs have the same length: a run is finished exactly when it has that length. */
  lemma RunCompletes(jobs: seq<Job>, steps: seq<Step>)
    requires DistinctIndices(jobs) && IsRun(jobs, steps)
    ensures |steps| <= RunLength(|jobs|)
    ensures After(jobs, steps).finished <==> |steps| == RunLength(|jobs|)
    ensures !After(jobs, steps).finished ==> exists step :: IsRun(jobs, steps + [step])
  {
    RunSound(jobs, steps);
    var s := After(jobs, steps);
    if s.finished {
      NothingLeft(jobs, s);
    } else {
      var step := SomeStep(jobs, s, Rejected(""));
      assert (steps + [step])[..|steps|] == steps;
      assert IsRun(jobs, steps + [step]);
    }
  }

  lemma NothingLeft(jobs: seq<Job>, s: State)
    requires Sound(jobs, s) && s.finished
    ensures Left(s) == 0
  {
    FinishedServes(jobs, s);
    forall p | 0 <= p < |s.place| ensures s.place[p].Collected? {
      assert JobSound(jobs[p], s.place[p], s.calls[p], s.slots[p]);
      assert Served(jobs[p], s.calls[p], s.slots[p]);
    }
    NoWeight(s.place);
    NoneRunning(s.workers);
  }

  lemma {:induction false} NoWeight(place: seq<Place>)
    requires forall p :: 0 <= p < |place| ==> place[p].Collected?
    ensures Weights(place) == 0
  {
    if place != [] {
      NoWeight(place[..|place| - 1]);
    }
  }

  lemma {:induction false} NoneRunning(workers: seq<Worker>)
    requires forall w :: 0 <= w < |workers| ==> workers[w].Done?
    ensures Running(workers) == 0
  {
    if workers != [] {
      NoneRunning(workers[..|workers| - 1]);
    }
  }

  /** Under every interleaving, a complete run has served every job exactly once. */
  lemma CompleteRunServes(jobs: seq<Job>, steps: seq<Step>)
    requires DistinctIndices(jobs) && IsRun(jobs, steps) && |steps| == RunLength(|jobs|)
    ensures AllServed(jobs, After(jobs, steps))
  {
    RunSound(jobs, steps);
    RunCompletes(jobs, steps);
    FinishedServes(jobs, After(jobs, steps));
  }

  /** Never more than four submissions at a time. */
  lemma FourAtATime(jobs: seq<Job>, steps: seq<Step>)
    requires DistinctIndices(jobs) && IsRun(jobs, steps)
    ensures |After(jobs, steps).workers| == if |jobs| < 4 then |jobs| else 4
  {
    RunSound(jobs, steps);
  }
}
