/** Batch submission around the worker pool: `handleBatchSubmitTx` in blockchain/api/tx_batch_handlers.go. */
module BatchHandler {
  import opened Machine
  import opened BatchWorkers

  const MAX_BATCH_SIZE := 50

  /** Trimming, hex decoding and JSON decoding of one entry, kept abstract. */
  datatype Parsed = Readable(tx: Tx) | Unreadable(error: string)

  type Parser = string -> Parsed

  datatype Slot = Slot(index: nat, parsed: Parsed, outcome: Outcome)

  datatype Failure = Failure(index: int, error: string)

  datatype Reply = Reply(ok: bool, success: seq<string>, failed: seq<Failure>, total: nat, successes: nat, failures: nat)

  // ----- from the request to jobs -----

  /** A readable entry starts with no error, which is what counts as valid. */
  function SlotFor(parse: Parser, request: seq<string>, i: nat): Slot
    requires i < |request|
  {
    var parsed := parse(request[i]);
    Slot(i, parsed, match parsed case Readable(_) => Accepted("") case Unreadable(error) => Rejected(error))
  }

  function Slots(parse: Parser, request: seq<string>): (slots: seq<Slot>)
    ensures |slots| == |request| && forall i :: 0 <= i < |request| ==> slots[i] == SlotFor(parse, request, i)
  {
    seq(|request|, i requires 0 <= i < |request| => SlotFor(parse, request, i))
  }

  method ParseAll(parse: Parser, request: seq<string>) returns (slots: seq<Slot>)
    ensures slots == Slots(parse, request)
  {
    slots := [];
    for i := 0 to |request|
      invariant |slots| == i && forall j :: 0 <= j < i ==> slots[j] == SlotFor(parse, request, j)
    {
      var parsed := parse(request[i]);
      match parsed {
        case Readable(_) => slots := slots + [Slot(i, parsed, Accepted(""))];
        case Unreadable(error) => slots := slots + [Slot(i, parsed, Rejected(error))];
      }
    }
  }

  /** Where the readable ones among the first n entries are. */
  function ValidAt(parse: Parser, request: seq<string>, n: nat): (at: seq<nat>)
    requires n <= |request|
    ensures forall k :: 0 <= k < |at| ==> at[k] < n && parse(request[at[k]]).Readable?
  {
    if n == 0 then []
    else
      var before := ValidAt(parse, request, n - 1);
      if parse(request[n - 1]).Readable? then before + [n - 1] else before
  }

  /** In order, each once, and none left out. */
  lemma {:induction false} ValidAtExact(parse: Parser, request: seq<string>, n: nat)
    requires n <= |request|
    ensures var at := ValidAt(parse, request, n);
      && (forall k, l :: 0 <= k < l < |at| ==> at[k] < at[l])
      && (forall i :: 0 <= i < n && parse(request[i]).Readable? ==> i in at)
  {
    if n > 0 {
      ValidAtExact(parse, request, n - 1);
      if parse(request[n - 1]).Readable? {
        var at := ValidAt(parse, request, n);
        assert at[|at| - 1] == n - 1;
        forall i | 0 <= i < n && parse(request[i]).Readable? ensures i in at {
          assert i < n - 1 ==> i in ValidAt(parse, request, n - 1);
        }
      }
    }
  }

  function JobAt(parse: Parser, request: seq<string>, i: nat): Job
    requires i < |request| && parse(request[i]).Readable?
  {
    Job(i, parse(request[i]).tx)
  }

  function ValidJobs(parse: Parser, request: seq<string>, n: nat): (jobs: seq<Job>)
    requires n <= |request|
    ensures var at := ValidAt(parse, request, n);
      |jobs| == |at| && forall k :: 0 <= k < |at| ==> jobs[k] == JobAt(parse, request, at[k])
  {
    var at := ValidAt(parse, request, n);
    seq(|at|, k requires 0 <= k < |at| => JobAt(parse, request, at[k]))
  }

  method FilterValid(parse: Parser, request: seq<string>, slots: seq<Slot>) returns (jobs: seq<Job>, at: seq<nat>)
    requires slots == Slots(parse, request)
    ensures at == ValidAt(parse, request, |request|) && jobs == ValidJobs(parse, request, |request|)
  {
    jobs, at := [], [];
    for i := 0 to |slots|
      invariant at == ValidAt(parse, request, i) && jobs == ValidJobs(parse, request, i)
    {
      if slots[i].outcome.Accepted? {
        jobs, at := jobs + [Job(slots[i].index, slots[i].parsed.tx)], at + [i];
      }
    }
  }

  lemma JobsDistinct(parse: Parser, request: seq<string>)
    ensures DistinctIndices(ValidJobs(parse, request, |request|))
  {
    ValidAtExact(parse, request, |request|);
  }

  // ----- from results to the reply -----

  /** The answer to one entry: its own error, or that of the one call on its own transaction. */
  predicate AnswersEntry(parse: Parser, request: seq<string>, s: State, i: nat, outcome: Outcome)
    requires i < |request| && |s.calls| == |ValidAt(parse, request, |request|)|
  {
    match parse(request[i])
    case Unreadable(error) => outcome == Rejected(error)
    case Readable(tx) =>
      var at := ValidAt(parse, request, |request|);
      exists k :: 0 <= k < |at| && at[k] == i && s.calls[k] == [Submission(tx, outcome)]
  }

  function Ids(outcomes: seq<Outcome>): seq<string> {
    if outcomes == [] then []
    else
      var n := |outcomes| - 1;
      Ids(outcomes[..n]) + match outcomes[n] case Accepted(id) => [id] case Rejected(_) => []
  }

  function Failures(outcomes: seq<Outcome>): seq<Failure> {
    if outcomes == [] then []
    else
      var n := |outcomes| - 1;
      Failures(outcomes[..n]) + match outcomes[n] case Accepted(_) => [] case Rejected(error) => [Failure(n, error)]
  }

  lemma {:induction false} EachCountedOnce(outcomes: seq<Outcome>)
    ensures |Ids(outcomes)| + |Failures(outcomes)| == |outcomes|
  {
    if outcomes != [] {
      EachCountedOnce(outcomes[..|outcomes| - 1]);
    }
  }

  /** The failures are the rejected entries, each once, under its own index and in order. */
  lemma {:induction false} FailuresExact(outcomes: seq<Outcome>)
    ensures
      var failed := Failures(outcomes);
      && (forall k :: 0 <= k < |failed| ==>
            0 <= failed[k].index < |outcomes| && outcomes[failed[k].index] == Rejected(failed[k].error))
      && (forall j, k :: 0 <= j < k < |failed| ==> failed[j].index < failed[k].index)
      && (forall i :: 0 <= i < |outcomes| && outcomes[i].Rejected? ==> Failure(i, outcomes[i].error) in failed)
  {
    if outcomes != [] {
      FailuresExact(outcomes[..|outcomes| - 1]);
    }
  }

  function AcceptedBelow(outcomes: seq<Outcome>, n: nat): nat
    requires n <= |outcomes|
  {
    if n == 0 then 0 else AcceptedBelow(outcomes, n - 1) + if outcomes[n - 1].Accepted? then 1 else 0
  }

  lemma {:induction false} IdsBelow(outcomes: seq<Outcome>, n: nat)
    requires n <= |outcomes|
    ensures |Ids(outcomes[..n])| == AcceptedBelow(outcomes, n)
    ensures forall i :: 0 <= i < n && outcomes[i].Accepted? ==>
      && AcceptedBelow(outcomes, i) < AcceptedBelow(outcomes, n)
      && Ids(outcomes[..n])[AcceptedBelow(outcomes, i)] == outcomes[i].txId
  {
    if n > 0 {
      IdsBelow(outcomes, n - 1);
      assert outcomes[..n][..n - 1] == outcomes[..n - 1];
    }
  }

  /** The successes are the accepted entries' identifiers, in order: each behind as many as were accepted before it. */
  lemma IdsExact(outcomes: seq<Outcome>, i: nat)
    requires i < |outcomes| && outcomes[i].Accepted?
    ensures |Ids(outcomes)| == AcceptedBelow(outcomes, |outcomes|)
    ensures AcceptedBelow(outcomes, i) < |Ids(outcomes)| && Ids(outcomes)[AcceptedBelow(outcomes, i)] == outcomes[i].txId
  {
    IdsBelow(outcomes, |outcomes|);
    assert outcomes[..|outcomes|] == outcomes;
  }

  function Outcomes(slots: seq<Slot>): (outcomes: seq<Outcome>)
    ensures |outcomes| == |slots| && forall i :: 0 <= i < |slots| ==> outcomes[i] == slots[i].outcome
  {
    seq(|slots|, i requires 0 <= i < |slots| => slots[i].outcome)
  }

  /** Results go back to the entries their jobs came from. */
  method Scatter(slots: seq<Slot>, at: seq<nat>, results: seq<Outcome>) returns (filled: seq<Slot>)
    requires |at| == |results| && forall k :: 0 <= k < |at| ==> at[k] < |slots|
    requires forall k, l :: 0 <= k < l < |at| ==> at[k] < at[l]
    ensures |filled| == |slots|
    ensures forall k :: 0 <= k < |at| ==> filled[at[k]] == slots[at[k]].(outcome := results[k])
    ensures forall i :: 0 <= i < |slots| && i !in at ==> filled[i] == slots[i]
  {
    filled := slots;
    for k := 0 to |at|
      invariant |filled| == |slots|
      invariant forall l :: 0 <= l < k ==> filled[at[l]] == slots[at[l]].(outcome := results[l])
      invariant forall i :: 0 <= i < |slots| && i !in at[..k] ==> filled[i] == slots[i]
    {
      assert at[k] in at[..k + 1];
      filled := filled[at[k] := filled[at[k]].(outcome := results[k])];
    }
  }

  method Tally(slots: seq<Slot>) returns (success: seq<string>, failed: seq<Failure>)
    requires forall i :: 0 <= i < |slots| ==> slots[i].index == i
    ensures success == Ids(Outcomes(slots)) && failed == Failures(Outcomes(slots))
  {
    success, failed := [], [];
    for i := 0 to |slots|
      invariant success == Ids(Outcomes(slots)[..i]) && failed == Failures(Outcomes(slots)[..i])
    {
      assert Outcomes(slots)[..i + 1][..i] == Outcomes(slots)[..i];
      match slots[i].outcome {
        case Rejected(error) => failed := failed + [Failure(slots[i].index, error)];
        case Accepted(id) => success := success + [id];
      }
    }
    assert Outcomes(slots)[..|slots|] == Outcomes(slots);
  }

  // ----- the whole request -----

  function Results(s: State): (results: seq<Outcome>)
    requires forall p :: 0 <= p < |s.slots| ==> s.slots[p].Some?
    ensures |results| == |s.slots| && forall p :: 0 <= p < |s.slots| ==> results[p] == s.slots[p].value
  {
    seq(|s.slots|, p requires 0 <= p < |s.slots| => s.slots[p].value)
  }

  predicate RightSize(request: seq<string>) {
    0 < |request| <= 50
  }

  /** A complete run of the pool on the request's jobs. */
  predicate CompleteRun(parse: Parser, request: seq<string>, steps: seq<Step>) {
    var jobs := ValidJobs(parse, request, |request|);
    IsRun(jobs, steps) && |steps| == RunLength(|jobs|)
  }

  /**
   * Whatever the workers' interleaving and answers: every entry is answered, once, by its own error or by the one call
   * on its own transaction; the lists hold exactly these answers in request order; and the counts add up.
   */
  method HandleBatchSubmit(parse: Parser, request: seq<string>, steps: seq<Step>)
    returns (reply: Reply, ghost outcomes: seq<Outcome>)
    requires RightSize(request) ==> CompleteRun(parse, request, steps)
    ensures reply.ok <==> RightSize(request)
    ensures reply.total == |request| && reply.successes + reply.failures == reply.total
    ensures reply.ok ==>
      && |outcomes| == |request|
      && reply.success == Ids(outcomes) && |reply.success| == reply.successes
      && reply.failed == Failures(outcomes) && |reply.failed| == reply.failures
      && |After(ValidJobs(parse, request, |request|), steps).calls| == |ValidAt(parse, request, |request|)|
      && forall i :: 0 <= i < |request| ==>
           AnswersEntry(parse, request, After(ValidJobs(parse, request, |request|), steps), i, outcomes[i])
    ensures !reply.ok ==> reply.successes == 0 && reply.success == []
    ensures |request| > 50 ==> |reply.failed| == 1 && reply.failed[0].index == -1
  {
    outcomes := [];
    if |request| == 0 {
      return Reply(false, [], [], 0, 0, 0), [];
    }
    if |request| > MAX_BATCH_SIZE {
      return Reply(false, [], [Failure(-1, "batch size exceeds limit")], |request|, 0, |request|), [];
    }
    var slots := ParseAll(parse, request);
    var jobs, at := FilterValid(parse, request, slots);
    JobsDistinct(parse, request);
    CompleteRunServes(jobs, steps);
    var final := After(jobs, steps);
    ValidAtExact(parse, request, |request|);
    forall p | 0 <= p < |final.slots| ensures final.slots[p].Some? {
      assert Served(jobs[p], final.calls[p], final.slots[p]);
    }
    var filled := Scatter(slots, at, Results(final));
    outcomes := Outcomes(filled);
    EntriesAnswered(parse, request, final, filled);
    var success, failed := Tally(filled);
    EachCountedOnce(outcomes);
    return Reply(true, success, failed, |request|, |success|, |failed|), outcomes;
  }

  lemma EntriesAnswered(parse: Parser, request: seq<string>, s: State, filled: seq<Slot>)
    requires AllServed(ValidJobs(parse, request, |request|), s)
    requires |filled| == |request|
    requires var at := ValidAt(parse, request, |request|);
      && (forall k :: 0 <= k < |at| ==> s.slots[k].Some?)
      && (forall k :: 0 <= k < |at| ==>
           filled[at[k]] == SlotFor(parse, request, at[k]).(outcome := s.slots[k].value))
      && (forall i :: 0 <= i < |request| && i !in at ==> filled[i] == SlotFor(parse, request, i))
    ensures forall i :: 0 <= i < |request| ==>
      filled[i].index == i && AnswersEntry(parse, request, s, i, filled[i].outcome)
  {
    var at, jobs := ValidAt(parse, request, |request|), ValidJobs(parse, request, |request|);
    ValidAtExact(parse, request, |request|);
    forall i | 0 <= i < |request|
      ensures filled[i].index == i && AnswersEntry(parse, request, s, i, filled[i].outcome)
    {
      if i in at {
        var k :| 0 <= k < |at| && at[k] == i;
        assert Served(jobs[k], s.calls[k], s.slots[k]);
        assert s.calls[k] == [Submission(jobs[k].tx, s.slots[k].value)];
      }
    }
  }
}
