/** Submissions that differ in nothing but their order, and elect different blocks. */
module CandidateExamples {
  import opened Machine
  import opened Masking
  import opened Sorting
  import opened Election
  import opened Candidates

  /** As shipped: 30 s of competition, 10 s at least, 120 s of lateness, 50 candidates, 30 s at most. */
  const DEFAULTS := Settings(30_000_000_000, 10_000_000_000, 120_000_000_000, 50, 30_000_000_000)

  const EMPTY := State(map[], false)

  /** Mined and submitted at once, one after the other. */
  function Submissions(candidates: seq<Candidate>): (calls: seq<Call>)
    ensures |calls| == |candidates|
    ensures forall i :: 0 <= i < |calls| ==> calls[i] == Submit(candidates[i], 0, Clock(0, 0, 0))
  {
    seq(|candidates|, i requires 0 <= i < |candidates| => Submit(candidates[i], 0, Clock(0, 0, 0)))
  }

  /** Candidates a pool can hold together. */
  ghost predicate Compatible(candidates: seq<Candidate>) {
    && 0 < |candidates| <= 50 && PairwiseApart(candidates)
    && forall i :: 0 <= i < |candidates| ==> candidates[i].block.hash != [] && HeightOf(candidates[i].block) == 1
  }

  function PoolOf(candidates: seq<Candidate>): State {
    State(map[1 := HeightPool(0, 30_000_000_000, candidates, false)], false)
  }

  lemma OneMore(candidates: seq<Candidate>, c: Candidate)
    requires Compatible(candidates + [c]) && candidates != []
    ensures Next(DEFAULTS, PoolOf(candidates), Submit(c, 0, Clock(0, 0, 0))) == PoolOf(candidates + [c])
  {
    var all := candidates + [c];
    assert all[|candidates|] == c;
    forall i | 0 <= i < |candidates| ensures Apart(candidates[i], c) {
      assert Apart(all[i], all[|candidates|]);
    }
    ClashIff(candidates, c);
  }

  lemma First(c: Candidate)
    requires Compatible([c])
    ensures Next(DEFAULTS, EMPTY, Submit(c, 0, Clock(0, 0, 0))) == PoolOf([c])
  {
    assert [c][0] == c;
    var none: seq<Candidate> := [];
    assert none + [c] == [c];
  }

  /** They are all accepted, in the order of arrival. */
  lemma {:induction false} AllHeld(candidates: seq<Candidate>)
    requires Compatible(candidates)
    ensures Run(DEFAULTS, EMPTY, Submissions(candidates)) == PoolOf(candidates)
  {
    var n := |candidates| - 1;
    var front, last, calls := candidates[..n], candidates[n], Submissions(candidates);
    assert candidates == front + [last];
    assert calls[..n] == Submissions(front);
    if n == 0 {
      assert front == [] && candidates == [last];
      First(last);
    } else {
      AllHeld(front);
      OneMore(front, last);
    }
  }

  function Outcome(sha256: Sha256, candidates: seq<Candidate>): Reply {
    ReplyTo(DEFAULTS, sha256, Run(DEFAULTS, EMPTY, Submissions(candidates)), Select(1))
  }

  lemma ElectsRanking(sha256: Sha256, candidates: seq<Candidate>)
    requires Compatible(candidates)
    ensures Outcome(sha256, candidates) == Elected(Ranking(sha256, candidates))
  {
    AllHeld(candidates);
  }

  lemma SortThree(less: (Candidate, Candidate) -> bool, a: Candidate, b: Candidate, c: Candidate)
    requires !less(b, a) && !less(c, b)
    ensures Sort(less, [a, b, c]) == [a, b, c]
  {
    assert [a, b, c][..2] == [a, b] && [a, b][..1] == [a] && [a][..0] == [];
    assert Sort(less, [a]) == [a];
    assert Sort(less, [a, b]) == Insert(less, b, [a]) == [a, b];
    assert Insert(less, c, [a, b]) == [a, b, c];
  }

  lemma SortTwo(less: (Candidate, Candidate) -> bool, a: Candidate, b: Candidate)
    requires !less(b, a)
    ensures Sort(less, [a, b]) == [a, b]
  {
    assert [a, b][..1] == [a] && [a][..0] == [];
    assert Sort(less, [a]) == [a];
  }

  lemma ThreeCompatible(a: Candidate, b: Candidate, c: Candidate)
    requires Apart(a, b) && Apart(a, c) && Apart(b, c)
    requires forall x :: x in {a, b, c} ==> x.block.hash != [] && HeightOf(x.block) == 1
    ensures Compatible([a, b, c])
  {
  }

  lemma Circle(sha256: Sha256, a: Candidate, b: Candidate, c: Candidate)
    requires Compatible([a, b, c]) && Earlier(sha256, a, b) && Earlier(sha256, b, c)
    ensures Outcome(sha256, [a, b, c]) == Elected([a, b, c])
  {
    NotBoth(sha256, a, b);
    NotBoth(sha256, b, c);
    SortThree(Order(sha256), a, b, c);
    ElectsRanking(sha256, [a, b, c]);
  }

  /** Hashes of different lengths from three sources: the same submissions in two orders, two winners. */
  lemma LengthsChangeWinner(sha256: Sha256, one: string, two: string, three: string)
    requires one != two && one != three && two != three
    requires WithKey(sha256, [1, 1], 1, one).block.hash != WithKey(sha256, [1, 0], 3, three).block.hash
    ensures
      var a, b, c :=
        WithKey(sha256, [1, 1], 1, one), WithKey(sha256, [1], 2, two), WithKey(sha256, [1, 0], 3, three);
      && Outcome(sha256, [a, b, c]) == Elected([a, b, c])
      && Outcome(sha256, [b, c, a]) == Elected([b, c, a]) && a != b
  {
    var a, b, c :=
      WithKey(sha256, [1, 1], 1, one), WithKey(sha256, [1], 2, two), WithKey(sha256, [1, 0], 3, three);
    LengthsCanCycle(sha256, one, two, three);
    assert |a.block.hash| == 2 && |b.block.hash| == 1 && |c.block.hash| == 2;
    ThreeCompatible(a, b, c);
    ThreeCompatible(b, c, a);
    Circle(sha256, a, b, c);
    Circle(sha256, b, c, a);
  }

  /** Ties: two sources whose different hashes have the same key at the same time; whoever arrives first wins. */
  lemma TieChangesWinner(sha256: Sha256, key: seq<uint8>, timestamp: int64, one: string, other: string)
    requires one != other && key != []
    requires WithKey(sha256, key, timestamp, one).block.hash != WithKey(sha256, key, timestamp, other).block.hash
    ensures
      var a, b := WithKey(sha256, key, timestamp, one), WithKey(sha256, key, timestamp, other);
      && |a.block.hash| == |b.block.hash| && a != b
      && Outcome(sha256, [a, b]) == Elected([a, b]) && Outcome(sha256, [b, a]) == Elected([b, a])
  {
    var a, b := WithKey(sha256, key, timestamp, one), WithKey(sha256, key, timestamp, other);
    KeyOfWithKey(sha256, key, timestamp, one);
    KeyOfWithKey(sha256, key, timestamp, other);
    KeyTies(key, timestamp, key, timestamp);
    Pair(sha256, a, b);
    Pair(sha256, b, a);
  }

  lemma Pair(sha256: Sha256, a: Candidate, b: Candidate)
    requires Compatible([a, b]) && !Earlier(sha256, b, a)
    ensures Outcome(sha256, [a, b]) == Elected([a, b])
  {
    SortTwo(Order(sha256), a, b);
    ElectsRanking(sha256, [a, b]);
  }
}
