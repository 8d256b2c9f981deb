/** Block time rules: median-time-past and the timestamp check in blockchain/config/time_rules.go. */
module TimeRules {
  import opened Machine
  import opened Sorting

  datatype Rules = Rules(maxDrift: int64, window: int, syncDrift: int64, syncHeight: nat)

  datatype Header = Header(timestamp: int64, height: nat)

  datatype Verdict = Accepted | NotIncreasing | TooOld | TooFarAhead

  function Less(a: int64, b: int64): bool {
    a < b
  }

  /** The window actually used: the default when unset, and always odd. */
  function Window(rules: Rules): (w: nat)
    ensures w >= 1 && w % 2 == 1
  {
    if rules.window <= 0 then 11 else if rules.window % 2 == 0 then rules.window + 1 else rules.window
  }

  // ----- the median -----

  function Stamps(path: seq<Header>): (ts: seq<int64>)
    ensures |ts| == |path| && forall i :: 0 <= i < |path| ==> ts[i] == path[i].timestamp
  {
    seq(|path|, i requires 0 <= i < |path| => path[i].timestamp)
  }

  lemma IntegersOrdered(ts: seq<int64>)
    ensures StrictWeakOrder(Less, multiset(ts)) && Separates(Less, multiset(ts))
  {
  }

  ghost predicate Arranges(sorted: seq<int64>, ts: seq<int64>) {
    |sorted| == |ts| && multiset(sorted) == multiset(ts) && Sorted(Less, sorted)
  }

  lemma SortArranges(ts: seq<int64>)
    ensures Arranges(Sort(Less, ts), ts)
  {
    IntegersOrdered(ts);
    SortSorts(Less, ts);
    SameLength(Sort(Less, ts), ts);
  }

  /** The stamps in ascending order. */
  ghost function Ascending(ts: seq<int64>): (sorted: seq<int64>)
    ensures Arranges(sorted, ts)
  {
    SortArranges(ts);
    var sorted :| Arranges(sorted, ts);
    sorted
  }

  /** The middle of the stamps in ascending order. */
  ghost function Median(ts: seq<int64>): int64 {
    if ts == [] then 0 else Ascending(ts)[|ts| / 2]
  }

  lemma MedianIsMiddle(ts: seq<int64>, sorted: seq<int64>)
    requires ts != [] && Arranges(sorted, ts)
    ensures Median(ts) == sorted[|ts| / 2]
  {
    IntegersOrdered(ts);
    SortedUnique(Less, Ascending(ts), sorted);
  }

  function Start(w: nat, end: nat): (start: nat)
    requires w >= 1
  {
    if end < w - 1 then 0 else end - (w - 1)
  }

  /** The stamps of blocks start to end, as far as the path goes. */
  function Between(path: seq<Header>, start: nat, end: nat): (ts: seq<int64>) {
    var stop := if end + 1 < |path| then end + 1 else |path|;
    if start > stop then [] else Stamps(path[start..stop])
  }

  ghost function MedianPast(rules: Rules, path: seq<Header>, end: int): int64 {
    if end < 0 then 0 else Median(Between(path, Start(Window(rules), end), end))
  }

  method Collect(path: seq<Header>, start: nat, end: nat) returns (ts: seq<int64>)
    requires start <= end
    ensures ts == Between(path, start, end)
  {
    ts := [];
    var i := start;
    while i <= end && i < |path|
      invariant start <= i <= end + 1
      invariant if start > |path| then i == start && ts == [] else i <= |path| && ts == Stamps(path[start..i])
    {
      ts := ts + [path[i].timestamp];
      i := i + 1;
      assert path[start..i] == path[start..i - 1] + [path[i - 1]];
    }
  }

  method MedianTimePast(rules: Rules, path: seq<Header>, end: int) returns (mtp: int64)
    ensures mtp == MedianPast(rules, path, end)
  {
    var window := rules.window;
    if window <= 0 {
      window := 11;
    }
    if window % 2 == 0 {
      window := window + 1;
    }
    if end < 0 {
      return 0;
    }
    var start := end - (window - 1);
    if start < 0 {
      start := 0;
    }
    assert start == Start(Window(rules), end);
    var ts := Collect(path, start, end);
    if |ts| == 0 {
      return 0;
    }
    SortArranges(ts);
    MedianIsMiddle(ts, Sort(Less, ts));
    ts := Sort(Less, ts);
    return ts[|ts| / 2];
  }

  // ----- the check -----

  function Drift(rules: Rules, block: Header): int64 {
    if block.height < rules.syncHeight then rules.syncDrift else rules.maxDrift
  }

  function Judge(parent: int64, stamp: int64, mtp: int64, drift: int64): Verdict {
    if stamp <= parent then NotIncreasing
    else if stamp <= mtp then TooOld
    else if stamp > AddInt64(mtp, drift) then TooFarAhead
    else Accepted
  }

  ghost function Check(rules: Rules, path: seq<Header>, i: int): Verdict {
    if i <= 0 || i >= |path| then Accepted
    else Judge(path[i - 1].timestamp, path[i].timestamp, MedianPast(rules, path, i - 1), Drift(rules, path[i]))
  }

  method JudgeTime(rules: Rules, parent: int64, cur: Header, mtp: int64) returns (verdict: Verdict)
    requires parent < cur.timestamp
    ensures verdict == Judge(parent, cur.timestamp, mtp, Drift(rules, cur))
  {
    if cur.timestamp <= mtp {
      return TooOld;
    }
    var maxDrift := rules.maxDrift;
    if cur.height < rules.syncHeight {
      maxDrift := rules.syncDrift;
    }
    if cur.timestamp > AddInt64(mtp, maxDrift) {
      return TooFarAhead;
    }
    return Accepted;
  }

  method ValidateBlockTime(rules: Rules, path: seq<Header>, idx: int) returns (verdict: Verdict)
    ensures verdict == Check(rules, path, idx)
  {
    if idx <= 0 || idx >= |path| {
      return Accepted;
    }
    var prev, cur := path[idx - 1], path[idx];
    if cur.timestamp <= prev.timestamp {
      return NotIncreasing;
    }
    var mtp := MedianTimePast(rules, path, idx - 1);
    verdict := JudgeTime(rules, prev.timestamp, cur, mtp);
  }

  // ----- what is accepted -----

  /** The first block of the window before block i: eleven blocks when unset, one more than an even setting. */
  function WindowStart(rules: Rules, i: nat): nat {
    var blocks := if rules.window <= 0 then 11 else rules.window + (1 - rules.window % 2);
    if i < blocks then 0 else i - blocks
  }

  /** No further ahead of the median than the drift; a limit beyond int64 lets nothing through, one below it wraps. */
  predicate WithinDrift(mtp: int64, stamp: int64, drift: int64) {
    if mtp + drift >= TWO63 then false
    else if mtp + drift < -TWO63 then stamp <= mtp + drift + TWO64
    else stamp - mtp <= drift
  }

  /** Before the height threshold the one limit applies, from it on the other. */
  predicate DriftKept(rules: Rules, block: Header, mtp: int64) {
    && (block.height < rules.syncHeight ==> WithinDrift(mtp, block.timestamp, rules.syncDrift))
    && (block.height >= rules.syncHeight ==> WithinDrift(mtp, block.timestamp, rules.maxDrift))
  }

  lemma MedianOverWindow(rules: Rules, path: seq<Header>, i: nat, sorted: seq<int64>)
    requires 0 < i <= |path| && Arranges(sorted, Stamps(path[WindowStart(rules, i)..i]))
    ensures sorted != [] && MedianPast(rules, path, i - 1) == sorted[|sorted| / 2]
  {
    assert WindowStart(rules, i) == Start(Window(rules), i - 1);
    MedianIsMiddle(Stamps(path[WindowStart(rules, i)..i]), sorted);
  }

  /**
   A block is accepted exactly when it is later than its parent and than the middle one of the stamps in its window in
   ascending order, and within the drift limit of its height; the first of these it misses names the refusal.
   */
  lemma VerdictIff(rules: Rules, path: seq<Header>, i: nat, sorted: seq<int64>)
    requires 0 < i < |path| && Arranges(sorted, Stamps(path[WindowStart(rules, i)..i])) && sorted != []
    ensures
      var parent, block, mtp := path[i - 1].timestamp, path[i], sorted[|sorted| / 2];
      var verdict := Check(rules, path, i);
      && (verdict == NotIncreasing <==> block.timestamp <= parent)
      && (verdict == TooOld <==> parent < block.timestamp <= mtp)
      && (verdict == TooFarAhead <==> parent < block.timestamp && mtp < block.timestamp && !DriftKept(rules, block, mtp))
      && (verdict == Accepted <==> parent < block.timestamp && mtp < block.timestamp && DriftKept(rules, block, mtp))
  {
    MedianOverWindow(rules, path, i, sorted);
  }

  /** The first block has nothing to be compared with, and outside the path there is nothing to compare. */
  lemma NothingToJudge(rules: Rules, path: seq<Header>, i: int)
    requires i <= 0 || i >= |path|
    ensures Check(rules, path, i) == Accepted
  {
  }

  // ----- accepted paths -----

  ghost predicate AcceptedPath(rules: Rules, path: seq<Header>) {
    forall i :: 0 <= i < |path| ==> Check(rules, path, i) == Accepted
  }

  predicate Increasing(path: seq<Header>) {
    forall i, j :: 0 <= i < j < |path| ==> path[i].timestamp < path[j].timestamp
  }

  /** Timestamps strictly increase, between any two blocks. */
  lemma {:induction false} TimestampsIncrease(rules: Rules, path: seq<Header>)
    requires AcceptedPath(rules, path)
    ensures Increasing(path)
  {
    forall i, j | 0 <= i < j < |path| ensures path[i].timestamp < path[j].timestamp {
      IncreaseBetween(rules, path, i, j);
    }
  }

  lemma {:induction false} IncreaseBetween(rules: Rules, path: seq<Header>, i: nat, j: nat)
    requires AcceptedPath(rules, path) && i < j < |path|
    ensures path[i].timestamp < path[j].timestamp
    decreases j
  {
    assert Check(rules, path, j) == Accepted;
    if i < j - 1 {
      IncreaseBetween(rules, path, i, j - 1);
    }
  }

  /** The block in the middle of the window before block i. */
  function Mid(w: nat, i: nat): (m: nat)
    requires w >= 1 && w % 2 == 1 && i >= 1
    ensures m < i
  {
    if i < w then i / 2 else i - w + w / 2
  }

  /** On increasing stamps the median is read off without sorting. */
  lemma MedianUnsorted(rules: Rules, path: seq<Header>, i: nat)
    requires Increasing(path) && 1 <= i <= |path|
    ensures MedianPast(rules, path, i - 1) == path[Mid(Window(rules), i)].timestamp
  {
    var start := Start(Window(rules), i - 1);
    var ts := Between(path, start, i - 1);
    assert ts == Stamps(path[start..i]);
    MedianIsMiddle(ts, ts);
    assert start + |ts| / 2 == Mid(Window(rules), i);
  }

  /** Median-time-past never decreases along an accepted path. */
  lemma MedianNeverDecreases(rules: Rules, path: seq<Header>, i: nat, j: nat)
    requires AcceptedPath(rules, path) && i <= j < |path|
    ensures MedianPast(rules, path, i) <= MedianPast(rules, path, j)
  {
    TimestampsIncrease(rules, path);
    MedianUnsorted(rules, path, i + 1);
    MedianUnsorted(rules, path, j + 1);
    MidGrows(Window(rules), i + 1, j + 1);
    InOrder(path, Mid(Window(rules), i + 1), Mid(Window(rules), j + 1));
  }

  lemma MidGrows(w: nat, i: nat, j: nat)
    requires w >= 1 && w % 2 == 1 && 1 <= i <= j
    ensures Mid(w, i) <= Mid(w, j)
  {
  }

  lemma InOrder(path: seq<Header>, a: nat, b: nat)
    requires Increasing(path) && a <= b < |path|
    ensures path[a].timestamp <= path[b].timestamp
  {
  }

  lemma SameMedian(rules: Rules, path: seq<Header>, i: nat)
    requires 1 <= i <= |path|
    ensures MedianPast(rules, path[..i], i - 1) == MedianPast(rules, path, i - 1)
  {
    var start := Start(Window(rules), i - 1);
    assert path[..i][start..i] == path[start..i];
  }

  /** Behind increasing stamps, passing the parent means passing the median: that check never rejects on its own. */
  lemma NeverTooOld(rules: Rules, path: seq<Header>, i: nat)
    requires 1 <= i < |path| && Increasing(path[..i])
    ensures Check(rules, path, i) != TooOld
  {
    var before := path[..i];
    var m := Mid(Window(rules), i);
    MedianUnsorted(rules, before, i);
    SameMedian(rules, path, i);
    InOrder(before, m, i - 1);
  }

  // ----- how fast time can run -----

  predicate DriftsWithin(rules: Rules, d: nat) {
    0 <= rules.maxDrift <= d && 0 <= rules.syncDrift <= d
  }

  /** An accepted stamp exceeds the median by at most the drift; a sum past 2^63 accepts nothing. */
  lemma DriftBound(rules: Rules, path: seq<Header>, i: nat, d: nat)
    requires AcceptedPath(rules, path) && DriftsWithin(rules, d) && 1 <= i < |path|
    ensures path[i].timestamp <= path[Mid(Window(rules), i)].timestamp + d
  {
    TimestampsIncrease(rules, path);
    MedianUnsorted(rules, path, i);
    assert Check(rules, path, i) == Accepted;
  }

  /** How many medians lie between block i and the first one. */
  function Hops(w: nat, i: nat): nat
    requires w >= 1 && w % 2 == 1
  {
    if i == 0 then 0 else 1 + Hops(w, Mid(w, i))
  }

  /** One drift per median: time outruns the first block by at most one drift for each of the medians in between. */
  lemma {:induction false} GrowthBound(rules: Rules, path: seq<Header>, i: nat, d: nat)
    requires AcceptedPath(rules, path) && DriftsWithin(rules, d) && i < |path|
    ensures path[i].timestamp <= path[0].timestamp + d * Hops(Window(rules), i)
  {
    if i > 0 {
      var m := Mid(Window(rules), i);
      DriftBound(rules, path, i, d);
      GrowthBound(rules, path, m, d);
      OneMore(d, Hops(Window(rules), m));
    }
  }

  lemma OneMore(d: nat, n: nat)
    ensures d * (n + 1) == d * n + d
  {
  }

  lemma {:induction false} FewHops(w: nat, i: nat)
    requires w >= 1 && w % 2 == 1
    ensures Hops(w, i) <= i
    ensures i < w ==> Hops(w, i) <= 1 + i / 2
  {
    if i > 0 {
      FewHops(w, Mid(w, i));
    }
  }

  /** There are about i divided by half a window of them, not one per block. */
  lemma {:induction false} HopsBound(w: nat, i: nat)
    requires w >= 1 && w % 2 == 1
    ensures var half := (w + 1) / 2; half * Hops(w, i) <= i + half * half
  {
    var half := (w + 1) / 2;
    FewHops(w, i);
    if i >= w {
      HopsBound(w, Mid(w, i));
      assert Mid(w, i) == i - half;
      OneMore(half, Hops(w, Mid(w, i)));
    } else {
      ScaleUp(half, Hops(w, i), half);
    }
  }

  lemma ScaleUp(d: nat, a: nat, b: nat)
    requires a <= b
    ensures d * a <= d * b
  {
  }

  /** In particular never more than one drift per block. */
  lemma DriftPerBlock(rules: Rules, path: seq<Header>, i: nat, d: nat)
    requires AcceptedPath(rules, path) && DriftsWithin(rules, d) && i < |path|
    ensures path[i].timestamp <= path[0].timestamp + d * i
  {
    GrowthBound(rules, path, i, d);
    FewHops(Window(rules), i);
    ScaleUp(d, Hops(Window(rules), i), i);
  }
}
