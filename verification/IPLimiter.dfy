/** The per-client limiter of blockchain/api/middleware.go, with its sweep of idle clients. */
module IPLimiter {
  import opened Machine
  import opened TokenBuckets

  const TTL := 600.0
  const SWEEP_INTERVAL := 60.0

  datatype IpBucket = IpBucket(tokens: real, last: real, lastSeen: real)

  type Buckets = map<string, IpBucket>

  datatype Limiter = Limiter(buckets: Buckets, lastSweep: real)

  datatype Answer = Answer(allowed: bool, wait: int)

  /** Requests without an address share one bucket. */
  function ClientOf(ip: string): string {
    if ip == "" then "unknown" else ip
  }

  function Limit(rps: nat, burst: nat): Limits {
    Limits(burst as real, rps as real)
  }

  /** The client's bucket, made full on first sight. */
  function Find(lim: Limits, buckets: Buckets, client: string, now: real): IpBucket {
    if client in buckets then buckets[client] else IpBucket(lim.max, now, now)
  }

  /** Refill, then take one token if there is one. */
  function Touch(lim: Limits, b: IpBucket, now: real): IpBucket {
    var r := Refill(lim, Bucket(b.tokens, b.last), now);
    IpBucket(if r.tokens >= 1.0 then r.tokens - 1.0 else r.tokens, r.last, now)
  }

  function AnswerFor(lim: Limits, b: IpBucket, now: real): Answer
    requires lim.rate > 0.0
  {
    var r := Refill(lim, Bucket(b.tokens, b.last), now);
    if r.tokens >= 1.0 then Answer(true, 0) else Answer(false, Truncated((1.0 - r.tokens) / lim.rate))
  }

  predicate Idle(b: IpBucket, now: real) {
    b.lastSeen < now - TTL
  }

  function Swept(l: Limiter, now: real): Limiter {
    if now - l.lastSweep < SWEEP_INTERVAL then l
    else Limiter(map ip | ip in l.buckets && !Idle(l.buckets[ip], now) :: l.buckets[ip], now)
  }

  /** One request, with the sweep or without it. */
  function Served(lim: Limits, l: Limiter, client: string, now: real, sweeping: bool): Limiter {
    var b := Touch(lim, Find(lim, l.buckets, client, now), now);
    var l' := l.(buckets := l.buckets[client := b]);
    if sweeping then Swept(l', now) else l'
  }

  class IPRateLimiter {
    const limits: Limits
    var buckets: Buckets
    var lastSweep: real

    ghost function State(): Limiter
      reads this
    {
      Limiter(buckets, lastSweep)
    }

    ghost predicate Valid() {
      limits.max >= 1.0 && limits.rate >= 1.0
    }

    constructor (rps: int, burst: int, now: real)
      requires rps > 0 && burst > 0
      ensures Valid() && limits == Limit(rps, burst) && State() == Limiter(map[], now)
    {
      limits := Limit(rps, burst);
      buckets := map[];
      lastSweep := now;
    }

    method SweepLocked(now: real)
      modifies this
      ensures State() == Swept(old(State()), now)
    {
      if now - lastSweep < SWEEP_INTERVAL {
        return;
      }
      lastSweep := now;
      var cutoff := now - TTL;
      var rest := buckets.Keys;
      ghost var start := buckets;
      while rest != {}
        invariant rest <= start.Keys
        invariant buckets.Keys == rest + (set ip | ip in start.Keys - rest && !Idle(start[ip], now))
        invariant forall ip :: ip in buckets ==> buckets[ip] == start[ip]
        invariant lastSweep == now
        decreases rest
      {
        var ip :| ip in rest;
        rest := rest - {ip};
        if buckets[ip].lastSeen < cutoff {
          buckets := buckets - {ip};
        }
      }
    }

    method Allow(ip: string, now: real) returns (allowed: bool, wait: int)
      requires Valid()
      modifies this
      ensures State() == Served(limits, old(State()), ClientOf(ip), now, true)
      ensures Answer(allowed, wait)
           == AnswerFor(limits, Find(limits, old(buckets), ClientOf(ip), now), now)
    {
      var client := ip;
      if client == "" {
        client := "unknown";
      }
      ghost var found := Find(limits, buckets, client, now);
      if client !in buckets {
        buckets := buckets[client := IpBucket(limits.max, now, now)];
      }
      var b := buckets[client];
      var elapsed := now - b.last;
      if elapsed > 0.0 {
        var tokens := b.tokens + Flow(elapsed, limits.rate);
        if tokens > limits.max {
          tokens := limits.max;
        }
        b := b.(tokens := tokens, last := now);
      }
      b := b.(lastSeen := now);
      assert Bucket(b.tokens, b.last) == Refill(limits, Bucket(found.tokens, found.last), now);
      if b.tokens >= 1.0 {
        b := b.(tokens := b.tokens - 1.0);
        buckets := buckets[client := b];
        assert b == Touch(limits, found, now) && buckets == old(buckets)[client := b];
        SweepLocked(now);
        return true, 0;
      }
      buckets := buckets[client := b];
      assert b == Touch(limits, found, now) && buckets == old(buckets)[client := b];
      var need := 1.0 - b.tokens;
      var sec := need / limits.rate;
      if sec < 0.0 {
        sec := 0.0;
      }
      SweepLocked(now);
      return false, Truncated(sec);
    }
  }

  /** `NewIPRateLimiter`: a limiter that is switched off is nil. */
  method NewIPRateLimiter(rps: int, burst: int, now: real) returns (l: IPRateLimiter?)
    ensures l == null <==> rps <= 0 || burst <= 0
    ensures l != null ==> l.Valid() && l.limits == Limit(rps, burst) && l.State() == Limiter(map[], now)
  {
    if rps <= 0 || burst <= 0 {
      return null;
    }
    l := new IPRateLimiter(rps, burst, now);
  }

  // ----- runs of requests -----

  datatype Request = Request(ip: string, now: real)

  ghost predicate InOrder(from: real, requests: seq<Request>)
    decreases |requests|
  {
    requests == [] || (from <= requests[0].now && InOrder(requests[0].now, requests[1..]))
  }

  function Answers(lim: Limits, l: Limiter, requests: seq<Request>, sweeping: bool): (answers: seq<Answer>)
    requires lim.rate > 0.0
    ensures |answers| == |requests|
    decreases |requests|
  {
    if requests == [] then []
    else
      var client, now := ClientOf(requests[0].ip), requests[0].now;
      [AnswerFor(lim, Find(lim, l.buckets, client, now), now)]
      + Answers(lim, Served(lim, l, client, now, sweeping), requests[1..], sweeping)
  }

  /** No run of requests from a new limiter can tell whether idle clients are swept. */
  ghost predicate SweepUnobservable(rps: nat, burst: nat)
    requires rps > 0
  {
    forall t0: real, requests: seq<Request> :: InOrder(t0, requests) ==>
      Answers(Limit(rps, burst), Limiter(map[], t0), requests, true)
      == Answers(Limit(rps, burst), Limiter(map[], t0), requests, false)
  }

  /** A bucket as it stands in a limiter whose clock shows `now`. */
  ghost predicate Sane(lim: Limits, b: IpBucket, now: real) {
    0.0 <= b.tokens <= lim.max && b.last == b.lastSeen && b.last <= now
  }

  /** The sweeping limiter forgot only clients that would be full again by now. */
  ghost predicate Simulates(lim: Limits, swept: Buckets, full: Buckets, now: real) {
    && swept.Keys <= full.Keys
    && (forall ip :: ip in full ==> Sane(lim, full[ip], now))
    && (forall ip :: ip in swept ==> swept[ip] == full[ip])
    && forall ip :: ip in full && ip !in swept ==> FullAgain(lim, full[ip], now)
  }

  ghost predicate FullAgain(lim: Limits, b: IpBucket, now: real) {
    b.tokens + Flow(now - b.last, lim.rate) >= lim.max
  }

  lemma FullAgainLater(lim: Limits, b: IpBucket, now: real, later: real)
    requires lim.rate > 0.0 && FullAgain(lim, b, now) && now <= later
    ensures FullAgain(lim, b, later)
  {
    FlowMonotone(now - b.last, later - b.last, lim.rate);
  }

  lemma TouchSane(lim: Limits, b: IpBucket, now: real)
    requires lim.Valid() && Sane(lim, b, now)
    ensures Sane(lim, Touch(lim, b, now), now)
  {
    RefillBounded(lim, Bucket(b.tokens, b.last), now);
  }

  /** A forgotten client and a full one are served alike. */
  lemma ForgottenServedAlike(lim: Limits, b: IpBucket, now: real)
    requires lim.Valid() && Sane(lim, b, now) && FullAgain(lim, b, now)
    ensures Touch(lim, b, now) == Touch(lim, IpBucket(lim.max, now, now), now)
    ensures AnswerFor(lim, b, now) == AnswerFor(lim, IpBucket(lim.max, now, now), now)
  {
  }

  lemma IdleIsFullAgain(lim: Limits, b: IpBucket, now: real)
    requires lim.Valid() && Sane(lim, b, now) && Idle(b, now) && Flow(TTL, lim.rate) >= lim.max
    ensures FullAgain(lim, b, now)
  {
    FlowMonotone(TTL, now - b.last, lim.rate);
  }

  lemma ServedSimulates(lim: Limits, swept: Limiter, full: Limiter, client: string, before: real, now: real)
    requires lim.Valid() && Flow(TTL, lim.rate) >= lim.max
    requires Simulates(lim, swept.buckets, full.buckets, before) && before <= now
    ensures AnswerFor(lim, Find(lim, swept.buckets, client, now), now)
         == AnswerFor(lim, Find(lim, full.buckets, client, now), now)
    ensures Simulates(lim, Served(lim, swept, client, now, true).buckets,
                      Served(lim, full, client, now, false).buckets, now)
  {
    forall ip | ip in full.buckets
      ensures Sane(lim, full.buckets[ip], now)
      ensures ip !in swept.buckets ==> FullAgain(lim, full.buckets[ip], now)
    {
      if ip !in swept.buckets {
        FullAgainLater(lim, full.buckets[ip], before, now);
      }
    }
    var b := Find(lim, full.buckets, client, now);
    TouchSane(lim, b, now);
    if client in full.buckets && client !in swept.buckets {
      ForgottenServedAlike(lim, b, now);
    }
    var full' := Served(lim, full, client, now, false).buckets;
    forall ip | ip in full' && Idle(full'[ip], now)
      ensures FullAgain(lim, full'[ip], now)
    {
      IdleIsFullAgain(lim, full'[ip], now);
    }
  }

  lemma {:induction false} RunSimulates(lim: Limits, swept: Limiter, full: Limiter, requests: seq<Request>, now: real)
    requires lim.Valid() && Flow(TTL, lim.rate) >= lim.max
    requires Simulates(lim, swept.buckets, full.buckets, now) && InOrder(now, requests)
    ensures Answers(lim, swept, requests, true) == Answers(lim, full, requests, false)
    decreases |requests|
  {
    if requests != [] {
      var client, at := ClientOf(requests[0].ip), requests[0].now;
      ServedSimulates(lim, swept, full, client, now, at);
      RunSimulates(lim, Served(lim, swept, client, at, true), Served(lim, full, client, at, false), requests[1..], at);
    }
  }

  // ----- what a request sees and leaves -----

  /** Requests without an address are one client, the one called unknown. */
  lemma {:induction false} NamelessAreUnknown(lim: Limits, l: Limiter, some: seq<Request>, named: seq<Request>, sweeping: bool)
    requires lim.rate > 0.0 && |some| == |named|
    requires forall i :: 0 <= i < |some| ==>
      named[i] == if some[i].ip == "" then Request("unknown", some[i].now) else some[i]
    ensures Answers(lim, l, some, sweeping) == Answers(lim, l, named, sweeping)
    decreases |some|
  {
    if some != [] {
      var client, now := ClientOf(some[0].ip), some[0].now;
      assert ClientOf(named[0].ip) == client;
      NamelessAreUnknown(lim, Served(lim, l, client, now, sweeping), some[1..], named[1..], sweeping);
    }
  }

  /** A sweep is due a minute after the last one; it forgets exactly the clients not seen for ten minutes. */
  lemma SweptIff(l: Limiter, now: real, ip: string)
    ensures ip in Swept(l, now).buckets <==>
      ip in l.buckets && (now - l.lastSweep < 60.0 || l.buckets[ip].lastSeen >= now - 600.0)
    ensures ip in Swept(l, now).buckets ==> Swept(l, now).buckets[ip] == l.buckets[ip]
    ensures Swept(l, now).lastSweep == if now - l.lastSweep < 60.0 then l.lastSweep else now
  {
  }

  /**
   A refused client that asks again is allowed one nanosecond after the reported wait, at the reported wait exactly if that
   is not cut, and not before it.
   */
  lemma RetryIsExact(lim: Limits, b: IpBucket, now: real)
    requires lim.Valid() && lim.max >= 1.0 && Sane(lim, b, now) && !AnswerFor(lim, b, now).allowed
    ensures
      var wait, after := AnswerFor(lim, b, now).wait, Touch(lim, b, now);
      && wait >= 0
      && AnswerFor(lim, after, now + Seconds(wait + 1)).allowed
      && (AnswerFor(lim, after, now + Seconds(wait)).allowed <==> WholeWait(lim, Bucket(b.tokens, b.last), 1, now))
      && forall u: real :: now <= u < now + Seconds(wait) ==> !AnswerFor(lim, after, u).allowed
  {
    var bucket := Bucket(b.tokens, b.last);
    RefillBounded(lim, bucket, now);
    var after := TokenBuckets.After(lim, bucket, TimeUntilTokens(1), now);
    assert after == Refill(lim, bucket, now);
    WaitIsExact(lim, bucket, 1, now);
    forall u: real ensures AnswerFor(lim, Touch(lim, b, now), u).allowed <==> Granted(lim, after, AllowN(1), u) == 1 {
    }
  }

  function ServeAll(lim: Limits, l: Limiter, requests: seq<Request>, sweeping: bool): Limiter
    decreases |requests|
  {
    if requests == [] then l
    else ServeAll(lim, Served(lim, l, ClientOf(requests[0].ip), requests[0].now, sweeping), requests[1..], sweeping)
  }

  ghost predicate AllBy(requests: seq<Request>, t: real) {
    forall i :: 0 <= i < |requests| ==> requests[i].now <= t
  }

  lemma SimulatesLater(lim: Limits, swept: Buckets, full: Buckets, now: real, later: real)
    requires lim.rate > 0.0 && Simulates(lim, swept, full, now) && now <= later
    ensures Simulates(lim, swept, full, later)
  {
    forall ip | ip in full && ip !in swept ensures FullAgain(lim, full[ip], later) {
      FullAgainLater(lim, full[ip], now, later);
    }
  }

  /** And the two are still alike afterwards. */
  lemma {:induction false} RunKeepsSimulation(
      lim: Limits, swept: Limiter, full: Limiter, requests: seq<Request>, now: real, end: real)
    requires lim.Valid() && Flow(TTL, lim.rate) >= lim.max
    requires Simulates(lim, swept.buckets, full.buckets, now) && InOrder(now, requests) && AllBy(requests, end) && now <= end
    ensures Simulates(lim, ServeAll(lim, swept, requests, true).buckets, ServeAll(lim, full, requests, false).buckets, end)
    decreases |requests|
  {
    if requests == [] {
      SimulatesLater(lim, swept.buckets, full.buckets, now, end);
    } else {
      var client, at := ClientOf(requests[0].ip), requests[0].now;
      ServedSimulates(lim, swept, full, client, now, at);
      RunKeepsSimulation(
        lim, Served(lim, swept, client, at, true), Served(lim, full, client, at, false), requests[1..], at, end);
    }
  }

  // ----- the rate of one client -----

  /** The tokens a client finds at time `now`. */
  function Level(lim: Limits, l: Limiter, client: string, now: real): real {
    var b := Find(lim, l.buckets, client, now);
    Refill(lim, Bucket(b.tokens, b.last), now).tokens
  }

  /** One request at an instant takes one token of what the next one finds. */
  lemma LevelAfter(lim: Limits, l: Limiter, ip: string, now: real, sweeping: bool)
    requires sweeping ==> now - l.lastSweep < SWEEP_INTERVAL
    ensures
      var level := Level(lim, l, ip, now);
      Level(lim, Served(lim, l, ip, now, sweeping), ip, now) == if level >= 1.0 then level - 1.0 else level
  {
  }

  /** How often a client was allowed. */
  function AllowedTo(client: string, requests: seq<Request>, answers: seq<Answer>): nat
    requires |requests| == |answers|
  {
    if requests == [] then 0
    else
      var one := if ClientOf(requests[0].ip) == client && answers[0].allowed then 1 else 0;
      one + AllowedTo(client, requests[1..], answers[1..])
  }

  ghost predicate AllSane(lim: Limits, l: Limiter) {
    forall ip :: ip in l.buckets ==> 0.0 <= l.buckets[ip].tokens <= lim.max
  }

  lemma ClientLevelGrows(lim: Limits, l: Limiter, client: string, s: real, u: real)
    requires lim.Valid() && AllSane(lim, l) && s <= u
    ensures 0.0 <= Level(lim, l, client, s) <= lim.max
    ensures Level(lim, l, client, u) <= Level(lim, l, client, s) + Flow(u - s, lim.rate)
  {
    FlowNonNegative(u - s, lim.rate);
    if client in l.buckets {
      var b := Bucket(l.buckets[client].tokens, l.buckets[client].last);
      RefillBounded(lim, b, s);
      LevelGrows(lim, b, s, u);
    }
  }

  lemma ServedSane(lim: Limits, l: Limiter, client: string, now: real)
    requires lim.Valid() && AllSane(lim, l)
    ensures AllSane(lim, Served(lim, l, client, now, false))
  {
    var b := Find(lim, l.buckets, client, now);
    RefillBounded(lim, Bucket(b.tokens, b.last), now);
  }

  /** One request, seen from one client: what it takes and what it leaves came from the old level and the flow. */
  lemma RequestSeenFrom(lim: Limits, l: Limiter, client: string, other: string, s: real, u: real)
    requires lim.Valid() && AllSane(lim, l) && s <= u
    ensures
      var one := if other == client && AnswerFor(lim, Find(lim, l.buckets, other, u), u).allowed then 1.0 else 0.0;
      one + Level(lim, Served(lim, l, other, u, false), client, u)
      <= Level(lim, l, client, s) + Flow(u - s, lim.rate)
  {
    ClientLevelGrows(lim, l, client, s, u);
    if other == client {
      LevelAfter(lim, l, client, u, false);
    } else {
      assert Level(lim, Served(lim, l, other, u, false), client, u) == Level(lim, l, client, u);
    }
  }

  lemma {:induction false} ClientBelowLevel(lim: Limits, l: Limiter, requests: seq<Request>, client: string, s: real, t: real)
    requires lim.Valid() && AllSane(lim, l) && InOrder(s, requests) && s <= t && AllBy(requests, t)
    ensures AllowedTo(client, requests, Answers(lim, l, requests, false)) as real
         <= Level(lim, l, client, s) + Flow(t - s, lim.rate)
    decreases |requests|
  {
    if requests == [] {
      ClientLevelGrows(lim, l, client, s, s);
      FlowNonNegative(t - s, lim.rate);
    } else {
      var other, u := ClientOf(requests[0].ip), requests[0].now;
      var l' := Served(lim, l, other, u, false);
      RequestSeenFrom(lim, l, client, other, s, u);
      ServedSane(lim, l, other, u);
      ClientBelowLevel(lim, l', requests[1..], client, u, t);
      FlowSplits(s, u, t, lim.rate);
      assert Answers(lim, l, requests, false)[1..] == Answers(lim, l', requests[1..], false);
    }
  }

  /** A run from a new limiter at t0, and a window of it from s to t. */
  ghost predicate IsWindow(t0: real, before: seq<Request>, s: real, window: seq<Request>, t: real) {
    t0 <= s <= t && InOrder(t0, before) && AllBy(before, s) && InOrder(s, window) && AllBy(window, t)
  }

  /** In that window the client is allowed at most burst + rps * (t - s) requests. */
  ghost predicate WithinRate(
      lim: Limits, t0: real, before: seq<Request>, s: real, window: seq<Request>, t: real, client: string)
    requires lim.rate > 0.0
  {
    AllowedTo(client, window, Answers(lim, ServeAll(lim, Limiter(map[], t0), before, true), window, true)) as real
    <= lim.max + Flow(t - s, lim.rate)
  }

  /** Whatever the other clients do, every client keeps to the rate in every window of every run. */
  lemma ClientRateBound(
      lim: Limits, t0: real, before: seq<Request>, s: real, window: seq<Request>, t: real, client: string)
    requires lim.Valid() && Flow(TTL, lim.rate) >= lim.max
    requires IsWindow(t0, before, s, window, t)
    ensures WithinRate(lim, t0, before, s, window, t, client)
  {
    var empty := Limiter(map[], t0);
    var swept, full := ServeAll(lim, empty, before, true), ServeAll(lim, empty, before, false);
    RunKeepsSimulation(lim, empty, empty, before, t0, s);
    RunSimulates(lim, swept, full, window, s);
    ClientBelowLevel(lim, full, window, client, s, t);
    ClientLevelGrows(lim, full, client, s, s);
  }

  // ----- when the sweep shows -----

  lemma {:induction false} AnswersConcat(lim: Limits, l: Limiter, r1: seq<Request>, r2: seq<Request>, sweeping: bool)
    requires lim.rate > 0.0
    ensures Answers(lim, l, r1 + r2, sweeping)
         == Answers(lim, l, r1, sweeping) + Answers(lim, ServeAll(lim, l, r1, sweeping), r2, sweeping)
    decreases |r1|
  {
    if r1 == [] {
      assert r1 + r2 == r2;
    } else {
      var l' := Served(lim, l, ClientOf(r1[0].ip), r1[0].now, sweeping);
      var first := AnswersStep(lim, l, r1, r2, sweeping);
      AnswersConcat(lim, l', r1[1..], r2, sweeping);
      Associate(first, Answers(lim, l', r1[1..], sweeping),
                Answers(lim, ServeAll(lim, l', r1[1..], sweeping), r2, sweeping));
    }
  }

  lemma AnswersStep(lim: Limits, l: Limiter, r1: seq<Request>, r2: seq<Request>, sweeping: bool)
      returns (first: seq<Answer>)
    requires lim.rate > 0.0 && r1 != []
    ensures
      var l' := Served(lim, l, ClientOf(r1[0].ip), r1[0].now, sweeping);
      && Answers(lim, l, r1, sweeping) == first + Answers(lim, l', r1[1..], sweeping)
      && Answers(lim, l, r1 + r2, sweeping) == first + Answers(lim, l', r1[1..] + r2, sweeping)
  {
    assert (r1 + r2)[1..] == r1[1..] + r2;
    first := [AnswerFor(lim, Find(lim, l.buckets, ClientOf(r1[0].ip), r1[0].now), r1[0].now)];
  }

  lemma Associate(a: seq<Answer>, b: seq<Answer>, c: seq<Answer>)
    ensures a + (b + c) == a + b + c
  {
  }

  /** The same client, k times at one instant. */
  function Repeated(ip: string, now: real, k: nat): (r: seq<Request>)
    ensures |r| == k
  {
    if k == 0 then [] else [Request(ip, now)] + Repeated(ip, now, k - 1)
  }

  lemma {:induction false} RepeatedInOrder(ip: string, now: real, k: nat, from: real, rest: seq<Request>)
    requires from <= now && InOrder(now, rest)
    ensures InOrder(from, Repeated(ip, now, k) + rest)
    decreases k
  {
    var r := Repeated(ip, now, k);
    if k == 0 {
      assert r + rest == rest;
      if rest != [] {
        assert from <= rest[0].now;
      }
    } else {
      assert (r + rest)[0].now == now && (r + rest)[1..] == Repeated(ip, now, k - 1) + rest;
      RepeatedInOrder(ip, now, k - 1, now, rest);
    }
  }

  predicate AllAllowed(answers: seq<Answer>) {
    answers == [] || (answers[0].allowed && AllAllowed(answers[1..]))
  }

  /** k requests at one instant are all allowed exactly when the client finds k tokens. */
  lemma {:induction false} BurstAllowed(lim: Limits, l: Limiter, ip: string, now: real, k: nat, sweeping: bool)
    requires lim.Valid() && ip != "" && (sweeping ==> now - l.lastSweep < SWEEP_INTERVAL)
    ensures AllAllowed(Answers(lim, l, Repeated(ip, now, k), sweeping))
       <==> k == 0 || Level(lim, l, ip, now) >= k as real
    decreases k
  {
    if k > 0 {
      var requests := Repeated(ip, now, k);
      assert requests[0] == Request(ip, now) && requests[1..] == Repeated(ip, now, k - 1);
      var l' := Served(lim, l, ip, now, sweeping);
      BurstAllowed(lim, l', ip, now, k - 1, sweeping);
      var answers := Answers(lim, l, requests, sweeping);
      assert answers[1..] == Answers(lim, l', requests[1..], sweeping);
      LevelAfter(lim, l, ip, now, sweeping);
    }
  }

  /** What k allowed requests at one instant leave behind. */
  lemma {:induction false} BurstLeaves(lim: Limits, l: Limiter, ip: string, now: real, k: nat, sweeping: bool)
    requires lim.Valid() && ip != "" && (sweeping ==> now - l.lastSweep < SWEEP_INTERVAL)
    requires k > 0 && Level(lim, l, ip, now) >= k as real
    requires ip in l.buckets ==> l.buckets[ip].last <= now
    ensures ServeAll(lim, l, Repeated(ip, now, k), sweeping)
         == Limiter(l.buckets[ip := IpBucket(Level(lim, l, ip, now) - k as real, now, now)], l.lastSweep)
    decreases k
  {
    var requests := Repeated(ip, now, k);
    assert requests[0] == Request(ip, now) && requests[1..] == Repeated(ip, now, k - 1);
    var l' := Served(lim, l, ip, now, sweeping);
    assert l'.buckets[ip] == IpBucket(Level(lim, l, ip, now) - 1.0, now, now);
    if k > 1 {
      BurstLeaves(lim, l', ip, now, k - 1, sweeping);
    }
  }

  /** A moment after the lifetime of an idle bucket at which a drained one would not be full again. */
  function ProbeTime(rps: nat, burst: nat): real
    requires rps > 0
  {
    (TTL + burst as real / rps as real) / 2.0
  }

  lemma ProbeTimeIsBetween(rps: nat, burst: nat)
    requires rps > 0 && Flow(TTL, rps as real) < burst as real
    ensures TTL < ProbeTime(rps, burst) && Flow(ProbeTime(rps, burst), rps as real) < burst as real
  {
    var q := burst as real / rps as real;
    assert Flow(q, rps as real) == burst as real;
    if q <= TTL {
      FlowMonotone(q, TTL, rps as real);
    }
    assert ProbeTime(rps, burst) < q;
    FlowSplits(0.0, ProbeTime(rps, burst), q, rps as real);
    FlowPositive(q - ProbeTime(rps, burst), rps as real);
  }

  /** Drain a client, wait, let another client trigger the sweep, and ask for the whole burst again. */
  function ProbeRun(rps: nat, burst: nat): seq<Request>
    requires rps > 0
  {
    Repeated("a", 0.0, burst) + ([Request("b", ProbeTime(rps, burst))] + Repeated("a", ProbeTime(rps, burst), burst))
  }

  /** Where the drained limiter stands when the second burst comes. */
  lemma ProbeReaches(rps: nat, burst: nat, sweeping: bool)
    requires rps > 0 && burst > 0 && Flow(TTL, rps as real) < burst as real
    ensures
      var lim, t := Limit(rps, burst), ProbeTime(rps, burst);
      var l := Served(lim, ServeAll(lim, Limiter(map[], 0.0), Repeated("a", 0.0, burst), sweeping), "b", t, sweeping);
      && Level(lim, l, "a", t) == (if sweeping then burst as real else Flow(t, rps as real))
      && (sweeping ==> l.lastSweep == t)
  {
    var lim, t := Limit(rps, burst), ProbeTime(rps, burst);
    ProbeTimeIsBetween(rps, burst);
    var start := Limiter(map[], 0.0);
    BurstLeaves(lim, start, "a", 0.0, burst, sweeping);
    var drained := ServeAll(lim, start, Repeated("a", 0.0, burst), sweeping);
    assert drained.buckets == map["a" := IpBucket(0.0, 0.0, 0.0)];
    assert Touch(lim, Find(lim, drained.buckets, "b", t), t).lastSeen == t;
  }

  /** The answers to the second burst. */
  lemma ProbeAnswers(rps: nat, burst: nat, sweeping: bool)
    requires rps > 0 && burst > 0 && Flow(TTL, rps as real) < burst as real
    ensures
      var answers := Answers(Limit(rps, burst), Limiter(map[], 0.0), ProbeRun(rps, burst), sweeping);
      |answers| == 2 * burst + 1 && (AllAllowed(answers[burst + 1..]) <==> sweeping)
  {
    var lim, t, start := Limit(rps, burst), ProbeTime(rps, burst), Limiter(map[], 0.0);
    var first, middle, second := Repeated("a", 0.0, burst), [Request("b", t)], Repeated("a", t, burst);
    ProbeReaches(rps, burst, sweeping);
    var drained := ServeAll(lim, start, first, sweeping);
    var l := Served(lim, drained, "b", t, sweeping);
    assert ServeAll(lim, drained, middle, sweeping) == l by {
      assert middle[1..] == [];
    }
    AnswersConcat(lim, start, first, middle + second, sweeping);
    AnswersConcat(lim, drained, middle, second, sweeping);
    assert Answers(lim, start, first + (middle + second), sweeping)[burst + 1..] == Answers(lim, l, second, sweeping);
    BurstAllowed(lim, l, "a", t, burst, sweeping);
    ProbeTimeIsBetween(rps, burst);
  }

  lemma ProbeInOrder(rps: nat, burst: nat)
    requires rps > 0 && Flow(TTL, rps as real) < burst as real
    ensures InOrder(0.0, ProbeRun(rps, burst))
  {
    ProbeTimeIsBetween(rps, burst);
    var t := ProbeTime(rps, burst);
    var second := Repeated("a", t, burst);
    RepeatedInOrder("a", t, burst, t, []);
    assert second + [] == second;
    var tail := [Request("b", t)] + second;
    assert tail[1..] == second;
    RepeatedInOrder("a", 0.0, burst, 0.0, tail);
  }

  lemma SweepShows(rps: nat, burst: nat)
    requires rps > 0 && burst > 0 && 600 * rps < burst
    ensures !SweepUnobservable(rps, burst)
  {
    assert Flow(TTL, rps as real) < burst as real;
    ProbeInOrder(rps, burst);
    ProbeAnswers(rps, burst, true);
    ProbeAnswers(rps, burst, false);
  }

  /** Sweeping is unobservable exactly when an idle client's bucket refills within its lifetime. */
  lemma SweepUnobservableIff(rps: nat, burst: nat)
    requires rps > 0 && burst > 0
    ensures SweepUnobservable(rps, burst) <==> 600 * rps >= burst
  {
    var lim := Limit(rps, burst);
    if 600 * rps >= burst {
      forall t0: real, requests: seq<Request> | InOrder(t0, requests)
        ensures Answers(lim, Limiter(map[], t0), requests, true) == Answers(lim, Limiter(map[], t0), requests, false)
      {
        RunSimulates(lim, Limiter(map[], t0), Limiter(map[], t0), requests, t0);
      }
    } else {
      SweepShows(rps, burst);
    }
  }

  // ----- when the rate fails -----

  lemma {:induction false} AllowedConcat(client: string, r1: seq<Request>, a1: seq<Answer>, r2: seq<Request>, a2: seq<Answer>)
    requires |r1| == |a1| && |r2| == |a2|
    ensures AllowedTo(client, r1 + r2, a1 + a2) == AllowedTo(client, r1, a1) + AllowedTo(client, r2, a2)
    decreases |r1|
  {
    if r1 == [] {
      assert r1 + r2 == r2 && a1 + a2 == a2;
    } else {
      assert (r1 + r2)[1..] == r1[1..] + r2 && (a1 + a2)[1..] == a1[1..] + a2;
      AllowedConcat(client, r1[1..], a1[1..], r2, a2);
    }
  }

  lemma {:induction false} AllowedBurst(ip: string, now: real, k: nat, answers: seq<Answer>)
    requires ip != "" && |answers| == k && AllAllowed(answers)
    ensures AllowedTo(ip, Repeated(ip, now, k), answers) == k
    decreases k
  {
    if k > 0 {
      var requests := Repeated(ip, now, k);
      assert requests[0] == Request(ip, now) && requests[1..] == Repeated(ip, now, k - 1);
      AllowedBurst(ip, now, k - 1, answers[1..]);
    }
  }

  /** Two bursts that are all allowed, and one request of another client between them. */
  lemma TwoBursts(burst: nat, t: real, a1: seq<Answer>, a2: seq<Answer>, a3: seq<Answer>)
    requires |a1| == burst && |a2| == 1 && |a3| == burst && AllAllowed(a1) && AllAllowed(a3)
    ensures AllowedTo("a", Repeated("a", 0.0, burst) + ([Request("b", t)] + Repeated("a", t, burst)), a1 + (a2 + a3))
         == 2 * burst
  {
    var first, middle, second := Repeated("a", 0.0, burst), [Request("b", t)], Repeated("a", t, burst);
    AllowedBurst("a", 0.0, burst, a1);
    AllowedBurst("a", t, burst, a3);
    AllowedConcat("a", first, a1, middle + second, a2 + a3);
    AllowedConcat("a", middle, a2, second, a3);
    assert AllowedTo("a", middle, a2) == 0 by {
      assert middle[1..] == [];
    }
  }

  /** The swept client of the probing run gets its burst twice. */
  lemma ProbeAllowsTwice(rps: nat, burst: nat)
    requires rps > 0 && burst > 0 && Flow(TTL, rps as real) < burst as real
    ensures
      var answers := Answers(Limit(rps, burst), Limiter(map[], 0.0), ProbeRun(rps, burst), true);
      AllowedTo("a", ProbeRun(rps, burst), answers) == 2 * burst
  {
    var lim, t, start := Limit(rps, burst), ProbeTime(rps, burst), Limiter(map[], 0.0);
    var first, middle, second := Repeated("a", 0.0, burst), [Request("b", t)], Repeated("a", t, burst);
    var drained := ServeAll(lim, start, first, true);
    var l := ServeAll(lim, drained, middle, true);
    AnswersConcat(lim, start, first, middle + second, true);
    AnswersConcat(lim, drained, middle, second, true);
    var a1, a2, a3 :=
      Answers(lim, start, first, true), Answers(lim, drained, middle, true), Answers(lim, l, second, true);
    BurstAllowed(lim, start, "a", 0.0, burst, true);
    ProbeAnswers(rps, burst, true);
    assert (a1 + (a2 + a3))[burst + 1..] == a3;
    TwoBursts(burst, t, a1, a2, a3);
  }

  lemma ProbeExceedsRate(rps: nat, burst: nat)
    requires rps > 0 && burst > 0 && Flow(TTL, rps as real) < burst as real
    ensures IsWindow(0.0, [], 0.0, ProbeRun(rps, burst), ProbeTime(rps, burst))
    ensures !WithinRate(Limit(rps, burst), 0.0, [], 0.0, ProbeRun(rps, burst), ProbeTime(rps, burst), "a")
  {
    ProbeTimeIsBetween(rps, burst);
    ProbeInOrder(rps, burst);
    ProbeBy(rps, burst);
    ProbeAllowsTwice(rps, burst);
  }

  lemma ProbeBy(rps: nat, burst: nat)
    requires rps > 0 && ProbeTime(rps, burst) >= 0.0
    ensures AllBy(ProbeRun(rps, burst), ProbeTime(rps, burst))
  {
    RepeatedAt("a", 0.0, burst);
    RepeatedAt("a", ProbeTime(rps, burst), burst);
  }

  lemma {:induction false} RepeatedAt(ip: string, now: real, k: nat)
    ensures forall i :: 0 <= i < k ==> Repeated(ip, now, k)[i].now == now
  {
    if k > 0 {
      RepeatedAt(ip, now, k - 1);
    }
  }

  ghost predicate AlwaysWithinRate(rps: nat, burst: nat)
    requires rps > 0
  {
    forall t0, before, s, window, t, client ::
      IsWindow(t0, before, s, window, t) ==> WithinRate(Limit(rps, burst), t0, before, s, window, t, client)
  }

  /** The rate is kept in every window of every run exactly when an idle client's bucket refills within its lifetime. */
  lemma ClientRateBoundIff(rps: nat, burst: nat)
    requires rps > 0 && burst > 0
    ensures AlwaysWithinRate(rps, burst) <==> 600 * rps >= burst
  {
    var lim := Limit(rps, burst);
    if 600 * rps >= burst {
      forall t0, before, s, window, t, client | IsWindow(t0, before, s, window, t)
        ensures WithinRate(lim, t0, before, s, window, t, client)
      {
        ClientRateBound(lim, t0, before, s, window, t, client);
      }
    } else {
      assert Flow(TTL, rps as real) < burst as real;
      ProbeExceedsRate(rps, burst);
    }
  }
}
