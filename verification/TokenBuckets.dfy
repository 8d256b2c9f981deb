/** The token bucket of blockchain/api/rate_limiter.go; time is a parameter, in seconds. */
module TokenBuckets {
  import opened Machine

  const MAX_TOKENS_PER_REQUEST := 1000

  datatype Limits = Limits(max: real, rate: real) {
    ghost predicate Valid() {
      max >= 0.0 && rate > 0.0
    }
  }

  datatype Bucket = Bucket(tokens: real, last: real)

  ghost predicate Bounded(lim: Limits, b: Bucket) {
    0.0 <= b.tokens <= lim.max
  }

  /** The tokens that flow in during a stretch of time. */
  function Flow(seconds: real, rate: real): real {
    seconds * rate
  }

  function Refill(lim: Limits, b: Bucket, now: real): Bucket {
    if now - b.last > 0.0 then
      var tokens := b.tokens + Flow(now - b.last, lim.rate);
      Bucket(if tokens > lim.max then lim.max else tokens, now)
    else b
  }

  datatype Call = Allow | AllowN(n: int) | Tokens | TimeUntilTokens(n: int)

  /** The amount a call asks for; None for a call that is turned away before the bucket is looked at. */
  function Asked(call: Call): Option<int> {
    match call
    case Allow => Some(1)
    case AllowN(n) => if n <= 0 || n > MAX_TOKENS_PER_REQUEST then None else Some(n)
    case Tokens => Some(0)
    case TimeUntilTokens(_) => Some(0)
  }

  /** The tokens a call takes at time `now`. */
  function Granted(lim: Limits, b: Bucket, call: Call, now: real): (g: int)
    ensures g >= 0
  {
    match Asked(call)
    case None => 0
    case Some(n) => if Refill(lim, b, now).tokens >= n as real then n else 0
  }

  function After(lim: Limits, b: Bucket, call: Call, now: real): Bucket {
    if Asked(call).None? then b
    else
      var r := Refill(lim, b, now);
      r.(tokens := r.tokens - Granted(lim, b, call, now) as real)
  }

  /** When the bucket would hold n tokens, in seconds from now. */
  function ExactWait(lim: Limits, b: Bucket, n: int, now: real): real
    requires lim.rate > 0.0
  {
    var r := Refill(lim, b, now);
    if r.tokens >= n as real then 0.0 else (n as real - r.tokens) / lim.rate
  }

  const NANOSECONDS := 1000000000.0

  /** `time.Duration` of a non-negative number of seconds: cut down to whole nanoseconds. */
  function Truncated(seconds: real): int {
    (seconds * NANOSECONDS).Floor
  }

  function Seconds(nanoseconds: int): real {
    nanoseconds as real / NANOSECONDS
  }

  /** The wait `TimeUntilTokens` reports, in nanoseconds. */
  function Wait(lim: Limits, b: Bucket, n: int, now: real): int
    requires lim.rate > 0.0
  {
    Truncated(ExactWait(lim, b, n, now))
  }

  class TokenBucket {
    var tokens: real
    var lastRefill: real
    const limits: Limits

    ghost function State(): Bucket
      reads this
    {
      Bucket(tokens, lastRefill)
    }

    ghost predicate Valid()
      reads this
    {
      limits.Valid() && Bounded(limits, State())
    }

    constructor (refillRate: real, burst: nat, now: real)
      requires refillRate > 0.0
      ensures Valid() && limits == Limits(burst as real, refillRate) && State() == Bucket(burst as real, now)
    {
      tokens := burst as real;
      lastRefill := now;
      limits := Limits(burst as real, refillRate);
    }

    method RefillLocked(now: real)
      modifies this
      ensures State() == Refill(limits, old(State()), now)
    {
      var elapsed := now - lastRefill;
      if elapsed > 0.0 {
        tokens := tokens + Flow(elapsed, limits.rate);
        if tokens > limits.max {
          tokens := limits.max;
        }
        lastRefill := now;
      }
    }

    method Allow(now: real) returns (ok: bool)
      requires Valid()
      modifies this
      ensures Valid() && State() == After(limits, old(State()), Call.Allow, now)
      ensures ok <==> Granted(limits, old(State()), Call.Allow, now) == 1
    {
      AfterBounded(limits, State(), Call.Allow, now);
      RefillLocked(now);
      if tokens >= 1.0 {
        tokens := tokens - 1.0;
        return true;
      }
      return false;
    }

    method AllowN(n: int, now: real) returns (ok: bool)
      requires Valid()
      modifies this
      ensures Valid() && State() == After(limits, old(State()), Call.AllowN(n), now)
      ensures ok <==> Granted(limits, old(State()), Call.AllowN(n), now) == n && n > 0
    {
      AfterBounded(limits, State(), Call.AllowN(n), now);
      if n <= 0 || n > MAX_TOKENS_PER_REQUEST {
        return false;
      }
      RefillLocked(now);
      if tokens >= n as real {
        tokens := tokens - n as real;
        return true;
      }
      return false;
    }

    method CurrentTokens(now: real) returns (level: real)
      requires Valid()
      modifies this
      ensures Valid() && State() == After(limits, old(State()), Call.Tokens, now) && level == tokens
    {
      AfterBounded(limits, State(), Call.Tokens, now);
      RefillLocked(now);
      return tokens;
    }

    method TimeUntilTokens(n: int, now: real) returns (wait: int)
      requires Valid()
      modifies this
      ensures Valid() && State() == After(limits, old(State()), Call.TimeUntilTokens(n), now)
      ensures wait == Wait(limits, old(State()), n, now)
    {
      AfterBounded(limits, State(), Call.TimeUntilTokens(n), now);
      RefillLocked(now);
      if tokens >= n as real {
        return 0;
      }
      var needed := n as real - tokens;
      var seconds := needed / limits.rate;
      if seconds < 0.0 {
        seconds := 0.0;
      }
      return Truncated(seconds);
    }
  }

  // ----- every run -----

  lemma FlowMonotone(x: real, y: real, rate: real)
    requires x <= y && rate >= 0.0
    ensures Flow(x, rate) <= Flow(y, rate)
  {
  }

  lemma FlowNonNegative(x: real, rate: real)
    requires x >= 0.0 && rate >= 0.0
    ensures Flow(x, rate) >= 0.0
  {
  }

  lemma FlowPositive(x: real, rate: real)
    requires x > 0.0 && rate > 0.0
    ensures Flow(x, rate) > 0.0
  {
  }

  lemma FlowSplits(s: real, u: real, t: real, rate: real)
    ensures Flow(t - s, rate) == Flow(u - s, rate) + Flow(t - u, rate)
  {
  }

  lemma RefillBounded(lim: Limits, b: Bucket, now: real)
    requires lim.Valid() && Bounded(lim, b)
    ensures Bounded(lim, Refill(lim, b, now))
    ensures b.tokens <= Refill(lim, b, now).tokens
  {
    if now - b.last > 0.0 {
      FlowNonNegative(now - b.last, lim.rate);
    }
  }

  lemma AfterBounded(lim: Limits, b: Bucket, call: Call, now: real)
    requires lim.Valid() && Bounded(lim, b)
    ensures Bounded(lim, After(lim, b, call, now))
  {
    RefillBounded(lim, b, now);
  }

  datatype Event = Event(now: real, call: Call)

  ghost predicate Ordered(from: real, events: seq<Event>, to: real)
    decreases |events|
  {
    if events == [] then from <= to
    else from <= events[0].now && Ordered(events[0].now, events[1..], to)
  }

  function Run(lim: Limits, b: Bucket, events: seq<Event>): Bucket
    decreases |events|
  {
    if events == [] then b else Run(lim, After(lim, b, events[0].call, events[0].now), events[1..])
  }

  function GrantedIn(lim: Limits, b: Bucket, events: seq<Event>): int
    decreases |events|
  {
    if events == [] then 0
    else
      var e := events[0];
      Granted(lim, b, e.call, e.now) + GrantedIn(lim, After(lim, b, e.call, e.now), events[1..])
  }

  /** The level a bucket has reached by a later time is at most the earlier level plus what flowed in. */
  lemma LevelGrows(lim: Limits, b: Bucket, s: real, u: real)
    requires lim.Valid() && Bounded(lim, b) && s <= u
    ensures Refill(lim, b, u).tokens <= Refill(lim, b, s).tokens + Flow(u - s, lim.rate)
  {
    var r := lim.rate;
    FlowNonNegative(u - s, r);
    if s - b.last > 0.0 {
      FlowSplits(b.last, s, u, r);
    } else if u - b.last > 0.0 {
      FlowMonotone(u - b.last, u - s, r);
    }
  }

  lemma {:induction false} GrantedBelowLevel(lim: Limits, b: Bucket, events: seq<Event>, s: real, t: real)
    requires lim.Valid() && Bounded(lim, b) && Ordered(s, events, t)
    ensures GrantedIn(lim, b, events) as real <= Refill(lim, b, s).tokens + Flow(t - s, lim.rate)
    decreases |events|
  {
    var r := lim.rate;
    if events == [] {
      RefillBounded(lim, b, s);
      FlowNonNegative(t - s, r);
    } else {
      var u := events[0].now;
      var b' := After(lim, b, events[0].call, u);
      LevelGrows(lim, b, s, u);
      AfterBounded(lim, b, events[0].call, u);
      GrantedBelowLevel(lim, b', events[1..], u, t);
      FlowSplits(s, u, t, r);
      assert Refill(lim, b', u).tokens == Refill(lim, b, u).tokens - Granted(lim, b, events[0].call, u) as real;
    }
  }

  lemma {:induction false} RunBounded(lim: Limits, b: Bucket, events: seq<Event>)
    requires lim.Valid() && Bounded(lim, b)
    ensures Bounded(lim, Run(lim, b, events))
    decreases |events|
  {
    if events != [] {
      AfterBounded(lim, b, events[0].call, events[0].now);
      RunBounded(lim, After(lim, b, events[0].call, events[0].now), events[1..]);
    }
  }

  /** In every run, and in every window of it from s to t, at most max + rate * (t - s) tokens are granted. */
  lemma RateBound(lim: Limits, b: Bucket, before: seq<Event>, window: seq<Event>, s: real, t: real)
    requires lim.Valid() && Bounded(lim, b) && Ordered(s, window, t)
    ensures Bounded(lim, Run(lim, b, before))
    ensures GrantedIn(lim, Run(lim, b, before), window) as real <= lim.max + Flow(t - s, lim.rate)
  {
    RunBounded(lim, b, before);
    var mid := Run(lim, b, before);
    RefillBounded(lim, mid, s);
    GrantedBelowLevel(lim, mid, window, s, t);
  }

  // ----- waiting -----

  lemma TruncatedBelow(seconds: real)
    ensures Seconds(Truncated(seconds)) <= seconds < Seconds(Truncated(seconds) + 1)
    ensures seconds >= 0.0 ==> Truncated(seconds) >= 0
    ensures Seconds(Truncated(seconds)) == seconds <==> (seconds * NANOSECONDS).Floor as real == seconds * NANOSECONDS
  {
  }

  /** A bucket that lacks tokens has n of them from the exact wait on, if it can hold them at all, and not before. */
  lemma LevelAt(lim: Limits, b: Bucket, n: real, exact: real, w: real)
    requires lim.Valid() && Bounded(lim, b) && b.tokens < n && w >= 0.0 && Flow(exact, lim.rate) == n - b.tokens
    ensures Refill(lim, b, b.last + w).tokens >= n <==> n <= lim.max && w >= exact
  {
    FlowNonNegative(w, lim.rate);
    if w >= exact {
      FlowMonotone(exact, w, lim.rate);
    } else {
      FlowSplits(0.0, w, exact, lim.rate);
      FlowPositive(exact - w, lim.rate);
    }
  }

  /** Within the limit on requests and the capacity. */
  predicate Servable(lim: Limits, n: int) {
    n <= 1000 && n as real <= lim.max
  }

  /** From when on AllowN(n) is granted. */
  lemma GrantedFrom(lim: Limits, b: Bucket, n: int, now: real, w: real)
    requires lim.Valid() && Bounded(lim, b) && n >= 1 && b.last <= now && w >= 0.0
    ensures
      var b' := After(lim, b, TimeUntilTokens(n), now);
      Granted(lim, b', AllowN(n), now + w) == n <==> Servable(lim, n) && w >= ExactWait(lim, b, n, now)
  {
    var b' := After(lim, b, TimeUntilTokens(n), now);
    RefillBounded(lim, b, now);
    RefillBounded(lim, b', now + w);
    if b'.tokens < n as real {
      assert Flow(ExactWait(lim, b, n, now), lim.rate) == n as real - b'.tokens;
      assert b'.last == now;
      LevelAt(lim, b', n as real, ExactWait(lim, b, n, now), w);
    }
  }

  /** The exact wait is a whole number of nanoseconds. */
  predicate WholeWait(lim: Limits, b: Bucket, n: int, now: real)
    requires lim.rate > 0.0
  {
    var w := ExactWait(lim, b, n, now) * NANOSECONDS;
    w.Floor as real == w
  }

  /**
   For requests the bucket can serve at all, 1 <= n <= 1000 and n no more than the capacity: AllowN(n) is granted after
   the reported wait exactly when nothing was cut off it, always one nanosecond later, and never sooner.
   */
  lemma WaitIsExact(lim: Limits, b: Bucket, n: int, now: real)
    requires lim.Valid() && Bounded(lim, b) && n >= 1 && b.last <= now
    ensures Wait(lim, b, n, now) >= 0
    ensures
      var wait, b' := Wait(lim, b, n, now), After(lim, b, TimeUntilTokens(n), now);
      && (Granted(lim, b', AllowN(n), now + Seconds(wait)) == n <==> Servable(lim, n) && WholeWait(lim, b, n, now))
      && (Granted(lim, b', AllowN(n), now + Seconds(wait + 1)) == n <==> Servable(lim, n))
      && forall u: real :: now <= u < now + Seconds(wait) ==> Granted(lim, b', AllowN(n), u) == 0
  {
    var exact, wait := ExactWait(lim, b, n, now), Wait(lim, b, n, now);
    RefillBounded(lim, b, now);
    WaitNonNegative(lim, b, n, now);
    TruncatedBelow(exact);
    SecondsOrdered(wait);
    GrantedFrom(lim, b, n, now, Seconds(wait));
    GrantedFrom(lim, b, n, now, Seconds(wait + 1));
    var b' := After(lim, b, TimeUntilTokens(n), now);
    forall u: real | now <= u < now + Seconds(wait) ensures Granted(lim, b', AllowN(n), u) == 0 {
      GrantedFrom(lim, b, n, now, u - now);
      assert now + (u - now) == u;
    }
  }

  lemma SecondsOrdered(wait: int)
    requires wait >= 0
    ensures 0.0 <= Seconds(wait) < Seconds(wait + 1)
  {
  }

  lemma WaitNonNegative(lim: Limits, b: Bucket, n: int, now: real)
    requires lim.Valid()
    ensures ExactWait(lim, b, n, now) >= 0.0
  {
  }

  /** Three tokens a second and none left: after the reported 333333333 nanoseconds the request is still refused. */
  lemma ThirdIsCut()
    ensures
      var lim, b := Limits(1.0, 3.0), Bucket(0.0, 0.0);
      && Wait(lim, b, 1, 0.0) == 333333333
      && Granted(lim, b, AllowN(1), Seconds(333333333)) == 0
      && Granted(lim, b, AllowN(1), Seconds(333333334)) == 1
  {
  }
}
