/** Admission control: how much work is let in, and what the rejected are told. Times, rates and
    work are reals; readings of the clock, of memory and of the storage state are parameters. */
module Admission {
  import opened Models

  function Max(a: real, b: real): real { if a < b then b else a }

  function Min(a: real, b: real): real { if b < a then b else a }

  /** An exponentially smoothed rate, and the time of the last observation. */
  datatype Rate = Rate(alpha: real, rate: real, last: Option<real>) {
    function Observed(amount: real, now: real): Rate {
      match last
      case None => this.(last := Some(now))
      case Some(t) => Rate(alpha, Smoothed(alpha, amount / Max(now - t, 0.001), rate), Some(now))
    }
  }

  function Smoothed(alpha: real, instant: real, rate: real): real { alpha * instant + (1.0 - alpha) * rate }

  class EwmaRate {
    const alpha: real
    var rate: real
    var last: Option<real>

    constructor (alpha: real)
      ensures View() == Rate(alpha, 0.0, None)
    {
      this.alpha, rate, last := alpha, 0.0, None;
    }

    function View(): Rate
      reads this
    {
      Rate(alpha, rate, last)
    }

    method Observe(amount: real, now: real)
      modifies this
      ensures View() == old(View()).Observed(amount, now)
    {
      if last.Some? {
        var dt := Max(now - last.value, 0.001);
        var instant := amount / dt;
        rate := alpha * instant + (1.0 - alpha) * rate;
      }
      last := Some(now);
    }
  }

  /** The first observation only starts the clock; each later one blends in the rate since the one
      before it, taken over at least a millisecond. */
  lemma {:induction false} ObservedIs(r: Rate, amount: real, now: real, dt: real)
    requires r.last.Some? ==> dt == if now - r.last.value < 0.001 then 0.001 else now - r.last.value
    ensures r.Observed(amount, now).last == Some(now) && r.Observed(amount, now).alpha == r.alpha
    ensures r.Observed(amount, now).rate
         == if r.last.None? then r.rate else r.alpha * (amount / dt) + (1.0 - r.alpha) * r.rate
  {
  }

  lemma {:induction false} Products(a: real, x: real, y: real)
    requires a >= 0.0 && x <= y
    ensures a * x <= a * y
  {
  }

  /** A smoothed rate stays between the old rate and the new observation. */
  lemma {:induction false} SmoothedBetween(alpha: real, instant: real, rate: real, lo: real, hi: real)
    requires 0.0 <= alpha <= 1.0 && lo <= instant <= hi && lo <= rate <= hi
    ensures lo <= Smoothed(alpha, instant, rate) <= hi
  {
    BlendGrows(alpha, 1.0 - alpha, lo, lo, instant, rate);
    BlendGrows(alpha, 1.0 - alpha, instant, rate, hi, hi);
    Shares(alpha, 1.0 - alpha, lo);
    Shares(alpha, 1.0 - alpha, hi);
  }

  lemma {:induction false} BlendGrows(a: real, b: real, x: real, y: real, x': real, y': real)
    requires a >= 0.0 && b >= 0.0 && x <= x' && y <= y'
    ensures a * x + b * y <= a * x' + b * y'
  {
    Products(a, x, x');
    Products(b, y, y');
  }

  lemma {:induction false} Shares(a: real, b: real, x: real)
    requires a + b == 1.0
    ensures a * x + b * x == x
  {
    assert (a + b) * x == a * x + b * x;
  }

  datatype LoadState = Normal | CacheDegraded | StorageDegraded | Overloaded | Critical

  datatype Settings = Settings(
    maxInFlight: nat, maxBacklog: real, baseCost: real, perCharCost: real,
    minRetryAfter: real, maxRetryAfter: real, safetyFactor: real, rssLimitMb: real)

  predicate Sound(s: Settings) {
    && s.maxBacklog >= 0.0 && s.baseCost >= 0.0 && s.perCharCost >= 0.0
    && s.minRetryAfter >= 0.0 && s.maxRetryAfter >= 0.0 && s.safetyFactor >= 0.0
  }

  /** What the process and its storage look like at the time of a call. */
  datatype Readings = Readings(now: real, rssMb: real, authorityDegraded: bool, cacheDegraded: bool)

  datatype Rejection = Rejection(retryAfter: real, state: LoadState, reason: string)

  // Retry-After, before it is rounded.

  function Pressure(arrivalRate: real, serviceRate: real): real {
    if serviceRate > 0.0 then Max(1.0, arrivalRate / serviceRate) else 1.0
  }

  function BaseWait(s: Settings, outstanding: real, incoming: real, serviceRate: real, latency: real): real {
    if serviceRate <= 0.0 then Max(latency, s.minRetryAfter) else (outstanding + incoming) / serviceRate
  }

  function Scaled(wait: real, pressure: real, safety: real, modifier: real): real {
    wait * pressure * safety * modifier
  }

  lemma {:induction false} ScaledGrows(a: real, b: real, pressure: real, safety: real, modifier: real)
    requires a <= b && pressure >= 0.0 && safety >= 0.0 && modifier >= 0.0
    ensures Scaled(a, pressure, safety, modifier) <= Scaled(b, pressure, safety, modifier)
  {
    Products(pressure, a, b);
    Products(safety, a * pressure, b * pressure);
    Products(modifier, a * pressure * safety, b * pressure * safety);
  }

  function EffectiveMin(s: Settings, pressure: real): real {
    Min(s.minRetryAfter * Max(1.0, pressure / 2.0), s.maxRetryAfter / 3.0)
  }

  function RetryAfter(s: Settings, outstanding: real, incoming: real, arrivalRate: real, serviceRate: real,
                      latency: real, authorityDegraded: bool): real {
    var pressure := Pressure(arrivalRate, serviceRate);
    var modifier := if authorityDegraded then 2.0 else 1.0;
    var retry := Scaled(BaseWait(s, outstanding, incoming, serviceRate, latency), pressure, s.safetyFactor, modifier);
    Min(Max(retry, EffectiveMin(s, pressure)), s.maxRetryAfter)
  }

  /** Never below the configured floor, never above the configured ceiling. */
  lemma {:induction false} RetryAfterBounded(s: Settings, outstanding: real, incoming: real, arrivalRate: real,
                                             serviceRate: real, latency: real, authorityDegraded: bool)
    requires Sound(s)
    ensures Min(s.minRetryAfter, s.maxRetryAfter / 3.0)
         <= RetryAfter(s, outstanding, incoming, arrivalRate, serviceRate, latency, authorityDegraded)
         <= s.maxRetryAfter
  {
    hide Scaled, BaseWait, Pressure;
    FloorBounded(s, Pressure(arrivalRate, serviceRate));
  }

  lemma {:induction false} FloorBounded(s: Settings, pressure: real)
    requires Sound(s)
    ensures Min(s.minRetryAfter, s.maxRetryAfter / 3.0) <= EffectiveMin(s, pressure) <= s.maxRetryAfter / 3.0
  {
    Products(s.minRetryAfter, 1.0, Max(1.0, pressure / 2.0));
  }

  /** The wait, exactly. `t` is the time the outstanding and the incoming work takes at the service
      rate, or the latency (at least the minimum) while nothing was completed; `p` how many times
      faster work arrives than it is done, at least 1. Between floor and ceiling the wait is `t`
      scaled by `p`, by the safety factor and by 2 while the authority is degraded; the floor is the
      minimum, scaled by half the pressure, but no more than a third of the maximum. */
  lemma {:induction false} RetryAfterIs(s: Settings, outstanding: real, incoming: real, arrivalRate: real, serviceRate: real,
                                        latency: real, authorityDegraded: bool, t: real, p: real)
    requires Sound(s)
    requires serviceRate > 0.0 ==>
               t * serviceRate == outstanding + incoming && (if arrivalRate > serviceRate then p * serviceRate == arrivalRate else p == 1.0)
    requires serviceRate <= 0.0 ==> t == (if latency < s.minRetryAfter then s.minRetryAfter else latency) && p == 1.0
    ensures var r := RetryAfter(s, outstanding, incoming, arrivalRate, serviceRate, latency, authorityDegraded);
            var factor := if authorityDegraded then 2.0 else 1.0;
            var raw := t * p * s.safetyFactor * factor;
            var scaled := s.minRetryAfter * (if p > 2.0 then p / 2.0 else 1.0);
            var floor := if scaled < s.maxRetryAfter / 3.0 then scaled else s.maxRetryAfter / 3.0;
            r == if raw > s.maxRetryAfter then s.maxRetryAfter else if raw < floor then floor else raw
  {
    hide Pressure, BaseWait, Scaled, EffectiveMin, Max, Min;
    WaitIs(s, outstanding, incoming, serviceRate, latency, t);
    PressureIs(arrivalRate, serviceRate, p);
    var modifier := if authorityDegraded then 2.0 else 1.0;
    FloorIs(s, p);
    ScaledIs(t, p, s.safetyFactor, modifier);
    Clamped(Scaled(t, p, s.safetyFactor, modifier), EffectiveMin(s, p), s.maxRetryAfter);
  }

  lemma {:induction false} WaitIs(s: Settings, outstanding: real, incoming: real, serviceRate: real, latency: real, t: real)
    requires serviceRate > 0.0 ==> t * serviceRate == outstanding + incoming
    requires serviceRate <= 0.0 ==> t == if latency < s.minRetryAfter then s.minRetryAfter else latency
    ensures BaseWait(s, outstanding, incoming, serviceRate, latency) == t
  {
    if serviceRate > 0.0 {
      Quotient(outstanding + incoming, serviceRate, t);
    }
  }

  lemma {:induction false} PressureIs(arrivalRate: real, serviceRate: real, p: real)
    requires serviceRate > 0.0 ==> if arrivalRate > serviceRate then p * serviceRate == arrivalRate else p == 1.0
    requires serviceRate <= 0.0 ==> p == 1.0
    ensures Pressure(arrivalRate, serviceRate) == p
  {
    if serviceRate > 0.0 {
      if arrivalRate > serviceRate {
        Quotient(arrivalRate, serviceRate, p);
        AtLeastOne(arrivalRate, serviceRate, p);
      } else {
        AtMostOne(arrivalRate, serviceRate);
      }
    }
  }

  lemma {:induction false} FloorIs(s: Settings, p: real)
    requires Sound(s)
    ensures var scaled := s.minRetryAfter * (if p > 2.0 then p / 2.0 else 1.0);
            EffectiveMin(s, p) == if scaled < s.maxRetryAfter / 3.0 then scaled else s.maxRetryAfter / 3.0
    ensures EffectiveMin(s, p) <= s.maxRetryAfter
  {
    assert Max(1.0, p / 2.0) == if p > 2.0 then p / 2.0 else 1.0;
  }

  lemma {:induction false} ScaledIs(t: real, p: real, safety: real, modifier: real)
    ensures Scaled(t, p, safety, modifier) == t * p * safety * modifier
  {
  }

  lemma {:induction false} Clamped(raw: real, floor: real, ceiling: real)
    requires floor <= ceiling
    ensures Min(Max(raw, floor), ceiling) == if raw > ceiling then ceiling else if raw < floor then floor else raw
  {
  }

  lemma {:induction false} Quotient(a: real, b: real, q: real)
    requires b > 0.0 && q * b == a
    ensures a / b == q
  {
    var d := a / b - q;
    assert d * b == (a / b) * b - q * b;
    assert (a / b) * b == a;
  }

  lemma {:induction false} AtLeastOne(a: real, b: real, q: real)
    requires a > b > 0.0 && q * b == a
    ensures q > 1.0
  {
    if q <= 1.0 {
      Products(b, q, 1.0);
    }
  }

  lemma {:induction false} AtMostOne(a: real, b: real)
    requires b > 0.0 && a <= b
    ensures a / b <= 1.0
  {
    var q := a / b;
    assert q * b == a;
    if q > 1.0 {
      AtMostOneStep(q, b);
    }
  }

  lemma {:induction false} AtMostOneStep(q: real, b: real)
    requires b > 0.0 && q > 1.0
    ensures q * b > b
  {
    assert (q - 1.0) * b > 0.0;
  }

  /** At fixed rates, more outstanding work never shortens the wait. */
  lemma {:induction false} RetryAfterGrows(s: Settings, less: real, more: real, incoming: real, arrivalRate: real,
                                           serviceRate: real, latency: real, authorityDegraded: bool)
    requires Sound(s) && less <= more
    ensures RetryAfter(s, less, incoming, arrivalRate, serviceRate, latency, authorityDegraded)
         <= RetryAfter(s, more, incoming, arrivalRate, serviceRate, latency, authorityDegraded)
  {
    var pressure := Pressure(arrivalRate, serviceRate);
    var modifier := if authorityDegraded then 2.0 else 1.0;
    WaitGrows(s, less, more, incoming, serviceRate, latency);
    ScaledGrows(BaseWait(s, less, incoming, serviceRate, latency), BaseWait(s, more, incoming, serviceRate, latency),
                pressure, s.safetyFactor, modifier);
  }

  lemma {:induction false} WaitGrows(s: Settings, less: real, more: real, incoming: real, serviceRate: real, latency: real)
    requires less <= more
    ensures BaseWait(s, less, incoming, serviceRate, latency) <= BaseWait(s, more, incoming, serviceRate, latency)
  {
    if serviceRate > 0.0 {
      var x, y := (less + incoming) / serviceRate, (more + incoming) / serviceRate;
      assert x * serviceRate == less + incoming && y * serviceRate == more + incoming;
      assert (y - x) * serviceRate >= 0.0;
    }
  }

  // Conservation.

  class AdmissionTicket {
    const workUnits: real
    const started: real

    constructor (workUnits: real, started: real)
      ensures this.workUnits == workUnits && this.started == started
    {
      this.workUnits, this.started := workUnits, started;
    }
  }

  function Work(open: seq<AdmissionTicket>): real {
    if open == [] then 0.0 else Work(open[..|open| - 1]) + open[|open| - 1].workUnits
  }

  lemma {:induction false} WorkOneMore(open: seq<AdmissionTicket>, t: AdmissionTicket)
    ensures Work(open + [t]) == Work(open) + t.workUnits
  {
    assert (open + [t])[..|open|] == open;
  }

  lemma {:induction false} WorkWithout(open: seq<AdmissionTicket>, k: nat)
    requires k < |open|
    ensures Work(open[..k] + open[k + 1..]) == Work(open) - open[k].workUnits
    decreases |open|
  {
    var n := |open| - 1;
    if k == n {
      assert open[..k] + open[k + 1..] == open[..n];
    } else {
      WorkWithout(open[..n], k);
      var rest := open[..k] + open[k + 1..];
      assert rest[..n - 1] == open[..n][..k] + open[..n][k + 1..];
    }
  }

  lemma {:induction false} WorkNotNegative(open: seq<AdmissionTicket>)
    requires forall k :: 0 <= k < |open| ==> open[k].workUnits >= 0.0
    ensures Work(open) >= 0.0
  {
    if open != [] {
      WorkNotNegative(open[..|open| - 1]);
    }
  }

  /** One ticket taken out of the list. */
  lemma {:induction false} Without(open: seq<AdmissionTicket>, k: nat)
    requires Separate(open) && k < |open|
    ensures var rest := open[..k] + open[k + 1..];
            && Separate(rest) && open[k] !in rest
            && (forall t :: t in rest ==> t in open)
            && (forall t :: t in open && t != open[k] ==> t in rest)
  {
    var rest := open[..k] + open[k + 1..];
    assert forall i :: 0 <= i < |rest| ==> rest[i] == open[if i < k then i else i + 1];
    forall t | t in open && t != open[k] ensures t in rest {
      var i :| 0 <= i < |open| && open[i] == t;
      assert rest[if i < k then i else i - 1] == t;
    }
  }

  class AdmissionController {
    const settings: Settings
    const arrivals: EwmaRate
    const completions: EwmaRate
    const workCompleted: EwmaRate
    var inFlight: int
    var outstandingWork: real
    var latencyEwma: real
    ghost var open: seq<AdmissionTicket>     // handed out and not released

    /** The counters are those of the open tickets, and both limits hold. */
    ghost predicate Valid()
      reads this
    {
      && Sound(settings)
      && arrivals != completions && completions != workCompleted && arrivals != workCompleted
      && Separate(open) && (forall k :: 0 <= k < |open| ==> open[k].workUnits >= 0.0)
      && inFlight == |open| <= settings.maxInFlight
      && outstandingWork == Work(open) <= settings.maxBacklog
    }

    constructor (settings: Settings, alpha: real)
      requires Sound(settings)
      ensures Valid() && open == [] && this.settings == settings
      ensures fresh(arrivals) && fresh(completions) && fresh(workCompleted)
    {
      this.settings := settings;
      arrivals := new EwmaRate(alpha);
      completions := new EwmaRate(alpha);
      workCompleted := new EwmaRate(alpha);
      inFlight, outstandingWork, latencyEwma, open := 0, 0.0, 0.0, [];
    }

    function State(r: Readings): LoadState
      reads this
    {
      if r.rssMb > settings.rssLimitMb then Critical
      else if r.authorityDegraded then StorageDegraded
      else if inFlight >= settings.maxInFlight || outstandingWork > 0.8 * settings.maxBacklog then Overloaded
      else if r.cacheDegraded then CacheDegraded
      else Normal
    }

    function Wait(incoming: real, r: Readings): real
      reads this, arrivals, workCompleted
    {
      RetryAfter(settings, outstandingWork, incoming, arrivals.rate, workCompleted.rate, latencyEwma, r.authorityDegraded)
    }

    function EstimateWork(payloadSize: nat): real {
      settings.baseCost + settings.perCharCost * payloadSize as real
    }

    /** Whether a request is let in, decided before anything is counted. */
    predicate Fits(work: real, r: Readings)
      reads this
    {
      r.rssMb <= settings.rssLimitMb && inFlight < settings.maxInFlight && outstandingWork + work <= settings.maxBacklog
    }

    function Reason(work: real, r: Readings): (LoadState, string)
      reads this
    {
      if r.rssMb > settings.rssLimitMb then (Critical, "critical_pressure")
      else if inFlight >= settings.maxInFlight then (Overloaded, "in_flight_limit")
      else (Overloaded, "backlog_limit")
    }

    /** Where the state warns of nothing but the cache, there is room: any request of at most a
        fifth of the backlog is let in. */
    lemma {:induction false} QuietMeansRoom(work: real, r: Readings)
      requires State(r).Normal? || State(r).CacheDegraded?
      requires work <= 0.2 * settings.maxBacklog
      ensures r.rssMb <= settings.rssLimitMb && inFlight < settings.maxInFlight && outstandingWork + work <= settings.maxBacklog
      ensures Fits(work, r) && !r.authorityDegraded
      ensures State(r).CacheDegraded? <==> r.cacheDegraded
    {
    }

    /** One ticket more with its work, exactly when memory, concurrency and backlog allow it;
        otherwise nothing changes but the arrival rate, and the rejection says when to retry. */
    method TryAcquire(payloadSize: nat, r: Readings) returns (ticket: AdmissionTicket?, rejection: Option<Rejection>)
      requires Valid()
      modifies this`inFlight, this`outstandingWork, this`open, arrivals
      ensures Valid()
      ensures arrivals.View() == old(arrivals.View()).Observed(EstimateWork(payloadSize), r.now)
      ensures ticket != null <==> old(Fits(EstimateWork(payloadSize), r))
      ensures ticket != null <==>
                && r.rssMb <= settings.rssLimitMb && old(inFlight) < settings.maxInFlight
                && old(outstandingWork) + (settings.baseCost + settings.perCharCost * payloadSize as real) <= settings.maxBacklog
      ensures ticket != null ==> ticket.workUnits == settings.baseCost + settings.perCharCost * payloadSize as real
      ensures ticket == null ==>
                rejection.Some?
                && (rejection.value.state, rejection.value.reason)
                   == if r.rssMb > settings.rssLimitMb then (Critical, "critical_pressure")
                      else if old(inFlight) >= settings.maxInFlight then (Overloaded, "in_flight_limit")
                      else (Overloaded, "backlog_limit")
      ensures ticket != null ==>
                && fresh(ticket) && open == old(open) + [ticket] && rejection == None
                && ticket.workUnits == EstimateWork(payloadSize) && ticket.started == r.now
      ensures ticket == null ==>
                && open == old(open)
                && var (state, reason) := old(Reason(EstimateWork(payloadSize), r));
                   rejection == Some(Rejection(Wait(EstimateWork(payloadSize), r), state, reason))
    {
      hide RetryAfter, Work;
      var work := EstimateWork(payloadSize);
      Products(payloadSize as real, 0.0, settings.perCharCost);
      arrivals.Observe(work, r.now);
      var state := State(r);
      ticket := null;
      if state == Critical {
        rejection := Some(Rejection(Wait(work, r), state, "critical_pressure"));
        return;
      }
      if inFlight >= settings.maxInFlight {
        rejection := Some(Rejection(Wait(work, r), Overloaded, "in_flight_limit"));
        return;
      }
      if outstandingWork + work > settings.maxBacklog {
        rejection := Some(Rejection(Wait(work, r), Overloaded, "backlog_limit"));
        return;
      }
      ticket := new AdmissionTicket(work, r.now);
      inFlight := inFlight + 1;
      outstandingWork := outstandingWork + work;
      WorkOneMore(open, ticket);
      open := open + [ticket];
      rejection := None;
    }

    /** Releasing an open ticket takes back exactly its share: the clamps at zero never bind. */
    method Release(ticket: AdmissionTicket, now: real)
      requires Valid() && ticket in open
      modifies this, completions, workCompleted
      ensures Valid() && ticket !in open
      ensures forall t :: t in old(open) && t != ticket ==> t in open
      ensures inFlight == old(inFlight) - 1 && outstandingWork == old(outstandingWork) - ticket.workUnits
      ensures completions.View() == old(completions.View()).Observed(1.0, now)
      ensures workCompleted.View() == old(workCompleted.View()).Observed(ticket.workUnits, now)
      ensures latencyEwma == Smoothed(0.2, now - ticket.started, old(latencyEwma))
    {
      var latency := now - ticket.started;
      inFlight := if inFlight - 1 < 0 then 0 else inFlight - 1;
      outstandingWork := Max(0.0, outstandingWork - ticket.workUnits);
      completions.Observe(1.0, now);
      workCompleted.Observe(ticket.workUnits, now);
      latencyEwma := 0.2 * latency + 0.8 * latencyEwma;
      ghost var k :| 0 <= k < |open| && open[k] == ticket;
      WorkWithout(open, k);
      Without(open, k);
      open := open[..k] + open[k + 1..];
      assert forall i :: 0 <= i < |open| ==> open[i] in open;
      WorkNotNegative(open);
    }
  }
}
