/** The circuit breaker in front of each backend, and how often a dead backend is still called. */
module Breaker {
  import opened Models

  datatype Circuit = Circuit(threshold: int, cooldown: real, failures: nat, openedAt: Option<real>) {
    /** There is an opening time exactly while the failures have reached the threshold. */
    predicate Valid() {
      threshold >= 1 && cooldown > 0.0 && (openedAt.Some? <==> failures >= threshold)
    }

    /** Closed, or open for at least the cooldown. */
    predicate Allows(now: real) {
      failures < threshold || now - openedAt.GetOr(now) >= cooldown
    }

    function Succeeded(): Circuit {
      this.(failures := 0, openedAt := None)
    }

    function Failed(now: real): Circuit {
      this.(failures := failures + 1, openedAt := if failures + 1 >= threshold then Some(now) else openedAt)
    }
  }

  class CircuitBreaker {
    const threshold: int
    const cooldown: real
    var failures: nat
    var openedAt: Option<real>

    constructor (failureThreshold: int, cooldownSeconds: real)
      ensures View() == Circuit(failureThreshold, cooldownSeconds, 0, None)
    {
      threshold, cooldown := failureThreshold, cooldownSeconds;
      failures, openedAt := 0, None;
    }

    function View(): Circuit
      reads this
    {
      Circuit(threshold, cooldown, failures, openedAt)
    }

    /** Below the threshold always; at it or past it exactly when the cooldown has passed. */
    method Allow(now: real) returns (allowed: bool)
      ensures allowed == View().Allows(now)
      ensures allowed == (failures < threshold || (now - if openedAt.Some? then openedAt.value else now) >= cooldown)
    {
      if failures < threshold {
        return true;
      }
      var since := if openedAt.Some? then openedAt.value else now;
      allowed := now - since >= cooldown;
    }

    method RecordSuccess()
      modifies this
      ensures View() == old(View()).Succeeded()
      ensures failures == 0 && openedAt == None
    {
      failures, openedAt := 0, None;
    }

    method RecordFailure(now: real)
      modifies this
      ensures View() == old(View()).Failed(now)
      ensures failures == old(failures) + 1 && openedAt == if failures >= threshold then Some(now) else old(openedAt)
    {
      failures := failures + 1;
      if failures >= threshold && openedAt == None {
        openedAt := Some(now);
      } else if failures >= threshold {
        openedAt := Some(now);
      }
    }
  }

  lemma {:induction false} CircuitStaysValid(c: Circuit, now: real)
    requires c.Valid()
    ensures c.Succeeded().Valid() && c.Failed(now).Valid()
  {
  }

  /** A call attempted at `asked`; if it reaches the backend its failure is recorded at `failed`. */
  datatype Attempt = Attempt(asked: real, failed: real)

  /** Attempts one after another, all between `from` and `until`. */
  predicate Sequential(attempts: seq<Attempt>, from: real, until: real) {
    if attempts == [] then from <= until
    else from <= attempts[0].asked <= attempts[0].failed && Sequential(attempts[1..], attempts[0].failed, until)
  }

  /** How many of the attempts reach a backend that fails every call. */
  function Reached(c: Circuit, attempts: seq<Attempt>): nat
    decreases |attempts|
  {
    if attempts == [] then 0
    else if c.Allows(attempts[0].asked) then 1 + Reached(c.Failed(attempts[0].failed), attempts[1..])
    else Reached(c, attempts[1..])
  }

  lemma {:induction false} SequentialBounds(attempts: seq<Attempt>, from: real, until: real)
    requires Sequential(attempts, from, until)
    ensures from <= until
    ensures attempts != [] ==>
              from <= attempts[0].asked <= attempts[0].failed <= until && Sequential(attempts[1..], attempts[0].failed, until)
    decreases |attempts|
  {
    if attempts != [] {
      SequentialBounds(attempts[1..], attempts[0].failed, until);
    }
  }

  /** The time of `n` cooldowns. */
  function Times(n: int, x: real): real { n as real * x }

  lemma {:induction false} TimesZero(x: real)
    ensures Times(0, x) == 0.0
  {
  }

  lemma {:induction false} TimesNext(n: int, x: real)
    ensures Times(1 + n, x) == x + Times(n, x)
  {
  }

  /** An open circuit lets one probe through per cooldown. */
  lemma {:induction false} OpenBound(c: Circuit, attempts: seq<Attempt>, from: real, until: real)
    requires c.Valid() && c.failures >= c.threshold && c.openedAt.value <= from
    requires Sequential(attempts, from, until)
    ensures Times(Reached(c, attempts), c.cooldown) <= until - c.openedAt.value
    decreases |attempts|
  {
    hide Times, Sequential;
    SequentialBounds(attempts, from, until);
    if attempts == [] {
      TimesZero(c.cooldown);
    } else {
      var a := attempts[0];
      if c.Allows(a.asked) {
        OpenBound(c.Failed(a.failed), attempts[1..], a.failed, until);
        TimesNext(Reached(c.Failed(a.failed), attempts[1..]), c.cooldown);
      } else {
        OpenBound(c, attempts[1..], a.failed, until);
      }
    }
  }

  /** A closed circuit lets the missing failures through first. */
  lemma {:induction false} ClosedBound(c: Circuit, attempts: seq<Attempt>, from: real, until: real)
    requires c.Valid() && c.failures < c.threshold
    requires Sequential(attempts, from, until)
    ensures Times(Reached(c, attempts) - (c.threshold - c.failures), c.cooldown) <= until - from
    decreases |attempts|
  {
    hide Times, Sequential;
    SequentialBounds(attempts, from, until);
    if attempts != [] {
      var a := attempts[0];
      var c' := c.Failed(a.failed);
      if c'.failures >= c.threshold {
        OpenBound(c', attempts[1..], a.failed, until);
      } else {
        ClosedBound(c', attempts[1..], a.failed, until);
      }
    } else {
      var n := c.threshold - c.failures;
      NotPositive(-n, c.cooldown);
    }
  }

  lemma {:induction false} NotPositive(n: int, x: real)
    requires n <= 0 && x > 0.0
    ensures Times(n, x) <= 0.0
  {
  }

  /** Outage bound: while every call fails, an interval of length D sees at most
      threshold + floor(D / cooldown) calls reach the backend, whatever the circuit was before. */
  lemma {:induction false} OutageBound(c: Circuit, attempts: seq<Attempt>, from: real, until: real)
    requires c.Valid() && Sequential(attempts, from, until)
    requires c.openedAt.Some? ==> c.openedAt.value <= from
    ensures Reached(c, attempts) <= c.threshold + ((until - from) / c.cooldown).Floor
  {
    hide Times, Reached, Sequential;
    SequentialBounds(attempts, from, until);
    var over := OverThreshold(c, attempts, from, until);
    FloorOf(over, c.cooldown, until - from);
  }

  lemma {:induction false} OverThreshold(c: Circuit, attempts: seq<Attempt>, from: real, until: real) returns (over: int)
    requires c.Valid() && Sequential(attempts, from, until)
    requires c.openedAt.Some? ==> c.openedAt.value <= from
    ensures over == Reached(c, attempts) - c.threshold && Times(over, c.cooldown) <= until - from
  {
    hide Reached, Sequential, Times;
    over := Reached(c, attempts) - c.threshold;
    var most;
    if c.failures < c.threshold {
      ClosedBound(c, attempts, from, until);
      most := Reached(c, attempts) - (c.threshold - c.failures);
    } else {
      OpenAtStart(c, attempts, from, until);
      most := Reached(c, attempts) - 1;
    }
    FewerTimes(most, over, c.cooldown);
  }

  /** From an open circuit the first probe may come at once. */
  lemma {:induction false} OpenAtStart(c: Circuit, attempts: seq<Attempt>, from: real, until: real)
    requires c.Valid() && c.failures >= c.threshold && c.openedAt.value <= from
    requires Sequential(attempts, from, until)
    ensures Times(Reached(c, attempts) - 1, c.cooldown) <= until - from
    decreases |attempts|
  {
    hide Times, Sequential;
    SequentialBounds(attempts, from, until);
    if attempts == [] {
      NotPositive(-1, c.cooldown);
    } else if c.Allows(attempts[0].asked) {
      OpenBound(c.Failed(attempts[0].failed), attempts[1..], attempts[0].failed, until);
    } else {
      OpenAtStart(c, attempts[1..], attempts[0].failed, until);
    }
  }

  lemma {:induction false} FewerTimes(n: int, m: int, x: real)
    requires m <= n && x > 0.0
    ensures Times(m, x) <= Times(n, x)
  {
    assert (n - m) as real * x >= 0.0;
  }

  lemma {:induction false} FloorOf(n: int, x: real, d: real)
    requires x > 0.0 && Times(n, x) <= d
    ensures n <= (d / x).Floor
  {
    var q := d / x;
    assert q * x == d;
    PositiveFactor(q - n as real, x);
  }

  lemma {:induction false} PositiveFactor(y: real, x: real)
    requires x > 0.0
    ensures y * x >= 0.0 ==> y >= 0.0
  {
  }
}
