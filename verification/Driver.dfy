/** One request driven through the protocol by one thread: the breakers, the fate of each backend
    call and the pipeline's results fix every choice, so that the outcome is determined. */
module Driver {
  import opened Breaker
  import opened Models
  import opened Occurrences
  import opened Protocol
  import opened ProtocolSafety

  // Calls behind a breaker.

  /** How a backend would behave if it were called now, and the clock around the call. */
  datatype Fate = Fate(call: Call, asked: real, failed: real)

  /** What comes of a call behind a breaker. */
  function Behind(c: Circuit, f: Fate): Call {
    if !c.Allows(f.asked) then Skipped else if f.call.Skipped? then FailedBefore else f.call
  }

  function After(c: Circuit, f: Fate): Circuit {
    match Behind(c, f)
    case Skipped => c
    case Fine => c.Succeeded()
    case _ => c.Failed(f.failed)
  }

  /** How many of the calls get through the breaker to the backend. */
  function GettingThrough(c: Circuit, fates: seq<Fate>): nat
    decreases |fates|
  {
    if fates == [] then 0
    else (if Behind(c, fates[0]).Skipped? then 0 else 1) + GettingThrough(After(c, fates[0]), fates[1..])
  }

  function AttemptsOf(fates: seq<Fate>): (r: seq<Attempt>)
    ensures |r| == |fates|
  {
    seq(|fates|, k requires 0 <= k < |fates| => Attempt(fates[k].asked, fates[k].failed))
  }

  /** In an outage the store's calls behave as the breaker's attempts do. */
  lemma {:induction false} OutageCalls(c: Circuit, fates: seq<Fate>)
    requires forall k :: 0 <= k < |fates| ==> !fates[k].call.Fine?
    ensures GettingThrough(c, fates) == Reached(c, AttemptsOf(fates))
    decreases |fates|
  {
    if fates != [] {
      assert AttemptsOf(fates)[1..] == AttemptsOf(fates[1..]);
      OutageCalls(After(c, fates[0]), fates[1..]);
    }
  }

  /** So a backend that fails every call during an interval sees at most
      threshold + floor(length / cooldown) calls of one after another. */
  lemma {:induction false} StoreOutageBound(c: Circuit, fates: seq<Fate>, from: real, until: real)
    requires c.Valid() && (c.openedAt.Some? ==> c.openedAt.value <= from)
    requires forall k :: 0 <= k < |fates| ==> !fates[k].call.Fine?
    requires Sequential(AttemptsOf(fates), from, until)
    ensures GettingThrough(c, fates) <= c.threshold + ((until - from) / c.cooldown).Floor
  {
    OutageCalls(c, fates);
    OutageBound(c, AttemptsOf(fates), from, until);
  }

  // The way back.

  /** The circuit after these calls. */
  function AfterAll(c: Circuit, fates: seq<Fate>): Circuit
    decreases |fates|
  {
    if fates == [] then c else AfterAll(After(c, fates[0]), fates[1..])
  }

  predicate Reaches(c: Circuit, f: Fate) { !Behind(c, f).Skipped? }

  /** At the threshold or past it a call gets through exactly when the cooldown has passed since
      the opening; below it always. */
  lemma {:induction false} HalfOpenExactlyWhen(c: Circuit, f: Fate)
    requires c.Valid()
    ensures Reaches(c, f) <==> c.failures < c.threshold || f.asked >= c.openedAt.value + c.cooldown
  {
  }

  /** A call that gets through and succeeds wipes out all failures before it: up to the threshold
      every failing call after it gets through too, and counts. */
  lemma {:induction false} SuccessForgives(c: Circuit, success: Fate, fates: seq<Fate>)
    requires c.Valid() && Behind(c, success).Fine? && |fates| <= c.threshold
    requires forall k :: 0 <= k < |fates| ==> !fates[k].call.Fine?
    ensures var d := AfterAll(After(c, success), fates);
            && d.Valid() && d.threshold == c.threshold && d.cooldown == c.cooldown && d.failures == |fates|
            && (|fates| == c.threshold ==> d.openedAt == Some(fates[|fates| - 1].failed))
  {
    FailuresAddUp(After(c, success), fates);
  }

  lemma {:induction false} FailuresAddUp(c: Circuit, fates: seq<Fate>)
    requires c.Valid() && c.failures + |fates| <= c.threshold
    requires forall k :: 0 <= k < |fates| ==> !fates[k].call.Fine?
    ensures var d := AfterAll(c, fates);
            && d.Valid() && d.threshold == c.threshold && d.cooldown == c.cooldown && d.failures == c.failures + |fates|
            && (fates != [] && d.failures == c.threshold ==> d.openedAt == Some(fates[|fates| - 1].failed))
    decreases |fates|
  {
    if fates != [] {
      FailuresAddUp(After(c, fates[0]), fates[1..]);
    }
  }

  /** So after a success fewer than threshold failures refuse no call; exactly threshold of them
      refuse those before the cooldown of the last one is over, and no other. */
  lemma {:induction false} RefusedExactlyWhen(c: Circuit, success: Fate, fates: seq<Fate>, next: Fate)
    requires c.Valid() && Behind(c, success).Fine? && |fates| <= c.threshold
    requires forall k :: 0 <= k < |fates| ==> !fates[k].call.Fine?
    ensures Reaches(AfterAll(After(c, success), fates), next)
       <==> |fates| < c.threshold || next.asked >= fates[|fates| - 1].failed + c.cooldown
  {
    hide AfterAll, Reaches;
    SuccessForgives(c, success, fates);
    HalfOpenExactlyWhen(AfterAll(After(c, success), fates), next);
  }

  // The drive.

  /** `fate(n)` is the fate of the n-th backend call of the code, in the order of `CallAt`;
      `transform` and `degraded` are what the pipeline makes of the payload with either seed. */
  datatype Env = Env(
    w: World, hasCache: bool, fate: nat -> Fate, batched: bool, transform: Transform, degraded: Transform)

  predicate Suits(env: Env, payload: string) {
    Undoable(env.w, payload, env.transform) && Undoable(env.w, payload, env.degraded)
  }

  datatype Sit = Sit(slot: Slot, req: Request, authBreaker: Circuit, cacheBreaker: Circuit)

  datatype Caller = ToAuth(n: nat) | ToCache(n: nat) | Neither

  /** The first of the three calls of `get`. */
  function FirstCall(why: Purpose): nat { if why.Lookup? then 0 else 5 }

  /** The backend call made at this point. The conditional replace belongs to the insert's call. */
  function CallAt(pc: Pc): Caller {
    match pc
    case CacheGet(why) => ToCache(FirstCall(why))
    case AuthGet(why, _) => ToAuth(FirstCall(why) + 1)
    case Backfill(why, _) => ToCache(FirstCall(why) + 2)
    case Insert(_, _) => ToAuth(3)
    case CacheWrite(_, _) => ToCache(4)
    case MarkAuth(_) => ToAuth(8)
    case MarkCacheGet(_) => ToCache(9)
    case MarkCacheWrite(_, _) => ToCache(10)
    case _ => Neither
  }

  /** Without a cache its calls are skipped. */
  function CacheAnswer(hasCache: bool, c: Circuit, f: Fate): Call {
    if hasCache then Behind(c, f) else Skipped
  }

  function CacheAfter(hasCache: bool, c: Circuit, f: Fate): Circuit {
    if hasCache then After(c, f) else c
  }

  function ChoiceAt(env: Env, s: Sit): (c: Choice)
    requires Suits(env, s.req.payload) && !s.req.pc.Done?
    ensures Enabled(env.w, s.req, c)
  {
    match CallAt(s.req.pc)
    case ToAuth(n) => Backend(Behind(s.authBreaker, env.fate(n)), s.req.pc.MarkAuth? && env.batched)
    case ToCache(n) => Backend(CacheAnswer(env.hasCache, s.cacheBreaker, env.fate(n)), false)
    case Neither =>
      match s.req.pc
      case Got(_, _) => Local
      case Analyse => Transformed(env.transform)
      case Degraded => Transformed(env.degraded)
      case _ => Backend(Fine, false)
  }

  /** A request only moves on; this many steps at most are left. */
  function Left(pc: Pc): nat {
    match pc
    case CacheGet(why) => if why.Lookup? then 14 else 7
    case AuthGet(why, _) => if why.Lookup? then 13 else 6
    case Backfill(why, _) => if why.Lookup? then 12 else 5
    case Got(why, _) => if why.Lookup? then 11 else 4
    case Analyse => 10
    case Insert(_, _) => 9
    case Reclaim(_, _) => 8
    case MarkAuth(_) => 3
    case MarkCacheGet(_) => 2
    case CacheWrite(_, _) => 1
    case MarkCacheWrite(_, _) => 1
    case Degraded => 1
    case Done(_) => 0
  }

  function Next(env: Env, s: Sit): (s': Sit)
    requires Suits(env, s.req.payload) && !s.req.pc.Done?
    ensures s'.req.payload == s.req.payload && s'.req.consumer == s.req.consumer
    ensures Left(s'.req.pc) < Left(s.req.pc)
  {
    var (slot, req) := StepRequest(env.w, s.slot, s.req, ChoiceAt(env, s));
    match CallAt(s.req.pc)
    case ToAuth(n) => Sit(slot, req, After(s.authBreaker, env.fate(n)), s.cacheBreaker)
    case ToCache(n) => Sit(slot, req, s.authBreaker, CacheAfter(env.hasCache, s.cacheBreaker, env.fate(n)))
    case Neither => Sit(slot, req, s.authBreaker, s.cacheBreaker)
  }

  /** Driven to its end. */
  function Finish(env: Env, s: Sit): (s': Sit)
    requires Suits(env, s.req.payload)
    ensures s'.req.pc.Done? && s'.req.payload == s.req.payload && s'.req.consumer == s.req.consumer
    decreases Left(s.req.pc)
  {
    if s.req.pc.Done? then s else Finish(env, Next(env, s))
  }

  lemma {:induction false} NextSteps(env: Env, s: Sit)
    requires Suits(env, s.req.payload) && !s.req.pc.Done?
    ensures (Next(env, s).slot, Next(env, s).req) == StepRequest(env.w, s.slot, s.req, ChoiceAt(env, s))
  {
    hide StepRequest, ChoiceAt, Suits;
  }

  lemma {:induction false} FinishNext(env: Env, s: Sit)
    requires Suits(env, s.req.payload) && !s.req.pc.Done?
    ensures Finish(env, s) == Finish(env, Next(env, s))
  {
  }

  /** A request that arrives at a slot. */
  function Arrival(slot: Slot, payload: string, c: Consumer, authBreaker: Circuit, cacheBreaker: Circuit): Sit {
    Sit(slot, Request(payload, c, CacheGet(Lookup), false), authBreaker, cacheBreaker)
  }

  // What a drive inherits from the protocol.

  lemma {:induction false} FinishKeeps(env: Env, s: Sit)
    requires ValidWorld(env.w) && Suits(env, s.req.payload)
    requires SlotInv(env.w, s.slot) && RequestInv(env.w, s.slot, s.req)
    ensures var end := Finish(env, s);
            && SlotInv(env.w, end.slot) && Evolves(s.slot, end.slot)
            && OutcomeInv(env.w, end.slot, end.req, end.req.pc.outcome)
    decreases Left(s.req.pc)
  {
    if !s.req.pc.Done? {
      RequestKeeps(env.w, s.slot, s.req, ChoiceAt(env, s));
      FinishKeeps(env, Next(env, s));
    }
  }

  /** Whatever the backends do: a masking reply that differs from its payload leaves a record
      behind that turns it back. */
  lemma {:induction false} MaskedOnlyWithRecord(
      env: Env, slot: Slot, payload: string, c: Consumer, a: Circuit, b: Circuit, result: string, d: Direction, stored: bool)
    requires ValidWorld(env.w) && Splices(env.w) && Suits(env, payload) && SlotInv(env.w, slot)
    requires var end := Finish(env, Arrival(slot, payload, c, a, b));
             end.req.pc == Done(Reply(result, d, stored)) && !d.DemaskReply? && result != payload && !end.slot.expired
    ensures var auth := Finish(env, Arrival(slot, payload, c, a, b)).slot.auth;
            && auth.Some? && ApplyDemask(result, auth.value.occurrences) == payload
            && ApplyMask(payload, auth.value.occurrences) == result
  {
    FinishKeeps(env, Arrival(slot, payload, c, a, b));
  }

  /** Two requests one after the other, whatever the backends did: the masked reply of the first,
      sent back, is answered from the record with the payload, if the consumer that made the record
      and the one that asks may demask, and with itself otherwise. */
  lemma {:induction false} SecondCallRestores(
      env: Env, slot: Slot, payload: string, c: Consumer, a: Circuit, b: Circuit, masked: string, d: Direction, stored: bool,
      env': Env, c': Consumer, a': Circuit, b': Circuit, result: string, d': Direction)
    requires ValidWorld(env.w) && env'.w == env.w && SlotInv(env.w, slot)
    requires Suits(env, payload) && Suits(env', masked)
    requires Finish(env, Arrival(slot, payload, c, a, b)).req.pc == Done(Reply(masked, d, stored))
    requires !d.DemaskReply? && masked != payload
    requires var between := Finish(env, Arrival(slot, payload, c, a, b)).slot;
             var end := Finish(env', Arrival(between, masked, c', a', b'));
             end.req.pc == Done(Reply(result, d', true)) && !end.slot.expired
    ensures var between := Finish(env, Arrival(slot, payload, c, a, b)).slot;
            && between.won.Some? && d'.DemaskReply?
            && result == (if between.won.value.consumer.demask && c'.demask then payload else masked)
            && (d.MaskReply? ==> between.won.value.consumer == c)
  {
    hide Finish;
    var one := Finish(env, Arrival(slot, payload, c, a, b));
    FinishKeeps(env, Arrival(slot, payload, c, a, b));
    FinishKeeps(env', Arrival(one.slot, masked, c', a', b'));
  }

  // Determined outcomes.

  /** Closed, or every call comes a cooldown after the opening. */
  ghost predicate Admits(env: Env, c: Circuit) {
    && c.threshold >= 1
    && (c.failures < c.threshold || (c.openedAt.Some? && forall n :: env.fate(n).asked >= c.openedAt.value + c.cooldown))
  }

  /** Both circuits admit calls, and every call that is made succeeds. */
  ghost predicate Calm(env: Env, s: Sit) {
    Admits(env, s.authBreaker) && Admits(env, s.cacheBreaker) && forall n :: env.fate(n).call.Fine?
  }

  /** The choice of a calm step. */
  function CalmChoice(env: Env, pc: Pc): Choice {
    match pc
    case Got(_, _) => Local
    case Analyse => Transformed(env.transform)
    case Degraded => Transformed(env.degraded)
    case _ =>
      if CallAt(pc).ToCache? && !env.hasCache then Backend(Skipped, false)
      else Backend(Fine, pc.MarkAuth? && env.batched)
  }

  predicate Closed(c: Circuit) { c.failures == 0 && c.openedAt.None? }

  /** What a calm step leaves of the circuits: a call made closes its own. */
  predicate Closes(env: Env, s: Sit, s': Sit) {
    && (if CallAt(s.req.pc).ToAuth? then Closed(s'.authBreaker) else s'.authBreaker == s.authBreaker)
    && (if CallAt(s.req.pc).ToCache? && env.hasCache then Closed(s'.cacheBreaker) else s'.cacheBreaker == s.cacheBreaker)
  }

  lemma {:induction false} StaysCalm(env: Env, s: Sit)
    requires Calm(env, s) && Suits(env, s.req.payload) && !s.req.pc.Done?
    ensures Calm(env, Next(env, s)) && ChoiceAt(env, s) == CalmChoice(env, s.req.pc)
    ensures Closes(env, s, Next(env, s))
  {
    hide StepRequest;
  }

  /** One calm step. */
  lemma {:induction false} CalmStep(env: Env, s: Sit) returns (s': Sit)
    requires Calm(env, s) && Suits(env, s.req.payload) && !s.req.pc.Done?
    ensures s'.req.payload == s.req.payload && s'.req.consumer == s.req.consumer
    ensures Calm(env, s') && Finish(env, s) == Finish(env, s') && Closes(env, s, s')
    ensures Enabled(env.w, s.req, CalmChoice(env, s.req.pc))
    ensures (s'.slot, s'.req) == StepRequest(env.w, s.slot, s.req, CalmChoice(env, s.req.pc))
  {
    hide *;
    StaysCalm(env, s);
    NextSteps(env, s);
    FinishNext(env, s);
    s' := Next(env, s);
  }

  /** A circuit that is closed stays closed to the end. */
  lemma {:induction false} StaysClosed(env: Env, s: Sit)
    requires Calm(env, s) && Suits(env, s.req.payload)
    ensures Closed(s.authBreaker) ==> Closed(Finish(env, s).authBreaker)
    ensures Closed(s.cacheBreaker) ==> Closed(Finish(env, s).cacheBreaker)
    decreases Left(s.req.pc)
  {
    hide Calm, Finish, Closed;
    if s.req.pc.Done? {
      FinishDone(env, s);
    } else {
      FinishNext(env, s);
      StaysCalm(env, s);
      StaysClosed(env, Next(env, s));
    }
  }

  lemma {:induction false} CalmMiss(env: Env, slot: Slot, payload: string, c: Consumer, a: Circuit, b: Circuit) returns (s: Sit)
    requires Suits(env, payload) && Calm(env, Arrival(slot, payload, c, a, b))
    requires slot.auth.None? && slot.cache.None?
    ensures Calm(env, s) && s.slot == slot && s.req == Request(payload, c, Analyse, false)
    ensures Finish(env, Arrival(slot, payload, c, a, b)) == Finish(env, s)
  {
    hide Finish, Calm;
    s := CalmStep(env, Arrival(slot, payload, c, a, b));
    s := CalmStep(env, s);
    assert s.req.pc == Got(Lookup, None) && s.slot == slot;
    s := CalmStep(env, s);
  }

  /** With working backends a free id is answered with its masked text, and the record is kept. */
  lemma {:induction false} FreshIdIsMasked(env: Env, slot: Slot, payload: string, c: Consumer, a: Circuit, b: Circuit)
    requires Suits(env, payload) && Calm(env, Arrival(slot, payload, c, a, b))
    requires slot.auth.None? && slot.cache.None? && !slot.expired
    ensures var end := Finish(env, Arrival(slot, payload, c, a, b));
            && end.req.pc == Done(Reply(env.transform.text, MaskReply, true))
            && end.slot.auth.Some? && RecordOf(env.w, end.slot.auth.value, payload, env.transform, c)
            && end.slot.cache == if env.hasCache then end.slot.auth else None
  {
    hide Finish, Calm, BuildRecord;
    BuiltIsRecordOf(env.w, env.transform, payload, c);
    var s := CalmMiss(env, slot, payload, c, a, b);
    s := CalmStep(env, s);
    s := CalmStep(env, s);
    assert s.req.pc.CacheWrite?;
    s := CalmStep(env, s);
    FinishDone(env, s);
  }

  lemma {:induction false} BuiltIsRecordOf(w: World, t: Transform, payload: string, c: Consumer)
    requires Undoable(w, payload, t)
    ensures RecordOf(w, BuildRecord(w, t, payload, c), payload, t, c)
  {
  }

  lemma {:induction false} FinishDone(env: Env, s: Sit)
    requires Suits(env, s.req.payload) && s.req.pc.Done?
    ensures Finish(env, s) == s
  {
  }

  /** What the client is told when the record is known, grace transition or not. */
  function Told(w: World, req: Request, r: Record): Outcome {
    var pc := Answer(w, req, r).pc;
    if pc.MarkAuth? then Reply(pc.result, DemaskReply, true) else if pc.Done? then pc.outcome else Unavailable
  }

  /** The record a working lookup reads. */
  function Read(env: Env, slot: Slot): Option<Record> {
    if env.hasCache && slot.cache.Some? then slot.cache else slot.auth
  }

  /** What a known record answers to a payload: the retry with its masked text; without the right
      to demask, of the record or of the consumer, the payload itself; the exact masked text with
      its original; a reworded one by value, in the record's mode. */
  predicate AnswersFrom(w: World, r: Record, payload: string, c: Consumer, o: Outcome) {
    var fp := w.fingerprint(payload);
    if fp == r.originalFp then o == Reply(w.applyMask(payload, r.occurrences), RetryMaskReply, true)
    else if !r.demaskEnabled || !c.demask then o == Reply(payload, DemaskReply, true)
    else if fp == r.transformedFp then o == Reply(w.applyDemask(payload, r.occurrences), DemaskReply, true)
    else o == Reply(w.demask(payload, r.mappings, r.mode), DemaskReply, true)
  }

  lemma {:induction false} ToldAnswers(w: World, req: Request, r: Record)
    ensures AnswersFrom(w, r, req.payload, req.consumer, Told(w, req, r))
  {
  }

  /** With working backends a known id is answered from its record, also one cooldown after an
      outage. Each circuit that is called is closed afterwards, and the cache holds the record. */
  lemma {:induction false} KnownIdIsAnswered(env: Env, slot: Slot, payload: string, c: Consumer, a: Circuit, b: Circuit)
    requires Suits(env, payload) && Calm(env, Arrival(slot, payload, c, a, b))
    requires Read(env, slot).Some?
    ensures var end, r := Finish(env, Arrival(slot, payload, c, a, b)), Read(env, slot).value;
            && AnswersFrom(env.w, r, payload, c, end.req.pc.outcome)
            && (env.hasCache ==> Closed(end.cacheBreaker) && end.slot.cache.Some? && Core(end.slot.cache.value) == Core(r))
            && (!env.hasCache || slot.cache.None? ==> Closed(end.authBreaker))
  {
    hide Finish, Calm, Answer, Closed, Admits;
    var s0 := Arrival(slot, payload, c, a, b);
    var s := CalmRead(env, slot, payload, c, a, b);
    var t := CalmStep(env, s);
    AnswerTells(env.w, s.req, s0.req, Read(env, slot).value);
    ToldAnswers(env.w, s0.req, Read(env, slot).value);
    MarkingTells(env, t, Told(env.w, s0.req, Read(env, slot).value));
    StaysClosed(env, t);
  }

  /** So after an outage: from any two circuits that are open, a known id asked one cooldown after
      the last failure is answered from its record, and the authority's circuit is closed if the
      cache does not know the id. */
  lemma {:induction false} RecoversAfterCooldown(env: Env, slot: Slot, payload: string, c: Consumer, a: Circuit, b: Circuit)
    requires Suits(env, payload) && a.Valid() && b.Valid() && Read(env, slot).Some?
    requires forall n :: env.fate(n).call.Fine?
    requires a.openedAt.Some? ==> forall n :: env.fate(n).asked >= a.openedAt.value + a.cooldown
    requires b.openedAt.Some? ==> forall n :: env.fate(n).asked >= b.openedAt.value + b.cooldown
    ensures var end := Finish(env, Arrival(slot, payload, c, a, b));
            && AnswersFrom(env.w, Read(env, slot).value, payload, c, end.req.pc.outcome)
            && (!env.hasCache || slot.cache.None? ==> end.authBreaker.failures == 0 && end.authBreaker.openedAt.None?)
            && (env.hasCache ==> end.cacheBreaker.failures == 0 && end.cacheBreaker.openedAt.None?)
  {
    hide Finish, AnswersFrom;
    KnownIdIsAnswered(env, slot, payload, c, a, b);
  }

  /** A cached record answers without the authority: whatever the authority does, and whatever
      later calls do, a cache call that succeeds decides what the client is told. */
  lemma {:induction false} CachedIdSurvivesOutage(env: Env, slot: Slot, payload: string, c: Consumer, a: Circuit, b: Circuit)
    requires Suits(env, payload) && env.hasCache && slot.cache.Some?
    requires Admits(env, b) && env.fate(0).call.Fine?
    ensures AnswersFrom(env.w, slot.cache.value, payload, c, Finish(env, Arrival(slot, payload, c, a, b)).req.pc.outcome)
  {
    hide Finish, Answer, AnswersFrom;
    var s0 := Arrival(slot, payload, c, a, b);
    FinishNext(env, s0);
    var s1 := Next(env, s0);
    assert s1.req == Request(payload, c, Got(Lookup, slot.cache), false);
    FinishNext(env, s1);
    AnswerTells(env.w, s1.req, s0.req, slot.cache.value);
    ToldAnswers(env.w, s0.req, slot.cache.value);
    MarkingNeverTells(env, Next(env, s1), Told(env.w, s0.req, slot.cache.value));
  }

  /** Nor do failures of the grace transition change it. */
  lemma {:induction false} MarkingNeverTells(env: Env, s: Sit, o: Outcome)
    requires Suits(env, s.req.payload)
    requires s.req.pc == Done(o) || (s.req.pc.MarkAuth? && o == Reply(s.req.pc.result, DemaskReply, true))
    ensures Finish(env, s).req.pc == Done(o)
  {
    hide Finish;
    var t := s;
    if !t.req.pc.Done? {
      FinishNext(env, t);
      t := Next(env, t);
      assert t.req.pc.MarkCacheGet?;
      FinishNext(env, t);
      t := Next(env, t);
      if !t.req.pc.Done? {
        FinishNext(env, t);
        t := Next(env, t);
      }
    }
    FinishDone(env, t);
  }

  /** Two calls in a row with working backends: the first masks a free id for consumer `c`; what
      the second is told about any text is determined by the two consumers' rights, the payload and
      its transform. */
  lemma {:induction false} SecondCallIsDetermined(
      env: Env, slot: Slot, payload: string, c: Consumer, a: Circuit, b: Circuit,
      env': Env, text: string, c': Consumer, a': Circuit, b': Circuit)
    requires ValidWorld(env.w) && env'.w == env.w && Suits(env, payload) && Suits(env', text)
    requires Calm(env, Arrival(slot, payload, c, a, b)) && slot.auth.None? && slot.cache.None? && !slot.expired
    requires Calm(env', Arrival(Finish(env, Arrival(slot, payload, c, a, b)).slot, text, c', a', b'))
    ensures var t := env.transform;
            var o := Finish(env', Arrival(Finish(env, Arrival(slot, payload, c, a, b)).slot, text, c', a', b')).req.pc.outcome;
            if text == payload then o == Reply(t.text, RetryMaskReply, true)
            else if !c.demask || !c'.demask then o == Reply(text, DemaskReply, true)
            else if text == t.text then o == Reply(payload, DemaskReply, true)
            else o == Reply(env.w.demask(text, t.mappings, c.mode), DemaskReply, true)
  {
    hide Finish, Calm;
    FreshIdIsMasked(env, slot, payload, c, a, b);
    var between := Finish(env, Arrival(slot, payload, c, a, b)).slot;
    KnownIdIsAnswered(env', between, text, c', a', b');
    assert Read(env', between) == between.auth;
  }

  lemma {:induction false} CalmRead(env: Env, slot: Slot, payload: string, c: Consumer, a: Circuit, b: Circuit) returns (s: Sit)
    requires Suits(env, payload) && Calm(env, Arrival(slot, payload, c, a, b))
    requires Read(env, slot).Some?
    ensures Calm(env, s) && s.req == Request(payload, c, Got(Lookup, Read(env, slot)), false)
    ensures Finish(env, Arrival(slot, payload, c, a, b)) == Finish(env, s)
    ensures s.slot.auth == slot.auth && s.slot.cache == if env.hasCache then Read(env, slot) else slot.cache
    ensures env.hasCache ==> Closed(s.cacheBreaker)
    ensures !env.hasCache || slot.cache.None? ==> Closed(s.authBreaker)
  {
    hide Finish, Calm, AfterGet, Closed;
    s := CalmStep(env, Arrival(slot, payload, c, a, b));
    if s.req.pc.AuthGet? {
      s := CalmStep(env, s);
      if s.req.pc.Backfill? {
        s := CalmStep(env, s);
      }
    }
  }

  /** The answer depends on payload and consumer only, and is a reply or a reply to be marked. */
  lemma {:induction false} AnswerTells(w: World, req: Request, req': Request, r: Record)
    requires req.payload == req'.payload && req.consumer == req'.consumer
    ensures var pc := Answer(w, req, r).pc;
            pc == Done(Told(w, req', r)) || (pc.MarkAuth? && Told(w, req', r) == Reply(pc.result, DemaskReply, true))
  {
  }

  /** The grace transition does not change what the client is told. */
  lemma {:induction false} MarkingTells(env: Env, s: Sit, o: Outcome)
    requires Suits(env, s.req.payload) && Calm(env, s)
    requires s.req.pc == Done(o) || (s.req.pc.MarkAuth? && o == Reply(s.req.pc.result, DemaskReply, true))
    ensures Finish(env, s).req.pc == Done(o)
    ensures env.hasCache && s.slot.cache.Some? ==>
              Finish(env, s).slot.cache.Some? && Core(Finish(env, s).slot.cache.value) == Core(s.slot.cache.value)
  {
    hide Finish, Calm;
    var t := s;
    if !t.req.pc.Done? {
      t := CalmStep(env, t);
      t := CalmStep(env, t);
      if !t.req.pc.Done? {
        t := CalmStep(env, t);
      }
    }
    FinishDone(env, t);
  }

  /** A first request whose save fails: it is answered, with the payload itself, exactly when the
      pipeline found nothing; the record may have been written all the same. */
  lemma {:induction false} FailedSaveFailsClosed(env: Env, slot: Slot, payload: string, c: Consumer, a: Circuit, b: Circuit)
    requires Suits(env, payload) && slot.auth.None? && slot.cache.None? && !slot.expired
    requires Admits(env, a) && Admits(env, b)
    requires env.fate(0).call.Fine? && env.fate(1).call.Fine? && !env.fate(3).call.Fine?
    ensures var end := Finish(env, Arrival(slot, payload, c, a, b));
            && end.req.pc.outcome == (if env.transform.mappings == [] then Reply(payload, MaskReply, false) else Unavailable)
            && (end.slot.auth.Some? <==> env.fate(3).call.FailedAfter?) && end.slot.cache.None?
  {
    hide Finish;
    var s0 := Arrival(slot, payload, c, a, b);
    FinishNext(env, s0);
    var s1 := Next(env, s0);
    assert s1.req.pc.AuthGet? && s1.slot == slot;
    FinishNext(env, s1);
    var s2 := Next(env, s1);
    assert s2.req.pc == Got(Lookup, None) && s2.slot == slot;
    FinishNext(env, s2);
    var s3 := Next(env, s2);
    FinishNext(env, s3);
    var s4 := Next(env, s3);
    assert s4.req.pc.Insert? && s4.slot == slot && s4.authBreaker.failures == 0;
    FinishNext(env, s4);
    FinishDone(env, Next(env, s4));
  }

  /** Fail closed: while the authority fails every call and the cache knows nothing, a payload is
      answered, with itself, only if it shows no trace of a mask and the pipeline finds nothing. */
  lemma {:induction false} OutageFailsClosed(env: Env, slot: Slot, payload: string, c: Consumer, a: Circuit, b: Circuit)
    requires Suits(env, payload) && slot.cache.None? && forall n :: !env.fate(n).call.Fine?
    ensures Finish(env, Arrival(slot, payload, c, a, b)).req.pc
         == Done(AnswerWithoutStorage(env.w, payload, env.degraded))
    ensures AnswerWithoutStorage(env.w, payload, env.degraded)
         == if env.w.traced(payload) || env.degraded.mappings != [] then Unavailable else Reply(payload, MaskReply, false)
  {
    hide Finish;
    var s0 := Arrival(slot, payload, c, a, b);
    FinishNext(env, s0);
    var s1 := Next(env, s0);
    assert s1.req.pc == AuthGet(Lookup, false) && s1.slot == slot;
    FinishNext(env, s1);
    var s2 := Next(env, s1);
    assert s2.req.pc == Degraded;
    FinishNext(env, s2);
    FinishDone(env, Next(env, s2));
  }
}
