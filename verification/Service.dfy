/** The service and its store as they are written: one request run from beginning to end by one
    thread. Every method is proved to arrive where the drive through the protocol arrives, with
    the same stores and breakers, so its outcome is determined by what the backends do. */
module Service {
  import opened Breaker
  import opened Driver
  import opened Models
  import opened Occurrences
  import opened Protocol

  function Find(m: map<string, Record>, pid: string): Option<Record> {
    if pid in m then Some(m[pid]) else None
  }

  /** One more step of the drive. */
  ghost method Advance(env: Env, s: Sit) returns (s': Sit)
    requires Suits(env, s.req.payload) && !s.req.pc.Done?
    ensures s' == Next(env, s) && Suits(env, s'.req.payload) && Finish(env, s) == Finish(env, s')
  {
    FinishNext(env, s);
    s' := Next(env, s);
  }

  class ResilientMappingStore {
    const authBreaker: CircuitBreaker
    const cacheBreaker: CircuitBreaker
    const hasCache: bool
    var auth: map<string, Record>
    var cache: map<string, Record>

    constructor (hasCache: bool, failureThreshold: int, cooldownSeconds: real)
      ensures Valid() && auth == map[] && cache == map[] && this.hasCache == hasCache
      ensures fresh(authBreaker) && fresh(cacheBreaker)
      ensures authBreaker.View() == cacheBreaker.View() == Circuit(failureThreshold, cooldownSeconds, 0, None)
    {
      authBreaker := new CircuitBreaker(failureThreshold, cooldownSeconds);
      cacheBreaker := new CircuitBreaker(failureThreshold, cooldownSeconds);
      this.hasCache := hasCache;
      auth, cache := map[], map[];
    }

    ghost predicate Valid() {
      authBreaker != cacheBreaker
    }

    /** The situation shows what the two backends hold for `pid`, and the two breakers. */
    ghost predicate Shows(s: Sit, pid: string)
      reads this, authBreaker, cacheBreaker
    {
      && s.slot.auth == Find(auth, pid) && s.slot.cache == Find(cache, pid)
      && s.authBreaker == authBreaker.View() && s.cacheBreaker == cacheBreaker.View()
    }

    /** What the two backends hold for all other payload ids. */
    ghost function Rest(pid: string): (map<string, Record>, map<string, Record>)
      reads this
    {
      (auth - {pid}, cache - {pid})
    }

    method PutAuth(pid: string, r: Record)
      modifies this`auth
      ensures auth == old(auth)[pid := r] && Rest(pid) == old(Rest(pid))
    {
      auth := auth[pid := r];
      assert auth - {pid} == old(auth) - {pid};
    }

    method PutCache(pid: string, r: Record)
      modifies this`cache
      ensures cache == old(cache)[pid := r] && Rest(pid) == old(Rest(pid))
    {
      cache := cache[pid := r];
      assert cache - {pid} == old(cache) - {pid};
    }

    /** `_auth_call` around a backend operation, which the caller performs if it takes effect. */
    method AuthCall(f: Fate) returns (c: Call)
      modifies authBreaker
      ensures c == Behind(old(authBreaker.View()), f)
      ensures authBreaker.View() == After(old(authBreaker.View()), f)
    {
      var allowed := authBreaker.Allow(f.asked);
      if !allowed {
        return Skipped;
      }
      c := if f.call.Skipped? then FailedBefore else f.call;
      if c.Fine? {
        authBreaker.RecordSuccess();
      } else {
        authBreaker.RecordFailure(f.failed);
      }
    }

    method CacheCall(f: Fate) returns (c: Call)
      modifies cacheBreaker
      ensures c == CacheAnswer(hasCache, old(cacheBreaker.View()), f)
      ensures cacheBreaker.View() == CacheAfter(hasCache, old(cacheBreaker.View()), f)
    {
      if !hasCache {
        return Skipped;
      }
      var allowed := cacheBreaker.Allow(f.asked);
      if !allowed {
        return Skipped;
      }
      c := if f.call.Skipped? then FailedBefore else f.call;
      if c.Fine? {
        cacheBreaker.RecordSuccess();
      } else {
        cacheBreaker.RecordFailure(f.failed);
      }
    }

    /** Cache first, then the authority; a genuine miss is backfilled. `ok` is false when
        StorageUnavailableError is raised. */
    method Get(pid: string, fate: nat -> Fate, first: nat, ghost env: Env, ghost s: Sit, ghost why: Purpose)
      returns (ok: bool, found: Option<Record>, ghost s': Sit)
      requires Valid() && Shows(s, pid) && s.req.pc == CacheGet(why) && first == FirstCall(why)
      requires env.hasCache == hasCache && env.fate == fate && Suits(env, s.req.payload)
      modifies this`cache, authBreaker, cacheBreaker
      ensures var hit := CacheAnswer(hasCache, old(cacheBreaker.View()), fate(first)).Fine? && pid in old(cache);
              && ok == (hit || Behind(old(authBreaker.View()), fate(first + 1)).Fine?)
              && (ok ==> found == if hit then Find(old(cache), pid) else Find(auth, pid))
      ensures Shows(s', pid) && Rest(pid) == old(Rest(pid))
      ensures s'.req == if ok then AtPc(s.req, Got(why, found)) else GetFailed(s.req, why)
      ensures Finish(env, s) == Finish(env, s')
    {
      hide Finish, Suits;
      var c0 := CacheCall(fate(first));
      s' := Advance(env, s);
      if c0.Fine? && pid in cache {
        return true, Some(cache[pid]), s';
      }
      ok, found, s' := ReadAuthority(pid, fate, first, c0.Fine?, env, s', why);
    }

    /** The cache missed (`cacheOk`) or did not answer. */
    method ReadAuthority(pid: string, fate: nat -> Fate, first: nat, cacheOk: bool, ghost env: Env, ghost s: Sit, ghost why: Purpose)
      returns (ok: bool, found: Option<Record>, ghost s': Sit)
      requires Valid() && Shows(s, pid) && s.req.pc == AuthGet(why, cacheOk) && first == FirstCall(why)
      requires env.hasCache == hasCache && env.fate == fate && Suits(env, s.req.payload)
      modifies this`cache, authBreaker, cacheBreaker
      ensures ok == Behind(old(authBreaker.View()), fate(first + 1)).Fine? && (ok ==> found == Find(auth, pid))
      ensures Shows(s', pid) && Rest(pid) == old(Rest(pid))
      ensures s'.req == if ok then AtPc(s.req, Got(why, found)) else GetFailed(s.req, why)
      ensures Finish(env, s) == Finish(env, s')
    {
      hide Finish, Suits;
      var c1 := AuthCall(fate(first + 1));
      s' := Advance(env, s);
      if !c1.Fine? {
        return false, None, s';
      }
      ok, found := true, Find(auth, pid);
      if found.Some? && cacheOk {
        var c2 := CacheCall(fate(first + 2));
        if TakesEffect(c2) {
          PutCache(pid, found.value);
        }
        s' := Advance(env, s');
      }
    }

    /** The authority decides; the cache follows a creation. */
    method SaveIfAbsent(pid: string, rec: Record, fate: nat -> Fate, ghost env: Env, ghost s: Sit, ghost t: Transform)
      returns (ok: bool, created: bool, ghost s': Sit)
      requires Valid() && Shows(s, pid) && s.req.pc == Insert(t, rec)
      requires env.hasCache == hasCache && env.fate == fate && Suits(env, s.req.payload)
      modifies this`auth, this`cache, authBreaker, cacheBreaker
      ensures var call := Behind(old(authBreaker.View()), fate(3));
              && ok == call.Fine? && (ok ==> created == (pid !in old(auth)))
              && auth == if TakesEffect(call) && pid !in old(auth) then old(auth)[pid := rec] else old(auth)
      ensures Shows(s', pid) && Rest(pid) == old(Rest(pid))
      ensures s'.req == if !ok then AfterFailedSave(s.req, t, rec)
                        else if created then AtPc(s.req, Done(Reply(t.text, MaskReply, true)))
                        else s.req.(pc := CacheGet(Winner(rec)), lost := true)
      ensures Finish(env, s) == Finish(env, s')
    {
      hide Finish, Suits, AnswerWithoutStorage, Answer, BuildRecord;
      var c0 := AuthCall(fate(3));
      created := pid !in auth;
      if TakesEffect(c0) && created {
        PutAuth(pid, rec);
      }
      s' := Advance(env, s);
      ok := c0.Fine?;
      if !ok {
        return;
      }
      if created {
        var c1 := CacheCall(fate(4));
        if TakesEffect(c1) {
          PutCache(pid, rec);
        }
      }
      s' := Advance(env, s');
    }

    /** The first half of the grace transition: the authority, which may be down. */
    method MarkAuthority(pid: string, batched: bool, fate: nat -> Fate, ghost env: Env, ghost s: Sit)
      returns (ghost s': Sit)
      requires Valid() && Shows(s, pid) && s.req.pc.MarkAuth?
      requires env.hasCache == hasCache && env.fate == fate && env.batched == batched && Suits(env, s.req.payload)
      modifies this`auth, authBreaker
      ensures auth == if TakesEffect(Behind(old(authBreaker.View()), fate(8))) && !batched && pid in old(auth)
                      then old(auth)[pid := old(auth)[pid].(state := DemaskedGrace)] else old(auth)
      ensures Shows(s', pid) && Rest(pid) == old(Rest(pid)) && s'.req == AtPc(s.req, MarkCacheGet(s.req.pc.result))
      ensures Finish(env, s) == Finish(env, s')
    {
      hide Finish, Suits;
      var c := AuthCall(fate(8));
      if TakesEffect(c) && !batched && pid in auth {
        PutAuth(pid, auth[pid].(state := DemaskedGrace));
      }
      s' := Advance(env, s);
    }

    /** The second half: the cache refreshes its own copy, best effort. */
    method RefreshCache(pid: string, fate: nat -> Fate, ghost env: Env, ghost s: Sit) returns (ghost s': Sit)
      requires Valid() && Shows(s, pid) && s.req.pc.MarkCacheGet?
      requires env.hasCache == hasCache && env.fate == fate && Suits(env, s.req.payload)
      modifies this`cache, cacheBreaker
      ensures Shows(s', pid) && Rest(pid) == old(Rest(pid))
      ensures s'.req == AtPc(s.req, Done(Reply(s.req.pc.result, DemaskReply, true)))
      ensures Finish(env, s) == Finish(env, s')
    {
      hide Finish, Suits, AnswerWithoutStorage, Answer, BuildRecord;
      var c1 := CacheCall(fate(9));
      s' := Advance(env, s);
      if c1.Fine? && pid in cache {
        var cached := cache[pid];
        var c2 := CacheCall(fate(10));
        if TakesEffect(c2) {
          PutCache(pid, cached.(state := DemaskedGrace));
        }
        s' := Advance(env, s');
      }
    }

    /** The grace transition. Failures of either backend leave the answer untouched. */
    method MarkDemasked(pid: string, batched: bool, fate: nat -> Fate, ghost env: Env, ghost s: Sit) returns (ghost s': Sit)
      requires Valid() && Shows(s, pid) && s.req.pc.MarkAuth?
      requires env.hasCache == hasCache && env.fate == fate && env.batched == batched && Suits(env, s.req.payload)
      modifies this`auth, this`cache, authBreaker, cacheBreaker
      ensures auth == if TakesEffect(Behind(old(authBreaker.View()), fate(8))) && !batched && pid in old(auth)
                      then old(auth)[pid := old(auth)[pid].(state := DemaskedGrace)] else old(auth)
      ensures s' == Finish(env, s) && Shows(s', pid) && Rest(pid) == old(Rest(pid))
      ensures s'.req == AtPc(s.req, Done(Reply(s.req.pc.result, DemaskReply, true)))
    {
      ghost var s1 := MarkAuthority(pid, batched, fate, env, s);
      s' := RefreshCache(pid, fate, env, s1);
      FinishDone(env, s');
    }
  }

  // The service.

  class ProcessService {
    const store: ResilientMappingStore
    const world: World

    constructor (store: ResilientMappingStore, world: World)
      ensures this.store == store && this.world == world
    {
      this.store, this.world := store, world;
    }

    /** The environment of one call: the store's cache, the fates and the pipeline's results. */
    ghost predicate Within(env: Env, fate: nat -> Fate, payload: string) {
      Splices(world) && env.w == world && env.hasCache == store.hasCache && env.fate == fate && Suits(env, payload)
    }

    /** One call of the endpoint. `transform` and `degraded` are what the pipeline makes of the
        payload with either session seed; `fate` and `batched` are the environment's choices.
        The outcome, the stores and the breakers are those of the drive in this environment. */
    method Process(payload: string, pid: string, consumer: Consumer, transform: Transform, degraded: Transform,
                   fate: nat -> Fate, batched: bool, ghost slot: Slot)
      returns (o: Outcome, ghost end: Sit)
      requires store.Valid() && slot.auth == Find(store.auth, pid) && slot.cache == Find(store.cache, pid)
      requires Splices(world) && Suits(Env(world, store.hasCache, fate, batched, transform, degraded), payload)
      modifies store, store.authBreaker, store.cacheBreaker
      ensures end == Finish(Env(world, store.hasCache, fate, batched, transform, degraded),
                            Arrival(slot, payload, consumer, old(store.authBreaker.View()), old(store.cacheBreaker.View())))
      ensures end.req.pc == Done(o) && store.Shows(end, pid) && store.Rest(pid) == old(store.Rest(pid))
    {
      hide Finish, Suits;
      ghost var env := Env(world, store.hasCache, fate, batched, transform, degraded);
      ghost var s := Arrival(slot, payload, consumer, store.authBreaker.View(), store.cacheBreaker.View());
      var ok, found, s1 := store.Get(pid, fate, 0, env, s, Lookup);
      if !ok {
        o := AnswerWithoutStorage(payload, degraded, env, s1);
        end := Finish(env, s1);
      } else if found.None? {
        o, end := FirstRequest(payload, pid, consumer, transform, fate, env, s1);
      } else {
        o, end := Answer(payload, pid, consumer, found.value, fate, batched, env, s1);
      }
    }

    /** A record exists: retry of the original, or a demasking request. */
    method Answer(payload: string, pid: string, consumer: Consumer, record: Record,
                  fate: nat -> Fate, batched: bool, ghost env: Env, ghost s: Sit)
      returns (o: Outcome, ghost end: Sit)
      requires store.Valid() && store.Shows(s, pid) && Within(env, fate, payload) && env.batched == batched
      requires s.req == Request(payload, consumer, Got(Lookup, Some(record)), false)
      modifies store, store.authBreaker, store.cacheBreaker
      ensures o == Told(world, s.req, record)
      ensures end == Finish(env, s) && end.req.pc == Done(o) && store.Shows(end, pid) && store.Rest(pid) == old(store.Rest(pid))
    {
      hide Finish, Suits, ApplyMask, ApplyDemask;
      ghost var s1 := Advance(env, s);
      var fp := world.fingerprint(payload);
      if fp == record.originalFp {
        FinishDone(env, s1);
        var masked := ApplyMaskFromRecord(payload, record.occurrences);
        return Reply(masked, RetryMaskReply, true), s1;
      }
      if !record.demaskEnabled || !consumer.demask {
        FinishDone(env, s1);
        return Reply(payload, DemaskReply, true), s1;
      }
      var result;
      if fp == record.transformedFp {
        result := ApplyDemaskFromRecord(payload, record.occurrences);
      } else {
        result := world.demask(payload, record.mappings, record.mode);
      }
      end := TransitionToGrace(pid, record, fate, batched, env, s1, result);
      o := Reply(result, DemaskReply, true);
    }

    /** ACTIVE to DEMASKED_GRACE; a record already in grace is left alone. */
    method TransitionToGrace(pid: string, record: Record, fate: nat -> Fate, batched: bool,
                             ghost env: Env, ghost s: Sit, ghost result: string)
      returns (ghost end: Sit)
      requires store.Valid() && store.Shows(s, pid) && Within(env, fate, s.req.payload) && env.batched == batched
      requires s.req.pc == if record.state.DemaskedGrace? then Done(Reply(result, DemaskReply, true)) else MarkAuth(result)
      modifies store, store.authBreaker, store.cacheBreaker
      ensures end == Finish(env, s) && store.Shows(end, pid) && store.Rest(pid) == old(store.Rest(pid))
      ensures end.req.pc == Done(Reply(result, DemaskReply, true))
    {
      hide Finish, Suits;
      if record.state.DemaskedGrace? {
        FinishDone(env, s);
        return s;
      }
      end := store.MarkDemasked(pid, batched, fate, env, s);
    }

    method FirstRequest(payload: string, pid: string, consumer: Consumer, transform: Transform, fate: nat -> Fate,
                        ghost env: Env, ghost s: Sit)
      returns (o: Outcome, ghost end: Sit)
      requires store.Valid() && store.Shows(s, pid) && Within(env, fate, payload) && env.transform == transform
      requires s.req == Request(payload, consumer, Got(Lookup, None), false)
      modifies store, store.authBreaker, store.cacheBreaker
      ensures end == Finish(env, s) && end.req.pc == Done(o) && store.Shows(end, pid) && store.Rest(pid) == old(store.Rest(pid))
    {
      hide Finish, Suits;
      ghost var s1 := Advance(env, s);
      s1 := Advance(env, s1);
      var record := BuildRecord(world, transform, payload, consumer);
      var ok, created, s2 := store.SaveIfAbsent(pid, record, fate, env, s1, transform);
      if !ok {
        FinishDone(env, s2);
        return if record.noPii then Reply(transform.text, MaskReply, false) else Unavailable, s2;
      }
      if !created {
        o, end := ReadWinner(payload, pid, record, fate, env, s2);
        return;
      }
      FinishDone(env, s2);
      o, end := Reply(transform.text, MaskReply, true), s2;
    }

    /** The insert was lost: never return the unpersisted text, use the stored record. */
    method ReadWinner(payload: string, pid: string, record: Record, fate: nat -> Fate, ghost env: Env, ghost s: Sit)
      returns (o: Outcome, ghost end: Sit)
      requires store.Valid() && store.Shows(s, pid) && Within(env, fate, payload)
      requires s.req.payload == payload && s.req.pc == CacheGet(Winner(record))
      modifies store, store.authBreaker, store.cacheBreaker
      ensures end == Finish(env, s) && end.req.pc == Done(o) && store.Shows(end, pid) && store.Rest(pid) == old(store.Rest(pid))
    {
      hide Finish, Suits, ApplyMask, ApplyDemask;
      var ok, winner, s1 := store.Get(pid, fate, 5, env, s, Winner(record));
      if !ok {
        FinishDone(env, s1);
        return Unavailable, s1;
      }
      end := Advance(env, s1);
      FinishDone(env, end);
      if winner.None? {
        return Unavailable, end;
      }
      if winner.value.originalFp != record.originalFp {
        return Conflict, end;
      }
      var masked := ApplyMaskFromRecord(payload, winner.value.occurrences);
      o := Reply(masked, RetryMaskReply, true);
    }

    /** Storage is unreachable: only a payload that needs no reversible state is answered. */
    method AnswerWithoutStorage(payload: string, degraded: Transform, ghost env: Env, ghost s: Sit) returns (o: Outcome)
      requires env.w == world && env.degraded == degraded && Suits(env, payload)
      requires s.req.payload == payload && s.req.pc == Degraded
      ensures o == Protocol.AnswerWithoutStorage(world, payload, degraded)
      ensures Finish(env, s) == Sit(s.slot, AtPc(s.req, Done(o)), s.authBreaker, s.cacheBreaker)
    {
      hide Finish, Suits;
      ghost var s1 := Advance(env, s);
      FinishDone(env, s1);
      if world.traced(payload) {
        return Unavailable;
      }
      if degraded.mappings != [] {
        return Unavailable;
      }
      o := Reply(payload, MaskReply, false);
    }
  }
}
