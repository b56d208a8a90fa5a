/** Particular runs: a resent reply does get its answer while the backends work, and coherence
    does end with the first expiry. */
module ProtocolRuns {
  import opened Models
  import opened Occurrences
  import opened Protocol
  import opened ProtocolSafety
  import opened ProtocolTheorems

  lemma {:induction false} RunsOneMore(w: World, s0: State, events: seq<Event>, s: State, e: Event)
    requires Runs(w, s0, events, s) && Possible(w, s, e)
    ensures Runs(w, s0, events + [e], Step(w, s, e))
    decreases |events|
  {
    if events == [] {
      assert ([] + [e])[1..] == [];
    } else {
      assert (events + [e])[1..] == events[1..] + [e];
      RunsOneMore(w, Step(w, s0, events[0]), events[1..], s, e);
    }
  }

  lemma {:induction false} RunsThenRuns(w: World, s0: State, ev: seq<Event>, s1: State, ev': seq<Event>, s2: State)
    requires Runs(w, s0, ev, s1) && Runs(w, s1, ev', s2)
    ensures Runs(w, s0, ev + ev', s2)
    decreases |ev|
  {
    if ev == [] {
      assert [] + ev' == ev';
    } else {
      assert (ev + ev')[1..] == ev[1..] + ev';
      RunsThenRuns(w, Step(w, s0, ev[0]), ev[1..], s1, ev', s2);
    }
  }

  /** The step a request takes when nothing fails. */
  function FineChoice(req: Request): Choice {
    if req.pc.Got? then Local else Backend(Fine, false)
  }

  /** A lookup that has found, or is going to find, the authority's record. */
  predicate Looking(slot: Slot, req: Request) {
    match req.pc
    case CacheGet(why) => why.Lookup?
    case AuthGet(why, _) => why.Lookup?
    case Backfill(why, _) => why.Lookup?
    case Got(why, found) => why.Lookup? && found.Some?
    case MarkAuth(_) => true
    case MarkCacheGet(_) => true
    case MarkCacheWrite(_, _) => true
    case Done(o) => o.Reply? && o.stored
    case _ => false
  }

  function StepsLeft(pc: Pc): nat {
    match pc
    case CacheGet(_) => 7
    case AuthGet(_, _) => 6
    case Backfill(_, _) => 5
    case Got(_, _) => 4
    case MarkAuth(_) => 3
    case MarkCacheGet(_) => 2
    case MarkCacheWrite(_, _) => 1
    case _ => 0
  }

  lemma {:induction false} FineStep(w: World, slot: Slot, req: Request)
    requires Looking(slot, req) && !req.pc.Done? && slot.auth.Some?
    ensures Enabled(w, req, FineChoice(req))
    ensures var (slot', req') := StepRequest(w, slot, req, FineChoice(req));
            && Looking(slot', req') && slot'.auth.Some? && slot'.expired == slot.expired
            && req'.payload == req.payload && req'.consumer == req.consumer
            && StepsLeft(req'.pc) < StepsLeft(req.pc)
  {
  }

  /** The record a working lookup reads. */
  function Seen(slot: Slot): Option<Record> {
    if slot.cache.Some? then slot.cache else slot.auth
  }

  predicate InGrace(r: Option<Record>) { r.Some? && r.value.state.DemaskedGrace? }

  /** With this record the request demasks. */
  predicate Demasks(w: World, req: Request, r: Record) {
    w.fingerprint(req.payload) != r.originalFp && r.demaskEnabled && req.consumer.demask
  }

  /** A demasking request on its way to leaving the record in grace. */
  predicate GraceAhead(w: World, slot: Slot, req: Request) {
    match req.pc
    case CacheGet(_) => Seen(slot).Some? && Demasks(w, req, Seen(slot).value)
    case AuthGet(_, cacheOk) => cacheOk && slot.cache.None? && slot.auth.Some? && Demasks(w, req, slot.auth.value)
    case Backfill(_, r) => Demasks(w, req, r)
    case Got(_, found) => found.Some? && found == Seen(slot) && Demasks(w, req, found.value)
    case MarkAuth(_) => slot.auth.Some?
    case MarkCacheGet(_) => InGrace(slot.auth)
    case MarkCacheWrite(_, _) => InGrace(slot.auth)
    case Done(_) => InGrace(Seen(slot))
    case _ => false
  }

  lemma {:induction false} FineStepAges(w: World, slot: Slot, req: Request)
    requires Looking(slot, req) && !req.pc.Done? && slot.auth.Some? && GraceAhead(w, slot, req)
    ensures var (slot', req') := StepRequest(w, slot, req, FineChoice(req)); GraceAhead(w, slot', req')
  {
  }

  /** While nothing fails, a lookup in a slot with a record ends with a stored reply, and a
      demasking one leaves the record in grace. */
  lemma {:induction false} FineRun(w: World, s: State, id: nat, pid: string) returns (events: seq<Event>, s': State)
    requires id in s.requests && s.requests[id].0 == pid
    requires Looking(SlotOf(s, pid), s.requests[id].1) && SlotOf(s, pid).auth.Some?
    ensures Runs(w, s, events, s') && NoExpiry(events, pid)
    ensures id in s'.requests && s'.requests[id].0 == pid && SlotOf(s', pid).expired == SlotOf(s, pid).expired
    ensures s'.requests[id].1.payload == s.requests[id].1.payload
    ensures s'.requests[id].1.consumer == s.requests[id].1.consumer
    ensures s'.requests[id].1.pc.Done? && s'.requests[id].1.pc.outcome.Reply? && s'.requests[id].1.pc.outcome.stored
    ensures SlotOf(s', pid).auth.Some?
    ensures GraceAhead(w, SlotOf(s, pid), s.requests[id].1) ==> InGrace(Seen(SlotOf(s', pid)))
    decreases StepsLeft(s.requests[id].1.pc)
  {
    var req := s.requests[id].1;
    if req.pc.Done? {
      events, s' := [], s;
    } else {
      FineStep(w, SlotOf(s, pid), req);
      if GraceAhead(w, SlotOf(s, pid), req) {
        FineStepAges(w, SlotOf(s, pid), req);
      }
      var e := Move(id, FineChoice(req));
      var s1 := Step(w, s, e);
      var rest;
      rest, s' := FineRun(w, s1, id, pid);
      events := [e] + rest;
      assert events[1..] == rest;
      assert forall k :: 1 <= k < |events| ==> events[k] == rest[k - 1];
    }
  }

  /** A masking reply can be sent back and is answered with its input. The record any lookup
      then reads is in grace, and the slot is left as able to do all this again. */
  lemma {:induction false} ResendingCompletes(
      w: World, s: State, first: nat, again: nat, pid: string, payload: string, c: Consumer, masked: string,
      d: Direction, stored: bool, c': Consumer, maker: Consumer)
    returns (events: seq<Event>, s': State)
    requires ValidWorld(w) && Reachable(w, s) && !SlotOf(s, pid).expired
    requires Replied(s, first, pid, payload, c, Reply(masked, d, stored)) && Masking(d) && masked != payload
    requires c'.demask && MadeBy(SlotOf(s, pid), maker) && maker.demask
    requires again !in s.requests
    ensures Runs(w, s, events, s') && Reachable(w, s')
    ensures Replied(s', again, pid, masked, c', Reply(payload, DemaskReply, true))
    ensures Replied(s', first, pid, payload, c, Reply(masked, d, stored))
    ensures !SlotOf(s', pid).expired && MadeBy(SlotOf(s', pid), maker)
    ensures InGrace(Seen(SlotOf(s', pid)))
  {
    var e := Arrive(again, pid, masked, c');
    var s1 := Step(w, s, e);
    ResendingDemasks(w, s, first, pid, payload, c, masked, d, stored, c', maker);
    assert SlotOf(s1, pid) == SlotOf(s, pid);
    var rest;
    rest, s' := FineRun(w, s1, again, pid);
    events := [e] + rest;
    assert events[1..] == rest;
    var before :| Runs(w, INITIAL, before, s);
    RunsThenRuns(w, INITIAL, before, s, events, s');
    ReachableInv(w, s);
    assert forall k :: 1 <= k < |events| ==> events[k] == rest[k - 1];
    AuthorityOnlyAges(w, s, events, s', pid);
    RepliesStay(w, s, events, s', first);
    var o := s'.requests[again].1.pc.outcome;
    MakerStays(w, s, events, s', pid, maker);
    ResendingRestores(w, s', first, again, pid, payload, c, masked, d, stored, c', o.result, o.direction, maker);
  }

  /** The winner of an id stays until it expires. */
  lemma {:induction false} MakerStays(w: World, s0: State, events: seq<Event>, s: State, pid: string, maker: Consumer)
    requires ValidWorld(w) && Inv(w, s0) && Runs(w, s0, events, s)
    requires MadeBy(SlotOf(s0, pid), maker) && !SlotOf(s, pid).expired
    ensures MadeBy(SlotOf(s, pid), maker)
    decreases |events|
  {
    if events != [] {
      StepKeeps(w, s0, events[0]);
      StepEvolves(w, s0, events[0], pid);
      ExpiredStays(w, Step(w, s0, events[0]), events[1..], s, pid);
      MakerStays(w, Step(w, s0, events[0]), events[1..], s, pid, maker);
    }
  }

  lemma {:induction false} ExpiredStays(w: World, s0: State, events: seq<Event>, s: State, pid: string)
    requires ValidWorld(w) && Inv(w, s0) && Runs(w, s0, events, s)
    ensures SlotOf(s0, pid).expired ==> SlotOf(s, pid).expired
    decreases |events|
  {
    if events != [] {
      StepKeeps(w, s0, events[0]);
      StepEvolves(w, s0, events[0], pid);
      ExpiredStays(w, Step(w, s0, events[0]), events[1..], s, pid);
    }
  }

  lemma {:induction false} StepEvolves(w: World, s: State, e: Event, pid: string)
    requires ValidWorld(w) && Inv(w, s) && Possible(w, s, e)
    ensures Evolves(SlotOf(s, pid), SlotOf(Step(w, s, e), pid))
  {
    match e
    case Arrive(_, _, _, _) =>
      assert SlotOf(Step(w, s, e), pid) == SlotOf(s, pid);
    case Move(id, choice) =>
      var (p, req) := s.requests[id];
      assert SlotInv(w, SlotOf(s, p)) && RequestInv(w, SlotOf(s, p), req);
      RequestKeeps(w, SlotOf(s, p), req, choice);
      assert p != pid ==> SlotOf(Step(w, s, e), pid) == SlotOf(s, pid);
    case Happen(p, weather) =>
      assert SlotInv(w, SlotOf(s, p));
      WeatherKeeps(w, SlotOf(s, p), weather);
      assert p != pid ==> SlotOf(Step(w, s, e), pid) == SlotOf(s, pid);
  }

  lemma {:induction false} ResendingDemasks(
      w: World, s: State, first: nat, pid: string, payload: string, c: Consumer, masked: string,
      d: Direction, stored: bool, c': Consumer, maker: Consumer)
    requires ValidWorld(w) && Reachable(w, s) && !SlotOf(s, pid).expired
    requires Replied(s, first, pid, payload, c, Reply(masked, d, stored)) && Masking(d) && masked != payload
    requires c'.demask && MadeBy(SlotOf(s, pid), maker) && maker.demask
    ensures SlotOf(s, pid).auth.Some?
    ensures GraceAhead(w, SlotOf(s, pid), Request(masked, c', CacheGet(Lookup), false))
  {
    ReachableInv(w, s);
    assert RequestInv(w, SlotOf(s, pid), s.requests[first].1);
    assert SlotInv(w, SlotOf(s, pid));
  }

  /** A reply once given is never taken back. */
  lemma {:induction false} RepliesStay(w: World, s0: State, events: seq<Event>, s: State, id: nat)
    requires Runs(w, s0, events, s)
    requires id in s0.requests && s0.requests[id].1.pc.Done?
    ensures id in s.requests && s.requests[id] == s0.requests[id]
    decreases |events|
  {
    if events != [] {
      RepliesStay(w, Step(w, s0, events[0]), events[1..], s, id);
    }
  }

  /** The record a calm lookup of this purpose finds. */
  lemma {:induction false} WinnerIsRead(w: World, s: State, id: nat, pid: string, why: Purpose) returns (events: seq<Event>, s': State)
    requires id in s.requests && s.requests[id].0 == pid && s.requests[id].1.pc == CacheGet(why)
    requires Seen(SlotOf(s, pid)).Some?
    ensures Runs(w, s, events, s') && id in s'.requests
    ensures s'.requests[id] == (pid, AtPc(s.requests[id].1, Got(why, Seen(SlotOf(s, pid)))))
  {
    events, s' := MoveOn(w, s, [], s, id, pid, Backend(Fine, false));
    if s'.requests[id].1.pc.AuthGet? {
      events, s' := MoveOn(w, s, events, s', id, pid, Backend(Fine, false));
      events, s' := MoveOn(w, s, events, s', id, pid, Backend(Fine, false));
    }
  }

  /** A request that lost the insert can run to its end when the backends answer: it gets the
      winner's masked text for the same content, and a conflict for other content. */
  lemma {:induction false} LoserCompletes(w: World, s: State, id: nat, pid: string, mine: Record) returns (events: seq<Event>, s': State)
    requires ValidWorld(w) && Reachable(w, s) && !SlotOf(s, pid).expired
    requires id in s.requests && s.requests[id].0 == pid && s.requests[id].1.pc == CacheGet(Winner(mine))
    ensures Runs(w, s, events, s') && id in s'.requests && SlotOf(s, pid).won.Some?
    ensures var win := SlotOf(s, pid).won.value;
            s'.requests[id].1.pc
            == Done(if s.requests[id].1.payload == win.payload then Reply(win.t.text, RetryMaskReply, true) else Conflict)
  {
    hide Reachable, Runs;
    ReachableInv(w, s);
    assert RequestInv(w, SlotOf(s, pid), s.requests[id].1);
    assert SlotInv(w, SlotOf(s, pid));
    var s1;
    events, s1 := WinnerIsRead(w, s, id, pid, Winner(mine));
    events, s' := MoveOn(w, s, events, s1, id, pid, Local);
  }

  // Beyond expiry.

  function NoPii(payload: string): Transform { Transform(payload, [], []) }

  lemma {:induction false} NoPiiReverses(w: World, payload: string)
    requires Splices(w)
    ensures Undoable(w, payload, NoPii(payload))
  {
    ReversibleIsUndoable(w, payload, NoPii(payload));
    assert OriginalSpans([]) == [] && MaskedSpans([]) == [];
  }

  /** A first request for a free id, up to the point where it runs the pipeline. */
  lemma {:induction false} FirstRequestMisses(w: World, s: State, id: nat, pid: string, payload: string, c: Consumer)
    returns (events: seq<Event>, s': State)
    requires id !in s.requests && SlotOf(s, pid).auth.None?
    ensures Runs(w, s, events, s')
    ensures SlotOf(s', pid) == SlotOf(s, pid)
    ensures s'.requests == s.requests[id := (pid, Request(payload, c, Analyse, false))]
  {
    var e := Arrive(id, pid, payload, c);
    events, s' := [e], Step(w, s, e);
    assert events[1..] == [];
    events, s' := MoveOn(w, s, events, s', id, pid, Backend(Skipped, false));
    events, s' := MoveOn(w, s, events, s', id, pid, Backend(Fine, false));
    events, s' := MoveOn(w, s, events, s', id, pid, Local);
  }

  /** The same request up to and including its insert. */
  lemma {:induction false} FirstRequestInserts(w: World, s: State, id: nat, pid: string, payload: string, c: Consumer, t: Transform)
    returns (events: seq<Event>, s': State)
    requires id !in s.requests && SlotOf(s, pid).auth.None? && Undoable(w, payload, t)
    ensures Runs(w, s, events, s')
    ensures var rec := BuildRecord(w, t, payload, c);
            && SlotOf(s', pid) == Inserted(SlotOf(s, pid), payload, c, t, rec)
            && s'.requests == s.requests[id := (pid, Request(payload, c, CacheWrite(t, rec), false))]
  {
    events, s' := FirstRequestMisses(w, s, id, pid, payload, c);
    events, s' := MoveOn(w, s, events, s', id, pid, Transformed(t));
    events, s' := MoveOn(w, s, events, s', id, pid, Backend(Fine, false));
  }

  /** While nothing fails, a first request for a free id is answered with its own masked text,
      and both backends hold its record. */
  lemma {:induction false} FirstRequestCompletes(w: World, s: State, id: nat, pid: string, payload: string, c: Consumer, t: Transform)
    returns (events: seq<Event>, s': State)
    requires id !in s.requests && SlotOf(s, pid).auth.None? && Undoable(w, payload, t)
    ensures Runs(w, s, events, s')
    ensures Replied(s', id, pid, payload, c, Reply(t.text, MaskReply, true))
    ensures var slot' := SlotOf(s', pid);
            && slot'.auth == slot'.cache && slot'.auth.Some? && RecordOf(w, slot'.auth.value, payload, t, c)
            && (SlotOf(s, pid).won.None? ==> MadeBy(slot', c))
  {
    events, s' := FirstRequestInserts(w, s, id, pid, payload, c, t);
    events, s' := MoveOn(w, s, events, s', id, pid, Backend(Fine, false));
  }

  /** One more step of request `id`. */
  lemma {:induction false} MoveOn(w: World, s0: State, events: seq<Event>, s: State, id: nat, pid: string, c: Choice)
    returns (events': seq<Event>, s': State)
    requires Runs(w, s0, events, s) && id in s.requests && s.requests[id].0 == pid && Enabled(w, s.requests[id].1, c)
    ensures Runs(w, s0, events', s')
    ensures var (slot, req) := StepRequest(w, SlotOf(s, pid), s.requests[id].1, c);
            SlotOf(s', pid) == slot && s'.requests == s.requests[id := (pid, req)]
  {
    var e := Move(id, c);
    RunsOneMore(w, s0, events, s, e);
    events', s' := events + [e], Step(w, s, e);
  }

  /** Coherence cannot be claimed past expiry: a first request that is slow to write the cache
      puts its old record next to the new one of the authority. */
  lemma {:induction false} ExpiryBreaksCoherence(w: World, pid: string, p1: string, p2: string, c: Consumer)
    returns (s: State)
    requires ValidWorld(w) && Splices(w) && p1 != p2
    ensures Reachable(w, s)
    ensures SlotOf(s, pid).cache.Some? && SlotOf(s, pid).auth.Some?
    ensures SlotOf(s, pid).cache.value.originalFp == w.fingerprint(p1)
    ensures SlotOf(s, pid).auth.value.originalFp == w.fingerprint(p2) != w.fingerprint(p1)
  {
    NoPiiReverses(w, p1);
    NoPiiReverses(w, p2);
    var ev1, s1 := FirstRequestInserts(w, INITIAL, 1, pid, p1, c, NoPii(p1));
    var expire := Happen(pid, Expire);
    RunsOneMore(w, INITIAL, ev1, s1, expire);
    var s2 := Step(w, s1, expire);
    var ev2, s3 := FirstRequestInserts(w, s2, 2, pid, p2, c, NoPii(p2));
    RunsThenRuns(w, INITIAL, ev1 + [expire], s2, ev2, s3);
    var events;
    events, s := MoveOn(w, INITIAL, ev1 + [expire] + ev2, s3, 1, pid, Backend(Fine, false));
  }
}
