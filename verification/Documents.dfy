/** The protocol over the document store as it is: documents with expiry times and a clock, the
    separate atomic operations of `save_if_absent`, grace updates by id, a purge that comes late.
    Every run of this system is a run of the protocol, so all its promises hold here. */
module Documents {
  import opened Models
  import opened Occurrences
  import opened Protocol
  import opened ProtocolRuns
  import opened ProtocolTheorems
  import opened Stores

  /** `died`: the ids whose document has expired at least once. A history variable. */
  datatype System = System(
    docs: map<string, Entry<Record>>, pending: map<string, real>, caches: map<string, Record>,
    requests: map<nat, (string, Request)>, now: real, died: set<string>)

  /** `clock` is what the operation has read off the clock, `ttl` the life it gives a document. */
  datatype Action =
    | Come(id: nat, pid: string, payload: string, consumer: Consumer)
    | Act(id: nat, choice: Choice, clock: real, ttl: real)
    | FlushOne(pid: string, clock: real)
    | Drop(pid: string)
    | Tick(to: real)
    | Purge(pid: string)
    | EvictEntry(pid: string)

  function ToGrace(r: Record): Record { r.(state := DemaskedGrace) }

  function AuthOf(sys: System, pid: string): Option<Record> {
    if pid in sys.docs && sys.docs[pid].expiresAt > sys.now then Some(sys.docs[pid].record) else None
  }

  /** What the backends show of one id. */
  function View(sys: System, pid: string): Slot {
    Slot(AuthOf(sys, pid), if pid in sys.caches then Some(sys.caches[pid]) else None, pid in sys.pending, pid in sys.died, None)
  }

  predicate Allowed(w: World, sys: System, a: Action) {
    match a
    case Come(id, _, _, _) => id !in sys.requests
    case Act(id, choice, clock, _) => id in sys.requests && Enabled(w, sys.requests[id].1, choice) && clock <= sys.now
    case FlushOne(pid, clock) => pid in sys.pending && clock <= sys.now
    case Drop(pid) => pid in sys.pending
    case Tick(to) => sys.now <= to
    case Purge(pid) => Reclaimable(sys.docs, pid, sys.now)
    case EvictEntry(_) => true
  }

  /** A step of a request: the three writing steps as the document store does them, the others
      on what the backends show. */
  function ActOn(w: World, sys: System, id: nat, c: Choice, clock: real, ttl: real): System
    requires Allowed(w, sys, Act(id, c, clock, ttl))
  {
    var (pid, req) := sys.requests[id];
    match req.pc
    case Insert(t, rec) =>
      var req' := if !c.call.Fine? then AfterFailedSave(req, t, rec)
                  else if pid in sys.docs then AtPc(req, Reclaim(t, rec))
                  else AfterSave(req, t, rec, true);
      sys.(docs := if TakesEffect(c.call) then InsertedOne(sys.docs, pid, Entry(clock + ttl, rec)) else sys.docs,
           requests := sys.requests[id := (pid, req')])
    case Reclaim(t, rec) =>
      var req' := if !c.call.Fine? then AfterFailedSave(req, t, rec)
                  else AfterSave(req, t, rec, Reclaimable(sys.docs, pid, clock));
      sys.(docs := if TakesEffect(c.call) then Reclaimed(sys.docs, pid, Entry(clock + ttl, rec), clock) else sys.docs,
           requests := sys.requests[id := (pid, req')])
    case MarkAuth(result) =>
      sys.(docs := if TakesEffect(c.call) && !c.other then Graced(sys.docs, ToGrace, pid, clock + ttl) else sys.docs,
           pending := if TakesEffect(c.call) && c.other then sys.pending[pid := ttl] else sys.pending,
           requests := sys.requests[id := (pid, AtPc(req, MarkCacheGet(result)))])
    case _ =>
      var (slot, req') := StepRequest(w, View(sys, pid), req, c);
      sys.(caches := if slot.cache.Some? then sys.caches[pid := slot.cache.value] else sys.caches - {pid},
           requests := sys.requests[id := (pid, req')])
  }

  function Do(w: World, sys: System, a: Action): System
    requires Allowed(w, sys, a)
  {
    match a
    case Come(id, pid, payload, consumer) =>
      sys.(requests := sys.requests[id := (pid, Request(payload, consumer, CacheGet(Lookup), false))])
    case Act(id, c, clock, ttl) => ActOn(w, sys, id, c, clock, ttl)
    case FlushOne(pid, clock) =>
      sys.(docs := Graced(sys.docs, ToGrace, pid, clock + sys.pending[pid]), pending := sys.pending - {pid})
    case Drop(pid) => sys.(pending := sys.pending - {pid})
    case Tick(to) => sys.(now := to)
    case Purge(pid) => sys.(docs := sys.docs - {pid})
    case EvictEntry(pid) => sys.(caches := sys.caches - {pid})
  }

  function Dead(sys: System): set<string> {
    set pid | pid in sys.docs && sys.docs[pid].expiresAt <= sys.now
  }

  /** One action, and the note of what has died. */
  function Next(w: World, sys: System, a: Action): System
    requires Allowed(w, sys, a)
  {
    var sys' := Do(w, sys, a);
    sys'.(died := sys'.died + Dead(sys'))
  }

  ghost predicate Performs(w: World, sys0: System, actions: seq<Action>, sys: System)
    decreases |actions|
  {
    if actions == [] then sys == sys0
    else Allowed(w, sys0, actions[0]) && Performs(w, Next(w, sys0, actions[0]), actions[1..], sys)
  }

  function Start(now: real): System { System(map[], map[], map[], map[], now, {}) }

  ghost predicate Arises(w: World, sys: System) {
    exists now, actions :: Performs(w, Start(now), actions, sys)
  }

  // The simulation.

  predicate SameView(a: Slot, v: Slot) { a.(won := None) == v.(won := None) }

  predicate DeadKnown(sys: System) { Dead(sys) <= sys.died }

  ghost predicate Simulates(s: State, sys: System) {
    && s.requests == sys.requests && DeadKnown(sys)
    && forall pid :: SameView(SlotOf(s, pid), View(sys, pid))
  }

  /** Equal up to an expiry or a revival. */
  predicate Mendable(a: Slot, v: Slot) {
    && a.cache == v.cache && a.pending == v.pending
    && (SameView(a, v) || (v.auth.None? && v.expired) || (v.auth.Some? && a.auth.None? && a.expired && v.expired))
  }

  ghost predicate Near(s: State, sys: System, off: set<string>) {
    && s.requests == sys.requests && DeadKnown(sys)
    && forall pid :: Mendable(SlotOf(s, pid), View(sys, pid)) && (pid !in off ==> SameView(SlotOf(s, pid), View(sys, pid)))
  }

  lemma {:induction false} MendOne(w: World, s: State, sys: System, off: set<string>, pid: string)
    returns (events: seq<Event>, s': State)
    requires Near(s, sys, off) && pid in off
    ensures Runs(w, s, events, s') && Near(s', sys, off - {pid})
  {
    var a, v := SlotOf(s, pid), View(sys, pid);
    if SameView(a, v) {
      events, s' := [], s;
    } else {
      var e := Happen(pid, if v.auth.None? then Expire else Revive(v.auth.value));
      events, s' := [e], Step(w, s, e);
      assert events[1..] == [];
      assert SameView(SlotOf(s', pid), v);
      assert forall p :: p != pid ==> SlotOf(s', p) == SlotOf(s, p);
    }
  }

  lemma {:induction false} MendAll(w: World, s: State, sys: System, off: set<string>)
    returns (events: seq<Event>, s': State)
    requires Near(s, sys, off)
    ensures Runs(w, s, events, s') && Simulates(s', sys)
    decreases |off|
  {
    if off == {} {
      events, s' := [], s;
    } else {
      var pid :| pid in off;
      var first, s1 := MendOne(w, s, sys, off, pid);
      var rest;
      rest, s' := MendAll(w, s1, sys, off - {pid});
      RunsThenRuns(w, s, first, s1, rest, s');
      events := first + rest;
    }
  }

  /** An action that concerns only `pid` leaves the view of every other id. */
  lemma {:induction false} OthersKeepTheirView(sys: System, do: System, pid: string, p: string)
    requires DeadKnown(sys) && p != pid && do.now == sys.now && do.died == sys.died
    requires do.docs - {pid} == sys.docs - {pid}
    requires do.caches - {pid} == sys.caches - {pid} && do.pending - {pid} == sys.pending - {pid}
    ensures View(do.(died := do.died + Dead(do)), p) == View(sys, p)
  {
    assert p in do.docs <==> p in do.docs - {pid};
    assert p in sys.docs <==> p in sys.docs - {pid};
    assert p in do.docs ==> (do.docs - {pid})[p] == do.docs[p] && (sys.docs - {pid})[p] == sys.docs[p];
    assert p in do.caches <==> p in do.caches - {pid};
    assert p in sys.caches <==> p in sys.caches - {pid};
    assert p in do.caches ==> (do.caches - {pid})[p] == do.caches[p] && (sys.caches - {pid})[p] == sys.caches[p];
    assert p in do.pending <==> p in do.pending - {pid};
    assert p in sys.pending <==> p in sys.pending - {pid};
  }

  /** Steps that neither write the authority nor note an update depend on the view only. */
  lemma {:induction false} StepOnView(w: World, a: Slot, v: Slot, req: Request, c: Choice)
    requires Enabled(w, req, c) && SameView(a, v)
    requires !req.pc.Insert? && !req.pc.Reclaim? && !req.pc.MarkAuth?
    ensures StepRequest(w, a, req, c).1 == StepRequest(w, v, req, c).1
    ensures SameView(StepRequest(w, a, req, c).0, StepRequest(w, v, req, c).0)
    ensures StepRequest(w, v, req, c).0 == v.(cache := StepRequest(w, v, req, c).0.cache)
  {
    hide AfterGet, AnswerWithoutStorage, BuildRecord;
  }

  /** The protocol's choice that does what the document store does. */
  function Mirror(sys: System, pid: string, req: Request, c: Choice, clock: real): Choice {
    if req.pc.Insert? && c.Backend? then Backend(c.call, pid in sys.docs)
    else if req.pc.Reclaim? && c.Backend? then Backend(c.call, Reclaimable(sys.docs, pid, clock))
    else c
  }

  /** Steps that write no document leave the views of this id equal. */
  lemma {:induction false} ReadMirrors(w: World, s: State, sys: System, id: nat, c: Choice, clock: real, ttl: real)
    requires Simulates(s, sys) && Allowed(w, sys, Act(id, c, clock, ttl))
    requires var pc := sys.requests[id].1.pc; !pc.Insert? && !pc.Reclaim? && !pc.MarkAuth?
    ensures var (pid, req) := sys.requests[id];
            var (slot, req') := StepRequest(w, SlotOf(s, pid), req, c);
            var sys' := Next(w, sys, Act(id, c, clock, ttl));
            sys'.requests == s.requests[id := (pid, req')] && SameView(slot, View(sys', pid))
  {
    hide StepRequest;
    var (pid, req) := sys.requests[id];
    StepOnView(w, SlotOf(s, pid), View(sys, pid), req, c);
  }

  /** The protocol's insert step: `free` as the document store sees it. */
  lemma {:induction false} InsertStep(w: World, slot: Slot, req: Request, c: Choice)
    requires Enabled(w, req, c) && req.pc.Insert? && c.Backend? && (slot.auth.None? && c.other ==> slot.expired)
    ensures var Insert(t, rec) := req.pc;
            var free := slot.auth.None? && !c.other;
            && StepRequest(w, slot, req, c).0 == (if TakesEffect(c.call) && free then Inserted(slot, req.payload, req.consumer, t, rec) else slot)
            && StepRequest(w, slot, req, c).1
               == if !c.call.Fine? then AfterFailedSave(req, t, rec)
                  else if free then AfterSave(req, t, rec, true)
                  else AtPc(req, Reclaim(t, rec))
  {
  }

  lemma {:induction false} InsertMirrors(w: World, s: State, sys: System, id: nat, c: Choice, clock: real, ttl: real)
    requires Simulates(s, sys) && Allowed(w, sys, Act(id, c, clock, ttl)) && sys.requests[id].1.pc.Insert?
    ensures var (pid, req) := sys.requests[id];
            var c' := Mirror(sys, pid, req, c, clock);
            Enabled(w, req, c') &&
            var (slot, req') := StepRequest(w, SlotOf(s, pid), req, c');
            var sys' := Next(w, sys, Act(id, c, clock, ttl));
            && sys'.requests == s.requests[id := (pid, req')] && Mendable(slot, View(sys', pid))
            && (pid !in sys'.docs ==> SameView(slot, View(sys', pid)))
  {
    var (pid, req) := sys.requests[id];
    hide StepRequest;
    assert SameView(SlotOf(s, pid), View(sys, pid));
    assert pid in sys.docs && sys.docs[pid].expiresAt <= sys.now ==> pid in Dead(sys);
    InsertStep(w, SlotOf(s, pid), req, Mirror(sys, pid, req, c, clock));
  }

  lemma {:induction false} ReclaimMirrors(w: World, s: State, sys: System, id: nat, c: Choice, clock: real, ttl: real)
    requires Simulates(s, sys) && Allowed(w, sys, Act(id, c, clock, ttl)) && sys.requests[id].1.pc.Reclaim?
    ensures var (pid, req) := sys.requests[id];
            var c' := Mirror(sys, pid, req, c, clock);
            Enabled(w, req, c') &&
            var (slot, req') := StepRequest(w, SlotOf(s, pid), req, c');
            var sys' := Next(w, sys, Act(id, c, clock, ttl));
            && sys'.requests == s.requests[id := (pid, req')] && Mendable(slot, View(sys', pid))
            && (pid !in sys'.docs ==> SameView(slot, View(sys', pid)))
  {
    var (pid, req) := sys.requests[id];
    assert SameView(SlotOf(s, pid), View(sys, pid));
    assert pid in sys.docs && sys.docs[pid].expiresAt <= sys.now ==> pid in Dead(sys);
  }

  lemma {:induction false} MarkMirrors(w: World, s: State, sys: System, id: nat, c: Choice, clock: real, ttl: real)
    requires Simulates(s, sys) && Allowed(w, sys, Act(id, c, clock, ttl)) && sys.requests[id].1.pc.MarkAuth?
    ensures var (pid, req) := sys.requests[id];
            var (slot, req') := StepRequest(w, SlotOf(s, pid), req, c);
            var sys' := Next(w, sys, Act(id, c, clock, ttl));
            && sys'.requests == s.requests[id := (pid, req')] && Mendable(slot, View(sys', pid))
            && (pid !in sys'.docs ==> SameView(slot, View(sys', pid)))
  {
    var (pid, req) := sys.requests[id];
    assert SameView(SlotOf(s, pid), View(sys, pid));
    assert pid in sys.docs && sys.docs[pid].expiresAt <= sys.now ==> pid in Dead(sys);
  }

  /** After one action and the matching step of the protocol, the views of this id are equal up to
      an expiry or a revival. */
  lemma {:induction false} ActMirrors(w: World, s: State, sys: System, id: nat, c: Choice, clock: real, ttl: real)
    requires Simulates(s, sys) && Allowed(w, sys, Act(id, c, clock, ttl))
    ensures var (pid, req) := sys.requests[id];
            var c' := Mirror(sys, pid, req, c, clock);
            Enabled(w, req, c') &&
            var (slot, req') := StepRequest(w, SlotOf(s, pid), req, c');
            var sys' := Next(w, sys, Act(id, c, clock, ttl));
            && sys'.requests == s.requests[id := (pid, req')] && Mendable(slot, View(sys', pid))
            && (pid !in sys'.docs ==> SameView(slot, View(sys', pid)))
  {
    hide StepRequest, Next, View;
    match sys.requests[id].1.pc
    case Insert(_, _) => InsertMirrors(w, s, sys, id, c, clock, ttl);
    case Reclaim(_, _) => ReclaimMirrors(w, s, sys, id, c, clock, ttl);
    case MarkAuth(_) => MarkMirrors(w, s, sys, id, c, clock, ttl);
    case _ => ReadMirrors(w, s, sys, id, c, clock, ttl);
  }

  lemma {:induction false} ActTouchesOne(w: World, sys: System, id: nat, c: Choice, clock: real, ttl: real, p: string)
    requires DeadKnown(sys) && Allowed(w, sys, Act(id, c, clock, ttl)) && p != sys.requests[id].0
    ensures View(Next(w, sys, Act(id, c, clock, ttl)), p) == View(sys, p)
  {
    hide StepRequest, View;
    OthersKeepTheirView(sys, ActOn(w, sys, id, c, clock, ttl), sys.requests[id].0, p);
  }

  lemma {:induction false} DeadStaysKnown(w: World, sys: System, a: Action)
    requires Allowed(w, sys, a)
    ensures DeadKnown(Next(w, sys, a))
  {
    hide Do;
    var sys' := Do(w, sys, a);
    assert Dead(sys'.(died := sys'.died + Dead(sys'))) == Dead(sys');
  }

  lemma {:induction false} ActNears(w: World, s: State, sys: System, id: nat, c: Choice, clock: real, ttl: real)
    returns (events: seq<Event>, s': State)
    requires Simulates(s, sys) && Allowed(w, sys, Act(id, c, clock, ttl))
    ensures var sys' := Next(w, sys, Act(id, c, clock, ttl));
            Runs(w, s, events, s') && Near(s', sys', sys'.docs.Keys)
  {
    hide StepRequest, View, Do;
    var a := Act(id, c, clock, ttl);
    var (pid, req) := sys.requests[id];
    ActMirrors(w, s, sys, id, c, clock, ttl);
    DeadStaysKnown(w, sys, a);
    var e := Move(id, Mirror(sys, pid, req, c, clock));
    events, s' := [e], Step(w, s, e);
    assert events[1..] == [];
    forall p | p != pid ensures SlotOf(s', p) == SlotOf(s, p) && View(Next(w, sys, a), p) == View(sys, p) {
      ActTouchesOne(w, sys, id, c, clock, ttl, p);
    }
  }

  // The other actions, each on its id.

  predicate Answers(a: Action, pid: string, weather: Weather) {
    match a
    case FlushOne(p, _) => p == pid && weather == Flush(true)
    case Drop(p) => p == pid && weather == Flush(false)
    case EvictEntry(p) => p == pid && weather == Evict
    case _ => false
  }

  lemma {:induction false} FlushMirrors(w: World, s: State, sys: System, pid: string, clock: real)
    requires Simulates(s, sys) && Allowed(w, sys, FlushOne(pid, clock))
    ensures var slot, sys' := StepWeather(SlotOf(s, pid), Flush(true)), Next(w, sys, FlushOne(pid, clock));
            Mendable(slot, View(sys', pid)) && (pid !in sys'.docs ==> SameView(slot, View(sys', pid)))
  {
    assert SameView(SlotOf(s, pid), View(sys, pid));
    assert pid in sys.docs && sys.docs[pid].expiresAt <= sys.now ==> pid in Dead(sys);
  }

  lemma {:induction false} DropMirrors(w: World, s: State, sys: System, a: Action, pid: string, weather: Weather)
    requires Simulates(s, sys) && Allowed(w, sys, a) && Answers(a, pid, weather) && !a.FlushOne?
    ensures SameView(StepWeather(SlotOf(s, pid), weather), View(Next(w, sys, a), pid))
  {
    assert SameView(SlotOf(s, pid), View(sys, pid));
    assert Dead(Next(w, sys, a)) == Dead(sys);
  }

  lemma {:induction false} WeatherTouchesOne(w: World, sys: System, a: Action, pid: string, weather: Weather, p: string)
    requires DeadKnown(sys) && Allowed(w, sys, a) && Answers(a, pid, weather) && p != pid
    ensures View(Next(w, sys, a), p) == View(sys, p)
  {
    hide View;
    OthersKeepTheirView(sys, Do(w, sys, a), pid, p);
  }

  lemma {:induction false} WeatherNears(w: World, s: State, sys: System, a: Action, pid: string, weather: Weather)
    returns (events: seq<Event>, s': State)
    requires Simulates(s, sys) && Allowed(w, sys, a) && Answers(a, pid, weather)
    ensures Runs(w, s, events, s') && Near(s', Next(w, sys, a), Next(w, sys, a).docs.Keys)
  {
    hide View, Dead, StepWeather;
    var sys', e := Next(w, sys, a), Happen(pid, weather);
    DeadStaysKnown(w, sys, a);
    if a.FlushOne? {
      FlushMirrors(w, s, sys, pid, a.clock);
    } else {
      DropMirrors(w, s, sys, a, pid, weather);
    }
    events, s' := [e], Step(w, s, e);
    assert events[1..] == [];
    forall p | p != pid ensures SlotOf(s', p) == SlotOf(s, p) && View(sys', p) == View(sys, p) {
      WeatherTouchesOne(w, sys, a, pid, weather, p);
    }
  }

  /** Time and the purge need no step of the protocol but expiries. */
  lemma {:induction false} QuietNears(w: World, s: State, sys: System, a: Action)
    requires Simulates(s, sys) && Allowed(w, sys, a) && (a.Tick? || a.Purge?)
    ensures Near(s, Next(w, sys, a), Next(w, sys, a).docs.Keys)
  {
    DeadStaysKnown(w, sys, a);
    forall pid
      ensures Mendable(SlotOf(s, pid), View(Next(w, sys, a), pid))
      ensures pid !in Next(w, sys, a).docs ==> SameView(SlotOf(s, pid), View(Next(w, sys, a), pid))
    {
      assert SameView(SlotOf(s, pid), View(sys, pid));
      assert pid in sys.docs && sys.docs[pid].expiresAt <= sys.now ==> pid in Dead(sys);
    }
  }

  lemma {:induction false} ComeNears(w: World, s: State, sys: System, a: Action)
    returns (events: seq<Event>, s': State)
    requires Simulates(s, sys) && Allowed(w, sys, a) && a.Come?
    ensures Runs(w, s, events, s') && Simulates(s', Next(w, sys, a))
  {
    var e := Arrive(a.id, a.pid, a.payload, a.consumer);
    events, s' := [e], Step(w, s, e);
    assert events[1..] == [];
    assert Dead(Next(w, sys, a)) == Dead(sys);
    assert forall pid :: SlotOf(s', pid) == SlotOf(s, pid) && View(Next(w, sys, a), pid) == View(sys, pid);
  }

  /** Every action is some run of the protocol. */
  lemma {:induction false} ActionSimulated(w: World, s: State, sys: System, a: Action) returns (events: seq<Event>, s': State)
    requires Simulates(s, sys) && Allowed(w, sys, a)
    ensures Runs(w, s, events, s') && Simulates(s', Next(w, sys, a))
  {
    hide Next, Near, Simulates;
    if a.Come? {
      events, s' := ComeNears(w, s, sys, a);
    } else {
      match a {
        case Act(id, c, clock, ttl) => events, s' := ActNears(w, s, sys, id, c, clock, ttl);
        case FlushOne(pid, _) => events, s' := WeatherNears(w, s, sys, a, pid, Flush(true));
        case Drop(pid) => events, s' := WeatherNears(w, s, sys, a, pid, Flush(false));
        case EvictEntry(pid) => events, s' := WeatherNears(w, s, sys, a, pid, Evict);
        case _ =>
          QuietNears(w, s, sys, a);
          events, s' := [], s;
      }
      var more, s2 := MendAll(w, s', Next(w, sys, a), Next(w, sys, a).docs.Keys);
      RunsThenRuns(w, s, events, s', more, s2);
      events, s' := events + more, s2;
    }
  }

  /** Every run of the document store system is a run of the protocol, with the same requests at
      the same point, the same visible records and caches. */
  lemma {:induction false} DocumentsRefineProtocol(w: World, s0: State, sys0: System, actions: seq<Action>, sys: System)
    returns (events: seq<Event>, s: State)
    requires Simulates(s0, sys0) && Performs(w, sys0, actions, sys)
    ensures Runs(w, s0, events, s) && Simulates(s, sys)
    decreases |actions|
  {
    hide Next, Simulates;
    if actions == [] {
      events, s := [], s0;
    } else {
      var first, s1 := ActionSimulated(w, s0, sys0, actions[0]);
      var rest;
      rest, s := DocumentsRefineProtocol(w, s1, Next(w, sys0, actions[0]), actions[1..], sys);
      RunsThenRuns(w, s0, first, s1, rest, s);
      events := first + rest;
    }
  }

  lemma {:induction false} ArisesIsReachable(w: World, sys: System) returns (s: State)
    requires Arises(w, sys)
    ensures Reachable(w, s) && Simulates(s, sys)
  {
    var now, actions :| Performs(w, Start(now), actions, sys);
    assert Simulates(INITIAL, Start(now));
    var events;
    events, s := DocumentsRefineProtocol(w, INITIAL, Start(now), actions, sys);
  }

  // So the promises hold here.

  ghost predicate Answered(sys: System, id: nat, pid: string, payload: string, c: Consumer, r: Outcome) {
    && id in sys.requests && sys.requests[id].0 == pid
    && sys.requests[id].1.payload == payload && sys.requests[id].1.consumer == c && sys.requests[id].1.pc == Done(r)
  }

  /** Until the document of this id dies: a masking reply that differs from its input has a live
      document of exactly this pair of texts, which turns it back. */
  lemma {:induction false} MaskedRepliesHaveDocuments(
      w: World, sys: System, id: nat, pid: string, payload: string, c: Consumer, result: string, d: Direction, stored: bool)
    requires ValidWorld(w) && Splices(w) && Arises(w, sys) && pid !in sys.died
    requires Answered(sys, id, pid, payload, c, Reply(result, d, stored)) && Masking(d) && result != payload
    ensures pid in sys.docs && sys.docs[pid].expiresAt > sys.now
    ensures var r := sys.docs[pid].record;
            && ApplyDemask(result, r.occurrences) == payload && ApplyMask(payload, r.occurrences) == result
            && r.originalFp == w.fingerprint(payload) && r.transformedFp == w.fingerprint(result)
  {
    hide ApplyMask, ApplyDemask, Reachable, Arises;
    var s := ArisesIsReachable(w, sys);
    assert SameView(SlotOf(s, pid), View(sys, pid));
    MaskedRepliesAreReversible(w, s, id, pid, payload, c, result, d, stored);
  }

  /** And whoever sends it back gets the payload when the consumer whose request created the
      document may demask and the asking one too, and the same text otherwise. */
  lemma {:induction false} ResentRepliesComeBack(
      w: World, sys: System, creator: nat, p0: string, c0: Consumer, m0: string,
      first: nat, again: nat, pid: string, payload: string, c: Consumer, masked: string,
      d: Direction, stored: bool, c': Consumer, result: string, d': Direction)
    requires ValidWorld(w) && Arises(w, sys) && pid !in sys.died
    requires Answered(sys, creator, pid, p0, c0, Reply(m0, MaskReply, true))
    requires Answered(sys, first, pid, payload, c, Reply(masked, d, stored)) && Masking(d) && masked != payload
    requires Answered(sys, again, pid, masked, c', Reply(result, d', true))
    ensures d'.DemaskReply? && result == if c0.demask && c'.demask then payload else masked
  {
    hide Reachable, Arises;
    var s := ArisesIsReachable(w, sys);
    assert SameView(SlotOf(s, pid), View(sys, pid));
    CreatorIsKnown(w, s, creator, pid, p0, c0, m0);
    ResentRepliesAre(w, s, first, again, pid, payload, c, masked, d, stored, c', result, d', c0);
  }

  /** Two replies given from the store for one id agree, whatever happened between the separate
      operations of their saves. */
  lemma {:induction false} OneDocumentDecides(
      w: World, sys: System, one: nat, two: nat, pid: string, p1: string, c1: Consumer, r1: string, d1: Direction,
      p2: string, c2: Consumer, r2: string, d2: Direction)
    requires ValidWorld(w) && Arises(w, sys) && pid !in sys.died
    requires Answered(sys, one, pid, p1, c1, Reply(r1, d1, true)) && Masking(d1)
    requires Answered(sys, two, pid, p2, c2, Reply(r2, d2, true)) && Masking(d2)
    ensures p1 == p2 && r1 == r2
  {
    hide Reachable, Arises;
    var s := ArisesIsReachable(w, sys);
    assert SameView(SlotOf(s, pid), View(sys, pid));
    WinnerDecides(w, s, one, two, pid, p1, c1, r1, d1, p2, c2, r2, d2);
  }

  // The store's methods, in these actions.

  lemma {:induction false} OneLess(pending: map<string, real>, pid: string)
    requires pid in pending
    ensures |pending - {pid}| < |pending|
  {
    assert (pending - {pid}).Keys == pending.Keys - {pid};
    assert |pending.Keys - {pid}| < |pending.Keys|;
  }

  lemma {:induction false} NothingFlushed(docs: map<string, Entry<Record>>, clock: real)
    ensures Flushed(docs, ToGrace, map[], clock, docs)
  {
  }

  lemma {:induction false} FlushedOneMore(
      docs: map<string, Entry<Record>>, pending: map<string, real>, clock: real, pid: string, after: map<string, Entry<Record>>)
    requires pid in pending
    requires Flushed(Graced(docs, ToGrace, pid, clock + pending[pid]), ToGrace, pending - {pid}, clock, after)
    ensures Flushed(docs, ToGrace, pending, clock, after)
  {
    assert Graced(docs, ToGrace, pid, clock + pending[pid]).Keys == docs.Keys;
  }

  /** `flush_grace_now` is one flush after the other, of every pending id. */
  lemma {:induction false} FlushIsFlushes(w: World, sys: System, clock: real) returns (actions: seq<Action>, sys': System)
    requires clock <= sys.now
    ensures Performs(w, sys, actions, sys') && sys'.pending == map[] && sys'.now == sys.now
    ensures sys'.requests == sys.requests && sys'.caches == sys.caches
    ensures Flushed(sys.docs, ToGrace, sys.pending, clock, sys'.docs)
    decreases |sys.pending|
  {
    hide Flushed, Graced;
    if sys.pending == map[] {
      NothingFlushed(sys.docs, clock);
      actions, sys' := [], sys;
    } else {
      var pid :| pid in sys.pending;
      var a := FlushOne(pid, clock);
      var sys1 := Next(w, sys, a);
      OneLess(sys.pending, pid);
      var rest;
      rest, sys' := FlushIsFlushes(w, sys1, clock);
      actions := [a] + rest;
      assert actions[1..] == rest;
      FlushedOneMore(sys.docs, sys.pending, clock, pid, sys'.docs);
    }
  }
}
