/** The `/process` protocol over the two-tier store, as a transition system.

    Any number of requests run at once. Each atomic step of a request is one backend call or one
    local computation; between any two steps other requests may move, and the environment may
    evict cache entries, let the authority's entry expire, flush or drop a batched grace update.
    Any backend call may fail, before or after it took effect, or be refused by a breaker. */
module Protocol {
  import opened Engine
  import opened Models
  import opened Occurrences

  /** What a run takes as given. */
  datatype World = World(
    fingerprint: string -> string,                     // payload_fingerprint
    applyMask: (string, seq<Occurrence>) -> string,    // apply_mask_from_record
    applyDemask: (string, seq<Occurrence>) -> string,  // apply_demask_from_record
    demask: (string, seq<Mapping>, Mode) -> string,    // content-based demasking
    traced: string -> bool)                            // token pattern or "**" found in the payload

  ghost predicate ValidWorld(w: World) {
    forall a, b :: w.fingerprint(a) == w.fingerprint(b) ==> a == b
  }

  /** The world of the service: the two splices are those of Occurrences. */
  ghost predicate Splices(w: World) {
    forall p, o :: w.applyMask(p, o) == ApplyMask(p, o) && w.applyDemask(p, o) == ApplyDemask(p, o)
  }

  /** What the pipeline promises of a transform, in terms of the world's splices. */
  predicate Undoable(w: World, payload: string, t: Transform) {
    && w.applyMask(payload, t.occurrences) == t.text
    && w.applyDemask(t.text, t.occurrences) == payload
    && (t.mappings == [] ==> t.text == payload)
  }

  lemma {:induction false} ReversibleIsUndoable(w: World, payload: string, t: Transform)
    requires Splices(w)
    ensures Undoable(w, payload, t) <==> Reversible(payload, t)
  {
  }

  datatype Lifecycle = Active | DemaskedGrace

  datatype Record = Record(
    state: Lifecycle, mode: Mode, originalFp: string, transformedFp: string, noPii: bool,
    demaskEnabled: bool, mappings: seq<Mapping>, occurrences: seq<Occurrence>)

  datatype Consumer = Consumer(mode: Mode, demask: bool)

  function BuildRecord(w: World, t: Transform, payload: string, c: Consumer): Record {
    Record(Active, c.mode, w.fingerprint(payload), w.fingerprint(t.text), t.mappings == [],
           c.demask, t.mappings, t.occurrences)
  }

  /** A record up to its lifecycle state. */
  function Core(r: Record): Record { r.(state := Active) }

  datatype Direction = MaskReply | DemaskReply | RetryMaskReply

  /** `stored` says that the reply was given from a persisted record. */
  datatype Outcome =
    | Reply(result: string, direction: Direction, stored: bool)
    | Unavailable
    | Conflict

  /** Why `get` is called: first lookup, or reading the winner after a lost insert. */
  datatype Purpose = Lookup | Winner(mine: Record)

  datatype Pc =
    | CacheGet(why: Purpose)
    | AuthGet(why: Purpose, cacheOk: bool)
    | Backfill(why: Purpose, record: Record)
    | Got(why: Purpose, found: Option<Record>)
    | Analyse
    | Insert(t: Transform, rec: Record)
    | Reclaim(t: Transform, rec: Record)
    | CacheWrite(t: Transform, rec: Record)
    | Degraded
    | MarkAuth(result: string)
    | MarkCacheGet(result: string)
    | MarkCacheWrite(result: string, record: Record)
    | Done(outcome: Outcome)

  /** `lost` remembers that the request's insert found the id taken. */
  datatype Request = Request(payload: string, consumer: Consumer, pc: Pc, lost: bool)

  /** The insert that took effect first for a payload id. A history variable: no step reads it. */
  datatype Win = Win(payload: string, t: Transform, record: Record, consumer: Consumer)

  /** What the backends hold for one payload id. `expired`: the authority's entry has expired
      at least once, so nothing is claimed any more. */
  datatype Slot = Slot(auth: Option<Record>, cache: Option<Record>, pending: bool, expired: bool, won: Option<Win>)

  const EMPTY_SLOT: Slot := Slot(None, None, false, false, None)

  /** How a backend call ends. `Skipped`: no cache configured, or refused by the open breaker. */
  datatype Call = Fine | FailedBefore | FailedAfter | Skipped

  /** The environment's choice for one step of a request. */
  datatype Choice =
    | Backend(call: Call, other: bool)   // `other`: see Insert, Reclaim and MarkAuth
    | Transformed(t: Transform)          // what the pipeline made of the payload
    | Local

  predicate Enabled(w: World, req: Request, c: Choice) {
    match req.pc
    case Got(_, _) => c.Local?
    case Analyse => c.Transformed? && Undoable(w, req.payload, c.t)
    case Degraded => c.Transformed? && Undoable(w, req.payload, c.t)
    case Done(_) => false
    case _ => c.Backend?
  }

  function AtPc(req: Request, pc: Pc): Request { req.(pc := pc) }

  /** `get` returned `found`: what `process` and `_first_request` make of it. */
  function AfterGet(w: World, req: Request, why: Purpose, found: Option<Record>): Request {
    match why
    case Winner(mine) => AtPc(req, Done(JudgeWinner(w, req.payload, mine, found)))
    case Lookup =>
      if found.None? then AtPc(req, Analyse)
      else Answer(w, req, found.value)
  }

  function JudgeWinner(w: World, payload: string, mine: Record, found: Option<Record>): Outcome {
    if found.None? then Unavailable
    else if found.value.originalFp != mine.originalFp then Conflict
    else Reply(w.applyMask(payload, found.value.occurrences), RetryMaskReply, true)
  }

  function Answer(w: World, req: Request, r: Record): Request {
    var fp := w.fingerprint(req.payload);
    if fp == r.originalFp then
      AtPc(req, Done(Reply(w.applyMask(req.payload, r.occurrences), RetryMaskReply, true)))
    else if !r.demaskEnabled || !req.consumer.demask then
      AtPc(req, Done(Reply(req.payload, DemaskReply, true)))
    else
      var result :=
        if fp == r.transformedFp then w.applyDemask(req.payload, r.occurrences)
        else w.demask(req.payload, r.mappings, r.mode);
      if r.state.DemaskedGrace? then AtPc(req, Done(Reply(result, DemaskReply, true)))
      else AtPc(req, MarkAuth(result))
  }

  function AnswerWithoutStorage(w: World, payload: string, t: Transform): Outcome {
    if w.traced(payload) || t.mappings != [] then Unavailable
    else Reply(payload, MaskReply, false)
  }

  /** The get failed: the first lookup is answered without storage, the winner's is an error. */
  function GetFailed(req: Request, why: Purpose): Request {
    match why
    case Lookup => AtPc(req, Degraded)
    case Winner(_) => AtPc(req, Done(Unavailable))
  }

  predicate TakesEffect(c: Call) { c.Fine? || c.FailedAfter? }

  /** The insert of a request takes effect; the first one ever for this id wins it. */
  function Inserted(slot: Slot, payload: string, c: Consumer, t: Transform, rec: Record): Slot {
    slot.(auth := Some(rec), won := if slot.won.None? then Some(Win(payload, t, rec, c)) else slot.won)
  }

  /** `save_if_absent` answered: created, or the id is taken. */
  function AfterSave(req: Request, t: Transform, rec: Record, created: bool): Request {
    if created then AtPc(req, CacheWrite(t, rec))
    else req.(pc := CacheGet(Winner(rec)), lost := true)
  }

  /** `save_if_absent` failed: only a transform without PII may still be answered. */
  function AfterFailedSave(req: Request, t: Transform, rec: Record): Request {
    if rec.noPii then AtPc(req, Done(Reply(t.text, MaskReply, false)))
    else AtPc(req, Done(Unavailable))
  }

  function GraceIn(r: Option<Record>): Option<Record> {
    if r.None? then None else Some(r.value.(state := DemaskedGrace))
  }

  /** One atomic step of a request on the slot of its payload id. */
  function StepRequest(w: World, slot: Slot, req: Request, c: Choice): (Slot, Request)
    requires Enabled(w, req, c)
  {
    match req.pc
    case CacheGet(why) =>
      if c.call.Fine? then
        if slot.cache.Some? then (slot, AtPc(req, Got(why, slot.cache)))
        else (slot, AtPc(req, AuthGet(why, true)))
      else (slot, AtPc(req, AuthGet(why, false)))
    case AuthGet(why, cacheOk) =>
      if !c.call.Fine? then (slot, GetFailed(req, why))
      else if slot.auth.Some? && cacheOk then (slot, AtPc(req, Backfill(why, slot.auth.value)))
      else (slot, AtPc(req, Got(why, slot.auth)))
    case Backfill(why, r) =>
      (if TakesEffect(c.call) then slot.(cache := Some(r)) else slot, AtPc(req, Got(why, Some(r))))
    case Got(why, found) => (slot, AfterGet(w, req, why, found))
    case Analyse => (slot, AtPc(req, Insert(c.t, BuildRecord(w, c.t, req.payload, req.consumer))))
    case Insert(t, rec) =>
      // insert_one: a duplicate key leads to the conditional replace. `other`: an expired
      // document still occupies the key.
      var free := slot.auth.None? && !(slot.expired && c.other);
      var slot' := if TakesEffect(c.call) && free then Inserted(slot, req.payload, req.consumer, t, rec) else slot;
      if !c.call.Fine? then (slot', AfterFailedSave(req, t, rec))
      else if free then (slot', AfterSave(req, t, rec, true))
      else (slot', AtPc(req, Reclaim(t, rec)))
    case Reclaim(t, rec) =>
      // replace_one if expired. `other`: the expired document was not purged in between.
      var free := slot.auth.None? && c.other;
      var slot' := if TakesEffect(c.call) && free then Inserted(slot, req.payload, req.consumer, t, rec) else slot;
      if !c.call.Fine? then (slot', AfterFailedSave(req, t, rec))
      else (slot', AfterSave(req, t, rec, free))
    case CacheWrite(t, rec) =>
      (if TakesEffect(c.call) then slot.(cache := Some(rec)) else slot, AtPc(req, Done(Reply(t.text, MaskReply, true))))
    case Degraded => (slot, AtPc(req, Done(AnswerWithoutStorage(w, req.payload, c.t))))
    case MarkAuth(result) =>
      // `other`: the update is batched instead of written at once
      (if !TakesEffect(c.call) then slot else if c.other then slot.(pending := true) else slot.(auth := GraceIn(slot.auth)),
       AtPc(req, MarkCacheGet(result)))
    case MarkCacheGet(result) =>
      if c.call.Fine? && slot.cache.Some? then (slot, AtPc(req, MarkCacheWrite(result, slot.cache.value)))
      else (slot, AtPc(req, Done(Reply(result, DemaskReply, true))))
    case MarkCacheWrite(result, r) =>
      (if TakesEffect(c.call) then slot.(cache := GraceIn(Some(r))) else slot,
       AtPc(req, Done(Reply(result, DemaskReply, true))))
  }

  /** What happens to a slot without any request: a cache entry goes, the authority's entry
      expires, the batched grace update is flushed (`applied`) or its write is lost, a grace
      update that comes after the expiry revives the document that was not purged yet. */
  datatype Weather = Evict | Expire | Flush(applied: bool) | Revive(record: Record)

  function StepWeather(slot: Slot, e: Weather): Slot {
    match e
    case Evict => slot.(cache := None)
    case Expire => slot.(auth := None, expired := true)
    case Flush(applied) =>
      if !slot.pending then slot
      else if applied then slot.(auth := GraceIn(slot.auth), pending := false)
      else slot.(pending := false)
    case Revive(record) => if slot.auth.None? && slot.expired then slot.(auth := Some(record)) else slot
  }

  // The whole system: every payload id has a slot, every request belongs to one id.

  datatype State = State(slots: map<string, Slot>, requests: map<nat, (string, Request)>)

  function SlotOf(s: State, pid: string): Slot {
    if pid in s.slots then s.slots[pid] else EMPTY_SLOT
  }

  datatype Event =
    | Arrive(id: nat, pid: string, payload: string, consumer: Consumer)
    | Move(id: nat, choice: Choice)
    | Happen(pid: string, weather: Weather)

  predicate Possible(w: World, s: State, e: Event) {
    match e
    case Arrive(id, _, _, _) => id !in s.requests
    case Move(id, choice) => id in s.requests && Enabled(w, s.requests[id].1, choice)
    case Happen(_, _) => true
  }

  function Step(w: World, s: State, e: Event): State
    requires Possible(w, s, e)
  {
    match e
    case Arrive(id, pid, payload, consumer) =>
      s.(requests := s.requests[id := (pid, Request(payload, consumer, CacheGet(Lookup), false))])
    case Move(id, choice) =>
      var (pid, req) := s.requests[id];
      var (slot, req') := StepRequest(w, SlotOf(s, pid), req, choice);
      State(s.slots[pid := slot], s.requests[id := (pid, req')])
    case Happen(pid, weather) =>
      s.(slots := s.slots[pid := StepWeather(SlotOf(s, pid), weather)])
  }

  /** `s` follows from `s0` by some run of possible events. */
  ghost predicate Runs(w: World, s0: State, events: seq<Event>, s: State)
    decreases |events|
  {
    if events == [] then s == s0
    else Possible(w, s0, events[0]) && Runs(w, Step(w, s0, events[0]), events[1..], s)
  }

  const INITIAL: State := State(map[], map[])

  ghost predicate Reachable(w: World, s: State) {
    exists events :: Runs(w, INITIAL, events, s)
  }
}
