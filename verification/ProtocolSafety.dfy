/** What every run of the protocol keeps, for any number of concurrent requests and any backend
    failures. Claims about a payload id hold until the authority's entry first expires. */
module ProtocolSafety {
  import opened Models
  import opened Protocol

  /** The record of this transform of this payload, with the consumer's right to demask and mode. */
  predicate RecordOf(w: World, r: Record, payload: string, t: Transform, c: Consumer) {
    && r.demaskEnabled == c.demask && r.mode == c.mode
    && r.state.Active? && r.originalFp == w.fingerprint(payload) && r.transformedFp == w.fingerprint(t.text)
    && r.noPii == (t.mappings == []) && r.mappings == t.mappings && r.occurrences == t.occurrences
    && Undoable(w, payload, t)
  }

  /** The record agrees with the winner's on everything but the lifecycle state. */
  predicate FromWinner(slot: Slot, r: Record) {
    slot.won.Some? && Core(r) == slot.won.value.record
  }

  predicate Won(slot: Slot, payload: string, t: Transform) {
    slot.won.Some? && slot.won.value.payload == payload && slot.won.value.t == t
  }

  /** The request that won the id was this consumer's. */
  predicate MadeBy(slot: Slot, c: Consumer) {
    slot.won.Some? && slot.won.value.consumer == c
  }

  ghost predicate SlotInv(w: World, slot: Slot) {
    !slot.expired ==>
      if slot.won.None? then slot.auth.None? && slot.cache.None?
      else
        && RecordOf(w, slot.won.value.record, slot.won.value.payload, slot.won.value.t, slot.won.value.consumer)
        && slot.auth.Some? && FromWinner(slot, slot.auth.value)
        && (slot.cache.Some? ==> FromWinner(slot, slot.cache.value))
  }

  /** What a request with this payload and consumer is to receive when it demasks. */
  ghost predicate DemasksWell(w: World, slot: Slot, req: Request, result: string) {
    && slot.won.Some? && req.payload != slot.won.value.payload
    && var win := slot.won.value;
       result == if !win.consumer.demask || !req.consumer.demask then req.payload
                 else if req.payload == win.t.text then win.payload
                 else w.demask(req.payload, win.t.mappings, win.consumer.mode)
  }

  ghost predicate WhyInv(w: World, slot: Slot, req: Request, why: Purpose) {
    match why
    case Lookup => !req.lost
    case Winner(mine) =>
      req.lost && mine.originalFp == w.fingerprint(req.payload) && (!slot.expired ==> slot.won.Some?)
  }

  ghost predicate OutcomeInv(w: World, slot: Slot, req: Request, o: Outcome) {
    match o
    case Unavailable => req.lost && !slot.expired ==> slot.won.Some?
    case Conflict => req.lost && (!slot.expired ==> slot.won.Some? && slot.won.value.payload != req.payload)
    case Reply(result, direction, stored) =>
      if !stored then direction.MaskReply? && !req.lost && result == req.payload
      else if direction.DemaskReply? then !req.lost && (!slot.expired ==> DemasksWell(w, slot, req, result))
      else
        && (direction.MaskReply? ==> !req.lost && (!slot.expired ==> MadeBy(slot, req.consumer)))
        && (!slot.expired ==> slot.won.Some? && Won(slot, req.payload, slot.won.value.t) && result == slot.won.value.t.text)
  }

  ghost predicate RequestInv(w: World, slot: Slot, req: Request) {
    match req.pc
    case CacheGet(why) => WhyInv(w, slot, req, why)
    case AuthGet(why, _) => WhyInv(w, slot, req, why)
    case Backfill(why, r) => WhyInv(w, slot, req, why) && (!slot.expired ==> FromWinner(slot, r))
    case Got(why, found) =>
      && WhyInv(w, slot, req, why)
      && (!slot.expired && found.Some? ==> FromWinner(slot, found.value))
      && (!slot.expired && why.Winner? ==> found.Some?)
    case Analyse => !req.lost
    case Insert(t, rec) => !req.lost && RecordOf(w, rec, req.payload, t, req.consumer)
    case Reclaim(t, rec) => !req.lost && RecordOf(w, rec, req.payload, t, req.consumer) && (!slot.expired ==> slot.won.Some?)
    case CacheWrite(t, rec) =>
      !req.lost && (!slot.expired ==> Won(slot, req.payload, t) && MadeBy(slot, req.consumer) && FromWinner(slot, rec))
    case Degraded => !req.lost
    case MarkAuth(result) => !req.lost && (!slot.expired ==> DemasksWell(w, slot, req, result))
    case MarkCacheGet(result) => !req.lost && (!slot.expired ==> DemasksWell(w, slot, req, result))
    case MarkCacheWrite(result, r) =>
      !req.lost && (!slot.expired ==> DemasksWell(w, slot, req, result) && FromWinner(slot, r))
    case Done(o) => OutcomeInv(w, slot, req, o)
  }

  /** What other parties may do to a slot: the first winner stays, expiry is for ever. */
  predicate Evolves(old': Slot, new': Slot) {
    && (old'.expired ==> new'.expired)
    && (!new'.expired && old'.won.Some? ==> new'.won == old'.won)
  }

  /** A request's invariant survives whatever others do. */
  lemma {:induction false} RequestStable(w: World, slot: Slot, slot': Slot, req: Request)
    requires RequestInv(w, slot, req) && Evolves(slot, slot')
    ensures RequestInv(w, slot', req)
  {
  }

  lemma {:induction false} WeatherKeeps(w: World, slot: Slot, e: Weather)
    requires SlotInv(w, slot)
    ensures SlotInv(w, StepWeather(slot, e)) && Evolves(slot, StepWeather(slot, e))
  {
  }

  /** What one step of a request has to keep. */
  ghost predicate Keeps(w: World, slot: Slot, req: Request, c: Choice)
    requires Enabled(w, req, c)
  {
    var (slot', req') := StepRequest(w, slot, req, c);
    SlotInv(w, slot') && RequestInv(w, slot', req') && Evolves(slot, slot') && req'.payload == req.payload && req'.consumer == req.consumer
  }

  lemma {:induction false} CacheGetKeeps(w: World, slot: Slot, req: Request, c: Choice)
    requires ValidWorld(w) && SlotInv(w, slot) && RequestInv(w, slot, req) && Enabled(w, req, c) && req.pc.CacheGet?
    ensures Keeps(w, slot, req, c)
  {
  }

  lemma {:induction false} AuthGetKeeps(w: World, slot: Slot, req: Request, c: Choice)
    requires ValidWorld(w) && SlotInv(w, slot) && RequestInv(w, slot, req) && Enabled(w, req, c) && req.pc.AuthGet?
    ensures Keeps(w, slot, req, c)
  {
  }

  lemma {:induction false} BackfillKeeps(w: World, slot: Slot, req: Request, c: Choice)
    requires ValidWorld(w) && SlotInv(w, slot) && RequestInv(w, slot, req) && Enabled(w, req, c) && req.pc.Backfill?
    ensures Keeps(w, slot, req, c)
  {
  }

  lemma {:induction false} GotKeeps(w: World, slot: Slot, req: Request, c: Choice)
    requires ValidWorld(w) && SlotInv(w, slot) && RequestInv(w, slot, req) && Enabled(w, req, c) && req.pc.Got?
    ensures Keeps(w, slot, req, c)
  {
  }

  lemma {:induction false} AnalyseKeeps(w: World, slot: Slot, req: Request, c: Choice)
    requires ValidWorld(w) && SlotInv(w, slot) && RequestInv(w, slot, req) && Enabled(w, req, c) && req.pc.Analyse?
    ensures Keeps(w, slot, req, c)
  {
  }

  /** An insert into a free slot wins the id, unless it had a winner before an expiry. */
  lemma {:induction false} InsertedKeeps(w: World, slot: Slot, payload: string, c: Consumer, t: Transform, rec: Record)
    requires SlotInv(w, slot) && slot.auth.None? && RecordOf(w, rec, payload, t, c)
    ensures var slot' := Inserted(slot, payload, c, t, rec);
            && SlotInv(w, slot') && Evolves(slot, slot')
            && (!slot'.expired ==> Won(slot', payload, t) && MadeBy(slot', c) && FromWinner(slot', rec))
  {
  }

  /** The two writes of `save_if_absent`: the slot after the write, and where the request goes. */
  lemma {:induction false} SaveKeeps(w: World, slot: Slot, slot': Slot, req: Request, t: Transform, rec: Record)
    requires SlotInv(w, slot') && Evolves(slot, slot') && !req.lost && RecordOf(w, rec, req.payload, t, req.consumer)
    ensures RequestInv(w, slot', AfterFailedSave(req, t, rec))
    ensures slot'.expired || (Won(slot', req.payload, t) && MadeBy(slot', req.consumer) && FromWinner(slot', rec)) ==> RequestInv(w, slot', AfterSave(req, t, rec, true))
    ensures slot'.expired || slot'.won.Some? ==> RequestInv(w, slot', AfterSave(req, t, rec, false))
  {
  }

  lemma {:induction false} InsertKeeps(w: World, slot: Slot, req: Request, c: Choice)
    requires ValidWorld(w) && SlotInv(w, slot) && RequestInv(w, slot, req) && Enabled(w, req, c) && req.pc.Insert?
    ensures Keeps(w, slot, req, c)
  {
    hide RecordOf, OutcomeInv;
    var (slot', _) := StepRequest(w, slot, req, c);
    var Insert(t, rec) := req.pc;
    if slot.auth.None? {
      InsertedKeeps(w, slot, req.payload, req.consumer, t, rec);
    }
    SaveKeeps(w, slot, slot', req, t, rec);
  }

  lemma {:induction false} ReclaimKeeps(w: World, slot: Slot, req: Request, c: Choice)
    requires ValidWorld(w) && SlotInv(w, slot) && RequestInv(w, slot, req) && Enabled(w, req, c) && req.pc.Reclaim?
    ensures Keeps(w, slot, req, c)
  {
    hide RecordOf, OutcomeInv;
    var (slot', _) := StepRequest(w, slot, req, c);
    var Reclaim(t, rec) := req.pc;
    if slot.auth.None? {
      InsertedKeeps(w, slot, req.payload, req.consumer, t, rec);
    }
    SaveKeeps(w, slot, slot', req, t, rec);
  }

  lemma {:induction false} CacheWriteKeeps(w: World, slot: Slot, req: Request, c: Choice)
    requires ValidWorld(w) && SlotInv(w, slot) && RequestInv(w, slot, req) && Enabled(w, req, c) && req.pc.CacheWrite?
    ensures Keeps(w, slot, req, c)
  {
  }

  lemma {:induction false} DegradedKeeps(w: World, slot: Slot, req: Request, c: Choice)
    requires ValidWorld(w) && SlotInv(w, slot) && RequestInv(w, slot, req) && Enabled(w, req, c) && req.pc.Degraded?
    ensures Keeps(w, slot, req, c)
  {
  }

  lemma {:induction false} MarkAuthKeeps(w: World, slot: Slot, req: Request, c: Choice)
    requires ValidWorld(w) && SlotInv(w, slot) && RequestInv(w, slot, req) && Enabled(w, req, c) && req.pc.MarkAuth?
    ensures Keeps(w, slot, req, c)
  {
  }

  lemma {:induction false} MarkCacheGetKeeps(w: World, slot: Slot, req: Request, c: Choice)
    requires ValidWorld(w) && SlotInv(w, slot) && RequestInv(w, slot, req) && Enabled(w, req, c) && req.pc.MarkCacheGet?
    ensures Keeps(w, slot, req, c)
  {
  }

  lemma {:induction false} MarkCacheWriteKeeps(w: World, slot: Slot, req: Request, c: Choice)
    requires ValidWorld(w) && SlotInv(w, slot) && RequestInv(w, slot, req) && Enabled(w, req, c) && req.pc.MarkCacheWrite?
    ensures Keeps(w, slot, req, c)
  {
  }

  lemma {:induction false} RequestKeeps(w: World, slot: Slot, req: Request, c: Choice)
    requires ValidWorld(w) && SlotInv(w, slot) && RequestInv(w, slot, req) && Enabled(w, req, c)
    ensures Keeps(w, slot, req, c)
  {
    match req.pc
    case CacheGet(_) => CacheGetKeeps(w, slot, req, c);
    case AuthGet(_, _) => AuthGetKeeps(w, slot, req, c);
    case Backfill(_, _) => BackfillKeeps(w, slot, req, c);
    case Got(_, _) => GotKeeps(w, slot, req, c);
    case Analyse => AnalyseKeeps(w, slot, req, c);
    case Insert(_, _) => InsertKeeps(w, slot, req, c);
    case Reclaim(_, _) => ReclaimKeeps(w, slot, req, c);
    case CacheWrite(_, _) => CacheWriteKeeps(w, slot, req, c);
    case Degraded => DegradedKeeps(w, slot, req, c);
    case MarkAuth(_) => MarkAuthKeeps(w, slot, req, c);
    case MarkCacheGet(_) => MarkCacheGetKeeps(w, slot, req, c);
    case MarkCacheWrite(_, _) => MarkCacheWriteKeeps(w, slot, req, c);
  }
}
