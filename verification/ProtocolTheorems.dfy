/** The promises of the `/process` contract, over every reachable state. */
module ProtocolTheorems {
  import opened Models
  import opened Occurrences
  import opened Protocol
  import opened ProtocolSafety

  ghost predicate Inv(w: World, s: State) {
    && (forall pid :: SlotInv(w, SlotOf(s, pid)))
    && (forall id :: id in s.requests ==> RequestInv(w, SlotOf(s, s.requests[id].0), s.requests[id].1))
  }

  /** A changed slot together with at most one changed request. */
  lemma {:induction false} SlotChangeKeeps(w: World, s: State, pid: string, slot: Slot)
    requires Inv(w, s) && SlotInv(w, slot) && Evolves(SlotOf(s, pid), slot)
    ensures Inv(w, s.(slots := s.slots[pid := slot]))
  {
    var s' := s.(slots := s.slots[pid := slot]);
    forall p ensures SlotInv(w, SlotOf(s', p)) {
      assert p != pid ==> SlotOf(s', p) == SlotOf(s, p);
    }
    forall id | id in s'.requests ensures RequestInv(w, SlotOf(s', s'.requests[id].0), s'.requests[id].1) {
      RequestStable(w, SlotOf(s, s.requests[id].0), SlotOf(s', s.requests[id].0), s.requests[id].1);
    }
  }

  lemma {:induction false} RequestChangeKeeps(w: World, s: State, id: nat, pid: string, req: Request)
    requires Inv(w, s) && RequestInv(w, SlotOf(s, pid), req)
    ensures Inv(w, s.(requests := s.requests[id := (pid, req)]))
  {
    var s' := s.(requests := s.requests[id := (pid, req)]);
    forall p ensures SlotInv(w, SlotOf(s', p)) {
      assert SlotOf(s', p) == SlotOf(s, p);
    }
    forall i | i in s'.requests ensures RequestInv(w, SlotOf(s', s'.requests[i].0), s'.requests[i].1) {
      assert SlotOf(s', s'.requests[i].0) == SlotOf(s, s'.requests[i].0);
    }
  }

  lemma {:induction false} StepKeeps(w: World, s: State, e: Event)
    requires ValidWorld(w) && Inv(w, s) && Possible(w, s, e)
    ensures Inv(w, Step(w, s, e))
  {
    match e
    case Arrive(id, pid, payload, consumer) =>
      RequestChangeKeeps(w, s, id, pid, Request(payload, consumer, CacheGet(Lookup), false));
    case Move(id, choice) =>
      var (pid, req) := s.requests[id];
      var (slot, req') := StepRequest(w, SlotOf(s, pid), req, choice);
      RequestKeeps(w, SlotOf(s, pid), req, choice);
      SlotChangeKeeps(w, s, pid, slot);
      RequestChangeKeeps(w, s.(slots := s.slots[pid := slot]), id, pid, req');
    case Happen(pid, weather) =>
      WeatherKeeps(w, SlotOf(s, pid), weather);
      SlotChangeKeeps(w, s, pid, StepWeather(SlotOf(s, pid), weather));
  }

  lemma {:induction false} RunKeeps(w: World, s0: State, events: seq<Event>, s: State)
    requires ValidWorld(w) && Inv(w, s0) && Runs(w, s0, events, s)
    ensures Inv(w, s)
    decreases |events|
  {
    if events != [] {
      StepKeeps(w, s0, events[0]);
      RunKeeps(w, Step(w, s0, events[0]), events[1..], s);
    }
  }

  /** Every reachable state of every interleaving satisfies the invariant. */
  lemma {:induction false} ReachableInv(w: World, s: State)
    requires ValidWorld(w) && Reachable(w, s)
    ensures Inv(w, s)
  {
    var events :| Runs(w, INITIAL, events, s);
    RunKeeps(w, INITIAL, events, s);
  }

  /** Request `id` has been answered with `r`. */
  ghost predicate Replied(s: State, id: nat, pid: string, payload: string, c: Consumer, r: Outcome) {
    && id in s.requests && s.requests[id].0 == pid
    && s.requests[id].1.payload == payload && s.requests[id].1.consumer == c
    && s.requests[id].1.pc == Done(r)
  }

  predicate Masking(d: Direction) { d.MaskReply? || d.RetryMaskReply? }

  /** Whenever a masking reply differs from its input, the authority holds a record of exactly
      this pair of texts, whose inverse splice turns the reply back into the input. */
  lemma {:induction false} MaskedRepliesAreReversible(
      w: World, s: State, id: nat, pid: string, payload: string, c: Consumer, result: string, d: Direction, stored: bool)
    requires ValidWorld(w) && Splices(w) && Reachable(w, s) && !SlotOf(s, pid).expired
    requires Replied(s, id, pid, payload, c, Reply(result, d, stored)) && Masking(d) && result != payload
    ensures var auth := SlotOf(s, pid).auth;
            && auth.Some?
            && ApplyDemask(result, auth.value.occurrences) == payload
            && ApplyMask(payload, auth.value.occurrences) == result
            && auth.value.originalFp == w.fingerprint(payload)
            && auth.value.transformedFp == w.fingerprint(result)
  {
    ReachableInv(w, s);
    assert RequestInv(w, SlotOf(s, pid), s.requests[id].1);
    assert SlotInv(w, SlotOf(s, pid));
  }

  /** A reply given on the creation of the record names the maker of the record: its consumer. */
  lemma {:induction false} CreatorIsKnown(w: World, s: State, id: nat, pid: string, payload: string, c: Consumer, result: string)
    requires ValidWorld(w) && Reachable(w, s) && !SlotOf(s, pid).expired
    requires Replied(s, id, pid, payload, c, Reply(result, MaskReply, true))
    ensures MadeBy(SlotOf(s, pid), c)
  {
    ReachableInv(w, s);
    assert RequestInv(w, SlotOf(s, pid), s.requests[id].1);
  }

  /** What every demasking reply says: without the right to demask, of the record's maker or of
      the asking consumer, the text itself; the masked text gives back the payload; any other text
      is demasked by value, with the record's mappings in the maker's mode. */
  lemma {:induction false} DemaskRepliesTell(
      w: World, s: State, id: nat, pid: string, text: string, c: Consumer, result: string, maker: Consumer)
    requires ValidWorld(w) && Reachable(w, s) && !SlotOf(s, pid).expired && MadeBy(SlotOf(s, pid), maker)
    requires Replied(s, id, pid, text, c, Reply(result, DemaskReply, true))
    ensures var auth, win := SlotOf(s, pid).auth, SlotOf(s, pid).won.value;
            && auth.Some? && text != win.payload
            && result == if !maker.demask || !c.demask then text
                         else if text == win.t.text then win.payload
                         else w.demask(text, auth.value.mappings, maker.mode)
  {
    ReachableInv(w, s);
    assert RequestInv(w, SlotOf(s, pid), s.requests[id].1);
    assert SlotInv(w, SlotOf(s, pid));
  }

  /** Sending such a reply back, when the consumer whose request created the record may demask and
      the asking one too, returns exactly the input: in every state and for every request that ever
      does so. */
  lemma {:induction false} ResendingRestores(
      w: World, s: State, first: nat, again: nat, pid: string, payload: string, c: Consumer, masked: string,
      d: Direction, stored: bool, c': Consumer, result: string, d': Direction, maker: Consumer)
    requires ValidWorld(w) && Reachable(w, s) && !SlotOf(s, pid).expired
    requires Replied(s, first, pid, payload, c, Reply(masked, d, stored)) && Masking(d) && masked != payload
    requires Replied(s, again, pid, masked, c', Reply(result, d', true)) && c'.demask
    requires MadeBy(SlotOf(s, pid), maker) && maker.demask
    ensures result == payload && d'.DemaskReply?
  {
    ReachableInv(w, s);
    assert RequestInv(w, SlotOf(s, pid), s.requests[first].1);
    assert RequestInv(w, SlotOf(s, pid), s.requests[again].1);
    assert SlotInv(w, SlotOf(s, pid));
  }

  /** Exactly: the payload with both rights, the masked text itself without one of them. */
  lemma {:induction false} ResentRepliesAre(
      w: World, s: State, first: nat, again: nat, pid: string, payload: string, c: Consumer, masked: string,
      d: Direction, stored: bool, c': Consumer, result: string, d': Direction, maker: Consumer)
    requires ValidWorld(w) && Reachable(w, s) && !SlotOf(s, pid).expired && MadeBy(SlotOf(s, pid), maker)
    requires Replied(s, first, pid, payload, c, Reply(masked, d, stored)) && Masking(d) && masked != payload
    requires Replied(s, again, pid, masked, c', Reply(result, d', true))
    ensures d'.DemaskReply? && result == if maker.demask && c'.demask then payload else masked
  {
    ReachableInv(w, s);
    assert RequestInv(w, SlotOf(s, pid), s.requests[first].1);
    assert RequestInv(w, SlotOf(s, pid), s.requests[again].1);
    assert SlotInv(w, SlotOf(s, pid));
  }

  /** The creator's own masked text: with the right to demask it comes back, without it it does
      not, whoever sends it. */
  lemma {:induction false} CreatorsTextComesBack(
      w: World, s: State, first: nat, again: nat, pid: string, payload: string, c: Consumer, masked: string,
      c': Consumer, result: string, d': Direction)
    requires ValidWorld(w) && Reachable(w, s) && !SlotOf(s, pid).expired && masked != payload
    requires Replied(s, first, pid, payload, c, Reply(masked, MaskReply, true))
    requires Replied(s, again, pid, masked, c', Reply(result, d', true))
    ensures d'.DemaskReply? && result == if c.demask && c'.demask then payload else masked
  {
    hide Reachable;
    CreatorIsKnown(w, s, first, pid, payload, c, masked);
    ResentRepliesAre(w, s, first, again, pid, payload, c, masked, MaskReply, true, c', result, d', c);
  }

  /** A reply given without a persisted record is its own input, also after expiry. */
  lemma {:induction false} UnstoredRepliesAreInputs(
      w: World, s: State, id: nat, pid: string, payload: string, c: Consumer, result: string, d: Direction)
    requires ValidWorld(w) && Reachable(w, s)
    requires Replied(s, id, pid, payload, c, Reply(result, d, false))
    ensures result == payload && d.MaskReply?
  {
    ReachableInv(w, s);
    assert RequestInv(w, SlotOf(s, pid), s.requests[id].1);
  }

  /** The records a request holds in its local variables. */
  function Held(req: Request): set<Record> {
    match req.pc
    case Backfill(_, r) => {r}
    case Got(_, found) => if found.Some? then {found.value} else {}
    case CacheWrite(_, rec) => {rec}
    case MarkCacheWrite(_, r) => {r}
    case _ => {}
  }

  /** Coherence: what the cache holds agrees with the authority on everything but the
      lifecycle state. */
  lemma {:induction false} CacheIsCoherent(w: World, s: State, pid: string)
    requires ValidWorld(w) && Reachable(w, s) && !SlotOf(s, pid).expired
    ensures var slot := SlotOf(s, pid);
            slot.cache.Some? ==> slot.auth.Some? && Core(slot.cache.value) == Core(slot.auth.value)
  {
    ReachableInv(w, s);
    assert SlotInv(w, SlotOf(s, pid));
  }

  /** The same for every record a request holds in flight. */
  lemma {:induction false} LocalCopiesAreCoherent(w: World, s: State, id: nat, r: Record)
    requires ValidWorld(w) && Reachable(w, s)
    requires id in s.requests && r in Held(s.requests[id].1) && !SlotOf(s, s.requests[id].0).expired
    ensures var auth := SlotOf(s, s.requests[id].0).auth;
            auth.Some? && Core(r) == Core(auth.value)
  {
    ReachableInv(w, s);
    var slot := SlotOf(s, s.requests[id].0);
    assert SlotInv(w, slot);
    assert RequestInv(w, slot, s.requests[id].1);
    assert FromWinner(slot, r);
  }

  // Between two expiries, whatever happened before.

  predicate Expires(e: Event, pid: string) {
    e.Happen? && e.pid == pid && e.weather.Expire?
  }

  predicate NoExpiry(events: seq<Event>, pid: string) {
    forall k :: 0 <= k < |events| ==> !Expires(events[k], pid)
  }

  /** A record stays, and changes in nothing but ACTIVE to DEMASKED_GRACE. */
  predicate OnlyAges(slot: Slot, slot': Slot) {
    slot.auth.Some? ==>
      && slot'.auth.Some? && Core(slot'.auth.value) == Core(slot.auth.value)
      && (slot.auth.value.state.DemaskedGrace? ==> slot'.auth.value.state.DemaskedGrace?)
  }

  lemma {:induction false} StepOnlyAges(w: World, s: State, e: Event, pid: string)
    requires Possible(w, s, e) && !Expires(e, pid)
    ensures OnlyAges(SlotOf(s, pid), SlotOf(Step(w, s, e), pid))
  {
    match e
    case Arrive(_, _, _, _) =>
      assert SlotOf(Step(w, s, e), pid) == SlotOf(s, pid);
    case Move(id, choice) =>
      var (p, req) := s.requests[id];
      RequestOnlyAges(w, SlotOf(s, p), req, choice);
      assert p != pid ==> SlotOf(Step(w, s, e), pid) == SlotOf(s, pid);
    case Happen(p, weather) =>
      assert p != pid ==> SlotOf(Step(w, s, e), pid) == SlotOf(s, pid);
  }

  lemma {:induction false} RequestOnlyAges(w: World, slot: Slot, req: Request, c: Choice)
    requires Enabled(w, req, c)
    ensures OnlyAges(slot, StepRequest(w, slot, req, c).0)
  {
  }

  /** Over any run without an expiry of this id, from any state: once the authority holds a record
      no insert replaces it, and it only ages. */
  lemma {:induction false} AuthorityOnlyAges(w: World, s0: State, events: seq<Event>, s: State, pid: string)
    requires Runs(w, s0, events, s) && NoExpiry(events, pid)
    ensures OnlyAges(SlotOf(s0, pid), SlotOf(s, pid))
    decreases |events|
  {
    if events != [] {
      StepOnlyAges(w, s0, events[0], pid);
      assert forall k :: 0 <= k < |events[1..]| ==> events[1..][k] == events[k + 1];
      AuthorityOnlyAges(w, Step(w, s0, events[0]), events[1..], s, pid);
    }
  }

  /** A copy of a record of this id: in the cache, or in flight. */
  ghost predicate Copied(s: State, pid: string, r: Record) {
    SlotOf(s, pid).cache == Some(r) || exists id :: id in s.requests && s.requests[id].0 == pid && r in Held(s.requests[id].1)
  }

  predicate SameCore(slot: Slot, r: Record) {
    slot.auth.Some? && Core(r) == Core(slot.auth.value)
  }

  /** All copies agree with the authority up to the lifecycle state. */
  ghost predicate Coherent(s: State, pid: string) {
    forall r :: Copied(s, pid, r) ==> SameCore(SlotOf(s, pid), r)
  }

  lemma {:induction false} AnswerHoldsNothing(w: World, req: Request, why: Purpose, found: Option<Record>)
    ensures Held(AfterGet(w, req, why, found)) == {}
  {
  }

  /** What one step of a request keeps coherent: the cache, and what the request holds. */
  ghost predicate KeepsCopies(w: World, slot: Slot, req: Request, c: Choice)
    requires Enabled(w, req, c)
  {
    var (slot', req') := StepRequest(w, slot, req, c);
    && (slot'.cache.Some? ==> SameCore(slot', slot'.cache.value))
    && forall r :: r in Held(req') ==> SameCore(slot', r)
  }

  ghost predicate CopiesCoherent(slot: Slot, req: Request) {
    && (slot.cache.Some? ==> SameCore(slot, slot.cache.value))
    && forall r :: r in Held(req) ==> SameCore(slot, r)
  }

  lemma {:induction false} CacheGetKeepsCopies(w: World, slot: Slot, req: Request, c: Choice)
    requires Enabled(w, req, c) && CopiesCoherent(slot, req) && req.pc.CacheGet?
    ensures KeepsCopies(w, slot, req, c)
  {
  }

  lemma {:induction false} AuthGetKeepsCopies(w: World, slot: Slot, req: Request, c: Choice)
    requires Enabled(w, req, c) && CopiesCoherent(slot, req) && req.pc.AuthGet?
    ensures KeepsCopies(w, slot, req, c)
  {
  }

  lemma {:induction false} BackfillKeepsCopies(w: World, slot: Slot, req: Request, c: Choice)
    requires Enabled(w, req, c) && CopiesCoherent(slot, req) && req.pc.Backfill?
    ensures KeepsCopies(w, slot, req, c)
  {
    assert req.pc.record in Held(req);
  }

  lemma {:induction false} GotKeepsCopies(w: World, slot: Slot, req: Request, c: Choice)
    requires Enabled(w, req, c) && CopiesCoherent(slot, req) && req.pc.Got?
    ensures KeepsCopies(w, slot, req, c)
  {
    hide AfterGet;
    AnswerHoldsNothing(w, req, req.pc.why, req.pc.found);
  }

  lemma {:induction false} InsertKeepsCopies(w: World, slot: Slot, req: Request, c: Choice)
    requires Enabled(w, req, c) && CopiesCoherent(slot, req) && req.pc.Insert?
    ensures KeepsCopies(w, slot, req, c)
  {
  }

  lemma {:induction false} ReclaimKeepsCopies(w: World, slot: Slot, req: Request, c: Choice)
    requires Enabled(w, req, c) && CopiesCoherent(slot, req) && req.pc.Reclaim?
    ensures KeepsCopies(w, slot, req, c)
  {
  }

  lemma {:induction false} CacheWriteKeepsCopies(w: World, slot: Slot, req: Request, c: Choice)
    requires Enabled(w, req, c) && CopiesCoherent(slot, req) && req.pc.CacheWrite?
    ensures KeepsCopies(w, slot, req, c)
  {
    assert req.pc.rec in Held(req);
  }

  lemma {:induction false} MarkAuthKeepsCopies(w: World, slot: Slot, req: Request, c: Choice)
    requires Enabled(w, req, c) && CopiesCoherent(slot, req) && req.pc.MarkAuth?
    ensures KeepsCopies(w, slot, req, c)
  {
  }

  lemma {:induction false} MarkCacheGetKeepsCopies(w: World, slot: Slot, req: Request, c: Choice)
    requires Enabled(w, req, c) && CopiesCoherent(slot, req) && req.pc.MarkCacheGet?
    ensures KeepsCopies(w, slot, req, c)
  {
  }

  lemma {:induction false} MarkCacheWriteKeepsCopies(w: World, slot: Slot, req: Request, c: Choice)
    requires Enabled(w, req, c) && CopiesCoherent(slot, req) && req.pc.MarkCacheWrite?
    ensures KeepsCopies(w, slot, req, c)
  {
    assert req.pc.record in Held(req);
  }

  lemma {:induction false} OthersKeepCopies(w: World, slot: Slot, req: Request, c: Choice)
    requires Enabled(w, req, c) && CopiesCoherent(slot, req) && (req.pc.Analyse? || req.pc.Degraded?)
    ensures KeepsCopies(w, slot, req, c)
  {
  }

  lemma {:induction false} RequestStaysCoherent(w: World, slot: Slot, req: Request, c: Choice)
    requires Enabled(w, req, c) && CopiesCoherent(slot, req)
    ensures KeepsCopies(w, slot, req, c)
  {
    hide KeepsCopies, CopiesCoherent;
    match req.pc
    case CacheGet(_) => CacheGetKeepsCopies(w, slot, req, c);
    case AuthGet(_, _) => AuthGetKeepsCopies(w, slot, req, c);
    case Backfill(_, _) => BackfillKeepsCopies(w, slot, req, c);
    case Got(_, _) => GotKeepsCopies(w, slot, req, c);
    case Insert(_, _) => InsertKeepsCopies(w, slot, req, c);
    case Reclaim(_, _) => ReclaimKeepsCopies(w, slot, req, c);
    case CacheWrite(_, _) => CacheWriteKeepsCopies(w, slot, req, c);
    case MarkAuth(_) => MarkAuthKeepsCopies(w, slot, req, c);
    case MarkCacheGet(_) => MarkCacheGetKeepsCopies(w, slot, req, c);
    case MarkCacheWrite(_, _) => MarkCacheWriteKeepsCopies(w, slot, req, c);
    case _ => OthersKeepCopies(w, slot, req, c);
  }

  /** The copies of others: an insert can only win while there are none. */
  lemma {:induction false} OthersStayCoherent(w: World, slot: Slot, req: Request, c: Choice, r: Record)
    requires Enabled(w, req, c) && SameCore(slot, r)
    ensures SameCore(StepRequest(w, slot, req, c).0, r)
  {
    RequestOnlyAges(w, slot, req, c);
  }

  lemma {:induction false} StepStaysCoherent(w: World, s: State, e: Event, pid: string)
    requires Possible(w, s, e) && !Expires(e, pid) && Coherent(s, pid)
    ensures Coherent(Step(w, s, e), pid)
  {
    var s' := Step(w, s, e);
    forall r | Copied(s', pid, r) ensures SameCore(SlotOf(s', pid), r) {
      match e
      case Arrive(id, p, payload, consumer) =>
        assert SlotOf(s', pid) == SlotOf(s, pid);
        assert Copied(s, pid, r);
      case Happen(p, weather) =>
        assert p != pid ==> SlotOf(s', pid) == SlotOf(s, pid);
        assert Copied(s, pid, r);
      case Move(id, choice) =>
        MoveStaysCoherent(w, s, id, choice, pid, r);
    }
  }

  lemma {:induction false} MoveStaysCoherent(w: World, s: State, id: nat, c: Choice, pid: string, r: Record)
    requires Possible(w, s, Move(id, c)) && Coherent(s, pid) && Copied(Step(w, s, Move(id, c)), pid, r)
    ensures SameCore(SlotOf(Step(w, s, Move(id, c)), pid), r)
  {
    var s' := Step(w, s, Move(id, c));
    var (p, req) := s.requests[id];
    if p == pid {
      var slot := SlotOf(s, pid);
      forall x | slot.cache == Some(x) || x in Held(req) ensures SameCore(slot, x) {
        assert Copied(s, pid, x);
      }
      RequestStaysCoherent(w, slot, req, c);
      if i :| i in s'.requests && s'.requests[i].0 == pid && r in Held(s'.requests[i].1) && i != id {
        assert Copied(s, pid, r);
        OthersStayCoherent(w, slot, req, c, r);
      }
    } else {
      assert SlotOf(s', pid) == SlotOf(s, pid);
      assert Copied(s, pid, r);
    }
  }

  /** Coherence lasts until the next expiry, from any state that is coherent: in particular it is
      back after an expiry as soon as the cache is empty and no copy is in flight. */
  lemma {:induction false} CoherentUntilExpiry(w: World, s0: State, events: seq<Event>, s: State, pid: string)
    requires Runs(w, s0, events, s) && NoExpiry(events, pid)
    requires Coherent(s0, pid)
          || (SlotOf(s0, pid).cache.None? && forall id :: id in s0.requests && s0.requests[id].0 == pid ==> Held(s0.requests[id].1) == {})
    ensures Coherent(s, pid)
    decreases |events|
  {
    assert Coherent(s0, pid);
    if events != [] {
      StepStaysCoherent(w, s0, events[0], pid);
      assert forall k :: 0 <= k < |events[1..]| ==> events[1..][k] == events[k + 1];
      CoherentUntilExpiry(w, Step(w, s0, events[0]), events[1..], s, pid);
    }
  }

  /** The winner decides: all masking replies given from the store for one id are for one text
      and say the same, even when the losers computed other transforms. */
  lemma {:induction false} WinnerDecides(
      w: World, s: State, one: nat, two: nat, pid: string, p1: string, c1: Consumer, r1: string, d1: Direction,
      p2: string, c2: Consumer, r2: string, d2: Direction)
    requires ValidWorld(w) && Reachable(w, s) && !SlotOf(s, pid).expired
    requires Replied(s, one, pid, p1, c1, Reply(r1, d1, true)) && Masking(d1)
    requires Replied(s, two, pid, p2, c2, Reply(r2, d2, true)) && Masking(d2)
    ensures p1 == p2 && r1 == r2
  {
    ReachableInv(w, s);
    assert RequestInv(w, SlotOf(s, pid), s.requests[one].1);
    assert RequestInv(w, SlotOf(s, pid), s.requests[two].1);
  }

  /** A request that lost the insert gets the winner's text when the content is the same, a
      conflict when it is not, or an error when the winner cannot be read; never its own. */
  lemma {:induction false} LosersNeverServeTheirOwn(w: World, s: State, id: nat, o: Outcome)
    requires ValidWorld(w) && Reachable(w, s)
    requires id in s.requests && s.requests[id].1.lost && s.requests[id].1.pc == Done(o)
    requires !SlotOf(s, s.requests[id].0).expired
    ensures SlotOf(s, s.requests[id].0).won.Some?
    ensures var req, win := s.requests[id].1, SlotOf(s, s.requests[id].0).won.value;
            if req.payload == win.payload then o == Unavailable || o == Reply(win.t.text, RetryMaskReply, true)
            else o == Unavailable || o == Conflict
  {
    ReachableInv(w, s);
    assert RequestInv(w, SlotOf(s, s.requests[id].0), s.requests[id].1);
  }
}
