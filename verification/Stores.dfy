/** The two authorities. The in-memory store is the reference: one locked dictionary with expiry.
    The document store does the same with separate atomic operations on documents. The clock is
    a parameter of every call. */
module Stores {
  import opened Models

  datatype Entry<R> = Entry(expiresAt: real, record: R)

  /** What a reader can see at time `now`. */
  function Live<R>(data: map<string, Entry<R>>, now: real): map<string, R> {
    map pid | pid in data && data[pid].expiresAt > now :: data[pid].record
  }

  /** The atomic step both stores promise: create the record iff no live one exists. */
  function SavedIfAbsent<R>(data: map<string, Entry<R>>, pid: string, record: R, ttl: real, now: real)
    : (r: (bool, map<string, Entry<R>>))
  {
    if pid in Live(data, now) then (false, data) else (true, data[pid := Entry(now + ttl, record)])
  }

  // The atomic operations of the document store, on its documents.

  /** `insert_one`: a duplicate key changes nothing. */
  function InsertedOne<R>(docs: map<string, Entry<R>>, pid: string, e: Entry<R>): map<string, Entry<R>> {
    if pid in docs then docs else docs[pid := e]
  }

  /** The document is there, and has expired by this clock. */
  predicate Reclaimable<R>(docs: map<string, Entry<R>>, pid: string, clock: real) {
    pid in docs && docs[pid].expiresAt <= clock
  }

  /** `replace_one` of an expired document. */
  function Reclaimed<R>(docs: map<string, Entry<R>>, pid: string, e: Entry<R>, clock: real): map<string, Entry<R>> {
    if Reclaimable(docs, pid, clock) then docs[pid := e] else docs
  }

  /** `update_one` by id alone: also an expired document is aged, and lives again. */
  function Graced<R>(docs: map<string, Entry<R>>, toGrace: R -> R, pid: string, expiresAt: real): map<string, Entry<R>> {
    if pid in docs then docs[pid := Entry(expiresAt, toGrace(docs[pid].record))] else docs
  }

  /** All pending updates applied: a document is touched exactly when its id is pending. */
  ghost predicate Flushed<R>(before: map<string, Entry<R>>, toGrace: R -> R, pending: map<string, real>, now: real,
                             after: map<string, Entry<R>>) {
    && after.Keys == before.Keys
    && forall pid :: pid in before ==>
         after[pid] == if pid in pending then Entry(now + pending[pid], toGrace(before[pid].record)) else before[pid]
  }

  class InMemoryMappingStore<R> {
    var data: map<string, Entry<R>>

    constructor ()
      ensures data == map[]
    {
      data := map[];
    }

    method SaveIfAbsent(pid: string, record: R, ttl: real, now: real) returns (created: bool)
      modifies this
      ensures (created, data) == SavedIfAbsent(old(data), pid, record, ttl, now)
    {
      if pid in data && !(data[pid].expiresAt <= now) {
        return false;
      }
      data := data[pid := Entry(now + ttl, record)];
      return true;
    }

    method Update(pid: string, record: R, ttl: real, now: real)
      modifies this
      ensures data == old(data)[pid := Entry(now + ttl, record)]
    {
      data := data[pid := Entry(now + ttl, record)];
    }

    /** Reading drops an expired entry; no reader can tell, now or later. */
    method Get(pid: string, now: real) returns (r: Option<R>)
      modifies this
      ensures r == if pid in Live(old(data), now) then Some(Live(old(data), now)[pid]) else None
      ensures forall t :: t >= now ==> Live(data, t) == Live(old(data), t)
    {
      if pid !in data {
        return None;
      }
      if data[pid].expiresAt <= now {
        data := data - {pid};
        return None;
      }
      return Some(data[pid].record);
    }

    method Delete(pid: string)
      modifies this
      ensures data == old(data) - {pid}
    {
      data := data - {pid};
    }
  }

  class MongoMappingRepository<R> {
    var docs: map<string, Entry<R>>
    var gracePending: map<string, real>
    const batchGrace: bool
    const toGrace: R -> R     // sets record.state and record.demasked_at

    constructor (batchGrace: bool, toGrace: R -> R)
      ensures docs == map[] && gracePending == map[] && this.batchGrace == batchGrace && this.toGrace == toGrace
    {
      docs, gracePending := map[], map[];
      this.batchGrace, this.toGrace := batchGrace, toGrace;
    }

    // The atomic operations of the database.

    method InsertOne(pid: string, e: Entry<R>) returns (duplicate: bool)
      modifies this`docs
      ensures duplicate == (pid in old(docs))
      ensures docs == InsertedOne(old(docs), pid, e)
    {
      duplicate := pid in docs;
      if !duplicate {
        docs := docs[pid := e];
      }
    }

    method ReplaceIfExpired(pid: string, e: Entry<R>, now: real) returns (modified: bool)
      modifies this`docs
      ensures modified == Reclaimable(old(docs), pid, now)
      ensures docs == Reclaimed(old(docs), pid, e, now)
    {
      modified := pid in docs && docs[pid].expiresAt <= now;
      if modified {
        docs := docs[pid := e];
      }
    }

    /** Insert, or reclaim an expired document. `now` is read before the insert, `then'` before
        the replace; undisturbed in between, and with the clock standing still, this is the
        reference step. */
    method SaveIfAbsent(pid: string, record: R, ttl: real, now: real, then': real) returns (created: bool)
      modifies this`docs
      ensures created == (pid !in Live(old(docs), then'))
      ensures docs == if created then old(docs)[pid := Entry(now + ttl, record)] else old(docs)
      ensures now == then' ==> (created, docs) == SavedIfAbsent(old(docs), pid, record, ttl, now)
    {
      var doc := Entry(now + ttl, record);
      var duplicate := InsertOne(pid, doc);
      if !duplicate {
        return true;
      }
      created := ReplaceIfExpired(pid, doc, then');
    }

    method Get(pid: string, now: real) returns (r: Option<R>)
      ensures r == if pid in Live(docs, now) then Some(Live(docs, now)[pid]) else None
    {
      if pid !in docs || !(docs[pid].expiresAt > now) {
        return None;
      }
      return Some(docs[pid].record);
    }

    /** The grace transition: at once, or noted for the next flush; 500 pending ones force it. */
    method MarkDemasked(pid: string, grace: real, now: real)
      modifies this
      ensures !batchGrace ==> docs == Graced(old(docs), toGrace, pid, now + grace) && gracePending == old(gracePending)
      ensures !batchGrace && pid in old(docs) ==>
                docs == old(docs)[pid := Entry(now + grace, toGrace(old(docs)[pid].record))]
      ensures !batchGrace && pid !in old(docs) ==> docs == old(docs)
      ensures batchGrace ==>
                var noted := old(gracePending)[pid := grace];
                if |noted| < 500 then docs == old(docs) && gracePending == noted
                else gracePending == map[] && Flushed(old(docs), toGrace, noted, now, docs)
    {
      if batchGrace {
        gracePending := gracePending[pid := grace];
        if |gracePending| >= 500 {
          var _ := FlushGraceNow(now);
        }
        return;
      }
      if pid in docs {
        docs := docs[pid := Entry(now + grace, toGrace(docs[pid].record))];
      }
    }

    method FlushGraceNow(now: real) returns (n: nat)
      modifies this
      ensures gracePending == map[] && n == |old(gracePending)|
      ensures Flushed(old(docs), toGrace, old(gracePending), now, docs)
    {
      var pending := gracePending;
      gracePending := map[];
      n := |pending|;
      ghost var before := docs;
      var todo := pending;
      while todo.Keys != {}
        invariant gracePending == map[]
        invariant forall p :: p in todo ==> p in pending && todo[p] == pending[p]
        invariant docs.Keys == before.Keys
        invariant forall p :: p in before ==>
                    docs[p] == if p in pending && p !in todo then Entry(now + pending[p], toGrace(before[p].record)) else before[p]
        decreases todo.Keys
      {
        var pid :| pid in todo.Keys;
        if pid in docs {
          docs := docs[pid := Entry(now + todo[pid], toGrace(docs[pid].record))];
        }
        todo := todo - {pid};
      }
    }
  }

  /** Once a record is saved, every later save of the same id is refused until it expires. */
  lemma {:induction false} OneWinnerUntilExpiry<R>(
      data: map<string, Entry<R>>, pid: string, one: R, ttl1: real, t1: real, two: R, ttl2: real, t2: real)
    requires SavedIfAbsent(data, pid, one, ttl1, t1).0 && t1 <= t2
    ensures var data1 := SavedIfAbsent(data, pid, one, ttl1, t1).1;
            SavedIfAbsent(data1, pid, two, ttl2, t2).0 <==> t1 + ttl1 <= t2
  {
  }
}
