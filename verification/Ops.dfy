/**
 The storage primitives of store.go as effects on the database.  The Store class runs
 them under its lock; what they promise is proved in the modules that follow.
 */
module Ops {
  import opened Wrappers
  import opened Utf
  import opened Tables

  // Times are nanoseconds since 1970 and so are durations.
  const MILLI := 1_000_000

  datatype Op =
    | KVGet(key: string)
    | KVSet(key: string, val: seq<Byte>)
    | KVDel(key: string)
    | QueuePush(name: string, msg: seq<Byte>)
    | QueuePop(name: string)
    | CacheGet(key: string)
    | CacheSet(key: string, val: seq<Byte>, ttl: int)
    | BlobPut(name: string, data: seq<Byte>)
    | BlobGet(name: string)
    | SetQuota(limit: int)

  datatype Answer = Done | Found(val: seq<Byte>) | Missing | QuotaExceeded

  // wrote says whether the operation marked the database dirty.
  datatype Effect = Effect(db: Db, answer: Answer, wrote: bool)

  // --- quota ---

  function Used(db: Db, ns: string): nat {
    Sum(db.kv, ns) + QueueSum(db.queue, ns) + Sum(db.cache, ns) + Sum(db.blob, ns)
  }

  // No row and a limit that is not positive both mean no limit.
  function Limit(db: Db, ns: string): int {
    if ns in db.quota then db.quota[ns] else 0
  }

  predicate Refused(db: Db, ns: string, existing: nat, add: nat) {
    Limit(db, ns) > 0 && Used(db, ns) - existing + add > Limit(db, ns)
  }

  // --- cache ---

  function Millis(ns: nat): nat {
    ns / MILLI
  }

  function Deadline(now: nat, ttl: int): nat {
    if ttl > 0 then Millis(now + ttl) else 0
  }

  predicate Expired(exp: nat, now: nat) {
    exp > 0 && Millis(now) >= exp
  }

  // --- the operations ---

  function ReadRow(db: Db, r: Option<Row>): Effect {
    match r
    case Some(row) => Effect(db, Found(row.val), false)
    case None => Effect(db, Missing, false)
  }

  function Apply(db: Db, ns: string, op: Op, now: nat): Effect {
    match op
    case KVGet(key) => ReadRow(db, Select(db.kv, ns, key))
    case KVSet(key, val) =>
      if Refused(db, ns, BytesOf(Select(db.kv, ns, key)), |val|) then Effect(db, QuotaExceeded, false)
      else Effect(db.(kv := Upsert(db.kv, Row(ns, key, val, |val|, 0))), Done, true)
    case KVDel(key) => Effect(db.(kv := Delete(db.kv, ns, key)), Done, true)
    case QueuePush(name, msg) =>
      if Refused(db, ns, 0, |msg|) then Effect(db, QuotaExceeded, false)
      else Effect(Push(db, ns, name, msg), Done, true)
    case QueuePop(name) =>
      (match Oldest(db.queue, ns, name)
       case None => Effect(db, Missing, false)
       case Some(k) => Effect(db.(queue := Without(db.queue, k)), Found(db.queue[k].msg), true))
    case CacheGet(key) =>
      (match Select(db.cache, ns, key)
       case None => Effect(db, Missing, false)
       case Some(row) =>
         if Expired(row.exp, now) then Effect(db.(cache := Delete(db.cache, ns, key)), Missing, true)
         else Effect(db, Found(row.val), false))
    case CacheSet(key, val, ttl) =>
      if Refused(db, ns, BytesOf(Select(db.cache, ns, key)), |val|) then Effect(db, QuotaExceeded, false)
      else Effect(db.(cache := Upsert(db.cache, Row(ns, key, val, |val|, Deadline(now, ttl)))), Done, true)
    case BlobPut(name, data) =>
      if Refused(db, ns, BytesOf(Select(db.blob, ns, name)), |data|) then Effect(db, QuotaExceeded, false)
      else Effect(db.(blob := Upsert(db.blob, Row(ns, name, data, |data|, 0))), Done, true)
    case BlobGet(name) => ReadRow(db, Select(db.blob, ns, name))
    case SetQuota(limit) => Effect(db.(quota := db.quota[ns := limit]), Done, true)
  }

  function Push(db: Db, ns: string, name: string, msg: seq<Byte>): Db {
    db.(queue := db.queue + [Message(ns, name, db.lastId + 1, msg, |msg|)], lastId := db.lastId + 1)
  }

  function Without(q: seq<Message>, k: nat): seq<Message>
    requires k < |q|
  {
    q[..k] + q[k + 1..]
  }

  // An operation marks the database dirty exactly when it is a delete or a quota, a write
  // that is not refused, a pop that finds a message, or a cache read that finds an expired
  // entry; any other leaves the database as it was.
  lemma WritesExactlyWhen(db: Db, ns: string, op: Op, now: nat)
    ensures var r := Apply(db, ns, op, now);
            && (op.KVDel? || op.SetQuota? ==> r.wrote)
            && (op.KVSet? || op.CacheSet? || op.BlobPut? || op.QueuePush? ==> (r.wrote <==> r.answer != QuotaExceeded))
            && (op.QueuePop? ==> (r.wrote <==> r.answer != Missing))
            && (op.CacheGet? ==> (r.wrote <==> r.answer == Missing && Select(db.cache, ns, op.key).Some?))
            && (op.KVGet? || op.BlobGet? ==> !r.wrote)
            && (!r.wrote ==> r.db == db)
  {}

  // What an accepted write stores: the value with its length and, in the cache, the
  // deadline in milliseconds since 1970, zero for a ttl that is not positive.
  lemma RowsStored(db: Db, ns: string, key: string, val: seq<Byte>, ttl: int, now: nat)
    ensures Apply(db, ns, KVSet(key, val), now).answer == Done ==>
              Select(Apply(db, ns, KVSet(key, val), now).db.kv, ns, key) == Some(Row(ns, key, val, |val|, 0))
    ensures Apply(db, ns, BlobPut(key, val), now).answer == Done ==>
              Select(Apply(db, ns, BlobPut(key, val), now).db.blob, ns, key) == Some(Row(ns, key, val, |val|, 0))
    ensures Apply(db, ns, CacheSet(key, val, ttl), now).answer == Done ==>
              Select(Apply(db, ns, CacheSet(key, val, ttl), now).db.cache, ns, key)
              == Some(Row(ns, key, val, |val|, if ttl > 0 then (now + ttl) / 1_000_000 else 0))
  {
    hide Select, Upsert, Refused;
    SelectUpsert(db.kv, Row(ns, key, val, |val|, 0), ns, key);
    SelectUpsert(db.blob, Row(ns, key, val, |val|, 0), ns, key);
    SelectUpsert(db.cache, Row(ns, key, val, |val|, Deadline(now, ttl)), ns, key);
  }

  // A cache read that finds an expired entry removes it.
  lemma SweepsOnRead(db: Db, ns: string, key: string, now: nat)
    ensures var r := Apply(db, ns, CacheGet(key), now);
            && (r.answer == Missing ==> Select(r.db.cache, ns, key).None?)
            && (r.answer != Missing ==> r.db == db)
  {
    hide Select, Delete;
    SelectDelete(db.cache, ns, key, ns, key);
  }

  // --- runs over several namespaces ---

  datatype Event = Event(ns: string, op: Op, now: nat)

  function Run(db: Db, events: seq<Event>): Db
    decreases |events|
  {
    if events == [] then db
    else Run(Apply(db, events[0].ns, events[0].op, events[0].now).db, events[1..])
  }

  lemma OrderedWithout(q: seq<Message>, k: nat, lastId: nat)
    requires Ordered(q, lastId) && k < |q|
    ensures Ordered(Without(q, k), lastId)
  {
    var w := Without(q, k);
    assert forall i :: 0 <= i < |w| ==> w[i] == q[if i < k then i else i + 1];
  }

  // Every operation keeps the keys unique, the bytes column truthful and the ids
  // growing.
  lemma ApplyKeepsWellFormed(db: Db, ns: string, op: Op, now: nat)
    requires WellFormed(db)
    ensures WellFormed(Apply(db, ns, op, now).db)
  {
    hide Select, Upsert, Delete, Unique, Sized, Refused, Oldest;
    match op
    case KVGet(_) =>
    case KVSet(key, val) => UniqueUpsert(db.kv, Row(ns, key, val, |val|, 0));
    case KVDel(key) => UniqueDelete(db.kv, ns, key);
    case QueuePush(_, _) =>
    case QueuePop(name) =>
      if Oldest(db.queue, ns, name).Some? {
        OrderedWithout(db.queue, Oldest(db.queue, ns, name).value, db.lastId);
      }
    case CacheGet(key) => UniqueDelete(db.cache, ns, key);
    case CacheSet(key, val, ttl) => UniqueUpsert(db.cache, Row(ns, key, val, |val|, Deadline(now, ttl)));
    case BlobPut(name, data) => UniqueUpsert(db.blob, Row(ns, name, data, |data|, 0));
    case BlobGet(_) =>
    case SetQuota(_) =>
  }

  lemma {:induction false} RunKeepsWellFormed(db: Db, events: seq<Event>)
    requires WellFormed(db)
    ensures WellFormed(Run(db, events))
    decreases |events|
  {
    hide WellFormed, Apply;
    if events != [] {
      ApplyKeepsWellFormed(db, events[0].ns, events[0].op, events[0].now);
      RunKeepsWellFormed(Apply(db, events[0].ns, events[0].op, events[0].now).db, events[1..]);
    }
  }
}
