/**
 The byte quota of a namespace, over the four tables together.
 */
module Quota {
  import opened Wrappers
  import opened Utf
  import opened Tables
  import opened Ops

  // The database an operation would leave if no limit were set.
  function Unlimited(db: Db, ns: string, op: Op, now: nat): Db {
    Apply(db.(quota := map[]), ns, op, now).db.(quota := db.quota)
  }

  predicate Writes(op: Op) {
    op.KVSet? || op.QueuePush? || op.CacheSet? || op.BlobPut?
  }

  // The bytes a write replaces and the bytes it brings.
  function Replaced(db: Db, ns: string, op: Op): nat {
    match op
    case KVSet(key, _) => BytesOf(Select(db.kv, ns, key))
    case CacheSet(key, _, _) => BytesOf(Select(db.cache, ns, key))
    case BlobPut(name, _) => BytesOf(Select(db.blob, ns, name))
    case _ => 0
  }

  function Brought(op: Op): nat {
    match op
    case KVSet(_, val) => |val|
    case CacheSet(_, val, _) => |val|
    case BlobPut(_, data) => |data|
    case QueuePush(_, msg) => |msg|
    case _ => 0
  }

  // What a namespace uses after a write, with overwritten bytes counted once and
  // every other namespace untouched.
  lemma UsedAfterWrite(db: Db, ns: string, op: Op, now: nat, other: string)
    requires Writes(op)
    ensures Replaced(db, ns, op) <= Used(db, ns)
    ensures Used(Unlimited(db, ns, op, now), other)
         == if other == ns then Used(db, ns) - Replaced(db, ns, op) + Brought(op) else Used(db, other)
  {
    hide Select, Upsert, Sum, QueueSum;
    match op
    case KVSet(key, val) =>
      SumUpsert(db.kv, Row(ns, key, val, |val|, 0), other);
      SumUpsert(db.kv, Row(ns, key, val, |val|, 0), ns);
    case CacheSet(key, val, ttl) =>
      SumUpsert(db.cache, Row(ns, key, val, |val|, Deadline(now, ttl)), other);
      SumUpsert(db.cache, Row(ns, key, val, |val|, Deadline(now, ttl)), ns);
    case BlobPut(name, data) =>
      SumUpsert(db.blob, Row(ns, name, data, |data|, 0), other);
      SumUpsert(db.blob, Row(ns, name, data, |data|, 0), ns);
    case QueuePush(name, msg) =>
      QueueSumSnoc(db.queue, Message(ns, name, db.lastId + 1, msg, |msg|), other);
  }

  // A write is refused exactly when it would leave the namespace above its limit;
  // a refused write changes nothing and an accepted one is not affected by the limit.
  lemma QuotaExact(db: Db, ns: string, op: Op, now: nat)
    requires Writes(op)
    ensures var r := Apply(db, ns, op, now);
            var would := Unlimited(db, ns, op, now);
            && (r.answer == QuotaExceeded <==> Limit(db, ns) > 0 && Used(would, ns) > Limit(db, ns))
            && r == if r.answer == QuotaExceeded then Effect(db, QuotaExceeded, false) else Effect(would, Done, true)
  {
    hide Select, Upsert, Sum, QueueSum, Used;
    UsedAfterWrite(db, ns, op, now, ns);
  }

  ghost predicate Within(db: Db, ns: string) {
    Limit(db, ns) > 0 ==> Used(db, ns) <= Limit(db, ns)
  }

  // An event that sets this namespace's limit below what it uses.
  predicate Lowers(db: Db, e: Event, ns: string) {
    e.op.SetQuota? && e.ns == ns && 0 < e.op.limit < Used(db, ns)
  }

  // Operations that do not write only free bytes.
  lemma NeverGrows(db: Db, e: Event, ns: string)
    requires !Writes(e.op)
    ensures Used(Apply(db, e.ns, e.op, e.now).db, ns) <= Used(db, ns)
  {
    hide Select, Delete, Sum, QueueSum, Oldest;
    match e.op
    case KVDel(key) => SumDelete(db.kv, e.ns, key, ns);
    case CacheGet(key) => SumDelete(db.cache, e.ns, key, ns);
    case QueuePop(name) =>
      if Oldest(db.queue, e.ns, name).Some? {
        QueueSumRemove(db.queue, Oldest(db.queue, e.ns, name).value, ns);
      }
    case _ =>
  }

  lemma StepStaysWithin(db: Db, e: Event, ns: string)
    requires Within(db, ns) && !Lowers(db, e, ns)
    ensures Within(Apply(db, e.ns, e.op, e.now).db, ns)
  {
    hide Select, Upsert, Delete, Used, Oldest;
    if Writes(e.op) {
      QuotaExact(db, e.ns, e.op, e.now);
      UsedAfterWrite(db, e.ns, e.op, e.now, ns);
    } else {
      NeverGrows(db, e, ns);
    }
  }

  ghost predicate NeverLowers(db: Db, events: seq<Event>, ns: string)
    decreases |events|
  {
    events == [] ||
    (!Lowers(db, events[0], ns)
     && NeverLowers(Apply(db, events[0].ns, events[0].op, events[0].now).db, events[1..], ns))
  }

  // A namespace stays within its limit in every run, whatever the other namespaces
  // do, that never lowers the limit below the use it finds.
  lemma {:induction false} RunStaysWithin(db: Db, events: seq<Event>, ns: string)
    requires Within(db, ns) && NeverLowers(db, events, ns)
    ensures Within(Run(db, events), ns)
    decreases |events|
  {
    hide Within, Lowers, Apply;
    if events != [] {
      StepStaysWithin(db, events[0], ns);
      RunStaysWithin(Apply(db, events[0].ns, events[0].op, events[0].now).db, events[1..], ns);
    }
  }
}
