/**
 Namespaces do not interfere: what one namespace is answered does not depend on what
 the others do.
 */
module Isolation {
  import opened Wrappers
  import opened Utf
  import opened Tables
  import opened Ops
  import opened Queue

  // The rows of one namespace.
  function Mine(t: Table, ns: string): Table {
    if t == [] then [] else (if t[0].ns == ns then [t[0]] else []) + Mine(t[1..], ns)
  }

  // Two databases look the same from a namespace.  Queue rows are compared as the
  // messages of each queue: their ids come from one counter shared by all namespaces.
  ghost predicate Same(a: Db, b: Db, ns: string) {
    && Mine(a.kv, ns) == Mine(b.kv, ns)
    && Mine(a.cache, ns) == Mine(b.cache, ns)
    && Mine(a.blob, ns) == Mine(b.blob, ns)
    && (forall name: string :: Fifo(a.queue, ns, name) == Fifo(b.queue, ns, name))
    && QueueSum(a.queue, ns) == QueueSum(b.queue, ns)
    && Limit(a, ns) == Limit(b, ns)
  }

  lemma {:induction false} MineSelect(t: Table, ns: string, key: string)
    ensures Select(t, ns, key) == Select(Mine(t, ns), ns, key)
  {
    if t != [] {
      MineSelect(t[1..], ns, key);
      if t[0].ns == ns {
        assert Mine(t, ns)[1..] == Mine(t[1..], ns);
      } else {
        assert [] + Mine(t[1..], ns) == Mine(t[1..], ns);
      }
    }
  }

  lemma {:induction false} MineSum(t: Table, ns: string)
    ensures Sum(t, ns) == Sum(Mine(t, ns), ns)
  {
    if t != [] {
      MineSum(t[1..], ns);
      if t[0].ns == ns {
        assert Mine(t, ns)[1..] == Mine(t[1..], ns);
      } else {
        assert [] + Mine(t[1..], ns) == Mine(t[1..], ns);
      }
    }
  }

  lemma MineCons(r: Row, t: Table, ns: string)
    ensures Mine([r] + t, ns) == if r.ns == ns then [r] + Mine(t, ns) else Mine(t, ns)
  {
    assert ([r] + t)[1..] == t;
    assert [] + Mine(t, ns) == Mine(t, ns);
  }

  lemma {:induction false} MineUpsert(t: Table, r: Row, ns: string)
    ensures Mine(Upsert(t, r), ns) == if r.ns == ns then Upsert(Mine(t, ns), r) else Mine(t, ns)
  {
    if t == [] {
      MineCons(r, [], ns);
      assert [r] + [] == [r];
    } else {
      assert t == [t[0]] + t[1..];
      MineCons(t[0], t[1..], ns);
      if Keyed(t[0], r.ns, r.key) {
        MineCons(r, t[1..], ns);
      } else {
        MineUpsert(t[1..], r, ns);
        MineCons(t[0], Upsert(t[1..], r), ns);
      }
    }
  }

  lemma {:induction false} MineDelete(t: Table, dns: string, key: string, ns: string)
    ensures Mine(Delete(t, dns, key), ns) == if dns == ns then Delete(Mine(t, ns), ns, key) else Mine(t, ns)
  {
    if t != [] {
      var rest, d := t[1..], Delete(t[1..], dns, key);
      assert t == [t[0]] + rest;
      MineDelete(rest, dns, key, ns);
      MineCons(t[0], rest, ns);
      MineCons(t[0], d, ns);
      DeleteCons(t[0], rest, dns, key);
      DeleteCons(t[0], Mine(rest, ns), ns, key);
    }
  }

  lemma DeleteCons(r: Row, t: Table, ns: string, key: string)
    ensures Delete([r] + t, ns, key) == if Keyed(r, ns, key) then Delete(t, ns, key) else [r] + Delete(t, ns, key)
  {
    assert ([r] + t)[1..] == t;
    assert [] + Delete(t, ns, key) == Delete(t, ns, key);
  }

  // --- an operation of another namespace ---

  lemma OtherUnseen(db: Db, e: Event, ns: string)
    requires WellFormed(db) && e.ns != ns
    ensures Same(db, Apply(db, e.ns, e.op, e.now).db, ns)
  {
    hide Select, Upsert, Delete, Sum, QueueSum, Refused, Oldest, Fifo, Mine, Unique, Sized;
    match e.op
    case KVSet(key, val) => MineUpsert(db.kv, Row(e.ns, key, val, |val|, 0), ns);
    case KVDel(key) => MineDelete(db.kv, e.ns, key, ns);
    case QueuePush(name, msg) =>
      QueueSumSnoc(db.queue, Message(e.ns, name, db.lastId + 1, msg, |msg|), ns);
      forall n: string ensures Fifo(Push(db, e.ns, name, msg).queue, ns, n) == Fifo(db.queue, ns, n) {
        PushStep(db, e.ns, name, msg, ns, n);
        assert Fifo(db.queue, ns, n) + [] == Fifo(db.queue, ns, n);
      }
    case QueuePop(name) =>
      if Oldest(db.queue, e.ns, name).Some? {
        var k := Oldest(db.queue, e.ns, name).value;
        QueueSumRemove(db.queue, k, ns);
        forall n: string ensures Fifo(Without(db.queue, k), ns, n) == Fifo(db.queue, ns, n) {
          FifoOther(db.queue, k, ns, n);
        }
      }
    case CacheGet(key) => MineDelete(db.cache, e.ns, key, ns);
    case CacheSet(key, val, ttl) => MineUpsert(db.cache, Row(e.ns, key, val, |val|, Deadline(e.now, ttl)), ns);
    case BlobPut(name, data) => MineUpsert(db.blob, Row(e.ns, name, data, |data|, 0), ns);
    case _ =>
  }

  // --- an operation of the namespace itself ---

  lemma SameReads(a: Db, b: Db, ns: string, key: string)
    requires Same(a, b, ns)
    ensures Used(a, ns) == Used(b, ns)
    ensures Select(a.kv, ns, key) == Select(b.kv, ns, key)
    ensures Select(a.cache, ns, key) == Select(b.cache, ns, key)
    ensures Select(a.blob, ns, key) == Select(b.blob, ns, key)
  {
    MineSum(a.kv, ns); MineSum(b.kv, ns);
    MineSum(a.cache, ns); MineSum(b.cache, ns);
    MineSum(a.blob, ns); MineSum(b.blob, ns);
    MineSelect(a.kv, ns, key); MineSelect(b.kv, ns, key);
    MineSelect(a.cache, ns, key); MineSelect(b.cache, ns, key);
    MineSelect(a.blob, ns, key); MineSelect(b.blob, ns, key);
  }

  function KeyOf(op: Op): string {
    match op
    case KVGet(k) => k
    case KVSet(k, _) => k
    case KVDel(k) => k
    case CacheGet(k) => k
    case CacheSet(k, _, _) => k
    case BlobPut(k, _) => k
    case BlobGet(k) => k
    case _ => ""
  }

  lemma OwnKeyedOp(a: Db, b: Db, ns: string, op: Op, now: nat)
    requires Same(a, b, ns) && !op.QueuePop? && !op.QueuePush?
    ensures var ra, rb := Apply(a, ns, op, now), Apply(b, ns, op, now);
            ra.answer == rb.answer && Same(ra.db, rb.db, ns)
  {
    hide Select, Upsert, Delete, Sum, QueueSum, Used, Fifo, Mine;
    SameReads(a, b, ns, KeyOf(op));
    match op
    case KVSet(key, val) =>
      MineUpsert(a.kv, Row(ns, key, val, |val|, 0), ns);
      MineUpsert(b.kv, Row(ns, key, val, |val|, 0), ns);
    case KVDel(key) =>
      MineDelete(a.kv, ns, key, ns);
      MineDelete(b.kv, ns, key, ns);
    case CacheGet(key) =>
      MineDelete(a.cache, ns, key, ns);
      MineDelete(b.cache, ns, key, ns);
    case CacheSet(key, val, ttl) =>
      MineUpsert(a.cache, Row(ns, key, val, |val|, Deadline(now, ttl)), ns);
      MineUpsert(b.cache, Row(ns, key, val, |val|, Deadline(now, ttl)), ns);
    case BlobPut(name, data) =>
      MineUpsert(a.blob, Row(ns, name, data, |data|, 0), ns);
      MineUpsert(b.blob, Row(ns, name, data, |data|, 0), ns);
    case _ =>
  }

  lemma OwnPush(a: Db, b: Db, ns: string, name: string, msg: seq<Byte>, now: nat)
    requires Same(a, b, ns)
    ensures var ra, rb := Apply(a, ns, QueuePush(name, msg), now), Apply(b, ns, QueuePush(name, msg), now);
            ra.answer == rb.answer && Same(ra.db, rb.db, ns)
  {
    hide Sum, QueueSum, Used, Fifo, Mine;
    SameReads(a, b, ns, "");
    QueueSumSnoc(a.queue, Message(ns, name, a.lastId + 1, msg, |msg|), ns);
    QueueSumSnoc(b.queue, Message(ns, name, b.lastId + 1, msg, |msg|), ns);
    forall n: string
      ensures Fifo(Push(a, ns, name, msg).queue, ns, n) == Fifo(Push(b, ns, name, msg).queue, ns, n)
    {
      PushStep(a, ns, name, msg, ns, n);
      PushStep(b, ns, name, msg, ns, n);
    }
  }

  // A pop answers with the head of the queue and leaves its tail.
  lemma PopSeen(db: Db, ns: string, name: string, now: nat, n: string)
    requires WellFormed(db)
    ensures var f := Fifo(db.queue, ns, name);
            var r := Apply(db, ns, QueuePop(name), now);
            && (f == [] ==> r == Effect(db, Missing, false))
            && (f != [] ==> r.answer == Found(f[0]) && QueueSum(r.db.queue, ns) == QueueSum(db.queue, ns) - |f[0]|)
            && r.db == db.(queue := r.db.queue)
            && Fifo(r.db.queue, ns, n) == if n == name && f != [] then f[1..] else Fifo(db.queue, ns, n)
  {
    hide Fifo, QueueSum, Unique, Sized, Oldest;
    OldestIsHead(db.queue, db.lastId, ns, name);
    PopStep(db, ns, name, ns, n);
    match Oldest(db.queue, ns, name)
    case None =>
    case Some(k) =>
      OldestNamed(db.queue, ns, name);
      QueueSumRemove(db.queue, k, ns);
      assert [] + Fifo(Without(db.queue, k), ns, n) == Fifo(Without(db.queue, k), ns, n);
  }

  lemma OldestNamed(q: seq<Message>, ns: string, name: string)
    ensures Oldest(q, ns, name).Some? ==> Named(q[Oldest(q, ns, name).value], ns, name)
  {}

  lemma OwnPop(a: Db, b: Db, ns: string, name: string, now: nat)
    requires WellFormed(a) && WellFormed(b) && Same(a, b, ns)
    ensures var ra, rb := Apply(a, ns, QueuePop(name), now), Apply(b, ns, QueuePop(name), now);
            ra.answer == rb.answer && Same(ra.db, rb.db, ns)
  {
    hide Fifo, QueueSum, WellFormed, Mine, Apply;
    var ra, rb := Apply(a, ns, QueuePop(name), now), Apply(b, ns, QueuePop(name), now);
    PopSeen(a, ns, name, now, name);
    PopSeen(b, ns, name, now, name);
    forall n: string ensures Fifo(ra.db.queue, ns, n) == Fifo(rb.db.queue, ns, n) {
      PopSeen(a, ns, name, now, n);
      PopSeen(b, ns, name, now, n);
    }
  }

  lemma OwnStep(a: Db, b: Db, ns: string, op: Op, now: nat)
    requires WellFormed(a) && WellFormed(b) && Same(a, b, ns)
    ensures var ra, rb := Apply(a, ns, op, now), Apply(b, ns, op, now);
            ra.answer == rb.answer && Same(ra.db, rb.db, ns)
  {
    hide Apply, Same, WellFormed;
    match op
    case QueuePop(name) => OwnPop(a, b, ns, name, now);
    case QueuePush(name, msg) => OwnPush(a, b, ns, name, msg, now);
    case _ => OwnKeyedOp(a, b, ns, op, now);
  }

  // --- runs ---

  // The events of one namespace, and the answers it got in a run.
  function Own(events: seq<Event>, ns: string): seq<Event> {
    if events == [] then [] else (if events[0].ns == ns then [events[0]] else []) + Own(events[1..], ns)
  }

  function AnswersTo(db: Db, events: seq<Event>, ns: string): seq<Answer>
    decreases |events|
  {
    if events == [] then []
    else
      var e := events[0];
      var r := Apply(db, e.ns, e.op, e.now);
      (if e.ns == ns then [r.answer] else []) + AnswersTo(r.db, events[1..], ns)
  }

  lemma SameSteps(a: Db, c: Db, b: Db, ns: string)
    requires Same(a, b, ns) && Same(a, c, ns)
    ensures Same(c, b, ns)
  {}

  lemma {:induction false} RunsAgree(a: Db, b: Db, events: seq<Event>, ns: string)
    requires WellFormed(a) && WellFormed(b) && Same(a, b, ns)
    ensures AnswersTo(a, events, ns) == AnswersTo(b, Own(events, ns), ns)
    ensures Same(Run(a, events), Run(b, Own(events, ns)), ns)
    decreases |events|
  {
    hide Apply, Same, WellFormed;
    if events != [] {
      var e := events[0];
      var ra := Apply(a, e.ns, e.op, e.now);
      var rest := Own(events[1..], ns);
      ApplyKeepsWellFormed(a, e.ns, e.op, e.now);
      if e.ns == ns {
        var rb := Apply(b, e.ns, e.op, e.now);
        OwnStep(a, b, ns, e.op, e.now);
        ApplyKeepsWellFormed(b, e.ns, e.op, e.now);
        RunsAgree(ra.db, rb.db, events[1..], ns);
        assert Own(events, ns)[0] == e && Own(events, ns)[1..] == rest;
      } else {
        OtherUnseen(a, e, ns);
        SameSteps(a, ra.db, b, ns);
        RunsAgree(ra.db, b, events[1..], ns);
        assert Own(events, ns) == rest;
        assert [] + AnswersTo(ra.db, events[1..], ns) == AnswersTo(ra.db, events[1..], ns);
      }
    }
  }

  // For any run over any namespaces, with quota changes and any clock: the answers a
  // namespace gets, quota refusals included, are those of the run in which all other
  // namespaces do nothing.
  lemma NonInterference(db: Db, events: seq<Event>, ns: string)
    requires WellFormed(db)
    ensures AnswersTo(db, events, ns) == AnswersTo(db, Own(events, ns), ns)
  {
    RunsAgree(db, db, events, ns);
  }
}
