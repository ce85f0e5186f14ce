/**
 The cache table, which sweeps an expired entry only when it is read, against a pure
 map that keeps every entry with its deadline.
 */
module Cache {
  import opened Wrappers
  import opened Utf
  import opened Tables
  import opened Ops

  datatype Entry = Entry(val: seq<Byte>, exp: nat)

  type Pure = map<(string, string), Entry>

  // The pure map: a successful set overwrites, nothing deletes.
  function PureStep(p: Pure, e: Event, a: Answer): Pure {
    if e.op.CacheSet? && a == Done then p[(e.ns, e.op.key) := Entry(e.op.val, Deadline(e.now, e.op.ttl))] else p
  }

  function PureGet(p: Pure, ns: string, key: string, now: nat): Answer {
    if (ns, key) in p && !Expired(p[(ns, key)].exp, now) then Found(p[(ns, key)].val) else Missing
  }

  // The table agrees with the map except that it may have swept an expired entry.
  ghost predicate Agree(db: Db, p: Pure, now: nat) {
    forall ns: string, key: string :: AgreeAt(Select(db.cache, ns, key), p, ns, key, now)
  }

  predicate AgreeAt(r: Option<Row>, p: Pure, ns: string, key: string, now: nat) {
    match r
    case Some(row) => (ns, key) in p && p[(ns, key)] == Entry(row.val, row.exp)
    case None => (ns, key) in p ==> Expired(p[(ns, key)].exp, now)
  }

  lemma MillisMonotone(a: nat, b: nat)
    requires a <= b
    ensures Millis(a) <= Millis(b)
  {}

  lemma LaterStillExpired(exp: nat, now: nat, later: nat)
    requires now <= later && Expired(exp, now)
    ensures Expired(exp, later)
  {
    MillisMonotone(now, later);
  }

  // One event: a read answers as the map does, and agreement is kept.
  lemma StepAgrees(db: Db, p: Pure, before: nat, e: Event)
    requires Agree(db, p, before) && before <= e.now
    ensures var r := Apply(db, e.ns, e.op, e.now);
            && (e.op.CacheGet? ==> r.answer == PureGet(p, e.ns, e.op.key, e.now))
            && Agree(r.db, PureStep(p, e, r.answer), e.now)
  {
    hide Select, Upsert, Delete, Refused, Expired;
    var r := Apply(db, e.ns, e.op, e.now);
    var p' := PureStep(p, e, r.answer);
    if e.op.CacheGet? {
      assert AgreeAt(Select(db.cache, e.ns, e.op.key), p, e.ns, e.op.key, before);
      if (e.ns, e.op.key) in p && Expired(p[(e.ns, e.op.key)].exp, before) {
        LaterStillExpired(p[(e.ns, e.op.key)].exp, before, e.now);
      }
    }
    forall ns: string, key: string ensures AgreeAt(Select(r.db.cache, ns, key), p', ns, key, e.now) {
      assert AgreeAt(Select(db.cache, ns, key), p, ns, key, before);
      if (ns, key) in p && Expired(p[(ns, key)].exp, before) {
        LaterStillExpired(p[(ns, key)].exp, before, e.now);
      }
      match e.op
      case CacheGet(k) => SelectDelete(db.cache, e.ns, k, ns, key);
      case CacheSet(k, val, ttl) => SelectUpsert(db.cache, Row(e.ns, k, val, |val|, Deadline(e.now, ttl)), ns, key);
      case _ =>
    }
  }

  ghost predicate ClockForward(from: nat, events: seq<Event>)
    decreases |events|
  {
    events == [] || (from <= events[0].now && ClockForward(events[0].now, events[1..]))
  }

  // The map after a run, and whether every read of the run was answered by it.
  function PureAfter(db: Db, p: Pure, events: seq<Event>): Pure
    decreases |events|
  {
    if events == [] then p
    else
      var r := Apply(db, events[0].ns, events[0].op, events[0].now);
      PureAfter(r.db, PureStep(p, events[0], r.answer), events[1..])
  }

  ghost predicate AnsweredPurely(db: Db, p: Pure, events: seq<Event>)
    decreases |events|
  {
    events == [] ||
    var e := events[0];
    var r := Apply(db, e.ns, e.op, e.now);
    && (e.op.CacheGet? ==> r.answer == PureGet(p, e.ns, e.op.key, e.now))
    && AnsweredPurely(r.db, PureStep(p, e, r.answer), events[1..])
  }

  function LastTime(from: nat, events: seq<Event>): nat {
    if events == [] then from else events[|events| - 1].now
  }

  // With a clock that does not run backwards the table answers every read of any run
  // as the pure map does.
  lemma {:induction false} TableIsPureMap(db: Db, p: Pure, from: nat, events: seq<Event>)
    requires Agree(db, p, from) && ClockForward(from, events)
    ensures AnsweredPurely(db, p, events)
    ensures Agree(Run(db, events), PureAfter(db, p, events), LastTime(from, events))
    decreases |events|
  {
    hide Apply, Agree, PureGet, PureStep;
    if events != [] {
      var e := events[0];
      var r := Apply(db, e.ns, e.op, e.now);
      StepAgrees(db, p, from, e);
      TableIsPureMap(r.db, PureStep(p, e, r.answer), e.now, events[1..]);
      assert LastTime(from, events) == LastTime(e.now, events[1..]);
    }
  }

  // A new database agrees with the empty map, so that runs from it are covered.
  lemma NewCacheAgrees(from: nat)
    ensures Agree(EMPTY, map[], from)
  {}

  // --- deadlines ---

  predicate Overwrites(e: Event, ns: string, key: string) {
    e.op.CacheSet? && e.ns == ns && e.op.key == key
  }

  lemma {:induction false} PureKeeps(db: Db, p: Pure, events: seq<Event>, ns: string, key: string)
    requires forall k :: 0 <= k < |events| ==> !Overwrites(events[k], ns, key)
    requires (ns, key) in p
    ensures (ns, key) in PureAfter(db, p, events) && PureAfter(db, p, events)[(ns, key)] == p[(ns, key)]
    decreases |events|
  {
    hide Apply;
    if events != [] {
      var e := events[0];
      var r := Apply(db, e.ns, e.op, e.now);
      assert !Overwrites(e, ns, key);
      assert forall k :: 0 <= k < |events[1..]| ==> events[1..][k] == events[k + 1];
      PureKeeps(r.db, PureStep(p, e, r.answer), events[1..], ns, key);
    }
  }

  // Milliseconds against nanoseconds: with a deadline past the first millisecond of
  // 1970, an entry is expired from its deadline on and not yet a millisecond before.
  lemma DeadlineBounds(setAt: nat, ttl: int, now: nat)
    requires ttl > 0 && setAt + ttl >= MILLI
    ensures now >= setAt + ttl ==> Expired(Deadline(setAt, ttl), now)
    ensures now + MILLI <= setAt + ttl ==> !Expired(Deadline(setAt, ttl), now)
    ensures Expired(Deadline(setAt, ttl), now) <==> Millis(now) >= Millis(setAt + ttl)
  {
    var d := setAt + ttl;
    MillisMonotone(MILLI, d);
    if now >= d {
      MillisMonotone(d, now);
    }
    if now + MILLI <= d {
      assert (now + MILLI) / MILLI == now / MILLI + 1;
      MillisMonotone(now + MILLI, d);
    }
  }

  // An entry stored with a positive ttl and not overwritten since is never returned
  // at or after its deadline and always returned more than a millisecond before it,
  // whatever else the run does and however often it is read.  The one exception is a
  // deadline in the first millisecond of 1970, which the table reads as none at all:
  // the entry then never expires.
  lemma {:induction false} EntryLivesUntilDeadline(
      db: Db, p: Pure, from: nat, put: Event, events: seq<Event>, now: nat)
    requires Agree(db, p, from) && from <= put.now && ClockForward(put.now, events)
    requires LastTime(put.now, events) <= now
    requires put.op.CacheSet? && put.op.ttl > 0
    requires forall k :: 0 <= k < |events| ==> !Overwrites(events[k], put.ns, put.op.key)
    requires Apply(db, put.ns, put.op, put.now).answer == Done
    ensures var later := Run(Apply(db, put.ns, put.op, put.now).db, events);
            var got := Apply(later, put.ns, CacheGet(put.op.key), now).answer;
            var deadline := put.now + put.op.ttl;
            && (deadline < MILLI ==> got == Found(put.op.val))
            && (deadline >= MILLI && now >= deadline ==> got == Missing)
            && (deadline >= MILLI && now + MILLI <= deadline ==> got == Found(put.op.val))
  {
    hide Apply, Agree, Expired, Deadline;
    var r := Apply(db, put.ns, put.op, put.now);
    var q := PureStep(p, put, r.answer);
    StepAgrees(db, p, from, put);
    TableIsPureMap(r.db, q, put.now, events);
    PureKeeps(r.db, q, events, put.ns, put.op.key);
    StepAgrees(Run(r.db, events), PureAfter(r.db, q, events), LastTime(put.now, events),
               Event(put.ns, CacheGet(put.op.key), now));
    if put.now + put.op.ttl >= MILLI {
      DeadlineBounds(put.now, put.op.ttl, now);
    } else {
      NoDeadline(put.now, put.op.ttl, now);
    }
  }

  lemma NoDeadline(setAt: nat, ttl: int, now: nat)
    requires ttl <= 0 || setAt + ttl < MILLI
    ensures Deadline(setAt, ttl) == 0 && !Expired(Deadline(setAt, ttl), now)
  {}

  // An entry stored with a ttl that is not positive and not overwritten since is always
  // returned, whatever else the run does and however late.
  lemma {:induction false} EntryWithoutTtlStays(
      db: Db, p: Pure, from: nat, put: Event, events: seq<Event>, now: nat)
    requires Agree(db, p, from) && from <= put.now && ClockForward(put.now, events)
    requires LastTime(put.now, events) <= now
    requires put.op.CacheSet? && put.op.ttl <= 0
    requires forall k :: 0 <= k < |events| ==> !Overwrites(events[k], put.ns, put.op.key)
    requires Apply(db, put.ns, put.op, put.now).answer == Done
    ensures var later := Run(Apply(db, put.ns, put.op, put.now).db, events);
            Apply(later, put.ns, CacheGet(put.op.key), now).answer == Found(put.op.val)
  {
    hide Apply, Agree, Expired, Deadline;
    var r := Apply(db, put.ns, put.op, put.now);
    var q := PureStep(p, put, r.answer);
    StepAgrees(db, p, from, put);
    TableIsPureMap(r.db, q, put.now, events);
    PureKeeps(r.db, q, events, put.ns, put.op.key);
    StepAgrees(Run(r.db, events), PureAfter(r.db, q, events), LastTime(put.now, events),
               Event(put.ns, CacheGet(put.op.key), now));
    NoDeadline(put.now, put.op.ttl, now);
  }
}
