/**
 host.go: the dispatcher that turns a tool's storage calls into operations on its own
 namespace.  A request is a host call with its JSON arguments decoded.
 */
module Host {
  import opened Wrappers
  import opened Utf
  import opened Tables
  import opened Ops
  import opened Queue
  import opened Isolation
  import opened Quota
  import opened Cache
  import opened Persistence
  import opened Store

  type Json = seq<Byte>

  const JSON_NULL: Json := [0x6E, 0x75, 0x6C, 0x6C]

  datatype Request =
    | Echo(args: Json)
    | KvGet(key: string)
    | KvSet(key: string, value: Json)
    | KvDel(key: string)
    | QPush(name: string, msg: Json)
    | QPop(name: string)
    | CGet(key: string)
    | CSet(key: string, value: Json, ttlSeconds: real)
    | BPut(name: string, data: Option<seq<Byte>>)    // None: not base64
    | BGet(name: string)
    | Undecodable
    | Unknown(op: string)

  // Base64(v) stands for the JSON string of v in base64.
  datatype Reply = Raw(json: Json) | Base64(data: seq<Byte>) | Failed(error: HostError)

  datatype HostError = BadArguments | NotBase64 | StorageQuota | UnknownOp

  function ValueBytes(v: Json): Json {
    if |v| == 0 then JSON_NULL else v
  }

  function OrNull(a: Answer): Reply {
    if a.Found? then Raw(a.val) else Raw(JSON_NULL)
  }

  // time.Duration(seconds * 1e9): truncation toward zero.
  function Nanoseconds(seconds: real): int {
    var ns := seconds * 1_000_000_000.0;
    if ns >= 0.0 then ns.Floor else -((-ns).Floor)
  }

  // The storage operation of a request, if it has one.
  function StorageOp(r: Request): Option<Op> {
    match r
    case KvGet(key) => Some(Op.KVGet(key))
    case KvSet(key, value) => Some(Op.KVSet(key, ValueBytes(value)))
    case KvDel(key) => Some(Op.KVDel(key))
    case QPush(name, msg) => Some(Op.QueuePush(name, ValueBytes(msg)))
    case QPop(name) => Some(Op.QueuePop(name))
    case CGet(key) => Some(Op.CacheGet(key))
    case CSet(key, value, ttl) => Some(Op.CacheSet(key, ValueBytes(value), Nanoseconds(ttl)))
    case BPut(name, Some(data)) => Some(Op.BlobPut(name, data))
    case BGet(name) => Some(Op.BlobGet(name))
    case _ => None
  }

  // The reply to a request whose operation got an answer.
  function ReplyTo(r: Request, a: Answer): Reply {
    match r
    case Echo(args) => Raw(args)
    case BPut(_, None) => Failed(NotBase64)
    case Undecodable => Failed(BadArguments)
    case Unknown(_) => Failed(UnknownOp)
    case BGet(_) => if a.Found? then Base64(a.val) else Raw(JSON_NULL)
    case _ => if a == QuotaExceeded then Failed(StorageQuota) else OrNull(a)
  }

  // A request against the database.
  function Dispatch(db: Db, ns: string, r: Request, now: nat): (Effect, Reply) {
    match StorageOp(r)
    case Some(op) => var e := Apply(db, ns, op, now); (e, ReplyTo(r, e.answer))
    case None => (Effect(db, Missing, false), ReplyTo(r, Missing))
  }

  class Dispatcher {
    const store: Store
    const namespace: string

    constructor (store: Store, namespace: string)
      ensures this.store == store && this.namespace == namespace
    {
      this.store, this.namespace := store, namespace;
    }

    // Call runs every storage request in the dispatcher's own namespace.
    method Call(r: Request, now: nat) returns (reply: Reply)
      modifies store
      ensures reply == Dispatch(old(store.db), namespace, r, now).1
      ensures store.View() == Commit(old(store.View()), Dispatch(old(store.db), namespace, r, now).0)
      ensures r.Echo? ==> reply == Raw(r.args)
      ensures r.Undecodable? ==> reply == Failed(BadArguments)
      ensures r.Unknown? ==> reply == Failed(UnknownOp)
      ensures r.BPut? && r.data.None? ==> reply == Failed(NotBase64)
      ensures r.Echo? || r.Undecodable? || r.Unknown? || (r.BPut? && r.data.None?) ==> store.View() == old(store.View())
      ensures r.KvDel? ==> reply == Raw([0x6E, 0x75, 0x6C, 0x6C])
      ensures r.KvSet? || r.QPush? || r.CSet? || (r.BPut? && r.data.Some?) ==>
                reply in {Raw([0x6E, 0x75, 0x6C, 0x6C]), Failed(StorageQuota)}
    {
      hide Apply;
      match r {
        case Echo(args) =>
          reply := Raw(args);
        case KvGet(key) =>
          var a := store.KVGet(namespace, key);
          assert a == Apply(store.db, namespace, Op.KVGet(key), now).answer;
          ReadsNeverRefused(store.db, namespace, Op.KVGet(key), now);
          reply := OrNull(a);
        case KvSet(key, value) =>
          var a := store.KVSet(namespace, key, ValueBytes(value));
          assert a == Apply(old(store.db), namespace, Op.KVSet(key, ValueBytes(value)), now).answer;
          SetsDone(old(store.db), namespace, Op.KVSet(key, ValueBytes(value)), now);
          reply := if a == QuotaExceeded then Failed(StorageQuota) else Raw(JSON_NULL);
        case KvDel(key) =>
          var a := store.KVDel(namespace, key);
          assert a == Apply(old(store.db), namespace, Op.KVDel(key), now).answer;
          SetsDone(old(store.db), namespace, Op.KVDel(key), now);
          reply := Raw(JSON_NULL);
        case QPush(name, msg) =>
          var a := store.QueuePush(namespace, name, ValueBytes(msg));
          assert a == Apply(old(store.db), namespace, Op.QueuePush(name, ValueBytes(msg)), now).answer;
          SetsDone(old(store.db), namespace, Op.QueuePush(name, ValueBytes(msg)), now);
          reply := if a == QuotaExceeded then Failed(StorageQuota) else Raw(JSON_NULL);
        case QPop(name) =>
          var a := store.QueuePop(namespace, name);
          assert a == Apply(old(store.db), namespace, Op.QueuePop(name), now).answer;
          ReadsNeverRefused(old(store.db), namespace, Op.QueuePop(name), now);
          reply := OrNull(a);
        case CGet(key) =>
          var a := store.CacheGet(namespace, key, now);
          ReadsNeverRefused(old(store.db), namespace, Op.CacheGet(key), now);
          reply := OrNull(a);
        case CSet(key, value, ttl) =>
          var a := store.CacheSet(namespace, key, ValueBytes(value), Nanoseconds(ttl), now);
          SetsDone(old(store.db), namespace, Op.CacheSet(key, ValueBytes(value), Nanoseconds(ttl)), now);
          reply := if a == QuotaExceeded then Failed(StorageQuota) else Raw(JSON_NULL);
        case BPut(name, data) =>
          match data {
            case None => reply := Failed(NotBase64);
            case Some(raw) =>
              var a := store.BlobPut(namespace, name, raw);
              assert a == Apply(old(store.db), namespace, Op.BlobPut(name, raw), now).answer;
              SetsDone(old(store.db), namespace, Op.BlobPut(name, raw), now);
              reply := if a == QuotaExceeded then Failed(StorageQuota) else Raw(JSON_NULL);
          }
        case BGet(name) =>
          var a := store.BlobGet(namespace, name);
          assert a == Apply(store.db, namespace, Op.BlobGet(name), now).answer;
          reply := if a.Found? then Base64(a.val) else Raw(JSON_NULL);
        case Undecodable =>
          reply := Failed(BadArguments);
        case Unknown(op) =>
          reply := Failed(UnknownOp);
      }
    }
  }

  lemma ReadsNeverRefused(db: Db, ns: string, op: Op, now: nat)
    requires op.KVGet? || op.QueuePop? || op.CacheGet? || op.BlobGet?
    ensures Apply(db, ns, op, now).answer != QuotaExceeded
  {}

  lemma SetsDone(db: Db, ns: string, op: Op, now: nat)
    requires op.KVSet? || op.KVDel? || op.QueuePush? || op.CacheSet? || op.BlobPut?
    ensures Apply(db, ns, op, now).answer in {Answer.Done, QuotaExceeded}
    ensures op.KVDel? ==> Apply(db, ns, op, now).answer == Answer.Done
  {}

  // --- runs of dispatchers over one store ---

  // A request by the dispatcher of a namespace, or a quota set for a namespace.
  datatype Turn = Asks(ns: string, request: Request, now: nat) | Limits(ns: string, limit: int)

  function Turns(db: Db, t: Turn): (Effect, Reply) {
    match t
    case Asks(ns, request, now) => Dispatch(db, ns, request, now)
    case Limits(ns, limit) => (Apply(db, ns, Op.SetQuota(limit), 0), Raw(JSON_NULL))
  }

  function OwnTurns(ts: seq<Turn>, ns: string): seq<Turn> {
    if ts == [] then [] else (if ts[0].ns == ns then [ts[0]] else []) + OwnTurns(ts[1..], ns)
  }

  function RepliesTo(db: Db, ts: seq<Turn>, ns: string): seq<Reply>
    decreases |ts|
  {
    if ts == [] then []
    else (if ts[0].ns == ns then [Turns(db, ts[0]).1] else []) + RepliesTo(Turns(db, ts[0]).0.db, ts[1..], ns)
  }

  lemma OwnTurn(a: Db, b: Db, t: Turn)
    requires WellFormed(a) && WellFormed(b) && Same(a, b, t.ns)
    ensures Turns(a, t).1 == Turns(b, t).1
    ensures Same(Turns(a, t).0.db, Turns(b, t).0.db, t.ns)
    ensures WellFormed(Turns(a, t).0.db) && WellFormed(Turns(b, t).0.db)
  {
    hide Apply, Same, WellFormed, ReplyTo;
    var op := if t.Asks? then StorageOp(t.request) else Some(Op.SetQuota(t.limit));
    var now := if t.Asks? then t.now else 0;
    if op.Some? {
      OwnStep(a, b, t.ns, op.value, now);
      ApplyKeepsWellFormed(a, t.ns, op.value, now);
      ApplyKeepsWellFormed(b, t.ns, op.value, now);
    }
  }

  lemma OtherTurn(db: Db, t: Turn, ns: string)
    requires WellFormed(db) && t.ns != ns
    ensures Same(db, Turns(db, t).0.db, ns) && WellFormed(Turns(db, t).0.db)
  {
    hide Apply, WellFormed, ReplyTo;
    var op := if t.Asks? then StorageOp(t.request) else Some(Op.SetQuota(t.limit));
    var now := if t.Asks? then t.now else 0;
    if op.Some? {
      OtherUnseen(db, Event(t.ns, op.value, now), ns);
      ApplyKeepsWellFormed(db, t.ns, op.value, now);
    }
  }

  lemma {:induction false} TurnsAgree(a: Db, b: Db, ts: seq<Turn>, ns: string)
    requires WellFormed(a) && WellFormed(b) && Same(a, b, ns)
    ensures RepliesTo(a, ts, ns) == RepliesTo(b, OwnTurns(ts, ns), ns)
    decreases |ts|
  {
    hide Turns, Same, WellFormed;
    if ts != [] {
      var t, rest := ts[0], OwnTurns(ts[1..], ns);
      var a' := Turns(a, t).0.db;
      if t.ns == ns {
        OwnTurn(a, b, t);
        TurnsAgree(a', Turns(b, t).0.db, ts[1..], ns);
        assert OwnTurns(ts, ns)[0] == t && OwnTurns(ts, ns)[1..] == rest;
      } else {
        OtherTurn(a, t, ns);
        SameSteps(a, a', b, ns);
        TurnsAgree(a', b, ts[1..], ns);
        assert OwnTurns(ts, ns) == rest;
        assert [] + RepliesTo(a', ts[1..], ns) == RepliesTo(a', ts[1..], ns);
      }
    }
  }

  // A tool's replies, errors included, are what they would be if no other namespace
  // made a request or had its quota changed.
  lemma DispatchersDoNotInterfere(db: Db, ts: seq<Turn>, ns: string)
    requires WellFormed(db)
    ensures RepliesTo(db, ts, ns) == RepliesTo(db, OwnTurns(ts, ns), ns)
  {
    TurnsAgree(db, db, ts, ns);
  }

  // --- reading back ---

  predicate Disturbs(t: Turn, ns: string, key: string) {
    t.Asks? && t.ns == ns && (t.request.KvSet? || t.request.KvDel?) && t.request.key == key
  }

  function AfterTurns(db: Db, ts: seq<Turn>): Db
    decreases |ts|
  {
    if ts == [] then db else AfterTurns(Turns(db, ts[0]).0.db, ts[1..])
  }

  lemma TurnKeepsRow(db: Db, t: Turn, ns: string, key: string)
    requires !Disturbs(t, ns, key)
    ensures Select(Turns(db, t).0.db.kv, ns, key) == Select(db.kv, ns, key)
  {
    hide Select, Upsert, Delete, Refused, Oldest;
    if t.Asks? {
      match t.request
      case KvSet(k, v) => SelectUpsert(db.kv, Row(t.ns, k, ValueBytes(v), |ValueBytes(v)|, 0), ns, key);
      case KvDel(k) => SelectDelete(db.kv, t.ns, k, ns, key);
      case _ =>
    }
  }

  // An empty value stands for null.
  function OrNullText(v: Json): Json {
    if v == [] then [0x6E, 0x75, 0x6C, 0x6C] else v
  }

  // A value accepted by kv.set is what kv.get returns until the same namespace sets or
  // deletes the same key; an empty value reads back as null.
  lemma {:induction false} KvReadsBack(db: Db, ns: string, key: string, value: Json, at: nat, ts: seq<Turn>, now: nat)
    requires Dispatch(db, ns, KvSet(key, value), at).1 == Raw([0x6E, 0x75, 0x6C, 0x6C])
    requires forall k :: 0 <= k < |ts| ==> !Disturbs(ts[k], ns, key)
    ensures Dispatch(AfterTurns(Dispatch(db, ns, KvSet(key, value), at).0.db, ts), ns, KvGet(key), now).1
         == Raw(OrNullText(value))
  {
    hide Select, Upsert, Refused, AfterTurns;
    var stored := Dispatch(db, ns, KvSet(key, value), at).0.db;
    SelectUpsert(db.kv, Row(ns, key, ValueBytes(value), |ValueBytes(value)|, 0), ns, key);
    RowStays(stored, ns, key, ts);
  }

  lemma {:induction false} RowStays(db: Db, ns: string, key: string, ts: seq<Turn>)
    requires forall k :: 0 <= k < |ts| ==> !Disturbs(ts[k], ns, key)
    ensures Select(AfterTurns(db, ts).kv, ns, key) == Select(db.kv, ns, key)
    decreases |ts|
  {
    hide Turns, Select;
    if ts != [] {
      TurnKeepsRow(db, ts[0], ns, key);
      assert forall k :: 0 <= k < |ts[1..]| ==> ts[1..][k] == ts[k + 1];
      RowStays(Turns(db, ts[0]).0.db, ns, key, ts[1..]);
    }
  }

  // A key deleted, like one never set, reads as null until the same namespace sets it.
  lemma {:induction false} KvStaysDeleted(db: Db, ns: string, key: string, at: nat, ts: seq<Turn>, now: nat)
    requires forall k :: 0 <= k < |ts| ==> !(Disturbs(ts[k], ns, key) && ts[k].request.KvSet?)
    ensures Dispatch(AfterTurns(Dispatch(db, ns, KvDel(key), at).0.db, ts), ns, KvGet(key), now).1
         == Raw([0x6E, 0x75, 0x6C, 0x6C])
  {
    hide Select, Delete, AfterTurns;
    SelectDelete(db.kv, ns, key, ns, key);
    RowStaysAway(Dispatch(db, ns, KvDel(key), at).0.db, ns, key, ts);
  }

  lemma {:induction false} RowStaysAway(db: Db, ns: string, key: string, ts: seq<Turn>)
    requires Select(db.kv, ns, key).None?
    requires forall k :: 0 <= k < |ts| ==> !(Disturbs(ts[k], ns, key) && ts[k].request.KvSet?)
    ensures Select(AfterTurns(db, ts).kv, ns, key).None?
    decreases |ts|
  {
    hide Turns, Select;
    if ts != [] {
      TurnKeepsAway(db, ts[0], ns, key);
      assert forall k :: 0 <= k < |ts[1..]| ==> ts[1..][k] == ts[k + 1];
      RowStaysAway(Turns(db, ts[0]).0.db, ns, key, ts[1..]);
    }
  }

  lemma TurnKeepsAway(db: Db, t: Turn, ns: string, key: string)
    requires Select(db.kv, ns, key).None? && !(Disturbs(t, ns, key) && t.request.KvSet?)
    ensures Select(Turns(db, t).0.db.kv, ns, key).None?
  {
    if Disturbs(t, ns, key) {
      hide Select, Delete;
      SelectDelete(db.kv, ns, key, ns, key);
    } else {
      TurnKeepsRow(db, t, ns, key);
    }
  }

  // --- blobs ---

  predicate PutsBlob(t: Turn, ns: string, name: string) {
    t.Asks? && t.ns == ns && t.request.BPut? && t.request.name == name && t.request.data.Some?
  }

  // Data accepted by blob.put is what blob.get returns, in base64, until the same
  // namespace puts that name again.
  lemma {:induction false} BlobReadsBack(db: Db, ns: string, name: string, data: seq<Byte>, at: nat, ts: seq<Turn>, now: nat)
    requires Dispatch(db, ns, BPut(name, Some(data)), at).1 == Raw([0x6E, 0x75, 0x6C, 0x6C])
    requires forall k :: 0 <= k < |ts| ==> !PutsBlob(ts[k], ns, name)
    ensures Dispatch(AfterTurns(Dispatch(db, ns, BPut(name, Some(data)), at).0.db, ts), ns, BGet(name), now).1 == Base64(data)
  {
    hide Select, Upsert, Refused, AfterTurns;
    var stored := Dispatch(db, ns, BPut(name, Some(data)), at).0.db;
    SelectUpsert(db.blob, Row(ns, name, data, |data|, 0), ns, name);
    BlobStays(stored, ns, name, ts);
  }

  // A name that was never put reads as null.
  lemma {:induction false} BlobStaysAway(db: Db, ns: string, name: string, ts: seq<Turn>, now: nat)
    requires Select(db.blob, ns, name).None? && forall k :: 0 <= k < |ts| ==> !PutsBlob(ts[k], ns, name)
    ensures Dispatch(AfterTurns(db, ts), ns, BGet(name), now).1 == Raw([0x6E, 0x75, 0x6C, 0x6C])
  {
    hide Select, AfterTurns;
    BlobStays(db, ns, name, ts);
  }

  lemma {:induction false} BlobStays(db: Db, ns: string, name: string, ts: seq<Turn>)
    requires forall k :: 0 <= k < |ts| ==> !PutsBlob(ts[k], ns, name)
    ensures Select(AfterTurns(db, ts).blob, ns, name) == Select(db.blob, ns, name)
    decreases |ts|
  {
    hide Turns, Select;
    if ts != [] {
      TurnKeepsBlob(db, ts[0], ns, name);
      assert forall k :: 0 <= k < |ts[1..]| ==> ts[1..][k] == ts[k + 1];
      BlobStays(Turns(db, ts[0]).0.db, ns, name, ts[1..]);
    }
  }

  lemma TurnKeepsBlob(db: Db, t: Turn, ns: string, name: string)
    requires !PutsBlob(t, ns, name)
    ensures Select(Turns(db, t).0.db.blob, ns, name) == Select(db.blob, ns, name)
  {
    hide Select, Upsert, Delete, Refused, Oldest;
    if t.Asks? && t.request.BPut? && t.request.data.Some? {
      var data := t.request.data.value;
      SelectUpsert(db.blob, Row(t.ns, t.request.name, data, |data|, 0), ns, name);
    }
  }

  // --- queues ---

  // queue.pop replies with the oldest message of its queue, and with null exactly when
  // there is none.
  lemma QueueReplies(db: Db, ns: string, name: string, now: nat)
    requires WellFormed(db)
    ensures var f := Fifo(db.queue, ns, name);
            && Dispatch(db, ns, QPop(name), now).1 == Raw(if f == [] then [0x6E, 0x75, 0x6C, 0x6C] else f[0])
            && Fifo(Dispatch(db, ns, QPop(name), now).0.db.queue, ns, name) == (if f == [] then [] else f[1..])
  {
    hide Fifo, Apply;
    PopTakesHead(db, ns, name, now);
  }

  // A message accepted by queue.push is the last of its queue.
  lemma PushReplies(db: Db, ns: string, name: string, msg: Json, now: nat)
    requires Dispatch(db, ns, QPush(name, msg), now).1 == Raw([0x6E, 0x75, 0x6C, 0x6C])
    ensures Fifo(Dispatch(db, ns, QPush(name, msg), now).0.db.queue, ns, name) == Fifo(db.queue, ns, name) + [OrNullText(msg)]
  {
    hide Fifo, Refused;
    PushStep(db, ns, name, ValueBytes(msg), ns, name);
  }

  // --- quotas ---

  // After a quota is set it is the limit until it is set again, whatever else happens;
  // a namespace without one has no limit.
  lemma {:induction false} LimitStays(db: Db, ns: string, limit: int, ts: seq<Turn>)
    requires forall k :: 0 <= k < |ts| ==> !(ts[k].Limits? && ts[k].ns == ns)
    ensures Limit(AfterTurns(Turns(db, Limits(ns, limit)).0.db, ts), ns) == limit
    ensures Limit(EMPTY, ns) == 0 && Used(EMPTY, ns) == 0
  {
    hide AfterTurns;
    SameLimit(Turns(db, Limits(ns, limit)).0.db, ns, ts);
  }

  lemma {:induction false} SameLimit(db: Db, ns: string, ts: seq<Turn>)
    requires forall k :: 0 <= k < |ts| ==> !(ts[k].Limits? && ts[k].ns == ns)
    ensures Limit(AfterTurns(db, ts), ns) == Limit(db, ns)
    decreases |ts|
  {
    hide Turns;
    if ts != [] {
      TurnKeepsLimit(db, ts[0], ns);
      assert forall k :: 0 <= k < |ts[1..]| ==> ts[1..][k] == ts[k + 1];
      SameLimit(Turns(db, ts[0]).0.db, ns, ts[1..]);
    }
  }

  lemma TurnKeepsLimit(db: Db, t: Turn, ns: string)
    requires !(t.Limits? && t.ns == ns)
    ensures Limit(Turns(db, t).0.db, ns) == Limit(db, ns)
  {
    hide Select, Upsert, Delete, Refused, Oldest;
  }

  // A write is refused exactly when the namespace has a positive limit which its use,
  // less what is overwritten, and the new bytes exceed together.
  lemma RefusedExactlyWhen(db: Db, ns: string, r: Request, now: nat)
    requires r.KvSet? || r.QPush? || r.CSet? || (r.BPut? && r.data.Some?)
    ensures var op := StorageOp(r).value;
            Dispatch(db, ns, r, now).1 == Failed(StorageQuota) <==>
              Limit(db, ns) > 0 && Used(db, ns) - Replaced(db, ns, op) + Brought(op) > Limit(db, ns)
  {
    hide Select, Upsert, Sum, QueueSum, Used;
    QuotaExact(db, ns, StorageOp(r).value, now);
    UsedAfterWrite(db, ns, StorageOp(r).value, now, ns);
  }

  // --- the cache, in seconds ---

  // The turns as events of the store; setting a quota takes no time.
  function EventsOf(from: nat, ts: seq<Turn>): seq<Event>
    decreases |ts|
  {
    if ts == [] then []
    else
      match ts[0]
      case Limits(ns, limit) => [Event(ns, Op.SetQuota(limit), from)] + EventsOf(from, ts[1..])
      case Asks(ns, request, now) =>
        (match StorageOp(request) case Some(op) => [Event(ns, op, now)] case None => []) + EventsOf(now, ts[1..])
  }

  // The clock of the turns does not run backwards, and ends at or before `to`.
  ghost predicate InTime(from: nat, ts: seq<Turn>, to: nat)
    decreases |ts|
  {
    if ts == [] then from <= to
    else match ts[0]
      case Limits(_, _) => InTime(from, ts[1..], to)
      case Asks(_, _, now) => from <= now && InTime(now, ts[1..], to)
  }

  predicate SetsCache(t: Turn, ns: string, key: string) {
    t.Asks? && t.ns == ns && t.request.CSet? && t.request.key == key
  }

  lemma RunCons(db: Db, e: Event, rest: seq<Event>)
    ensures Run(db, [e] + rest) == Run(Apply(db, e.ns, e.op, e.now).db, rest)
  {
    hide Apply;
    assert ([e] + rest)[1..] == rest;
  }

  lemma {:induction false} TurnsAreEvents(db: Db, from: nat, ts: seq<Turn>)
    ensures AfterTurns(db, ts) == Run(db, EventsOf(from, ts))
    decreases |ts|
  {
    hide Apply, ReplyTo, StorageOp;
    if ts != [] {
      var t := ts[0];
      var next := Turns(db, t).0.db;
      match t
      case Limits(ns, limit) =>
        TurnsAreEvents(next, from, ts[1..]);
        QuotaTakesNoTime(db, ns, limit, from);
        RunCons(db, Event(ns, Op.SetQuota(limit), from), EventsOf(from, ts[1..]));
      case Asks(ns, request, now) =>
        TurnsAreEvents(next, now, ts[1..]);
        match StorageOp(request)
        case None => assert [] + EventsOf(now, ts[1..]) == EventsOf(now, ts[1..]);
        case Some(op) => RunCons(db, Event(ns, op, now), EventsOf(now, ts[1..]));
    }
  }

  lemma QuotaTakesNoTime(db: Db, ns: string, limit: int, now: nat)
    ensures Apply(db, ns, Op.SetQuota(limit), now) == Apply(db, ns, Op.SetQuota(limit), 0)
  {}

  lemma LastCons(from: nat, e: Event, rest: seq<Event>)
    ensures LastTime(from, [e] + rest) == LastTime(e.now, rest)
    ensures ClockForward(from, [e] + rest) <==> from <= e.now && ClockForward(e.now, rest)
  {
    assert ([e] + rest)[1..] == rest;
  }

  lemma {:induction false} EventsInTime(from: nat, ts: seq<Turn>, to: nat)
    requires InTime(from, ts, to)
    ensures ClockForward(from, EventsOf(from, ts)) && LastTime(from, EventsOf(from, ts)) <= to && from <= to
    decreases |ts|
  {
    hide ClockForward, LastTime, StorageOp;
    if ts == [] {
      NoEvents(from);
    } else {
      match ts[0]
      case Limits(ns, limit) =>
        EventsInTime(from, ts[1..], to);
        LastCons(from, Event(ns, Op.SetQuota(limit), from), EventsOf(from, ts[1..]));
      case Asks(ns, request, now) =>
        EventsInTime(now, ts[1..], to);
        match StorageOp(request)
        case None =>
          assert [] + EventsOf(now, ts[1..]) == EventsOf(now, ts[1..]);
          LaterStart(from, now, EventsOf(now, ts[1..]), to);
        case Some(op) => LastCons(from, Event(ns, op, now), EventsOf(now, ts[1..]));
    }
  }

  lemma NoEvents(from: nat)
    ensures ClockForward(from, []) && LastTime(from, []) == from
  {}

  lemma LaterStart(from: nat, now: nat, events: seq<Event>, to: nat)
    requires from <= now && ClockForward(now, events) && LastTime(now, events) <= to && now <= to
    ensures ClockForward(from, events) && LastTime(from, events) <= to
  {}

  lemma {:induction false} SetsAreOverwrites(from: nat, ts: seq<Turn>, ns: string, key: string)
    requires forall k :: 0 <= k < |ts| ==> !SetsCache(ts[k], ns, key)
    ensures forall k :: 0 <= k < |EventsOf(from, ts)| ==> !Overwrites(EventsOf(from, ts)[k], ns, key)
    decreases |ts|
  {
    if ts != [] {
      assert forall k :: 0 <= k < |ts[1..]| ==> ts[1..][k] == ts[k + 1];
      assert !SetsCache(ts[0], ns, key);
      SetsAreOverwrites(if ts[0].Asks? then ts[0].now else from, ts[1..], ns, key);
    }
  }

  lemma Truncated(seconds: real)
    ensures seconds * 1_000_000_000.0 >= 1.0 ==>
              Nanoseconds(seconds) > 0 && seconds * 1_000_000_000.0 - 1.0 < Nanoseconds(seconds) as real <= seconds * 1_000_000_000.0
    ensures seconds * 1_000_000_000.0 < 1.0 ==> Nanoseconds(seconds) <= 0
  {}

  // cache.set and cache.get, in seconds and from an empty store: an accepted value is
  // never returned at or after its deadline and always returned more than a millisecond
  // and a nanosecond before it, and always with a ttl below a nanosecond, until the same
  // namespace sets the key again and whatever else runs.  Deadlines in the first
  // millisecond of 1970 are left to EntryLivesUntilDeadline.
  lemma {:induction false} CacheInSeconds(
      before: seq<Turn>, ns: string, key: string, value: Json, seconds: real, at: nat, ts: seq<Turn>, now: nat)
    requires InTime(0, before, at) && InTime(at, ts, now)
    requires forall k :: 0 <= k < |ts| ==> !SetsCache(ts[k], ns, key)
    requires Dispatch(AfterTurns(EMPTY, before), ns, CSet(key, value, seconds), at).1 == Raw([0x6E, 0x75, 0x6C, 0x6C])
    requires seconds * 1_000_000_000.0 >= 1.0 ==> at as real + seconds * 1_000_000_000.0 >= 1_000_001.0
    ensures var stored := Dispatch(AfterTurns(EMPTY, before), ns, CSet(key, value, seconds), at).0.db;
            var reply := Dispatch(AfterTurns(stored, ts), ns, CGet(key), now).1;
            && (seconds * 1_000_000_000.0 >= 1.0 && now as real >= at as real + seconds * 1_000_000_000.0 ==> reply == Raw([0x6E, 0x75, 0x6C, 0x6C]))
            && (seconds * 1_000_000_000.0 >= 1.0 && now as real + 1_000_001.0 <= at as real + seconds * 1_000_000_000.0 ==> reply == Raw(OrNullText(value)))
            && (seconds * 1_000_000_000.0 < 1.0 ==> reply == Raw(OrNullText(value)))
  {
    hide AfterTurns, Apply, Agree, ClockForward, LastTime, EventsOf, InTime, Run, Nanoseconds;
    var early := EventsOf(0, before);
    NewCacheAgrees(0);
    TurnsAreEvents(EMPTY, 0, before);
    EventsInTime(0, before, at);
    TableIsPureMap(EMPTY, map[], 0, early);
    var db := AfterTurns(EMPTY, before);
    var put := Event(ns, Op.CacheSet(key, ValueBytes(value), Nanoseconds(seconds)), at);
    SetsDone(db, ns, put.op, at);
    var stored := Apply(db, ns, put.op, at).db;
    TurnsAreEvents(stored, at, ts);
    EventsInTime(at, ts, now);
    SetsAreOverwrites(at, ts, ns, key);
    Truncated(seconds);
    if seconds * 1_000_000_000.0 >= 1.0 {
      EntryLivesUntilDeadline(db, PureAfter(EMPTY, map[], early), LastTime(0, early), put, EventsOf(at, ts), now);
    } else {
      EntryWithoutTtlStays(db, PureAfter(EMPTY, map[], early), LastTime(0, early), put, EventsOf(at, ts), now);
    }
  }
}
