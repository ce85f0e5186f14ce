/**
 The store as store.go and tools.go run it: one object with its in-RAM database and
 flush state.  Each method is one critical section, or a sequence of them when nothing
 else runs, and is tied to the step it takes in the protocol of module Persistence.
 */
module Store {
  import opened Wrappers
  import opened Utf
  import opened Tables
  import opened Disk
  import opened Persistence
  import opened Ops

  // What an operation's effect does to the fields of the store.
  function Commit(c: Core, e: Effect): Core {
    if e.wrote then MarkDirty(c, e.db) else c
  }

  datatype Where = InKv | InCache | InBlob | Nowhere

  class Store {
    const drive: Drive
    var dek: Key
    var db: Db
    var dirty: bool
    var closed: bool
    var writeGen: nat
    var lastFlushErr: Option<Fault>
    var persistedGen: nat
    var failedGen: nat

    ghost function View(): Core
      reads this
    {
      Core(db, dirty, closed, writeGen, lastFlushErr, persistedGen, failedGen)
    }

    constructor (drive: Drive, dek: Key, db: Db)
      ensures this.drive == drive && this.dek == dek && View() == FRESH.(db := db)
    {
      this.drive, this.dek, this.db := drive, dek, db;
      dirty, closed, writeGen, lastFlushErr, persistedGen, failedGen := false, false, 0, None, 0, 0;
    }

    // Open: `free` says whether the drive lock could be taken and `readable` whether
    // reading an existing blob succeeds.
    static method Open(drive: Drive, dek: Key, free: bool, readable: bool) returns (r: Result<Store, OpenError>)
      ensures match OpenVolume(drive.View(), dek, free, readable)
              case Err(e) => r == Err(e)
              case Ok(plain) =>
                r.Ok? && fresh(r.value) && r.value.drive == drive && r.value.dek == dek
                && r.value.View() == FRESH.(db := plain)
      ensures drive.View() == old(drive.View())
      ensures r.Ok? ==> |dek| == 32 && free && (drive.blob.Some? ==> readable)
      ensures r.Ok? ==> !r.value.dirty && !r.value.closed && r.value.lastFlushErr == None
      ensures r.Ok? && drive.blob.Some? ==> drive.blob.value == Whole(Sealed(dek, r.value.db))
      ensures r.Ok? && drive.blob.None? ==> r.value.db == EMPTY
      ensures |dek| != 32 ==> r == Err(BadKeyLength)
      ensures |dek| == 32 && !free ==> r == Err(Locked)
      ensures |dek| == 32 && free && drive.blob.Some? && !readable ==> r == Err(ReadFault)
      ensures |dek| == 32 && free && drive.blob == Some(Torn) && readable ==> r == Err(BadBlob)
    {
      if |dek| != DEK_LEN {
        return Err(BadKeyLength);
      }
      if !free {
        return Err(Locked);
      }
      var plain := EMPTY;
      if drive.blob.Some? {
        if !readable {
          return Err(ReadFault);
        }
        var file := drive.blob.value;
        if file.Torn? || file.blob.key != dek {
          return Err(BadBlob);
        }
        plain := file.blob.plain;
      }
      var s := new Store(drive, dek, plain);
      return Ok(s);
    }

    method MarkDirtyLocked()
      modifies this`dirty, this`writeGen
      ensures dirty && writeGen == old(writeGen) + 1
    {
      dirty := true;
      writeGen := writeGen + 1;
    }

    // --- quota ---

    method NsUsedLocked(ns: string) returns (total: nat)
      ensures total == Used(db, ns)
    {
      total := 0;
      total := total + Sum(db.kv, ns);
      total := total + QueueSum(db.queue, ns);
      total := total + Sum(db.cache, ns);
      total := total + Sum(db.blob, ns);
    }

    method CheckQuota(ns: string, table: Where, key: string, addBytes: nat) returns (exceeded: bool)
      ensures exceeded == match table
                          case InKv => Refused(db, ns, BytesOf(Select(db.kv, ns, key)), addBytes)
                          case InCache => Refused(db, ns, BytesOf(Select(db.cache, ns, key)), addBytes)
                          case InBlob => Refused(db, ns, BytesOf(Select(db.blob, ns, key)), addBytes)
                          case Nowhere => Refused(db, ns, 0, addBytes)
    {
      if ns !in db.quota || db.quota[ns] <= 0 {
        return false;
      }
      var used := NsUsedLocked(ns);
      var existing := 0;
      match table {
        case InKv => existing := BytesOf(Select(db.kv, ns, key));
        case InCache => existing := BytesOf(Select(db.cache, ns, key));
        case InBlob => existing := BytesOf(Select(db.blob, ns, key));
        case Nowhere =>
      }
      return used - existing + addBytes > db.quota[ns];
    }

    // --- the primitives ---

    method KVSet(ns: string, key: string, val: seq<Byte>) returns (r: Answer)
      modifies this
      ensures forall now: nat :: r == Apply(old(db), ns, Op.KVSet(key, val), now).answer
                              && View() == Commit(old(View()), Apply(old(db), ns, Op.KVSet(key, val), now))
      ensures dek == old(dek)
    {
      var exceeded := CheckQuota(ns, InKv, key, |val|);
      if exceeded {
        return QuotaExceeded;
      }
      db := db.(kv := Upsert(db.kv, Row(ns, key, val, |val|, 0)));
      MarkDirtyLocked();
      return Answer.Done;
    }

    method KVGet(ns: string, key: string) returns (r: Answer)
      ensures forall now: nat :: r == Apply(db, ns, Op.KVGet(key), now).answer
                              && View() == Commit(View(), Apply(db, ns, Op.KVGet(key), now))
    {
      match Select(db.kv, ns, key)
      case None => return Missing;
      case Some(row) => return Found(row.val);
    }

    method KVDel(ns: string, key: string) returns (r: Answer)
      modifies this
      ensures forall now: nat :: r == Apply(old(db), ns, Op.KVDel(key), now).answer
                              && View() == Commit(old(View()), Apply(old(db), ns, Op.KVDel(key), now))
      ensures dek == old(dek)
    {
      db := db.(kv := Delete(db.kv, ns, key));
      MarkDirtyLocked();
      return Answer.Done;
    }

    method QueuePush(ns: string, name: string, msg: seq<Byte>) returns (r: Answer)
      modifies this
      ensures forall now: nat :: r == Apply(old(db), ns, Op.QueuePush(name, msg), now).answer
                              && View() == Commit(old(View()), Apply(old(db), ns, Op.QueuePush(name, msg), now))
      ensures dek == old(dek)
    {
      var exceeded := CheckQuota(ns, Nowhere, "", |msg|);
      if exceeded {
        return QuotaExceeded;
      }
      var id := db.lastId + 1;
      db := db.(queue := db.queue + [Message(ns, name, id, msg, |msg|)], lastId := id);
      MarkDirtyLocked();
      return Answer.Done;
    }

    method QueuePop(ns: string, name: string) returns (r: Answer)
      modifies this
      ensures forall now: nat :: r == Apply(old(db), ns, Op.QueuePop(name), now).answer
                              && View() == Commit(old(View()), Apply(old(db), ns, Op.QueuePop(name), now))
      ensures dek == old(dek)
    {
      match Oldest(db.queue, ns, name)
      case None => return Missing;
      case Some(k) =>
        var msg := db.queue[k].msg;
        db := db.(queue := db.queue[..k] + db.queue[k + 1..]);
        MarkDirtyLocked();
        return Found(msg);
    }

    method CacheSet(ns: string, key: string, val: seq<Byte>, ttl: int, now: nat) returns (r: Answer)
      modifies this
      ensures r == Apply(old(db), ns, Op.CacheSet(key, val, ttl), now).answer
      ensures View() == Commit(old(View()), Apply(old(db), ns, Op.CacheSet(key, val, ttl), now))
      ensures dek == old(dek)
    {
      var exceeded := CheckQuota(ns, InCache, key, |val|);
      if exceeded {
        return QuotaExceeded;
      }
      var exp: nat := 0;
      if ttl > 0 {
        exp := Millis(now + ttl);
      }
      db := db.(cache := Upsert(db.cache, Row(ns, key, val, |val|, exp)));
      MarkDirtyLocked();
      return Answer.Done;
    }

    method CacheGet(ns: string, key: string, now: nat) returns (r: Answer)
      modifies this
      ensures r == Apply(old(db), ns, Op.CacheGet(key), now).answer
      ensures View() == Commit(old(View()), Apply(old(db), ns, Op.CacheGet(key), now))
      ensures dek == old(dek)
    {
      match Select(db.cache, ns, key)
      case None => return Missing;
      case Some(row) =>
        if row.exp > 0 && Millis(now) >= row.exp {
          db := db.(cache := Delete(db.cache, ns, key));
          MarkDirtyLocked();
          return Missing;
        }
        return Found(row.val);
    }

    method BlobPut(ns: string, name: string, data: seq<Byte>) returns (r: Answer)
      modifies this
      ensures forall now: nat :: r == Apply(old(db), ns, Op.BlobPut(name, data), now).answer
                              && View() == Commit(old(View()), Apply(old(db), ns, Op.BlobPut(name, data), now))
      ensures dek == old(dek)
    {
      var exceeded := CheckQuota(ns, InBlob, name, |data|);
      if exceeded {
        return QuotaExceeded;
      }
      db := db.(blob := Upsert(db.blob, Row(ns, name, data, |data|, 0)));
      MarkDirtyLocked();
      return Answer.Done;
    }

    method BlobGet(ns: string, name: string) returns (r: Answer)
      ensures forall now: nat :: r == Apply(db, ns, Op.BlobGet(name), now).answer
                              && View() == Commit(View(), Apply(db, ns, Op.BlobGet(name), now))
    {
      match Select(db.blob, ns, name)
      case None => return Missing;
      case Some(row) => return Found(row.val);
    }

    method SetQuota(ns: string, limitBytes: int) returns (r: Answer)
      modifies this
      ensures forall now: nat :: r == Apply(old(db), ns, Op.SetQuota(limitBytes), now).answer
                              && View() == Commit(old(View()), Apply(old(db), ns, Op.SetQuota(limitBytes), now))
      ensures dek == old(dek)
    {
      db := db.(quota := db.quota[ns := limitBytes]);
      MarkDirtyLocked();
      return Answer.Done;
    }

    // --- tools and grants ---

    method PutTool(t: ToolRow)
      modifies this
      ensures View() == MarkDirty(old(View()), old(db).(tools := old(db).tools[t.name := t]))
      ensures dek == old(dek)
    {
      db := db.(tools := db.tools[t.name := t]);
      MarkDirtyLocked();
    }

    method GetTool(name: string) returns (r: Option<ToolRow>)
      ensures r == if name in db.tools then Some(db.tools[name]) else None
    {
      r := if name in db.tools then Some(db.tools[name]) else None;
    }

    // Removes a tool together with its grant.
    method DeleteTool(name: string)
      modifies this
      ensures View() == MarkDirty(old(View()), old(db).(tools := old(db).tools - {name}, grants := old(db).grants - {name}))
      ensures dek == old(dek)
    {
      db := db.(tools := db.tools - {name});
      db := db.(grants := db.grants - {name});
      MarkDirtyLocked();
    }

    method PutGrant(tool: string, caps: seq<Byte>, manifestSha: string)
      modifies this
      ensures View() == MarkDirty(old(View()), old(db).(grants := old(db).grants[tool := GrantRow(caps, manifestSha)]))
      ensures dek == old(dek)
    {
      db := db.(grants := db.grants[tool := GrantRow(caps, manifestSha)]);
      MarkDirtyLocked();
    }

    method GetGrant(tool: string) returns (r: Option<GrantRow>)
      ensures r == if tool in db.grants then Some(db.grants[tool]) else None
    {
      r := if tool in db.grants then Some(db.grants[tool]) else None;
    }

    // --- reseal, section by section ---

    method ResealSnapshot(serializes: bool) returns (snap: Option<Snapshot>, err: Option<Fault>)
      modifies this`dirty, this`lastFlushErr
      ensures (View(), snap) == TakeSnapshot(old(View()), serializes)
      ensures err == if old(dirty) && !old(closed) && !serializes then Some(SerializeFault) else None
    {
      if !dirty || closed {
        return None, None;
      }
      if !serializes {
        lastFlushErr := Some(SerializeFault);
        return None, Some(SerializeFault);
      }
      var gen := writeGen;
      dirty := false;
      return Some(Snapshot(db, gen)), None;
    }

    // The section under flushMu.
    method ResealWrite(snap: Snapshot, w: Weather, t: nat) returns (skipped: bool, err: Option<Fault>)
      requires t !in drive.temps && w.fault != Some(SerializeFault)
      modifies this`persistedGen, drive
      ensures skipped <==> Stale(old(View()), snap.gen)
      ensures skipped ==> View() == old(View()) && drive.View() == old(drive.View()) && err == None
      ensures !skipped ==> (drive.View(), err) == Outcome(old(drive.View()), Sealed(dek, snap.raw), w, t)
      ensures !skipped ==> View() == Persisted(old(View()), snap.gen, err)
    {
      if snap.gen <= persistedGen {
        return true, None;
      }
      skipped := false;
      if w.fault == Some(SealFault) {
        err := Some(SealFault);
      } else {
        err := drive.AtomicWrite(Sealed(dek, snap.raw), w, t);
      }
      if err == None {
        persistedGen := snap.gen;
      }
    }

    method ResealPost(gen: nat, err: Option<Fault>)
      modifies this`lastFlushErr, this`dirty, this`failedGen
      ensures View() == Record(old(View()), gen, err)
    {
      if err != None {
        lastFlushErr := err;
        dirty := true;
        if gen > failedGen {
          failedGen := gen;
        }
      } else if gen >= failedGen {
        lastFlushErr := None;
      }
    }

    // reseal, and so Flush, with no other flusher about.
    method Reseal(serializes: bool, w: Weather, t: nat) returns (err: Option<Fault>)
      requires t !in drive.temps && w.fault != Some(SerializeFault)
      modifies this`dirty, this`lastFlushErr, this`persistedGen, this`failedGen, drive
      ensures (View(), drive.View(), err)
           == Persistence.Reseal(old(View()), old(drive.View()), dek, serializes, w, t)
      ensures old(closed) || !old(dirty) ==> err == None && View() == old(View()) && drive.View() == old(drive.View())
      ensures !old(closed) && old(dirty) && !serializes ==>
                err == Some(SerializeFault) && lastFlushErr == err && dirty && drive.View() == old(drive.View())
      ensures !old(closed) && old(dirty) && serializes && old(writeGen) > old(persistedGen) ==>
                err == w.fault && (err == None ==> drive.blob == Some(Whole(Sealed(dek, old(db)))) && persistedGen == old(writeGen))
    {
      var snap, serr := ResealSnapshot(serializes);
      if snap == None {
        return serr;
      }
      var skipped, werr := ResealWrite(snap.value, w, t);
      if skipped {
        return None;
      }
      ResealPost(snap.value.gen, werr);
      return werr;
    }

    // Close flushes, marks the store closed and wipes its key; tearsDown says whether
    // the database connection closes without an error.
    method Close(serializes: bool, w: Weather, t: nat, tearsDown: bool) returns (err: Option<CloseError>)
      requires t !in drive.temps && w.fault != Some(SerializeFault)
      modifies this, drive
      ensures (View(), drive.View(), err)
           == Persistence.Close(old(View()), old(drive.View()), old(dek), serializes, w, t, tearsDown)
      ensures closed
      ensures !old(closed) ==> |dek| == |old(dek)| && forall i :: 0 <= i < |dek| ==> dek[i] == 0
      ensures old(closed) ==> err == None && View() == old(View()) && drive.View() == old(drive.View()) && dek == old(dek)
      ensures !old(closed) && err == None ==> tearsDown
    {
      if closed {
        return None;
      }
      var ferr := Reseal(serializes, w, t);
      closed := true;
      dek := seq(|dek|, i => 0);
      if ferr.Some? {
        return Some(FlushFailed(ferr.value));
      }
      return if tearsDown then None else Some(TeardownFailed);
    }
  }
}
