/**
 The in-RAM database of the store as the rows its SQL statements read and write.
 kv, cache and blob are keyed by (namespace, key); queue rows carry an
 autoincrement id and are popped in id order.
 */
module Tables {
  import opened Wrappers
  import opened Utf

  // exp is used by the cache only: 0 means no deadline, otherwise milliseconds.
  datatype Row = Row(ns: string, key: string, val: seq<Byte>, bytes: nat, exp: nat)
  type Table = seq<Row>

  datatype Message = Message(ns: string, name: string, id: nat, msg: seq<Byte>, bytes: nat)

  datatype ToolRow = ToolRow(
    name: string, version: string, cls: string,
    manifest: seq<Byte>, source: seq<Byte>, sourceSha: string, verified: bool)

  datatype GrantRow = GrantRow(caps: seq<Byte>, manifestSha: string)

  // lastId is SQLite's autoincrement counter of the queue table.
  datatype Db = Db(
    kv: Table, cache: Table, blob: Table,
    queue: seq<Message>, lastId: nat,
    quota: map<string, int>,
    tools: map<string, ToolRow>, grants: map<string, GrantRow>)

  const EMPTY := Db([], [], [], [], 0, map[], map[], map[])

  // --- keyed tables ---

  predicate Keyed(r: Row, ns: string, key: string) {
    r.ns == ns && r.key == key
  }

  function Select(t: Table, ns: string, key: string): Option<Row> {
    if t == [] then None
    else if Keyed(t[0], ns, key) then Some(t[0])
    else Select(t[1..], ns, key)
  }

  // INSERT ... ON CONFLICT(ns,key) DO UPDATE.
  function Upsert(t: Table, r: Row): Table {
    if t == [] then [r]
    else if Keyed(t[0], r.ns, r.key) then [r] + t[1..]
    else [t[0]] + Upsert(t[1..], r)
  }

  // DELETE ... WHERE ns=? AND key=?.
  function Delete(t: Table, ns: string, key: string): Table {
    if t == [] then []
    else (if Keyed(t[0], ns, key) then [] else [t[0]]) + Delete(t[1..], ns, key)
  }

  // SELECT COALESCE(SUM(bytes),0) ... WHERE ns=?.
  function Sum(t: Table, ns: string): nat {
    if t == [] then 0 else (if t[0].ns == ns then t[0].bytes else 0) + Sum(t[1..], ns)
  }

  // The primary key is unique.
  ghost predicate Unique(t: Table) {
    forall i, j :: 0 <= i < j < |t| ==> !Keyed(t[j], t[i].ns, t[i].key)
  }

  // The bytes column is the length of the value.
  ghost predicate Sized(t: Table) {
    forall i :: 0 <= i < |t| ==> t[i].bytes == |t[i].val|
  }

  function BytesOf(r: Option<Row>): nat {
    match r
    case Some(row) => row.bytes
    case None => 0
  }

  // --- the queue table ---

  predicate Named(m: Message, ns: string, name: string) {
    m.ns == ns && m.name == name
  }

  // SELECT id ... WHERE ns=? AND name=? ORDER BY id LIMIT 1: the position of the
  // matching row with the least id.
  function Oldest(q: seq<Message>, ns: string, name: string): (r: Option<nat>)
    ensures r.Some? ==> r.value < |q| && Named(q[r.value], ns, name)
    ensures r.Some? ==> forall i :: 0 <= i < |q| && Named(q[i], ns, name) ==> q[r.value].id <= q[i].id
    ensures r.None? ==> forall i :: 0 <= i < |q| ==> !Named(q[i], ns, name)
  {
    if q == [] then None
    else
      match Oldest(q[1..], ns, name)
      case None => if Named(q[0], ns, name) then Some(0) else None
      case Some(k) =>
        if Named(q[0], ns, name) && q[0].id <= q[k + 1].id then Some(0) else Some(k + 1)
  }

  function QueueSum(q: seq<Message>, ns: string): nat {
    if q == [] then 0 else (if q[0].ns == ns then q[0].bytes else 0) + QueueSum(q[1..], ns)
  }

  // Ids grow along the table and stay below the counter.
  ghost predicate Ordered(q: seq<Message>, lastId: nat) {
    && (forall i, j :: 0 <= i < j < |q| ==> q[i].id < q[j].id)
    && (forall i :: 0 <= i < |q| ==> q[i].id <= lastId && q[i].bytes == |q[i].msg|)
  }

  // --- what the statements keep ---

  ghost predicate WellFormed(db: Db) {
    && Unique(db.kv) && Unique(db.cache) && Unique(db.blob)
    && Sized(db.kv) && Sized(db.cache) && Sized(db.blob)
    && Ordered(db.queue, db.lastId)
  }

  lemma {:induction false} SelectFinds(t: Table, ns: string, key: string)
    ensures Select(t, ns, key).Some? ==>
              Select(t, ns, key).value in t && Keyed(Select(t, ns, key).value, ns, key)
    ensures Select(t, ns, key).None? ==> forall i :: 0 <= i < |t| ==> !Keyed(t[i], ns, key)
  {
    if t != [] {
      SelectFinds(t[1..], ns, key);
    }
  }

  // Writing a key changes what is read at that key and nowhere else.
  lemma {:induction false} SelectUpsert(t: Table, r: Row, ns: string, key: string)
    ensures Select(Upsert(t, r), ns, key) == if Keyed(r, ns, key) then Some(r) else Select(t, ns, key)
  {
    if t != [] && !Keyed(t[0], r.ns, r.key) {
      SelectUpsert(t[1..], r, ns, key);
    }
  }

  lemma {:induction false} SelectDelete(t: Table, dns: string, dkey: string, ns: string, key: string)
    ensures Select(Delete(t, dns, dkey), ns, key)
         == if ns == dns && key == dkey then None else Select(t, ns, key)
  {
    if t != [] {
      SelectDelete(t[1..], dns, dkey, ns, key);
      if Keyed(t[0], dns, dkey) {
        assert [] + Delete(t[1..], dns, dkey) == Delete(t[1..], dns, dkey);
      }
    }
  }

  // Overwriting trades the old row's bytes for the new one's.
  lemma {:induction false} SumUpsert(t: Table, r: Row, ns: string)
    ensures Sum(Upsert(t, r), ns)
         == if r.ns == ns then Sum(t, ns) - BytesOf(Select(t, ns, r.key)) + r.bytes else Sum(t, ns)
    ensures BytesOf(Select(t, ns, r.key)) <= Sum(t, ns)
  {
    if t != [] {
      SumUpsert(t[1..], r, ns);
    }
  }

  lemma {:induction false} SumDelete(t: Table, dns: string, dkey: string, ns: string)
    ensures Sum(Delete(t, dns, dkey), ns) <= Sum(t, ns)
  {
    if t != [] {
      SumDelete(t[1..], dns, dkey, ns);
      if Keyed(t[0], dns, dkey) {
        assert [] + Delete(t[1..], dns, dkey) == Delete(t[1..], dns, dkey);
      }
    }
  }

  lemma {:induction false} UpsertKeys(t: Table, r: Row)
    ensures forall x :: x in Upsert(t, r) ==> x in t || x == r
  {
    if t != [] && !Keyed(t[0], r.ns, r.key) {
      UpsertKeys(t[1..], r);
    }
  }

  lemma {:induction false} UniqueUpsert(t: Table, r: Row)
    requires Unique(t) && Sized(t) && r.bytes == |r.val|
    ensures Unique(Upsert(t, r)) && Sized(Upsert(t, r))
  {
    if t != [] && !Keyed(t[0], r.ns, r.key) {
      assert forall i, j :: 0 <= i < j < |t[1..]| ==> !Keyed(t[1..][j], t[1..][i].ns, t[1..][i].key);
      UniqueUpsert(t[1..], r);
      UpsertKeys(t[1..], r);
      var u := Upsert(t[1..], r);
      forall j | 0 < j < |Upsert(t, r)| ensures !Keyed(Upsert(t, r)[j], t[0].ns, t[0].key) {
        assert Upsert(t, r)[j] == u[j - 1] && u[j - 1] in u;
      }
    }
  }

  lemma {:induction false} DeleteKeys(t: Table, ns: string, key: string)
    ensures forall x :: x in Delete(t, ns, key) ==> x in t
  {
    if t != [] {
      DeleteKeys(t[1..], ns, key);
    }
  }

  lemma {:induction false} UniqueDelete(t: Table, ns: string, key: string)
    requires Unique(t) && Sized(t)
    ensures Unique(Delete(t, ns, key)) && Sized(Delete(t, ns, key))
  {
    if t != [] {
      var d := Delete(t[1..], ns, key);
      UniqueDelete(t[1..], ns, key);
      if Keyed(t[0], ns, key) {
        assert [] + d == d;
      } else {
        DeleteKeys(t[1..], ns, key);
        assert t == [t[0]] + t[1..];
        UniqueCons(t[0], d, t[1..]);
      }
    }
  }

  lemma UniqueCons(r: Row, d: Table, rest: Table)
    requires Unique([r] + rest) && Unique(d) && Sized(d) && r.bytes == |r.val|
    requires forall x :: x in d ==> x in rest
    ensures Unique([r] + d) && Sized([r] + d)
  {
    forall j | 0 <= j < |d| ensures !Keyed(d[j], r.ns, r.key) {
      assert d[j] in rest;
      var k :| 0 <= k < |rest| && rest[k] == d[j];
      assert ([r] + rest)[k + 1] == d[j] && ([r] + rest)[0] == r;
    }
  }

  lemma {:induction false} QueueSumSnoc(q: seq<Message>, m: Message, ns: string)
    ensures QueueSum(q + [m], ns) == QueueSum(q, ns) + if m.ns == ns then m.bytes else 0
  {
    if q != [] {
      assert (q + [m])[1..] == q[1..] + [m];
      QueueSumSnoc(q[1..], m, ns);
    }
  }

  lemma {:induction false} QueueSumRemove(q: seq<Message>, k: nat, ns: string)
    requires k < |q|
    ensures QueueSum(q[..k] + q[k + 1..], ns) == QueueSum(q, ns) - if q[k].ns == ns then q[k].bytes else 0
  {
    if k == 0 {
      assert q[..0] + q[1..] == q[1..];
    } else {
      assert (q[..k] + q[k + 1..])[1..] == q[1..][..k - 1] + q[1..][k..];
      QueueSumRemove(q[1..], k - 1, ns);
    }
  }
}
