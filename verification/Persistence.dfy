/**
 The write-behind protocol of the store.  Writers change the in-RAM database and bump
 a generation; any number of flushers snapshot it, race to write the snapshot and
 record the outcome.  A step is one section under a lock, one system call, or a crash.
 */
module Persistence {
  import opened Wrappers
  import opened Utf
  import opened Tables
  import opened Disk

  // --- the lock-delimited sections, shared with the Store class ---

  // The fields of the store the protocol works on.
  datatype Core = Core(
    db: Db, dirty: bool, closed: bool, writeGen: nat, flushErr: Option<Fault>,
    persistedGen: nat, failedGen: nat)

  datatype Snapshot = Snapshot(raw: Db, gen: nat)

  const FRESH: Core := Core(EMPTY, false, false, 0, None, 0, 0)

  function MarkDirty(c: Core, db: Db): Core {
    c.(db := db, dirty := true, writeGen := c.writeGen + 1)
  }

  // First section of reseal.  No snapshot means that reseal returns at once.
  function TakeSnapshot(c: Core, serializes: bool): (Core, Option<Snapshot>) {
    if !c.dirty || c.closed then (c, None)
    else if !serializes then (c.(flushErr := Some(SerializeFault)), None)
    else (c.(dirty := false), Some(Snapshot(c.db, c.writeGen)))
  }

  // The generation guard under flushMu.
  predicate Stale(c: Core, gen: nat) {
    gen <= c.persistedGen
  }

  function Persisted(c: Core, gen: nat, err: Option<Fault>): Core {
    if err == None then c.(persistedGen := gen) else c
  }

  // Last section of reseal.
  function Record(c: Core, gen: nat, err: Option<Fault>): Core {
    if err != None then
      c.(flushErr := err, dirty := true, failedGen := if gen > c.failedGen then gen else c.failedGen)
    else if gen >= c.failedGen then
      c.(flushErr := None)
    else c
  }

  // --- the concurrent system ---

  datatype Phase =
    | Waiting(snap: Snapshot)                  // has a snapshot, does not hold flushMu
    | Working(snap: Snapshot, stage: Stage)    // holds flushMu
    | Posting(gen: nat, err: Option<Fault>)    // released flushMu, has yet to record

  // What reseal reports, with the generation it was about.
  datatype Report = SerializeFailed(gen: nat) | WriteFailed(gen: nat) | Succeeded(gen: nat)

  // hist holds a database per write since the first Open ever; base is the write the
  // current session loaded and onDisk the write, counted from base, whose database
  // the blob holds.  reports are those of the session, oldest first.
  datatype State = State(
    core: Core, flushMu: Option<nat>, flushers: map<nat, Phase>,
    volume: Volume, key: Key,
    hist: seq<Db>, base: nat, onDisk: nat, reports: seq<Report>)

  datatype Step =
    | Write(db: Db)
    | Begin(f: nat, serializes: bool)      // flusher f runs the first section
    | Enter(f: nat)                        // f gets flushMu and passes the guard, or returns
    | Syscall(f: nat, ok: bool, t: nat)
    | Leave(f: nat)
    | Post(f: nat)
    | Crash                                // the process dies and Open loads the blob again

  // The database in the blob, as Open would load it.
  function Stored(v: Volume, key: Key): Option<Db> {
    match v.blob
    case None => Some(EMPTY)
    case Some(f) => if f.Whole? && f.blob.key == key then Some(f.blob.plain) else None
  }

  // A session that has just opened a volume.
  function Opened(v: Volume, key: Key, hist: seq<Db>, base: nat, db: Db): State {
    State(FRESH.(db := db), None, map[], v, key, hist, base, 0, [])
  }

  ghost predicate Initial(s: State) {
    exists db :: Stored(s.volume, s.key) == Some(db) && s == Opened(s.volume, s.key, [db], 0, db)
  }

  predicate Enabled(s: State, a: Step) {
    match a
    case Write(_) => true
    case Begin(f, _) => f !in s.flushers
    case Enter(f) => f in s.flushers && s.flushers[f].Waiting? && s.flushMu == None
    case Syscall(f, _, t) =>
      && f in s.flushers && s.flushers[f].Working? && !s.flushers[f].stage.Done?
      && (s.flushers[f].stage.Creating? ==> t !in s.volume.temps)
    case Leave(f) => f in s.flushers && s.flushers[f].Working? && s.flushers[f].stage.Done?
    case Post(f) => f in s.flushers && s.flushers[f].Posting?
    case Crash => Stored(s.volume, s.key).Some?
  }

  function Next(s: State, a: Step): State
    requires Enabled(s, a)
  {
    match a
    case Write(db) => s.(core := MarkDirty(s.core, db), hist := s.hist + [db])
    case Begin(f, serializes) =>
      var (core, snap) := TakeSnapshot(s.core, serializes);
      s.(core := core,
         flushers := if snap.Some? then s.flushers[f := Waiting(snap.value)] else s.flushers,
         reports := s.reports + if s.core.dirty && !s.core.closed && !serializes then [SerializeFailed(s.core.writeGen)] else [])
    case Enter(f) =>
      var snap := s.flushers[f].snap;
      if Stale(s.core, snap.gen) then s.(flushers := s.flushers - {f})
      else s.(flushMu := Some(f), flushers := s.flushers[f := Working(snap, Sealing)])
    case Syscall(f, ok, t) =>
      var w := s.flushers[f];
      var (v, stage) := Io(s.volume, w.stage, Sealed(s.key, w.snap.raw), ok, t);
      s.(volume := v, flushers := s.flushers[f := Working(w.snap, stage)],
         onDisk := if w.stage.Ready? && stage == Gone(w.stage.t, None) then w.snap.gen else s.onDisk)
    case Leave(f) =>
      var w := s.flushers[f];
      s.(core := Persisted(s.core, w.snap.gen, w.stage.err), flushMu := None,
         flushers := s.flushers[f := Posting(w.snap.gen, w.stage.err)])
    case Post(f) =>
      var p := s.flushers[f];
      s.(core := Record(s.core, p.gen, p.err), flushers := s.flushers - {f},
         reports := s.reports + [if p.err == None then Succeeded(p.gen) else WriteFailed(p.gen)])
    case Crash =>
      Opened(s.volume, s.key, Survives(s), s.base + s.onDisk, Stored(s.volume, s.key).value)
  }

  // The history a crash leaves: the writes up to the one on disk.
  function Survives(s: State): seq<Db> {
    if s.base + s.onDisk < |s.hist| then s.hist[..s.base + s.onDisk + 1] else s.hist
  }

  ghost predicate Possible(s: State, run: seq<Step>)
    decreases |run|
  {
    run == [] || (Enabled(s, run[0]) && Possible(Next(s, run[0]), run[1..]))
  }

  function After(s: State, run: seq<Step>): State
    requires Possible(s, run)
    decreases |run|
  {
    if run == [] then s else After(Next(s, run[0]), run[1..])
  }

  // --- the invariant ---

  // The history records every write, and the blob holds one of its databases.
  ghost predicate HistoryExact(s: State) {
    && |s.hist| == s.base + s.core.writeGen + 1
    && s.hist[s.base + s.core.writeGen] == s.core.db
    && s.core.persistedGen <= s.onDisk <= s.core.writeGen
    && Stored(s.volume, s.key) == Some(s.hist[s.base + s.onDisk])
  }

  // A snapshot is the database of its generation.
  ghost predicate SnapshotExact(s: State, snap: Snapshot) {
    && 1 <= snap.gen <= s.core.writeGen
    && s.base + snap.gen < |s.hist|
    && snap.raw == s.hist[s.base + snap.gen]
  }

  ghost predicate PhaseExact(s: State, f: nat, p: Phase) {
    match p
    case Waiting(snap) => SnapshotExact(s, snap)
    case Working(snap, stage) => SnapshotExact(s, snap) && s.flushMu == Some(f) && StageExact(s, snap, stage)
    case Posting(gen, err) => 1 <= gen <= s.core.writeGen && (err == None ==> gen <= s.core.persistedGen)
  }

  // Past the rename the blob holds the snapshot; before it, the last one recorded.
  ghost predicate StageExact(s: State, snap: Snapshot, stage: Stage) {
    && s.core.persistedGen < snap.gen
    && s.onDisk == (if Renamed(stage) then snap.gen else s.core.persistedGen)
    && (stage.Written? || stage.Synced? || stage.Closed? || stage.Ready? ==>
          stage.t in s.volume.temps && s.volume.temps[stage.t] == Whole(Sealed(s.key, snap.raw)))
  }

  predicate Renamed(stage: Stage) {
    (stage.Gone? || stage.Done?) && stage.err == None
  }

  // Only the holder of flushMu works; with the lock free, disk and counter agree.
  ghost predicate LockExact(s: State) {
    match s.flushMu
    case None => s.onDisk == s.core.persistedGen
    case Some(f) => f in s.flushers && s.flushers[f].Working?
  }

  ghost predicate FlushersExact(s: State) {
    forall f :: f in s.flushers ==> PhaseExact(s, f, s.flushers[f])
  }

  // A flusher on its way that will write, or will report, the latest generation.
  predicate Carries(p: Phase, gen: nat) {
    match p
    case Waiting(snap) => snap.gen == gen
    case Working(snap, _) => snap.gen == gen
    case Posting(g, err) => g == gen && err != None
  }

  // No write is forgotten: one that is not on disk is marked or on its way.
  ghost predicate NothingForgotten(s: State) {
    && (s.core.dirty ==> 1 <= s.core.writeGen)
    && (s.onDisk < s.core.writeGen ==>
          s.core.dirty || exists f :: f in s.flushers && Carries(s.flushers[f], s.core.writeGen))
  }

  // The newest generation whose write is reported to have failed.
  function WorstWrite(rs: seq<Report>): nat {
    if rs == [] then 0
    else
      var before, r := WorstWrite(rs[..|rs| - 1]), rs[|rs| - 1];
      if r.WriteFailed? && r.gen > before then r.gen else before
  }

  // A success that clears the error: no write of a newer generation failed before it.
  predicate Clears(rs: seq<Report>, i: nat)
    requires i < |rs|
  {
    rs[i].Succeeded? && rs[i].gen >= WorstWrite(rs[..i])
  }

  // Every failure is followed by such a success.
  ghost predicate AllCleared(rs: seq<Report>) {
    forall k :: 0 <= k < |rs| && !rs[k].Succeeded? ==> exists i :: k < i < |rs| && Clears(rs, i)
  }

  // The error is nil exactly when every failure reported was cleared; what is reported
  // to have succeeded is on disk.
  ghost predicate ErrorsExact(s: State) {
    && s.core.failedGen == WorstWrite(s.reports)
    && (s.core.flushErr == None <==> AllCleared(s.reports))
    && (forall k :: 0 <= k < |s.reports| ==>
          s.reports[k].gen <= s.core.writeGen && (s.reports[k].Succeeded? ==> s.reports[k].gen <= s.core.persistedGen))
    && !s.core.closed
  }

  ghost predicate Inv(s: State) {
    HistoryExact(s) && LockExact(s) && FlushersExact(s) && NothingForgotten(s) && ErrorsExact(s)
  }

  lemma InitialInv(s: State)
    requires Initial(s)
    ensures Inv(s)
  {
    assert s.reports == [];
  }

  // --- every step keeps it ---

  // A flusher that does not move stays exact while the history and the counters only
  // grow and, if it holds flushMu, nobody else touches the disk.
  lemma OthersKept(s: State, s': State, g: nat)
    requires g in s.flushers && PhaseExact(s, g, s.flushers[g])
    requires s.hist <= s'.hist && s'.base == s.base
    requires s.core.writeGen <= s'.core.writeGen && s.core.persistedGen <= s'.core.persistedGen
    requires s.flushers[g].Working? ==>
               && s'.flushMu == s.flushMu && s'.volume == s.volume && s'.key == s.key && s'.onDisk == s.onDisk
               && s'.core.persistedGen == s.core.persistedGen
    ensures PhaseExact(s', g, s.flushers[g])
  {}

  // A step that neither writes nor records keeps every write accounted for when each
  // carrier goes on carrying.
  lemma StillCarried(s: State, s': State)
    requires NothingForgotten(s)
    requires s'.core.writeGen == s.core.writeGen && s'.core.dirty == s.core.dirty && s.onDisk <= s'.onDisk
    requires forall g :: g in s.flushers && Carries(s.flushers[g], s.core.writeGen) && s'.onDisk < s.core.writeGen ==>
                           g in s'.flushers && Carries(s'.flushers[g], s.core.writeGen)
    ensures NothingForgotten(s')
  {
    if s'.onDisk < s'.core.writeGen && !s'.core.dirty {
      var g :| g in s.flushers && Carries(s.flushers[g], s.core.writeGen);
      assert g in s'.flushers && Carries(s'.flushers[g], s'.core.writeGen);
    }
  }

  lemma Phases(s: State, f: nat)
    requires FlushersExact(s) && f in s.flushers
    ensures PhaseExact(s, f, s.flushers[f])
  {}

  lemma WriteKeepsInv(s: State, db: Db)
    requires Inv(s)
    ensures Inv(Next(s, Write(db)))
  {
    var s' := Next(s, Write(db));
    assert FlushersExact(s') by {
      hide PhaseExact, NothingForgotten, ErrorsExact;
      forall g | g in s'.flushers ensures PhaseExact(s', g, s'.flushers[g]) {
        OthersKept(s, s', g);
      }
    }
  }

  lemma BeginKeepsInv(s: State, f: nat, serializes: bool)
    requires Inv(s) && Enabled(s, Begin(f, serializes))
    ensures Inv(Next(s, Begin(f, serializes)))
  {
    var s' := Next(s, Begin(f, serializes));
    BeginKeepsErrors(s, f, serializes);
    hide ErrorsExact;
    assert FlushersExact(s') by {
      forall g | g in s'.flushers ensures PhaseExact(s', g, s'.flushers[g]) {
        if g in s.flushers {
          OthersKept(s, s', g);
        }
      }
    }
    assert NothingForgotten(s') by {
      hide HistoryExact, FlushersExact;
      if s.core.dirty && serializes {
        assert Carries(s'.flushers[f], s'.core.writeGen);
      } else {
        StillCarried(s, s');
      }
    }
  }

  lemma EnterKeepsFlushers(s: State, f: nat)
    requires Inv(s) && Enabled(s, Enter(f))
    ensures FlushersExact(Next(s, Enter(f)))
  {
    hide NothingForgotten, ErrorsExact;
    var s' := Next(s, Enter(f));
    assert PhaseExact(s, f, s.flushers[f]);
    forall g | g in s'.flushers ensures PhaseExact(s', g, s'.flushers[g]) {
      if g != f {
        assert !s.flushers[g].Working? by { assert PhaseExact(s, g, s.flushers[g]); }
        OthersKept(s, s', g);
      }
    }
  }

  lemma EnterKeepsInv(s: State, f: nat)
    requires Inv(s) && Enabled(s, Enter(f))
    ensures Inv(Next(s, Enter(f)))
  {
    hide FlushersExact;
    var s' := Next(s, Enter(f));
    assert PhaseExact(s, f, s.flushers[f]) by { Phases(s, f); }
    EnterKeepsFlushers(s, f);
    assert NothingForgotten(s') by {
      hide ErrorsExact;
      StillCarried(s, s');
    }
  }

  // The effect of a system call on the stage and on what is stored.
  lemma IoKeepsStage(s: State, s': State, f: nat, ok: bool, t: nat)
    requires Enabled(s, Syscall(f, ok, t)) && s' == Next(s, Syscall(f, ok, t))
    requires HistoryExact(s) && SnapshotExact(s, s.flushers[f].snap)
    requires StageExact(s, s.flushers[f].snap, s.flushers[f].stage)
    ensures s'.flushers[f].Working? && s'.flushers[f].snap == s.flushers[f].snap
    ensures StageExact(s', s'.flushers[f].snap, s'.flushers[f].stage)
    ensures HistoryExact(s') && s.onDisk <= s'.onDisk
  {
    match s.flushers[f].stage
    case Sealing =>
    case Creating =>
    case Created(n) =>
    case Written(n) =>
    case Synced(n) =>
    case Closed(n) =>
    case Ready(n) =>
    case Gone(n, e) =>
    case Done(e) =>
  }

  lemma SyscallKeepsInv(s: State, f: nat, ok: bool, t: nat)
    requires Inv(s) && Enabled(s, Syscall(f, ok, t))
    ensures Inv(Next(s, Syscall(f, ok, t)))
  {
    hide Io, StageExact, HistoryExact;
    var s' := Next(s, Syscall(f, ok, t));
    assert PhaseExact(s, f, s.flushers[f]);
    IoKeepsStage(s, s', f, ok, t);
    assert FlushersExact(s') by {
      hide NothingForgotten, ErrorsExact;
      forall g | g in s'.flushers ensures PhaseExact(s', g, s'.flushers[g]) {
        if g != f {
          assert !s.flushers[g].Working? by { assert PhaseExact(s, g, s.flushers[g]); }
          OthersKept(s, s', g);
        }
      }
    }
    assert NothingForgotten(s') by {
      hide FlushersExact, PhaseExact, ErrorsExact;
      StillCarried(s, s');
    }
  }

  lemma LeaveKeepsFlushers(s: State, f: nat)
    requires Inv(s) && Enabled(s, Leave(f))
    ensures FlushersExact(Next(s, Leave(f)))
  {
    hide NothingForgotten, ErrorsExact;
    var s' := Next(s, Leave(f));
    assert PhaseExact(s, f, s.flushers[f]);
    forall g | g in s'.flushers ensures PhaseExact(s', g, s'.flushers[g]) {
      if g != f {
        assert !s.flushers[g].Working? by { assert PhaseExact(s, g, s.flushers[g]); }
        OthersKept(s, s', g);
      }
    }
  }

  lemma LeaveKeepsInv(s: State, f: nat)
    requires Inv(s) && Enabled(s, Leave(f))
    ensures Inv(Next(s, Leave(f)))
  {
    hide FlushersExact;
    var s' := Next(s, Leave(f));
    assert PhaseExact(s, f, s.flushers[f]) by { Phases(s, f); }
    LeaveKeepsFlushers(s, f);
    assert NothingForgotten(s') by {
      hide ErrorsExact;
      StillCarried(s, s');
    }
  }

  lemma PostKeepsFlushers(s: State, f: nat)
    requires Inv(s) && Enabled(s, Post(f))
    ensures HistoryExact(Next(s, Post(f))) && LockExact(Next(s, Post(f))) && FlushersExact(Next(s, Post(f)))
  {
    var s' := Next(s, Post(f));
    assert FlushersExact(s') by {
      hide NothingForgotten, ErrorsExact;
      forall g | g in s'.flushers ensures PhaseExact(s', g, s'.flushers[g]) {
        OthersKept(s, s', g);
      }
    }
  }

  lemma ClearsSnoc(rs: seq<Report>, r: Report)
    ensures WorstWrite(rs + [r]) == if r.WriteFailed? && r.gen > WorstWrite(rs) then r.gen else WorstWrite(rs)
    ensures Clears(rs + [r], |rs|) <==> r.Succeeded? && r.gen >= WorstWrite(rs)
    ensures forall i :: 0 <= i < |rs| ==> (Clears(rs + [r], i) <==> Clears(rs, i))
  {
    var all := rs + [r];
    assert all[..|rs|] == rs;
    assert forall i :: 0 <= i < |rs| ==> all[i] == rs[i] && all[..i] == rs[..i];
  }

  lemma ReportsSnoc(rs: seq<Report>, r: Report)
    ensures WorstWrite(rs + [r]) == if r.WriteFailed? && r.gen > WorstWrite(rs) then r.gen else WorstWrite(rs)
    ensures AllCleared(rs + [r]) <==> r.Succeeded? && (r.gen >= WorstWrite(rs) || AllCleared(rs))
  {
    hide WorstWrite, Clears;
    var all := rs + [r];
    ClearsSnoc(rs, r);
    assert forall i :: 0 <= i < |rs| ==> all[i] == rs[i];
    assert all[|rs|] == r;
    if AllCleared(all) && !Clears(all, |rs|) {
      forall k | 0 <= k < |rs| && !rs[k].Succeeded? ensures exists i :: k < i < |rs| && Clears(rs, i) {
        assert !all[k].Succeeded?;
        var i :| k < i < |all| && Clears(all, i);
        assert Clears(rs, i);
      }
    }
    if AllCleared(rs) && r.Succeeded? {
      forall k | 0 <= k < |all| && !all[k].Succeeded? ensures exists i :: k < i < |all| && Clears(all, i) {
        var i :| k < i < |rs| && Clears(rs, i);
        assert Clears(all, i);
      }
    }
  }

  lemma BeginKeepsErrors(s: State, f: nat, serializes: bool)
    requires Enabled(s, Begin(f, serializes)) && ErrorsExact(s)
    ensures ErrorsExact(Next(s, Begin(f, serializes)))
  {
    hide WorstWrite, AllCleared;
    ReportsSnoc(s.reports, SerializeFailed(s.core.writeGen));
    assert s.reports + [] == s.reports;
  }

  lemma PostKeepsErrors(s: State, f: nat)
    requires Enabled(s, Post(f)) && PhaseExact(s, f, s.flushers[f]) && ErrorsExact(s)
    ensures ErrorsExact(Next(s, Post(f)))
  {
    hide WorstWrite, AllCleared;
    var p := s.flushers[f];
    ReportsSnoc(s.reports, if p.err == None then Succeeded(p.gen) else WriteFailed(p.gen));
  }

  lemma PostKeepsInv(s: State, f: nat)
    requires Inv(s) && Enabled(s, Post(f))
    ensures Inv(Next(s, Post(f)))
  {
    var s' := Next(s, Post(f));
    PostKeepsFlushers(s, f);
    PostKeepsErrors(s, f);
    hide WorstWrite, AllCleared;
    assert NothingForgotten(s') by {
      hide HistoryExact, FlushersExact, PhaseExact, ErrorsExact, LockExact;
      if s.flushers[f].err == None {
        StillCarried(s, s');
      } else {
        PostedGenPositive(s, f);
      }
    }
  }

  // A snapshot is only taken of a database marked dirty, so there has been a write.
  lemma PostedGenPositive(s: State, f: nat)
    requires Inv(s) && Enabled(s, Post(f))
    ensures 1 <= s.core.writeGen
  {
    assert PhaseExact(s, f, s.flushers[f]);
  }

  lemma CrashKeepsInv(s: State)
    requires Inv(s)
    ensures Enabled(s, Crash) && Inv(Next(s, Crash))
  {}

  lemma StepKeepsInv(s: State, a: Step)
    requires Inv(s) && Enabled(s, a)
    ensures Inv(Next(s, a))
  {
    hide Inv, Next, Enabled;
    match a
    case Write(db) => WriteKeepsInv(s, db);
    case Begin(f, serializes) => BeginKeepsInv(s, f, serializes);
    case Enter(f) => EnterKeepsInv(s, f);
    case Syscall(f, ok, t) => SyscallKeepsInv(s, f, ok, t);
    case Leave(f) => LeaveKeepsInv(s, f);
    case Post(f) => PostKeepsInv(s, f);
    case Crash => CrashKeepsInv(s);
  }

  lemma {:induction false} RunKeepsInv(s: State, run: seq<Step>)
    requires Inv(s) && Possible(s, run)
    ensures Inv(After(s, run))
    decreases |run|
  {
    hide Inv, Next, Enabled;
    if run != [] {
      StepKeepsInv(s, run[0]);
      RunKeepsInv(Next(s, run[0]), run[1..]);
    }
  }

  // --- what the protocol promises ---

  // The write, counted from the first Open ever, whose database is on disk.
  function Durable(s: State): nat {
    s.base + s.onDisk
  }

  // Prefix durability.  Whatever the interleaving of writers, flushers, disk failures
  // and crashes, the blob is never torn: it opens, and what opens is the database
  // after a prefix of the writes.  With no flusher writing it is the one the
  // generation counter names.
  lemma PrefixDurability(s0: State, run: seq<Step>)
    requires Initial(s0) && Possible(s0, run) && |s0.key| == DEK_LEN
    ensures var s := After(s0, run);
            && Durable(s) < |s.hist|
            && OpenVolume(s.volume, s.key, true, true) == Ok(s.hist[Durable(s)])
            && s.hist[|s.hist| - 1] == s.core.db
            && (s.flushMu == None ==> s.onDisk == s.core.persistedGen)
  {
    hide Next, Enabled, Possible, After;
    InitialInv(s0);
    RunKeepsInv(s0, run);
    KeyStays(s0, run);
  }

  lemma {:induction false} KeyStays(s: State, run: seq<Step>)
    requires Possible(s, run)
    ensures After(s, run).key == s.key
    decreases |run|
  {
    if run != [] {
      KeyStays(Next(s, run[0]), run[1..]);
    }
  }

  lemma StepNeverRegresses(s: State, a: Step)
    requires Inv(s) && Enabled(s, a)
    ensures var s' := Next(s, a);
            && Durable(s) <= Durable(s') < |s'.hist|
            && s'.hist[..Durable(s) + 1] == s.hist[..Durable(s) + 1]
  {
    StepKeepsInv(s, a);
    if a.Syscall? {
      assert PhaseExact(s, a.f, s.flushers[a.f]);
    }
  }

  // What is on disk is never replaced by something older, and the writes it covers
  // stay in every later history: a stale snapshot never overwrites a newer one.
  lemma {:induction false} NeverRegresses(s: State, run: seq<Step>)
    requires Inv(s) && Possible(s, run)
    ensures var s' := After(s, run);
            && Durable(s) <= Durable(s') < |s'.hist|
            && s'.hist[..Durable(s) + 1] == s.hist[..Durable(s) + 1]
    decreases |run|
  {
    hide Inv, Next, Enabled;
    if run == [] {
      HistoryCovers(s);
    } else {
      var m, s' := Next(s, run[0]), After(s, run);
      StepKeepsInv(s, run[0]);
      StepNeverRegresses(s, run[0]);
      NeverRegresses(m, run[1..]);
      assert s'.hist[..Durable(s) + 1] == s'.hist[..Durable(m) + 1][..Durable(s) + 1];
      assert m.hist[..Durable(s) + 1] == m.hist[..Durable(m) + 1][..Durable(s) + 1];
    }
  }

  lemma HistoryCovers(s: State)
    requires Inv(s)
    ensures Durable(s) < |s.hist|
  {}

  // The databases written by a run.
  function Writes(run: seq<Step>): seq<Db> {
    if run == [] then [] else (if run[0].Write? then [run[0].db] else []) + Writes(run[1..])
  }

  ghost predicate NoCrash(run: seq<Step>) {
    forall k :: 0 <= k < |run| ==> !run[k].Crash?
  }

  lemma StepHistory(s: State, a: Step)
    requires Enabled(s, a) && !a.Crash?
    ensures Next(s, a).hist == s.hist + if a.Write? then [a.db] else []
  {}

  // Without a crash the history is what was loaded followed by every write, so the
  // prefixes above are prefixes of the writes themselves.
  lemma {:induction false} HistoryIsTheWrites(s: State, run: seq<Step>)
    requires Possible(s, run) && NoCrash(run)
    ensures After(s, run).hist == s.hist + Writes(run)
    decreases |run|
  {
    hide Next, Enabled;
    if run == [] {
      assert s.hist + [] == s.hist;
    } else {
      StepHistory(s, run[0]);
      assert forall k :: 0 <= k < |run[1..]| ==> run[1..][k] == run[k + 1];
      HistoryIsTheWrites(Next(s, run[0]), run[1..]);
      var w := if run[0].Write? then [run[0].db] else [];
      assert (s.hist + w) + Writes(run[1..]) == s.hist + (w + Writes(run[1..]));
    }
  }

  // No write is forgotten: with no flusher in flight and nothing marked dirty, the
  // blob holds exactly what is in RAM.
  lemma QuiescentMeansDurable(s0: State, run: seq<Step>)
    requires Initial(s0) && Possible(s0, run) && |s0.key| == DEK_LEN
    ensures var s := After(s0, run);
            s.flushers == map[] && !s.core.dirty ==>
              OpenVolume(s.volume, s.key, true, true) == Ok(s.core.db)
  {
    hide Next, Enabled, Possible, After;
    InitialInv(s0);
    RunKeepsInv(s0, run);
    KeyStays(s0, run);
  }

  // In every reachable state a write that is not on disk is marked dirty or carried
  // by a flusher, and with a nil error no write that is reported to have failed is
  // newer than the blob, nor, by the store's own counters, than what it recorded as
  // persisted.
  lemma NothingForgottenOrHidden(s0: State, run: seq<Step>)
    requires Initial(s0) && Possible(s0, run)
    ensures var s := After(s0, run);
            && (s.onDisk < s.core.writeGen ==>
                  s.core.dirty || exists f :: f in s.flushers && Carries(s.flushers[f], s.core.writeGen))
            && (s.core.flushErr == None ==>
                  && s.core.failedGen <= s.core.persistedGen
                  && forall k :: 0 <= k < |s.reports| && s.reports[k].WriteFailed? ==> s.reports[k].gen <= s.onDisk)
  {
    hide Next, Enabled, Possible, After, Inv;
    InitialInv(s0);
    RunKeepsInv(s0, run);
    InvHidesNoWrite(After(s0, run));
    if After(s0, run).core.flushErr == None {
      NilMeansPersisted(After(s0, run));
    }
  }

  lemma {:induction false} WorstIsWorst(rs: seq<Report>)
    ensures forall k :: 0 <= k < |rs| && rs[k].WriteFailed? ==> rs[k].gen <= WorstWrite(rs)
    ensures WorstWrite(rs) > 0 ==> exists k :: 0 <= k < |rs| && rs[k] == WriteFailed(WorstWrite(rs))
  {
    if rs != [] {
      WorstIsWorst(rs[..|rs| - 1]);
      if WorstWrite(rs) > 0 && WorstWrite(rs) == WorstWrite(rs[..|rs| - 1]) {
        var k :| 0 <= k < |rs| - 1 && rs[..|rs| - 1][k] == WriteFailed(WorstWrite(rs));
        assert rs[k] == WriteFailed(WorstWrite(rs));
      } else if WorstWrite(rs) > 0 {
        assert rs[|rs| - 1] == WriteFailed(WorstWrite(rs));
      }
    }
  }

  lemma NilMeansPersisted(s: State)
    requires Inv(s) && s.core.flushErr == None
    ensures s.core.failedGen <= s.core.persistedGen
  {
    hide WorstWrite, FlushersExact, LockExact, NothingForgotten;
    WorstIsWorst(s.reports);
    if s.core.failedGen > 0 {
      var k :| 0 <= k < |s.reports| && s.reports[k] == WriteFailed(s.core.failedGen);
      var i :| k < i < |s.reports| && Clears(s.reports, i);
      WorstIsWorst(s.reports[..i]);
      assert s.reports[..i][k] == s.reports[k];
    }
  }

  lemma InvHidesNoWrite(s: State)
    requires Inv(s)
    ensures s.onDisk < s.core.writeGen ==>
              s.core.dirty || exists f :: f in s.flushers && Carries(s.flushers[f], s.core.writeGen)
    ensures s.core.flushErr == None ==>
              forall k :: 0 <= k < |s.reports| && s.reports[k].WriteFailed? ==> s.reports[k].gen <= s.onDisk
  {
    hide WorstWrite, FlushersExact, LockExact;
    if s.core.flushErr == None {
      forall k | 0 <= k < |s.reports| && s.reports[k].WriteFailed? ensures s.reports[k].gen <= s.onDisk {
        var i :| k < i < |s.reports| && Clears(s.reports, i);
        WorstIsWorst(s.reports[..i]);
        assert s.reports[..i][k] == s.reports[k];
      }
    }
  }

  // A failure newer than the blob while the error is nil.
  ghost predicate Hides(s: State, k: nat)
    requires k < |s.reports|
  {
    s.core.flushErr == None && !s.reports[k].Succeeded? && s.reports[k].gen > s.onDisk
  }

  // The error is nil exactly when each failure was followed by a success at or above
  // every write failed until then; and what a nil error hides is exactly a failure to
  // serialise a database newer than the blob, followed by such a success.
  lemma NilErrorExactly(s0: State, run: seq<Step>)
    requires Initial(s0) && Possible(s0, run)
    ensures var s := After(s0, run);
            && (s.core.flushErr == None <==> AllCleared(s.reports))
            && forall k :: 0 <= k < |s.reports| ==>
                 (Hides(s, k) <==>
                    s.reports[k].SerializeFailed? && s.reports[k].gen > s.onDisk && AllCleared(s.reports))
  {
    hide Next, Enabled, Possible, After, Inv, WorstWrite, AllCleared;
    InitialInv(s0);
    RunKeepsInv(s0, run);
    InvHidesNoWrite(After(s0, run));
    ErrorIsCleared(After(s0, run));
  }

  lemma ErrorIsCleared(s: State)
    requires Inv(s)
    ensures s.core.flushErr == None <==> AllCleared(s.reports)
  {}

  // --- one flusher on its own: Flush and Close ---

  // reseal with nothing else going on.
  function Reseal(c: Core, v: Volume, key: Key, serializes: bool, w: Weather, t: nat): (Core, Volume, Option<Fault>) {
    var (c1, snap) := TakeSnapshot(c, serializes);
    match snap
    case None => (c1, v, if c.dirty && !c.closed then Some(SerializeFault) else None)
    case Some(sn) =>
      if Stale(c1, sn.gen) then (c1, v, None)
      else
        var (v', err) := Outcome(v, Sealed(key, sn.raw), w, t);
        (Record(Persisted(c1, sn.gen, err), sn.gen, err), v', err)
  }

  datatype CloseError = FlushFailed(fault: Fault) | TeardownFailed

  // Close reports the error of its flush or else that of hardClose; tearsDown says
  // whether the database connection closes without one.
  function Close(c: Core, v: Volume, key: Key, serializes: bool, w: Weather, t: nat, tearsDown: bool)
    : (Core, Volume, Option<CloseError>)
  {
    if c.closed then (c, v, None)
    else
      var r := Reseal(c, v, key, serializes, w, t);
      var err := if r.2.Some? then Some(FlushFailed(r.2.value)) else if tearsDown then None else Some(TeardownFailed);
      (r.0.(closed := true), r.1, err)
  }

  lemma {:induction false} RunsCompose(s: State, a: seq<Step>, b: seq<Step>)
    requires Possible(s, a) && Possible(After(s, a), b)
    ensures Possible(s, a + b) && After(s, a + b) == After(After(s, a), b)
    decreases |a|
  {
    hide Next, Enabled;
    if a == [] {
      assert a + b == b;
    } else {
      assert (a + b)[1..] == a[1..] + b;
      RunsCompose(Next(s, a[0]), a[1..], b);
    }
  }

  lemma OneStep(s: State, a: Step)
    requires Enabled(s, a)
    ensures Possible(s, [a]) && After(s, [a]) == Next(s, a)
  {
    assert [a][1..] == [];
  }

  // A flusher left alone makes its system calls in turn.
  lemma SyscallRun(s: State, f: nat, w: Weather, t: nat, n: nat) returns (run: seq<Step>)
    requires f in s.flushers && s.flushers[f].Working?
    requires s.flushers[f].stage.Sealing? || s.flushers[f].stage.Creating? ==> t !in s.volume.temps
    ensures Possible(s, run)
    ensures var p := s.flushers[f];
            var c := Calls(s.volume, p.stage, Sealed(s.key, p.snap.raw), w, t, n);
            After(s, run) == s.(volume := c.0, flushers := s.flushers[f := Working(p.snap, c.1)], onDisk := After(s, run).onDisk)
    decreases n
  {
    hide Possible, After, Calls;
    var p := s.flushers[f];
    var sealed := Sealed(s.key, p.snap.raw);
    if p.stage.Done? {
      LastCalls(s.volume, p.stage, sealed, w, t, n);
      assert s.flushers[f := Working(p.snap, p.stage)] == s.flushers;
      run := [];
      NoSteps(s);
    } else if n == 0 {
      NoCalls(s.volume, p.stage, sealed, w, t);
      assert s.flushers[f := Working(p.snap, p.stage)] == s.flushers;
      run := [];
      NoSteps(s);
    } else {
      var a := Syscall(f, Succeeds(p.stage, w), t);
      var m := Next(s, a);
      OneStep(s, a);
      OneCall(s.volume, p.stage, sealed, w, t, n);
      var rest := SyscallRun(m, f, w, t, n - 1);
      RunsCompose(s, [a], rest);
      run := [a] + rest;
      assert m.flushers[f := After(m, rest).flushers[f]] == s.flushers[f := After(m, rest).flushers[f]];
    }
  }

  lemma NoSteps(s: State)
    ensures Possible(s, []) && After(s, []) == s
  {}

  // reseal on its own is a run of the protocol: it begins and ends with no flusher in
  // flight, and its effect is that of its steps.
  lemma ResealIsARun(s: State, f: nat, serializes: bool, w: Weather, t: nat) returns (run: seq<Step>)
    requires s.flushers == map[] && s.flushMu == None && t !in s.volume.temps && w.fault != Some(SerializeFault)
    ensures Possible(s, run)
    ensures var (c, v, err) := Reseal(s.core, s.volume, s.key, serializes, w, t);
            var s' := After(s, run);
            s'.core == c && s'.volume == v && s'.flushers == map[] && s'.flushMu == None
  {
    hide Possible, After, Calls;
    var s1 := Next(s, Begin(f, serializes));
    OneStep(s, Begin(f, serializes));
    run := [Begin(f, serializes)];
    if f in s1.flushers {
      var s2 := Next(s1, Enter(f));
      OneStep(s1, Enter(f));
      RunsCompose(s, run, [Enter(f)]);
      run := run + [Enter(f)];
      if f in s2.flushers {
        var calls := SyscallRun(s2, f, w, t, 9);
        StepsAreAtomicWrite(s2.volume, Sealed(s2.key, s2.flushers[f].snap.raw), w, t);
        RunsCompose(s, run, calls);
        run := run + calls;
        var s3 := After(s2, calls);
        OneStep(s3, Leave(f));
        RunsCompose(s, run, [Leave(f)]);
        run := run + [Leave(f)];
        var s4 := Next(s3, Leave(f));
        OneStep(s4, Post(f));
        RunsCompose(s, run, [Post(f)]);
        run := run + [Post(f)];
        assert s4.flushers - {f} == map[];
      } else {
        assert s1.flushers - {f} == map[];
      }
    }
  }

  // A Close whose flush succeeds, with no other flusher in flight, leaves a blob that
  // Open restores to the exact database, even when closing the connection then fails;
  // one whose flush fails leaves the blob as it was.
  lemma CloseThenOpen(s0: State, run: seq<Step>, serializes: bool, w: Weather, t: nat, tearsDown: bool)
    requires Initial(s0) && Possible(s0, run) && |s0.key| == DEK_LEN
    requires After(s0, run).flushers == map[] && t !in After(s0, run).volume.temps
    ensures var s := After(s0, run);
            var (c, v, err) := Close(s.core, s.volume, s.key, serializes, w, t, tearsDown);
            && c.db == s.core.db && c.closed
            && (err == None || err == Some(TeardownFailed) ==> OpenVolume(v, s.key, true, true) == Ok(s.core.db))
            && (err.Some? && err.value.FlushFailed? ==> v.blob == s.volume.blob)
            && (err == None ==> tearsDown)
  {
    hide Next, Enabled, Possible, After, WorstWrite, AllCleared;
    InitialInv(s0);
    RunKeepsInv(s0, run);
    KeyStays(s0, run);
    StillOpen(After(s0, run));
  }

  lemma StillOpen(s: State)
    requires Inv(s)
    ensures !s.core.closed
  {}

  // A blob opens under no other key.
  lemma WrongKeyFails(s0: State, run: seq<Step>, key: Key)
    requires Initial(s0) && Possible(s0, run) && key != s0.key && |key| == DEK_LEN
    ensures var s := After(s0, run);
            s.volume.blob != None ==> OpenVolume(s.volume, key, true, true) == Err(BadBlob)
  {
    hide Next, Enabled, Possible, After;
    InitialInv(s0);
    RunKeepsInv(s0, run);
    KeyStays(s0, run);
  }

  // --- a run in which a nil error hides a failure ---

  // Flusher f, alone with its snapshot, goes from waiting to recorded.
  lemma FlusherFinishes(s: State, f: nat, t: nat) returns (run: seq<Step>)
    requires f in s.flushers && s.flushers[f].Waiting? && s.flushMu == None && t !in s.volume.temps
    requires !Stale(s.core, s.flushers[f].snap.gen)
    ensures Possible(s, run)
    ensures var s', gen := After(s, run), s.flushers[f].snap.gen;
            && s'.core == Record(Persisted(s.core, gen, None), gen, None)
            && s'.flushers == s.flushers - {f} && s'.reports == s.reports + [Succeeded(gen)]
  {
    hide Possible, After, Calls, Io;
    var snap, w := s.flushers[f].snap, Weather(None, true);
    var s1 := Next(s, Enter(f));
    OneStep(s, Enter(f));
    run := [Enter(f)];
    var calls := SyscallRun(s1, f, w, t, 9);
    StepsAreAtomicWrite(s1.volume, Sealed(s1.key, snap.raw), w, t);
    RunsCompose(s, run, calls);
    run := run + calls;
    var s2 := After(s1, calls);
    OneStep(s2, Leave(f));
    RunsCompose(s, run, [Leave(f)]);
    run := run + [Leave(f)];
    var s3 := Next(s2, Leave(f));
    OneStep(s3, Post(f));
    RunsCompose(s, run, [Post(f)]);
    run := run + [Post(f)];
    assert s3.flushers - {f} == s.flushers - {f};
  }

  // A first write is snapshotted, a second one fails to serialise, and then the first
  // snapshot is written: the error is nil and generation 2 is neither on disk nor
  // in flight.
  lemma SerializeFailureHidden(s0: State, first: Db, second: Db, t: nat) returns (run: seq<Step>)
    requires Initial(s0) && t !in s0.volume.temps
    ensures Possible(s0, run)
    ensures var s := After(s0, run);
            && s.core.flushErr == None && s.core.dirty && s.flushers == map[]
            && s.core.writeGen == 2 && s.onDisk == 1
            && s.reports == [SerializeFailed(2), Succeeded(1)]
  {
    hide Possible, After, Inv;
    var prefix := [Write(first), Begin(0, true), Write(second), Begin(1, false)];
    var s4 := FourSteps(s0, first, second);
    var rest := FlusherFinishes(s4, 0, t);
    RunsCompose(s0, prefix, rest);
    run := prefix + rest;
    var s := After(s0, run);
    InitialInv(s0);
    RunKeepsInv(s0, run);
    assert s.flushers == map[];
    DiskAgrees(s);
  }

  lemma DiskAgrees(s: State)
    requires Inv(s) && s.flushers == map[]
    ensures s.onDisk == s.core.persistedGen
  {}

  lemma FourSteps(s0: State, first: Db, second: Db) returns (s4: State)
    requires Initial(s0)
    ensures var prefix := [Write(first), Begin(0, true), Write(second), Begin(1, false)];
            Possible(s0, prefix) && s4 == After(s0, prefix)
    ensures s4.volume == s0.volume && s4.flushMu == None && s4.reports == [SerializeFailed(2)]
    ensures s4.flushers == map[0 := Waiting(Snapshot(first, 1))]
    ensures s4.core == Core(second, true, false, 2, Some(SerializeFault), 0, 0)
  {
    hide Possible, After;
    var s1 := Next(s0, Write(first));
    var s2 := Next(s1, Begin(0, true));
    var s3 := Next(s2, Write(second));
    s4 := Next(s3, Begin(1, false));
    OneStep(s0, Write(first));
    OneStep(s1, Begin(0, true));
    OneStep(s2, Write(second));
    OneStep(s3, Begin(1, false));
    RunsCompose(s0, [Write(first)], [Begin(0, true)]);
    RunsCompose(s0, [Write(first)] + [Begin(0, true)], [Write(second)]);
    RunsCompose(s0, [Write(first)] + [Begin(0, true)] + [Write(second)], [Begin(1, false)]);
    assert [Write(first)] + [Begin(0, true)] + [Write(second)] + [Begin(1, false)]
        == [Write(first), Begin(0, true), Write(second), Begin(1, false)];
  }
}
