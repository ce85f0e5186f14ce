/**
 The sealed blob on disk and atomicWrite, which replaces it through a temporary file.
 Sealing is ideal: a sealed blob opens under the key it was sealed with and no other.
 */
module Disk {
  import opened Wrappers
  import opened Utf
  import opened Tables

  type Key = seq<Byte>

  const DEK_LEN := 32

  datatype Sealed = Sealed(key: Key, plain: Db)

  // What a file holds: a whole sealed blob, or an initial part of one.
  datatype File = Torn | Whole(blob: Sealed)

  datatype Volume = Volume(blob: Option<File>, temps: map<nat, File>)

  datatype Fault = SerializeFault | SealFault | CreateFault | WriteFault | SyncFault | CloseFault | ChmodFault | RenameFault

  datatype OpenError = BadKeyLength | Locked | ReadFault | BadBlob

  // Open: an absent blob is an empty database; a blob must open under the key.
  // `readable` says whether reading an existing file succeeds and `free` whether
  // the drive lock could be taken.
  function OpenVolume(v: Volume, key: Key, free: bool, readable: bool): Result<Db, OpenError> {
    if |key| != DEK_LEN then Err(BadKeyLength)
    else if !free then Err(Locked)
    else match v.blob
      case None => Ok(EMPTY)
      case Some(f) =>
        if !readable then Err(ReadFault)
        else if f.Whole? && f.blob.key == key then Ok(f.blob.plain)
        else Err(BadBlob)
  }

  // Where a seal-and-write stands.  Gone(t, e) has the deferred removal of the
  // temporary file t left to do; Done(e) has finished, with error e or without.
  datatype Stage =
    | Sealing
    | Creating
    | Created(t: nat)
    | Written(t: nat)
    | Synced(t: nat)
    | Closed(t: nat)
    | Ready(t: nat)
    | Gone(t: nat, err: Option<Fault>)
    | Done(err: Option<Fault>)

  // The next system call: `ok` says whether it succeeds, t is the name CreateTemp
  // picks.  Only Rename touches the blob.
  function Io(v: Volume, s: Stage, sealed: Sealed, ok: bool, t: nat): (Volume, Stage) {
    match s
    case Sealing => if ok then (v, Creating) else (v, Done(Some(SealFault)))
    case Creating =>
      if ok then (v.(temps := v.temps[t := Torn]), Created(t)) else (v, Done(Some(CreateFault)))
    case Created(n) =>
      if ok then (v.(temps := v.temps[n := Whole(sealed)]), Written(n)) else (v, Gone(n, Some(WriteFault)))
    case Written(n) => if ok then (v, Synced(n)) else (v, Gone(n, Some(SyncFault)))
    case Synced(n) => if ok then (v, Closed(n)) else (v, Gone(n, Some(CloseFault)))
    case Closed(n) => if ok then (v, Ready(n)) else (v, Gone(n, Some(ChmodFault)))
    case Ready(n) =>
      if ok && n in v.temps then (Volume(Some(v.temps[n]), v.temps - {n}), Gone(n, None))
      else (v, Gone(n, Some(RenameFault)))
    case Gone(n, e) => if ok then (v.(temps := v.temps - {n}), Done(e)) else (v, Done(e))
    case Done(e) => (v, s)
  }

  // Which system call fails, if any, and whether removing the temporary file works.
  datatype Weather = Weather(fault: Option<Fault>, removes: bool)

  // What a whole seal-and-write amounts to when nothing else touches the volume.
  function Outcome(v: Volume, sealed: Sealed, w: Weather, t: nat): (Volume, Option<Fault>) {
    match w.fault
    case None => (Volume(Some(Whole(sealed)), v.temps - {t}), None)
    case Some(SealFault) => (v, w.fault)
    case Some(CreateFault) => (v, w.fault)
    case Some(f) =>
      var left := if f == WriteFault then Torn else Whole(sealed);
      (if w.removes then v else v.(temps := v.temps[t := left]), w.fault)
  }

  // The drive as the process sees it.
  class Drive {
    var blob: Option<File>
    var temps: map<nat, File>

    ghost function View(): Volume
      reads this
    {
      Volume(blob, temps)
    }

    // atomicWrite: each error returns early, and the deferred removal runs on every
    // path once the temporary file exists.
    method AtomicWrite(sealed: Sealed, weather: Weather, t: nat) returns (err: Option<Fault>)
      requires t !in temps
      requires weather.fault != Some(SerializeFault) && weather.fault != Some(SealFault)
      modifies this
      ensures (View(), err) == Outcome(old(View()), sealed, weather, t)
      ensures err == weather.fault
      ensures err == None ==> blob == Some(Whole(sealed)) && temps == old(temps)
      ensures err != None ==> blob == old(blob)
      ensures weather.removes || err == Some(CreateFault) ==> temps == old(temps)
    {
      if weather.fault == Some(CreateFault) {
        return Some(CreateFault);
      }
      ghost var was: map<nat, File> := temps;
      temps := temps[t := Torn];
      err := WriteAndRename(sealed, weather, t);
      if weather.removes {
        temps := temps - {t};
      }
      assert was - {t} == was && was[t := Torn][t := Whole(sealed)] == was[t := Whole(sealed)];
      assert was[t := Torn] - {t} == was && was[t := Whole(sealed)] - {t} == was;
    }

    method WriteAndRename(sealed: Sealed, weather: Weather, t: nat) returns (err: Option<Fault>)
      requires t in temps
      requires weather.fault != Some(SerializeFault) && weather.fault != Some(SealFault) && weather.fault != Some(CreateFault)
      modifies this
      ensures err == weather.fault
      ensures err == None ==> blob == Some(Whole(sealed)) && temps == old(temps) - {t}
      ensures err != None ==> blob == old(blob)
      ensures err == Some(WriteFault) ==> temps == old(temps)
      ensures err != None && err != Some(WriteFault) ==> temps == old(temps)[t := Whole(sealed)]
    {
      if weather.fault == Some(WriteFault) {
        return Some(WriteFault);
      }
      temps := temps[t := Whole(sealed)];
      if weather.fault == Some(SyncFault) {
        return Some(SyncFault);
      }
      if weather.fault == Some(CloseFault) {
        return Some(CloseFault);
      }
      if weather.fault == Some(ChmodFault) {
        return Some(ChmodFault);
      }
      if weather.fault == Some(RenameFault) {
        return Some(RenameFault);
      }
      assert weather.fault == None by {
        match weather.fault
        case None =>
        case Some(SerializeFault) =>
        case Some(SealFault) =>
        case Some(CreateFault) =>
        case Some(WriteFault) =>
        case Some(SyncFault) =>
        case Some(CloseFault) =>
        case Some(ChmodFault) =>
        case Some(RenameFault) =>
      }
      blob, temps := Some(temps[t]), temps - {t};
      return None;
    }
  }

  // Whether the call made at a stage succeeds under a weather.
  predicate Succeeds(s: Stage, w: Weather) {
    match s
    case Sealing => w.fault != Some(SealFault)
    case Creating => w.fault != Some(CreateFault)
    case Created(_) => w.fault != Some(WriteFault)
    case Written(_) => w.fault != Some(SyncFault)
    case Synced(_) => w.fault != Some(CloseFault)
    case Closed(_) => w.fault != Some(ChmodFault)
    case Ready(_) => w.fault != Some(RenameFault)
    case Gone(_, _) => w.removes
    case Done(_) => true
  }

  // n calls in a row.
  function Calls(v: Volume, s: Stage, sealed: Sealed, w: Weather, t: nat, n: nat): (Volume, Stage)
    decreases n
  {
    if n == 0 then (v, s)
    else
      var next := Io(v, s, sealed, Succeeds(s, w), t);
      Calls(next.0, next.1, sealed, w, t, n - 1)
  }

  lemma OneCall(v: Volume, s: Stage, sealed: Sealed, w: Weather, t: nat, n: nat)
    requires n > 0
    ensures var next := Io(v, s, sealed, Succeeds(s, w), t);
            Calls(v, s, sealed, w, t, n) == Calls(next.0, next.1, sealed, w, t, n - 1)
  {}

  // The stages from the rename on, and how many calls they have left.
  function Left(s: Stage): nat {
    if s.Ready? then 2 else if s.Gone? then 1 else 0
  }

  function Removed(v: Volume, w: Weather, t: nat): Volume {
    if w.removes then v.(temps := v.temps - {t}) else v
  }

  function Finish(v: Volume, s: Stage, w: Weather): (Volume, Stage)
    requires s.Ready? || s.Gone? || s.Done?
  {
    match s
    case Done(_) => (v, s)
    case Gone(t, e) => (Removed(v, w, t), Done(e))
    case Ready(t) =>
      if w.fault != Some(RenameFault) && t in v.temps then
        (Removed(Volume(Some(v.temps[t]), v.temps - {t}), w, t), Done(None))
      else
        (Removed(v, w, t), Done(Some(RenameFault)))
  }

  lemma LastCalls(v: Volume, s: Stage, sealed: Sealed, w: Weather, t: nat, n: nat)
    requires s.Ready? || s.Gone? || s.Done?
    requires Left(s) <= n
    ensures Calls(v, s, sealed, w, t, n) == Finish(v, s, w)
    decreases n
  {
    hide Calls;
    if n > 0 {
      OneCall(v, s, sealed, w, t, n);
      var next := Io(v, s, sealed, Succeeds(s, w), t);
      LastCalls(next.0, next.1, sealed, w, t, n - 1);
    } else {
      NoCalls(v, s, sealed, w, t);
    }
  }

  lemma NoCalls(v: Volume, s: Stage, sealed: Sealed, w: Weather, t: nat)
    ensures Calls(v, s, sealed, w, t, 0) == (v, s)
  {}

  // The steps of the protocol, taken in one go, are the method: nine calls bring a
  // seal-and-write from its beginning to its outcome, whatever fails on the way.
  lemma StepsAreAtomicWrite(v: Volume, sealed: Sealed, w: Weather, t: nat)
    requires t !in v.temps && w.fault != Some(SerializeFault)
    ensures var (v', e) := Outcome(v, sealed, w, t); Calls(v, Sealing, sealed, w, t, 9) == (v', Done(e))
  {
    hide Calls;
    var torn: map<nat, File> := v.temps[t := Torn];
    var whole: map<nat, File> := v.temps[t := Whole(sealed)];
    assert torn - {t} == v.temps && whole - {t} == v.temps && v.temps - {t} == v.temps;
    assert torn[t := Whole(sealed)] == whole && whole - {t} - {t} == v.temps;
    OneCall(v, Sealing, sealed, w, t, 9);
    LastCalls(v, Done(w.fault), sealed, w, t, 8);
    OneCall(v, Creating, sealed, w, t, 8);
    LastCalls(v, Done(w.fault), sealed, w, t, 7);
    OneCall(v.(temps := torn), Created(t), sealed, w, t, 7);
    LastCalls(v.(temps := torn), Gone(t, Some(WriteFault)), sealed, w, t, 6);
    var u := v.(temps := whole);
    OneCall(u, Written(t), sealed, w, t, 6);
    LastCalls(u, Gone(t, Some(SyncFault)), sealed, w, t, 5);
    OneCall(u, Synced(t), sealed, w, t, 5);
    LastCalls(u, Gone(t, Some(CloseFault)), sealed, w, t, 4);
    OneCall(u, Closed(t), sealed, w, t, 4);
    LastCalls(u, Gone(t, Some(ChmodFault)), sealed, w, t, 3);
    LastCalls(u, Ready(t), sealed, w, t, 3);
  }
}
