/**
 The registry of installed tools over the store: installs, removals and grants, and what
 a history of them leaves behind.  A grant is bound to the hash of the manifest it was
 given for.
 */
module Registry {
  import opened Wrappers
  import opened Utf
  import opened Tables
  import opened Sign
  import opened Manifest
  import opened Persistence
  import St = Store

  const DEV := "dev"
  const MARKETPLACE := "marketplace"

  // What a registry is built on.
  datatype Env = Env(crypto: Crypto, json: Codec, keys: seq<Key>)

  datatype Installed = Installed(manifest: Manifest, source: seq<Byte>, cls: string, verified: bool)

  datatype RegistryError =
    | NotInstalled
    | BadManifest(error: ManifestError)
    | BadSignature
    | NotGranted
    | Superseded
    | BadGrant

  datatype Call =
    | InstallDev(m: Manifest, source: seq<Byte>)
    | InstallMarketplace(m: Manifest, source: seq<Byte>, sig: seq<Byte>, verified: bool)
    | Remove(name: string)
    | SetGrant(name: string, grant: Grant)

  // --- what the calls read ---

  function Load(e: Env, db: Db, name: string): Result<Installed, RegistryError> {
    if name !in db.tools then Err(NotInstalled)
    else
      var row := db.tools[name];
      match ParseManifest(e.json, row.manifest)
      case Err(error) => Err(BadManifest(error))
      case Ok(m) => Ok(Installed(m, row.source, row.cls, row.verified))
  }

  function ActiveGrant(e: Env, db: Db, name: string): Result<Grant, RegistryError> {
    match Load(e, db, name)
    case Err(error) => Err(error)
    case Ok(t) =>
      if name !in db.grants then Err(NotGranted)
      else if db.grants[name].manifestSha != Hash(e.crypto, e.json, t.manifest) then Err(Superseded)
      else
        match e.json.unmarshal(db.grants[name].caps)
        case None => Err(BadGrant)
        case Some(g) => Ok(g)
  }

  // --- what the calls change ---

  function RowOf(e: Env, m: Manifest, source: seq<Byte>, cls: string, verified: bool): ToolRow {
    ToolRow(m.name, m.version, cls, e.json.canonical(m), source, e.crypto.hash(source), verified)
  }

  predicate Signed(e: Env, m: Manifest, source: seq<Byte>, sig: seq<Byte>) {
    Pinned(e.crypto, e.keys, SignedMessage(e.crypto, m.name, m.version, e.crypto.hash(source)), sig)
  }

  function Bind(e: Env, g: Grant, m: Manifest): Grant {
    g.(manifestHash := Hash(e.crypto, e.json, m))
  }

  // None when the call fails and so writes nothing.
  function NewState(e: Env, db: Db, call: Call): Option<Db> {
    match call
    case InstallDev(m, source) => Some(db.(tools := db.tools[m.name := RowOf(e, m, source, DEV, false)]))
    case InstallMarketplace(m, source, sig, verified) =>
      if Signed(e, m, source, sig)
      then Some(db.(tools := db.tools[m.name := RowOf(e, m, source, MARKETPLACE, verified)]))
      else None
    case Remove(name) => Some(db.(tools := db.tools - {name}, grants := db.grants - {name}))
    case SetGrant(name, grant) =>
      match Load(e, db, name)
      case Err(_) => None
      case Ok(t) =>
        var g := Bind(e, grant, t.manifest);
        Some(db.(grants := db.grants[name := GrantRow(e.json.marshal(g), g.manifestHash)]))
  }

  function After(e: Env, db: Db, call: Call): Db {
    match NewState(e, db, call)
    case None => db
    case Some(next) => next
  }

  class Registry {
    const env: Env
    const store: St.Store

    constructor (env: Env, store: St.Store)
      ensures this.env == env && this.store == store
    {
      this.env, this.store := env, store;
    }

    // What a call leaves: a write and a dirty store, or nothing at all.
    ghost function Left(was: Core, call: Call): Core
      reads this, store
    {
      match NewState(env, was.db, call)
      case None => was
      case Some(next) => MarkDirty(was, next)
    }

    method InstallDev(m: Manifest, source: seq<Byte>)
      modifies store
      ensures store.View() == Left(old(store.View()), Call.InstallDev(m, source))
      ensures store.db.tools == old(store.db.tools)[m.name :=
                ToolRow(m.name, m.version, "dev", env.json.canonical(m), source, env.crypto.hash(source), false)]
    {
      store.PutTool(ToolRow(m.name, m.version, DEV, env.json.canonical(m), source, env.crypto.hash(source), false));
    }

    method InstallMarketplace(m: Manifest, source: seq<Byte>, sig: seq<Byte>, verified: bool)
      returns (err: Option<RegistryError>)
      modifies store
      ensures store.View() == Left(old(store.View()), Call.InstallMarketplace(m, source, sig, verified))
      ensures err == if Signed(env, m, source, sig) then None else Some(BadSignature)
      ensures err == None ==> store.db.tools == old(store.db.tools)[m.name :=
                ToolRow(m.name, m.version, "marketplace", env.json.canonical(m), source, env.crypto.hash(source), verified)]
      ensures err != None ==> store.View() == old(store.View())
    {
      var sha := env.crypto.hash(source);
      var ok := Verify(env.crypto, env.keys, SignedMessage(env.crypto, m.name, m.version, sha), sig);
      if !ok {
        return Some(BadSignature);
      }
      store.PutTool(ToolRow(m.name, m.version, MARKETPLACE, env.json.canonical(m), source, sha, verified));
      return None;
    }

    method Get(name: string) returns (r: Result<Installed, RegistryError>)
      ensures r == Load(env, store.db, name)
    {
      var found := store.GetTool(name);
      match found
      case None => return Err(NotInstalled);
      case Some(row) =>
        match ParseManifest(env.json, row.manifest)
        case Err(error) => return Err(BadManifest(error));
        case Ok(m) => return Ok(Installed(m, row.source, row.cls, row.verified));
    }

    method Remove(name: string)
      modifies store
      ensures store.View() == Left(old(store.View()), Call.Remove(name))
    {
      store.DeleteTool(name);
    }

    method SetGrant(name: string, g: Grant) returns (err: Option<RegistryError>)
      modifies store
      ensures store.View() == Left(old(store.View()), Call.SetGrant(name, g))
      ensures err == match Load(env, old(store.db), name) case Ok(_) => None case Err(error) => Some(error)
    {
      var t := Get(name);
      if t.Err? {
        return Some(t.error);
      }
      var bound := g.(manifestHash := Hash(env.crypto, env.json, t.value.manifest));
      store.PutGrant(name, env.json.marshal(bound), bound.manifestHash);
      return None;
    }

    method GetGrant(name: string) returns (r: Result<Grant, RegistryError>)
      ensures r == ActiveGrant(env, store.db, name)
    {
      var t := Get(name);
      if t.Err? {
        return Err(t.error);
      }
      var row := store.GetGrant(name);
      if row == None {
        return Err(NotGranted);
      }
      if row.value.manifestSha != Hash(env.crypto, env.json, t.value.manifest) {
        return Err(Superseded);
      }
      match env.json.unmarshal(row.value.caps)
      case None => return Err(BadGrant);
      case Some(g) => return Ok(g);
    }
  }

  // --- the life cycle, read off the history ---

  // The manifest last installed under a name and not removed since.
  function Current(e: Env, h: seq<Call>, name: string): Option<Manifest> {
    if h == [] then None
    else
      var before := Current(e, h[..|h| - 1], name);
      match h[|h| - 1]
      case InstallDev(m, _) => if m.name == name then Some(m) else before
      case InstallMarketplace(m, source, sig, _) =>
        if m.name == name && Signed(e, m, source, sig) then Some(m) else before
      case Remove(n) => if n == name then None else before
      case SetGrant(_, _) => before
  }

  // The same as the registry loads it, if it can.
  function Loadable(e: Env, h: seq<Call>, name: string): Option<Manifest> {
    match Current(e, h, name)
    case Some(m) => if Complete(m) then Some(Defaulted(Compacted(e.json, m))) else None
    case None => None
  }

  // Call i gave the tool a grant.
  predicate Grants(e: Env, h: seq<Call>, name: string, i: nat)
    requires i < |h|
  {
    h[i].SetGrant? && h[i].name == name && Loadable(e, h[..i], name).Some?
  }

  predicate Revokes(call: Call, name: string) {
    call.Remove? && call.name == name
  }

  // The position of the grant in force: the last one, unless the tool was removed since.
  function InForce(e: Env, h: seq<Call>, name: string): (r: Option<nat>)
    ensures r.Some? ==> r.value < |h| && Grants(e, h, name, r.value)
  {
    if h == [] then None
    else
      var n := |h| - 1;
      if Grants(e, h, name, n) then Some(n)
      else if Revokes(h[n], name) then None
      else
        var r := InForce(e, h[..n], name);
        assert r.Some? ==> h[..n][..r.value] == h[..r.value];
        r
  }

  // The grant in force is exactly one that was given, not superseded by a later one and
  // not followed by a removal.
  lemma {:induction false} InForceMeans(e: Env, h: seq<Call>, name: string, i: nat)
    requires i < |h|
    ensures InForce(e, h, name) == Some(i) <==>
              && Grants(e, h, name, i)
              && forall j :: i < j < |h| ==> !Grants(e, h, name, j) && !Revokes(h[j], name)
  {
    var n := |h| - 1;
    if i < n && !Grants(e, h, name, n) && !Revokes(h[n], name) {
      InForceMeans(e, h[..n], name, i);
      assert forall j :: 0 <= j < n ==> h[..n][j] == h[j] && h[..n][..j] == h[..j];
      assert forall j :: 0 <= j < n ==> (Grants(e, h[..n], name, j) <==> Grants(e, h, name, j));
    }
  }

  function RunCalls(e: Env, db: Db, h: seq<Call>): Db {
    if h == [] then db else After(e, RunCalls(e, db, h[..|h| - 1]), h[|h| - 1])
  }

  // The bound grant of call i.
  function Given(e: Env, h: seq<Call>, name: string, i: nat): Grant
    requires i < |h| && Grants(e, h, name, i)
  {
    Bind(e, h[i].grant, Loadable(e, h[..i], name).value)
  }

  ghost predicate ToolMatches(e: Env, db: Db, h: seq<Call>, name: string) {
    match Current(e, h, name)
    case None => name !in db.tools
    case Some(m) =>
      name in db.tools && m.name == name && db.tools[name].name == name
      && db.tools[name].manifest == e.json.canonical(m)
  }

  ghost predicate GrantMatches(e: Env, db: Db, h: seq<Call>, name: string) {
    match InForce(e, h, name)
    case None => name !in db.grants
    case Some(i) =>
      && name in db.grants
      && db.grants[name] == GrantRow(e.json.marshal(Given(e, h, name, i)), Given(e, h, name, i).manifestHash)
  }

  // What the registry loads is what the history says is loadable.
  lemma LoadMatches(e: Env, db: Db, h: seq<Call>, name: string)
    requires Lawful(e.json) && ToolMatches(e, db, h, name)
    ensures Load(e, db, name).Ok? <==> Loadable(e, h, name).Some?
    ensures Load(e, db, name).Ok? ==> Load(e, db, name).value.manifest == Loadable(e, h, name).value
  {
    if Current(e, h, name).Some? {
      ParseCanonical(e.json, Current(e, h, name).value);
    }
  }

  lemma CurrentSnoc(e: Env, h: seq<Call>, call: Call, name: string)
    ensures Current(e, h + [call], name)
         == match call
            case InstallDev(m, _) => if m.name == name then Some(m) else Current(e, h, name)
            case InstallMarketplace(m, source, sig, _) =>
              if m.name == name && Signed(e, m, source, sig) then Some(m) else Current(e, h, name)
            case Remove(n) => if n == name then None else Current(e, h, name)
            case SetGrant(_, _) => Current(e, h, name)
  {
    var g := h + [call];
    assert g[..|h|] == h && g[|h|] == call && |g| - 1 == |h|;
  }

  lemma ToolStep(e: Env, db: Db, h: seq<Call>, call: Call, name: string)
    requires ToolMatches(e, db, h, name)
    ensures ToolMatches(e, After(e, db, call), h + [call], name)
  {
    hide Current, Signed, Load;
    CurrentSnoc(e, h, call, name);
  }

  lemma InForceSnoc(e: Env, h: seq<Call>, call: Call, name: string)
    ensures Grants(e, h + [call], name, |h|) <==>
              call.SetGrant? && call.name == name && Loadable(e, h, name).Some?
    ensures InForce(e, h + [call], name)
         == if Grants(e, h + [call], name, |h|) then Some(|h|)
            else if Revokes(call, name) then None
            else InForce(e, h, name)
    ensures Grants(e, h + [call], name, |h|) ==>
              Given(e, h + [call], name, |h|) == Bind(e, call.grant, Loadable(e, h, name).value)
  {
    var g := h + [call];
    assert g[..|h|] == h && g[|h|] == call && |g| - 1 == |h|;
  }

  lemma GivenSnoc(e: Env, h: seq<Call>, call: Call, name: string, i: nat)
    requires i < |h| && Grants(e, h, name, i)
    ensures Grants(e, h + [call], name, i) && Given(e, h + [call], name, i) == Given(e, h, name, i)
  {
    assert (h + [call])[..i] == h[..i];
  }

  lemma GrantStep(e: Env, db: Db, h: seq<Call>, call: Call, name: string)
    requires Lawful(e.json) && ToolMatches(e, db, h, name) && GrantMatches(e, db, h, name)
    ensures GrantMatches(e, After(e, db, call), h + [call], name)
  {
    hide Current, Signed, Load, Loadable, InForce, Grants, Given;
    InForceSnoc(e, h, call, name);
    LoadMatches(e, db, h, name);
    var i := InForce(e, h, name);
    if i.Some? {
      GivenSnoc(e, h, call, name, i.value);
    }
  }

  lemma StepMatches(e: Env, db: Db, h: seq<Call>, call: Call, name: string)
    requires Lawful(e.json) && ToolMatches(e, db, h, name) && GrantMatches(e, db, h, name)
    ensures ToolMatches(e, After(e, db, call), h + [call], name)
    ensures GrantMatches(e, After(e, db, call), h + [call], name)
  {
    ToolStep(e, db, h, call, name);
    GrantStep(e, db, h, call, name);
  }

  lemma {:induction false} RunMatches(e: Env, db: Db, h: seq<Call>)
    requires Lawful(e.json) && db.tools == map[] && db.grants == map[]
    ensures forall name :: ToolMatches(e, RunCalls(e, db, h), h, name) && GrantMatches(e, RunCalls(e, db, h), h, name)
  {
    hide ToolMatches, GrantMatches;
    if h == [] {
      NothingYet(e, db);
    } else {
      var n := |h| - 1;
      RunMatches(e, db, h[..n]);
      assert h[..n] + [h[n]] == h;
      forall name ensures ToolMatches(e, RunCalls(e, db, h), h, name) && GrantMatches(e, RunCalls(e, db, h), h, name) {
        StepMatches(e, RunCalls(e, db, h[..n]), h[..n], h[n], name);
      }
    }
  }

  lemma NothingYet(e: Env, db: Db)
    requires db.tools == map[] && db.grants == map[]
    ensures forall name :: ToolMatches(e, db, [], name) && GrantMatches(e, db, [], name)
  {}

  lemma LoadableIsCompact(e: Env, h: seq<Call>, name: string)
    requires Lawful(e.json) && Loadable(e, h, name).Some?
    ensures Compacted(e.json, Loadable(e, h, name).value) == Loadable(e, h, name).value
  {
    var schema := Current(e, h, name).value.paramsSchema;
    assert e.json.compact(e.json.compact(schema)) == e.json.compact(schema);
  }

  // A tool has an active grant exactly when it is installed and loadable, was granted
  // since its last removal, and its manifest is the one the latest grant was given for;
  // what is then returned is that grant.
  lemma GrantLifeCycle(e: Env, db: Db, h: seq<Call>, name: string, g: Grant)
    requires Lawful(e.json) && Ideal(e.crypto) && db.tools == map[] && db.grants == map[]
    ensures ActiveGrant(e, RunCalls(e, db, h), name) == Ok(g) <==>
              && InForce(e, h, name).Some?
              && Loadable(e, h, name) == Loadable(e, h[..InForce(e, h, name).value], name)
              && g == Given(e, h, name, InForce(e, h, name).value)
  {
    hide Current, RunCalls, Hash;
    var s := RunCalls(e, db, h);
    RunMatches(e, db, h);
    assert ToolMatches(e, s, h, name) && GrantMatches(e, s, h, name);
    LoadMatches(e, s, h, name);
    var i := InForce(e, h, name);
    if i.Some? {
      assert Grants(e, h, name, i.value);
      var was := Loadable(e, h[..i.value], name).value;
      var given := Given(e, h, name, i.value);
      assert s.grants[name] == GrantRow(e.json.marshal(given), Hash(e.crypto, e.json, was));
      assert e.json.unmarshal(e.json.marshal(given)) == Some(given);
      if Loadable(e, h, name).Some? {
        var now := Loadable(e, h, name).value;
        HashIdentifies(e.crypto, e.json, was, now);
        LoadableIsCompact(e, h, name);
        LoadableIsCompact(e, h[..i.value], name);
        assert Load(e, s, name).value.manifest == now;
        assert ActiveGrant(e, s, name) == if was == now then Ok(given) else Err(Superseded);
      } else {
        assert ActiveGrant(e, s, name).Err?;
      }
    } else {
      assert ActiveGrant(e, s, name).Err?;
    }
  }

  // The row under a name is that name's, in its columns and in the manifest it stores.
  lemma {:induction false} StoredUnderItsName(e: Env, db: Db, h: seq<Call>, name: string)
    requires Lawful(e.json) && db.tools == map[] && db.grants == map[]
    requires name in RunCalls(e, db, h).tools
    ensures var row := RunCalls(e, db, h).tools[name];
            && row.name == name
            && e.json.decode(row.manifest).Some?
            && e.json.decode(row.manifest).value.name == name
  {
    RunMatches(e, db, h);
    assert ToolMatches(e, RunCalls(e, db, h), h, name);
    var m := Current(e, h, name).value;
    assert e.json.decode(e.json.canonical(m)) == Some(Compacted(e.json, m));
  }

  // --- what is installed, read off the history ---

  // Call i installed the tool.
  predicate Installs(e: Env, call: Call, name: string) {
    match call
    case InstallDev(m, _) => m.name == name
    case InstallMarketplace(m, source, sig, _) => m.name == name && Signed(e, m, source, sig)
    case _ => false
  }

  // The install in force: the last one, unless the tool was removed since.
  function LastInstall(e: Env, h: seq<Call>, name: string): (r: Option<nat>)
    ensures r.Some? ==> r.value < |h| && Installs(e, h[r.value], name)
  {
    if h == [] then None
    else
      var n := |h| - 1;
      if Installs(e, h[n], name) then Some(n)
      else if Revokes(h[n], name) then None
      else LastInstall(e, h[..n], name)
  }

  lemma {:induction false} LastInstallMeans(e: Env, h: seq<Call>, name: string, i: nat)
    requires i < |h|
    ensures LastInstall(e, h, name) == Some(i) <==>
              && Installs(e, h[i], name)
              && forall j :: i < j < |h| ==> !Installs(e, h[j], name) && !(h[j].Remove? && h[j].name == name)
    ensures LastInstall(e, h, name).None? ==> Current(e, h, name).None?
    ensures LastInstall(e, h, name) == Some(i) ==> Current(e, h, name) == Some(h[i].m)
  {
    hide Signed;
    var n := |h| - 1;
    if i < n {
      LastInstallMeans(e, h[..n], name, i);
      assert forall j :: 0 <= j < n ==> h[..n][j] == h[j];
    } else if n > 0 {
      LastInstallMeans(e, h[..n], name, n - 1);
    }
  }

  ghost predicate RowMatches(e: Env, db: Db, h: seq<Call>, name: string) {
    match LastInstall(e, h, name)
    case None => name !in db.tools
    case Some(i) =>
      name in db.tools && db.tools[name] == ToolRow(
        h[i].m.name, h[i].m.version, if h[i].InstallDev? then "dev" else "marketplace",
        e.json.canonical(h[i].m), h[i].source, e.crypto.hash(h[i].source), h[i].InstallMarketplace? && h[i].verified)
  }

  lemma RowStep(e: Env, db: Db, h: seq<Call>, call: Call, name: string)
    requires RowMatches(e, db, h, name)
    ensures RowMatches(e, After(e, db, call), h + [call], name)
  {
    hide Signed, Load;
    var g := h + [call];
    assert g[..|h|] == h && g[|h|] == call && |g| - 1 == |h|;
  }

  lemma {:induction false} RowsMatch(e: Env, db: Db, h: seq<Call>, name: string)
    requires db.tools == map[]
    ensures RowMatches(e, RunCalls(e, db, h), h, name)
  {
    hide RowMatches, After;
    if h == [] {
      NoRow(e, db, name);
    } else {
      var n := |h| - 1;
      RowsMatch(e, db, h[..n], name);
      RowStep(e, RunCalls(e, db, h[..n]), h[..n], h[n], name);
      assert h[..n] + [h[n]] == h;
    }
  }

  lemma NoRow(e: Env, db: Db, name: string)
    requires db.tools == map[]
    ensures RowMatches(e, db, [], name)
  {}

  // Get returns, over any run of calls, what the last install not removed since put
  // there: its manifest as printed and parsed, its source, dev or marketplace, and the
  // badge it brought; a dev tool has none.
  lemma GetReturnsLastInstall(e: Env, db: Db, h: seq<Call>, name: string)
    requires Lawful(e.json) && db.tools == map[]
    ensures var got := Load(e, RunCalls(e, db, h), name);
            match LastInstall(e, h, name)
            case None => got == Err(NotInstalled)
            case Some(i) =>
              if h[i].m.name == "" || h[i].m.version == "" then got == Err(BadManifest(NameAndVersionRequired))
              else got == Ok(Installed(
                Defaulted(Compacted(e.json, h[i].m)), h[i].source, if h[i].InstallDev? then "dev" else "marketplace",
                h[i].InstallMarketplace? && h[i].verified))
  {
    hide LastInstall, RunCalls;
    RowsMatch(e, db, h, name);
    if LastInstall(e, h, name).Some? {
      ParseCanonical(e.json, h[LastInstall(e, h, name).value].m);
    }
  }

  // Why a grant is refused: the tool is not installed, cannot be loaded, has no grant in
  // force, or has changed since the grant.
  lemma GrantRefusals(e: Env, db: Db, h: seq<Call>, name: string)
    requires Lawful(e.json) && Ideal(e.crypto) && db.tools == map[] && db.grants == map[]
    ensures var r := ActiveGrant(e, RunCalls(e, db, h), name);
            && (Current(e, h, name).None? ==> r == Err(NotInstalled))
            && (Current(e, h, name).Some? && Loadable(e, h, name).None? ==> r == Err(BadManifest(NameAndVersionRequired)))
            && (Loadable(e, h, name).Some? && InForce(e, h, name).None? ==> r == Err(NotGranted))
            && (Loadable(e, h, name).Some? && InForce(e, h, name).Some? ==>
                  Loadable(e, h, name) != Loadable(e, h[..InForce(e, h, name).value], name) ==> r == Err(Superseded))
  {
    hide Current, RunCalls, Hash;
    var s := RunCalls(e, db, h);
    RunMatches(e, db, h);
    assert ToolMatches(e, s, h, name) && GrantMatches(e, s, h, name);
    LoadMatches(e, s, h, name);
    if Current(e, h, name).Some? {
      ParseCanonical(e.json, Current(e, h, name).value);
    }
    var i := InForce(e, h, name);
    if Loadable(e, h, name).Some? && i.Some? {
      assert Grants(e, h, name, i.value);
      LoadableIsCompact(e, h, name);
      LoadableIsCompact(e, h[..i.value], name);
      HashIdentifies(e.crypto, e.json, Loadable(e, h[..i.value], name).value, Loadable(e, h, name).value);
      assert s.grants[name].manifestSha == Hash(e.crypto, e.json, Loadable(e, h[..i.value], name).value);
    }
  }
}
