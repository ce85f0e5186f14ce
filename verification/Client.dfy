/**
 The marketplace client: it refreshes its catalog, refuses an older one, and installs
 what the catalog points to.  The server may answer anything at any time.
 */
module Client {
  import opened Wrappers
  import opened Utf
  import opened Tables
  import opened Sign
  import opened Manifest
  import opened Index
  import A = Artifact
  import R = Registry
  import opened Persistence
  import St = Store

  const GET_LIMIT := 16777216

  // What one GET brings; a transport error or a status other than 200 is a failure.
  datatype Reply = Failure | Answered(body: seq<Byte>)

  datatype ClientError =
    | FetchFailed
    | BadIndexSignature
    | BadIndex
    | Rollback
    | NotListed(find: FindError)
    | HashMismatch
    | NotUnpacked(unpack: A.UnpackError)
    | Refused(registry: R.RegistryError)

  // At most 16 MiB of a body are read; the rest is dropped without an error.
  function Read(r: Reply): Option<seq<Byte>> {
    match r
    case Failure => None
    case Answered(body) => Some(if |body| <= GET_LIMIT then body else body[..GET_LIMIT])
  }

  // Go's order of strings.
  predicate Less(a: string, b: string)
    decreases |a|
  {
    if b == "" then false
    else if a == "" then true
    else if a[0] != b[0] then a[0] < b[0]
    else Less(a[1..], b[1..])
  }

  function Refreshed(e: R.Env, p: Printer, idx: Option<Index>, raw: Reply, sig: Reply): Result<Index, ClientError> {
    match (Read(raw), Read(sig))
    case (Some(doc), Some(s)) =>
      if !Pinned(e.crypto, e.keys, doc, s) then Err(BadIndexSignature)
      else
        (match Decoded(p, doc)
         case None => Err(BadIndex)
         case Some(next) =>
           if idx.Some? && Less(next.generatedAt, idx.value.generatedAt) then Err(Rollback) else Ok(next))
    case _ => Err(FetchFailed)
  }

  datatype Download = Download(tool: A.Tool, record: Version)

  // Resolve, download, check the hash, unpack.
  function Downloaded(e: R.Env, idx: Index, id: string, version: string, artifact: string -> Reply): Result<Download, ClientError> {
    match Lookup(idx.tools, id, version)
    case Err(error) => Err(NotListed(error))
    case Ok(hit) =>
      match Read(artifact(hit.record.artifact))
      case None => Err(FetchFailed)
      case Some(zipped) =>
        if e.crypto.hash(zipped) != hit.record.zipSha then Err(HashMismatch)
        else
          match A.Unpacked(e.json, zipped)
          case Err(error) => Err(NotUnpacked(error))
          case Ok(tool) => Ok(Download(tool, hit.record))
  }

  function CallOf(d: Download): R.Call {
    R.InstallMarketplace(d.tool.manifest, d.tool.source, d.record.sourceSig, d.record.verified)
  }

  // --- a client and its registry ---

  datatype Node = Node(idx: Option<Index>, db: Db)

  datatype Action =
    | Refresh(raw: Reply, sig: Reply)
    | Install(id: string, version: string, raw: Reply, sig: Reply, artifact: string -> Reply)
    | Local(call: R.Call)

  function Cached(e: R.Env, p: Printer, idx: Option<Index>, raw: Reply, sig: Reply): Option<Index> {
    match Refreshed(e, p, idx, raw, sig)
    case Ok(next) => Some(next)
    case Err(_) => idx
  }

  // An install refreshes only when nothing is cached yet.
  function IndexFor(e: R.Env, p: Printer, idx: Option<Index>, raw: Reply, sig: Reply): Option<Index> {
    if idx.Some? then idx else Cached(e, p, idx, raw, sig)
  }

  function Act(e: R.Env, p: Printer, n: Node, a: Action): Node {
    match a
    case Refresh(raw, sig) => n.(idx := Cached(e, p, n.idx, raw, sig))
    case Install(id, version, raw, sig, artifact) =>
      (match IndexFor(e, p, n.idx, raw, sig)
       case None => n
       case Some(idx) =>
         match Downloaded(e, idx, id, version, artifact)
         case Err(_) => n.(idx := Some(idx))
         case Ok(d) => Node(Some(idx), R.After(e, n.db, CallOf(d))))
    case Local(call) => n.(db := R.After(e, n.db, call))
  }

  // The error an install reports.
  function Reported(e: R.Env, p: Printer, idx: Option<Index>, a: Action): Result<Manifest, ClientError>
    requires a.Install?
  {
    if idx.None? && Refreshed(e, p, idx, a.raw, a.sig).Err? then Err(Refreshed(e, p, idx, a.raw, a.sig).error)
    else
      match Downloaded(e, IndexFor(e, p, idx, a.raw, a.sig).value, a.id, a.version, a.artifact)
      case Err(error) => Err(error)
      case Ok(d) =>
        if R.Signed(e, d.tool.manifest, d.tool.source, d.record.sourceSig) then Ok(d.tool.manifest)
        else Err(Refused(R.BadSignature))
  }

  class Client {
    const env: R.Env
    const printer: Printer
    var idx: Option<Index>

    constructor (env: R.Env, printer: Printer)
      ensures this.env == env && this.printer == printer && idx == None
    {
      this.env, this.printer, idx := env, printer, None;
    }

    method EnsureIndex(raw: Reply, sig: Reply) returns (err: Option<ClientError>)
      modifies this
      ensures idx == Cached(env, printer, old(idx), raw, sig)
      ensures err == match Refreshed(env, printer, old(idx), raw, sig) case Ok(_) => None case Err(error) => Some(error)
    {
      var doc, s := Read(raw), Read(sig);
      if doc == None || s == None {
        return Some(FetchFailed);
      }
      var ok := Verify(env.crypto, env.keys, doc.value, s.value);
      if !ok {
        return Some(BadIndexSignature);
      }
      var next := Decoded(printer, doc.value);
      if next == None {
        return Some(BadIndex);
      }
      if idx.Some? && Less(next.value.generatedAt, idx.value.generatedAt) {
        return Some(Rollback);
      }
      idx := next;
      return None;
    }

    method Install(reg: R.Registry, id: string, version: string, raw: Reply, sig: Reply, artifact: string -> Reply)
      returns (r: Result<Manifest, ClientError>)
      requires reg.env == env
      modifies this, reg.store
      ensures Node(idx, reg.store.db)
           == Act(env, printer, Node(old(idx), old(reg.store.db)), Action.Install(id, version, raw, sig, artifact))
      ensures r == Reported(env, printer, old(idx), Action.Install(id, version, raw, sig, artifact))
    {
      hide A.Unpacked, Refreshed, Lookup;
      if idx == None {
        var err := EnsureIndex(raw, sig);
        if err.Some? {
          return Err(err.value);
        }
      }
      var found := FindVersion(idx.value, id, version);
      if found.Err? {
        return Err(NotListed(found.error));
      }
      var record := found.value.record;
      var zipped := Read(artifact(record.artifact));
      if zipped == None {
        return Err(FetchFailed);
      }
      if env.crypto.hash(zipped.value) != record.zipSha {
        return Err(HashMismatch);
      }
      var unpacked := A.UnpackTool(env.json, zipped.value);
      if unpacked.Err? {
        return Err(NotUnpacked(unpacked.error));
      }
      var tool := unpacked.value;
      var refused := reg.InstallMarketplace(tool.manifest, tool.source, record.sourceSig, record.verified);
      if refused.Some? {
        return Err(Refused(refused.value));
      }
      return Ok(tool.manifest);
    }
  }

  // --- what no server can undo ---

  lemma {:induction false} LessIsTransitive(a: string, b: string, c: string)
    requires !Less(b, a) && !Less(c, b)
    ensures !Less(c, a)
    decreases |a|
  {
    if a != "" && b != "" && c != "" && a[0] == b[0] == c[0] {
      LessIsTransitive(a[1..], b[1..], c[1..]);
    }
  }

  lemma {:induction false} LessIsIrreflexive(a: string)
    ensures !Less(a, a)
  {
    if a != "" {
      LessIsIrreflexive(a[1..]);
    }
  }

  // Go's order is that of the first difference, a beginning coming before the whole.
  lemma {:induction false} LessMeans(a: string, b: string)
    ensures Less(a, b) <==>
              exists k :: && 0 <= k <= |a| && k < |b| && a[..k] == b[..k]
                          && (k == |a| || a[k] < b[k])
    decreases |a|
  {
    if a == "" && b != "" {
      assert a[..0] == b[..0];
    } else if a != "" && b != "" {
      var s, t := a[1..], b[1..];
      forall k | 0 < k <= |a| && k <= |b| && a[..k] == b[..k] ensures a[0] == b[0] {
        assert a[..k][0] == a[0] && b[..k][0] == b[0];
      }
      if a[0] == b[0] {
        LessMeans(s, t);
        if Less(s, t) {
          var k :| 0 <= k <= |s| && k < |t| && s[..k] == t[..k] && (k == |s| || s[k] < t[k]);
          assert a[..k + 1] == [a[0]] + s[..k] && b[..k + 1] == [b[0]] + t[..k];
          assert a[..k + 1] == b[..k + 1] && (k + 1 == |a| || a[k + 1] < b[k + 1]);
        }
        if k :| 0 <= k <= |a| && k < |b| && a[..k] == b[..k] && (k == |a| || a[k] < b[k]) {
          assert k > 0;
          assert s[..k - 1] == a[..k][1..] && t[..k - 1] == b[..k][1..];
          assert k - 1 == |s| || s[k - 1] < t[k - 1];
        }
      } else {
        assert a[..0] == b[..0];
        if k :| 0 <= k <= |a| && k < |b| && a[..k] == b[..k] && (k == |a| || a[k] < b[k]) {
          assert k == 0;
        }
      }
    }
  }

  // What a refresh says, in the order in which it looks: a reply that failed, a document
  // that does not check, one that does not decode, one older than the catalog it has.
  lemma RefreshAnswers(e: R.Env, p: Printer, idx: Option<Index>, raw: Reply, sig: Reply)
    ensures var r := Refreshed(e, p, idx, raw, sig);
            if raw.Failure? || sig.Failure? then r == Err(FetchFailed)
            else
              var doc := if |raw.body| <= 16777216 then raw.body else raw.body[..16777216];
              var s := if |sig.body| <= 16777216 then sig.body else sig.body[..16777216];
              if !exists i :: 0 <= i < |e.keys| && |e.keys[i]| == 32 && e.crypto.valid(e.keys[i], doc, s)
              then r == Err(BadIndexSignature)
              else if p.parse(doc).None? || !Typed(p.parse(doc).value.tools) then r == Err(BadIndex)
              else if idx.Some? && Less(p.parse(doc).value.generatedAt, idx.value.generatedAt) then r == Err(Rollback)
              else r == Ok(p.parse(doc).value)
  {
    hide Less, Typed;
  }

  // An install uses the catalog it has and refreshes only without one; the catalog stays
  // whatever comes of the download, and the registry changes only by the row installed.
  lemma InstallKeeps(e: R.Env, p: Printer, n: Node, a: Action)
    requires a.Install?
    ensures n.idx.Some? ==> Act(e, p, n, a).idx == n.idx
    ensures n.idx.None? && Refreshed(e, p, None, a.raw, a.sig).Ok? ==>
              Act(e, p, n, a).idx == Some(Refreshed(e, p, None, a.raw, a.sig).value)
    ensures n.idx.None? && Refreshed(e, p, None, a.raw, a.sig).Err? ==>
              Act(e, p, n, a) == n && Reported(e, p, n.idx, a) == Err(Refreshed(e, p, None, a.raw, a.sig).error)
    ensures Reported(e, p, n.idx, a).Err? ==> Act(e, p, n, a).db == n.db
  {
    hide Refreshed, Downloaded, R.Signed;
  }

  function RunNode(e: R.Env, p: Printer, n: Node, run: seq<Action>): Node
    decreases |run|
  {
    if run == [] then n else RunNode(e, p, Act(e, p, n, run[0]), run[1..])
  }

  // The cached catalog is not older than another one.
  ghost predicate NotOlder(was: Option<Index>, now: Option<Index>) {
    was.Some? ==> now.Some? && !Less(now.value.generatedAt, was.value.generatedAt)
  }

  lemma {:induction false} NeverOlder(e: R.Env, p: Printer, n: Node, run: seq<Action>)
    ensures NotOlder(n.idx, RunNode(e, p, n, run).idx)
    decreases |run|
  {
    hide Less, Downloaded, R.After;
    if n.idx.Some? {
      LessIsIrreflexive(n.idx.value.generatedAt);
    }
    if run != [] {
      var next := Act(e, p, n, run[0]);
      assert NotOlder(n.idx, next.idx);
      NeverOlder(e, p, next, run[1..]);
      if n.idx.Some? {
        LessIsTransitive(n.idx.value.generatedAt, next.idx.value.generatedAt, RunNode(e, p, next, run[1..]).idx.value.generatedAt);
      }
    }
  }

  lemma {:induction false} RunSplits(e: R.Env, p: Printer, n: Node, a: seq<Action>, b: seq<Action>)
    ensures RunNode(e, p, n, a + b) == RunNode(e, p, RunNode(e, p, n, a), b)
    decreases |a|
  {
    if a == [] {
      assert a + b == b;
    } else {
      assert (a + b)[1..] == a[1..] + b;
      RunSplits(e, p, Act(e, p, n, a[0]), a[1..], b);
    }
  }

  // What the registry's key has signed: a message for each release, and index documents.
  datatype Release = Release(name: string, version: string, source: seq<Byte>)

  ghost predicate SignedRelease(c: Crypto, releases: set<Release>, m: seq<Byte>) {
    exists r :: r in releases && m == SignedMessage(c, r.name, r.version, c.hash(r.source))
  }

  ghost predicate SignedIndex(p: Printer, indexes: set<Index>, m: seq<Byte>) {
    exists i :: i in indexes && m == p.bytes(i)
  }

  // No signature checks that the registry did not make.
  ghost predicate Unforgeable(e: R.Env, p: Printer, releases: set<Release>, indexes: set<Index>) {
    forall m, sig :: Pinned(e.crypto, e.keys, m, sig) ==>
      SignedRelease(e.crypto, releases, m) || SignedIndex(p, indexes, m)
  }

  // The index documents signed were printed from values that JSON.parse returns.
  ghost predicate Printable(p: Printer, indexes: set<Index>) {
    forall i :: i in indexes ==> PlainTools(p.double, i.tools)
  }

  // A catalog is a signed one as storing leaves it.
  ghost predicate Published(indexes: set<Index>, idx: Index) {
    exists i :: i in indexes && idx == KeptIndex(i)
  }

  // The message of a release ends in a hash, which no JSON document does.
  ghost predicate Apart(c: Crypto, p: Printer) {
    forall n, v, source :: p.parse(SignedMessage(c, n, v, c.hash(source))) == None
  }

  ghost predicate Genuine(e: R.Env, releases: set<Release>, row: ToolRow) {
    row.cls == R.MARKETPLACE ==>
      && row.sourceSha == e.crypto.hash(row.source)
      && SignedRelease(e.crypto, releases, SignedMessage(e.crypto, row.name, row.version, row.sourceSha))
  }

  ghost predicate Trusted(e: R.Env, releases: set<Release>, indexes: set<Index>, n: Node) {
    && (n.idx.Some? ==> Published(indexes, n.idx.value))
    && forall name :: name in n.db.tools ==> Genuine(e, releases, n.db.tools[name])
  }

  // A catalog that checks and decodes is one the registry signed, and a source message
  // that checks is that of a release.
  lemma OnlyWhatWasSigned(e: R.Env, p: Printer, releases: set<Release>, indexes: set<Index>)
    requires Ideal(e.crypto) && RoundTrips(p) && Apart(e.crypto, p) && Unforgeable(e, p, releases, indexes) && Printable(p, indexes)
    ensures forall doc, sig :: Pinned(e.crypto, e.keys, doc, sig) && Decoded(p, doc).Some? ==> Published(indexes, Decoded(p, doc).value)
    ensures forall n, v, s, sig :: Pinned(e.crypto, e.keys, SignedMessage(e.crypto, n, v, s), sig) ==>
              SignedRelease(e.crypto, releases, SignedMessage(e.crypto, n, v, s))
  {
    forall doc, sig | Pinned(e.crypto, e.keys, doc, sig) && Decoded(p, doc).Some? ensures Published(indexes, Decoded(p, doc).value) {
      assert !SignedRelease(e.crypto, releases, doc);
    }
    forall n, v, s, sig | Pinned(e.crypto, e.keys, SignedMessage(e.crypto, n, v, s), sig)
      ensures SignedRelease(e.crypto, releases, SignedMessage(e.crypto, n, v, s))
    {
      assert Framed(n, v, s)[|n|] == LINE_FEED;
    }
  }

  lemma ActKeepsTrust(e: R.Env, p: Printer, releases: set<Release>, indexes: set<Index>, n: Node, a: Action)
    requires Ideal(e.crypto) && RoundTrips(p) && Apart(e.crypto, p) && Unforgeable(e, p, releases, indexes) && Printable(p, indexes)
    requires Trusted(e, releases, indexes, n)
    ensures Trusted(e, releases, indexes, Act(e, p, n, a))
  {
    hide Less, Lookup, A.Unpacked, SignedRelease, SignedMessage, Pinned, Ideal, RoundTrips, Apart, Unforgeable, Printable, Published;
    OnlyWhatWasSigned(e, p, releases, indexes);
    match a
    case Refresh(_, _) =>
    case Install(id, version, raw, sig, artifact) =>
      var idx := IndexFor(e, p, n.idx, raw, sig);
      if idx.Some? && Downloaded(e, idx.value, id, version, artifact).Ok? {
        WriteKeepsTrust(e, p, releases, indexes, n.db, CallOf(Downloaded(e, idx.value, id, version, artifact).value));
      }
    case Local(call) => WriteKeepsTrust(e, p, releases, indexes, n.db, call);
  }

  lemma WriteKeepsTrust(e: R.Env, p: Printer, releases: set<Release>, indexes: set<Index>, db: Db, call: R.Call)
    requires Ideal(e.crypto) && RoundTrips(p) && Apart(e.crypto, p) && Unforgeable(e, p, releases, indexes) && Printable(p, indexes)
    requires Trusted(e, releases, indexes, Node(None, db))
    ensures Trusted(e, releases, indexes, Node(None, R.After(e, db, call)))
  {
    hide SignedRelease, SignedMessage, Pinned, Ideal, RoundTrips, Apart, Unforgeable, Printable, Published;
    OnlyWhatWasSigned(e, p, releases, indexes);
  }

  lemma {:induction false} RunKeepsTrust(e: R.Env, p: Printer, releases: set<Release>, indexes: set<Index>, n: Node, run: seq<Action>)
    requires Ideal(e.crypto) && RoundTrips(p) && Apart(e.crypto, p) && Unforgeable(e, p, releases, indexes) && Printable(p, indexes)
    requires Trusted(e, releases, indexes, n)
    ensures Trusted(e, releases, indexes, RunNode(e, p, n, run))
    decreases |run|
  {
    hide Trusted, Ideal, RoundTrips, Apart, Unforgeable, Printable;
    if run != [] {
      ActKeepsTrust(e, p, releases, indexes, n, run[0]);
      RunKeepsTrust(e, p, releases, indexes, Act(e, p, n, run[0]), run[1..]);
    }
  }

  // Over any run against any server: the cached catalog is one the registry signed, it
  // never becomes older, and every marketplace tool is a release, with that release's
  // name, version and source, as long as releases keep line feeds out of their names
  // and versions.
  lemma ClientFreshness(e: R.Env, p: Printer, releases: set<Release>, indexes: set<Index>, db: Db, before: seq<Action>, after: seq<Action>)
    requires Ideal(e.crypto) && RoundTrips(p) && Apart(e.crypto, p) && Unforgeable(e, p, releases, indexes) && Printable(p, indexes)
    requires db.tools == map[]
    requires forall r :: r in releases ==> LINE_FEED !in r.name && LINE_FEED !in r.version
    ensures var mid, end := RunNode(e, p, Node(None, db), before), RunNode(e, p, Node(None, db), before + after);
            && (end.idx.Some? ==> Published(indexes, end.idx.value))
            && NotOlder(mid.idx, end.idx)
            && forall name :: name in end.db.tools && end.db.tools[name].cls == R.MARKETPLACE ==>
                 var row := end.db.tools[name];
                 Release(row.name, row.version, row.source) in releases
  {
    hide NotOlder, Unforgeable, RoundTrips, Apart, RunNode, Ideal, Printable, Published;
    var start := Node(None, db);
    RunSplits(e, p, start, before, after);
    NeverOlder(e, p, RunNode(e, p, start, before), after);
    RunKeepsTrust(e, p, releases, indexes, start, before + after);
    var end := RunNode(e, p, start, before + after);
    forall name | name in end.db.tools && end.db.tools[name].cls == R.MARKETPLACE
      ensures Release(end.db.tools[name].name, end.db.tools[name].version, end.db.tools[name].source) in releases
    {
      ReleasedAs(e, releases, end.db.tools[name]);
    }
  }

  lemma ReleasedAs(e: R.Env, releases: set<Release>, row: ToolRow)
    requires Ideal(e.crypto) && Genuine(e, releases, row) && row.cls == R.MARKETPLACE
    requires forall r :: r in releases ==> LINE_FEED !in r.name && LINE_FEED !in r.version
    ensures Release(row.name, row.version, row.source) in releases
  {
    hide Ideal, SignedMessage;
    var r :| r in releases
          && SignedMessage(e.crypto, row.name, row.version, row.sourceSha) == SignedMessage(e.crypto, r.name, r.version, e.crypto.hash(r.source));
    MessageBinds(e.crypto, r.name, r.version, r.source, row.name, row.version, row.source);
  }
}
