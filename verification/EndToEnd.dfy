/**
 Publish, then install: what a client gets from the bucket of module Market, over a
 route that turns the paths it asks for into bucket keys.
 */
module EndToEnd {
  import opened Wrappers
  import opened Utf
  import Tables
  import opened Sign
  import opened Manifest
  import opened Values
  import opened Index
  import opened Worker
  import opened Client
  import opened Market
  import A = Artifact
  import R = Registry

  const INDEX_PATH := "index.json"
  const SIGNATURE_PATH := "index.json.sig"

  // A GET below the registry's base URL, which ends in /v1/.
  function Served(b: Bucket, route: string -> string, path: string): Reply {
    if route(path) in b then Answered(b[route(path)]) else Failure
  }

  // Routes on which the index is found where publish puts it.
  predicate FindsIndex(route: string -> string) {
    route(INDEX_PATH) == INDEX_KEY && route(SIGNATURE_PATH) == SIGNATURE_KEY
  }

  // A registry and its Worker: one key, one cryptography, one JSON.
  ghost predicate Paired(e: R.Env, w: Edge) {
    && e.crypto == w.crypto && Ideal(e.crypto) && Lawful(e.json)
    && Signs(w) && w.publicKey in e.keys && RoundTrips(w.printer)
  }

  lemma OwnSignatureChecks(e: R.Env, w: Edge, message: seq<Byte>, signed: seq<Byte>)
    requires Paired(e, w)
    ensures Pinned(e.crypto, e.keys, message, w.sign(signed)) <==> message == signed
  {
    var i :| 0 <= i < |e.keys| && e.keys[i] == w.publicKey;
    assert w.crypto.valid(w.publicKey, signed, w.sign(signed));
  }

  function Refreshing(b: Bucket, route: string -> string): Action {
    Refresh(Served(b, route, INDEX_PATH), Served(b, route, SIGNATURE_PATH))
  }

  function Installing(b: Bucket, route: string -> string, id: string, version: string): Action {
    Install(id, version, Served(b, route, INDEX_PATH), Served(b, route, SIGNATURE_PATH), path => Served(b, route, path))
  }

  // The client also reads a signature up to its limit only; an ed25519 signature has 64
  // bytes.
  predicate SignatureFits(w: Edge, subs: seq<Submission>) {
    |w.sign(w.printer.bytes(Printed(w, subs)))| <= GET_LIMIT
  }

  predicate IndexFits(w: Edge, subs: seq<Submission>) {
    |w.printer.bytes(Printed(w, subs))| <= 16777216
  }

  // A refresh takes the index exactly when it fits into what the client reads, decodes
  // into the client's typed fields, and is not older than the one it has.
  lemma RefreshesExactlyWhen(e: R.Env, w: Edge, b: Bucket, subs: seq<Submission>, route: string -> string, idx: Option<Index>)
    requires Paired(e, w) && BucketMatches(w, b, subs) && subs != [] && FindsIndex(route)
    requires SignatureFits(w, subs)
    ensures var index := IndexOf(w, subs);
            Refreshed(e, w.printer, idx, Served(b, route, INDEX_PATH), Served(b, route, SIGNATURE_PATH)) == Ok(index)
            <==> IndexFits(w, subs) && Readable(Publications(w, subs))
                 && (idx.Some? ==> !Less(index.generatedAt, idx.value.generatedAt))
    ensures !(IndexFits(w, subs) && Readable(Publications(w, subs))) ==>
              Refreshed(e, w.printer, idx, Served(b, route, INDEX_PATH), Served(b, route, SIGNATURE_PATH)).Err?
  {
    hide IndexOf, Printed, Less, Pinned, ArtifactsMatch, KnownKeys, Sized, Parsed, Readable, Typed, Publications, CatalogOf, Versioned;
    var doc := w.printer.bytes(Printed(w, subs));
    PrintedReads(w, subs);
    AllVersioned(w, subs);
    TypedExactlyWhen(Publications(w, subs));
    var read := if |doc| <= GET_LIMIT then doc else doc[..GET_LIMIT];
    OwnSignatureChecks(e, w, read, doc);
  }

  // Once a version that is neither a text nor infinite is published, no client refreshes
  // any more, whatever is published afterwards.
  lemma NonTextVersionStopsRefreshes(
    e: R.Env, w: Edge, arrivals: seq<Arrival>, route: string -> string, idx: Option<Index>, i: nat)
    requires Paired(e, w) && AllParsed(w, arrivals) && FindsIndex(route) && SignatureFits(w, Accepteds(arrivals))
    requires i < |Accepteds(arrivals)| && !TextOrNothing(VersionIn(Accepteds(arrivals)[i].manifest))
    ensures var b := Serve(w, arrivals);
            Refreshed(e, w.printer, idx, Served(b, route, INDEX_PATH), Served(b, route, SIGNATURE_PATH)).Err?
  {
    hide Refreshed, BucketMatches, Serve, Accepteds, IndexOf, Readable, PublicationOf, AllParsed, TextOrNothing;
    var subs := Accepteds(arrivals);
    ServeMatchesPaired(e, w, arrivals);
    PublicationAt(w, subs, i);
    PublishedUnder(w, subs[i]);
    NonTextStays(Publications(w, subs), i);
    RefreshesExactlyWhen(e, w, Serve(w, arrivals), subs, route, idx);
  }

  lemma {:induction false} AcceptedStays(arrivals: seq<Arrival>, k: nat)
    requires k < |arrivals| && Accepted(arrivals[k]).Some?
    ensures Accepted(arrivals[k]).value in Accepteds(arrivals)
  {
    hide Accepted;
    if k < |arrivals| - 1 {
      AcceptedStays(arrivals[..|arrivals| - 1], k);
    }
  }

  // The manifest {name: "x", version: v, author: "a"}.
  function ManifestWith(version: Value): Value {
    Object(Member("name", Text("x"), Member("version", version, Member("author", Text("a"), NoMember))))
  }

  // Such a manifest is accepted for every version that is truthy and prints.
  lemma ManifestAccepted(version: Value, a: Arrival)
    requires a.request.Complete? && a.request.manifest.value == ManifestWith(version)
    requires Truthy(version) && Shown(version).Some? && !a.limited && Decide(a.verdict) != Reject
    requires |a.request.source| <= A.MAX_SOURCE && |a.request.manifest.text| <= A.MAX_MANIFEST
    ensures Accepted(a) == Some(Submission(a.request.manifest, a.request.source, a.verdict, a.now))
    ensures VersionIn(a.request.manifest) == version && Name(a.request.manifest) == Text("x")
  {
    hide Decide, ManifestWith, Find;
    FieldsOf(version);
  }

  lemma FieldsOf(version: Value)
    ensures var m := ManifestWith(version);
            && m.Object? && Get(m, "name") == Text("x") && Get(m, "version") == version && Get(m, "author") == Text("a")
  {
    var author := Member("author", Text("a"), NoMember);
    var rest := Member("version", version, author);
    assert Find(rest, "version") == version && Find(rest, "author") == Find(author, "author");
  }

  // Version 1: the Worker accepts and publishes it, and from then on no client refreshes.
  lemma NumericVersionStopsRefreshes(
    e: R.Env, w: Edge, arrivals: seq<Arrival>, route: string -> string, idx: Option<Index>, k: nat)
    requires Paired(e, w) && AllParsed(w, arrivals) && FindsIndex(route) && SignatureFits(w, Accepteds(arrivals))
    requires k < |arrivals| && !arrivals[k].limited && Decide(arrivals[k].verdict) != Reject
    requires arrivals[k].request.Complete? && arrivals[k].request.manifest.value == ManifestWith(Number(Decimal(1, 0)))
    requires |arrivals[k].request.source| <= A.MAX_SOURCE && |arrivals[k].request.manifest.text| <= A.MAX_MANIFEST
    ensures Accepted(arrivals[k]).Some?
    ensures var b := Serve(w, arrivals);
            Refreshed(e, w.printer, idx, Served(b, route, INDEX_PATH), Served(b, route, SIGNATURE_PATH)).Err?
  {
    hide Refreshed, Serve, Accepteds, Accepted, IndexOf, Paired, Decide, AllParsed, ManifestWith, SignatureFits, VersionIn, Served, FindsIndex;
    ManifestAccepted(Number(Decimal(1, 0)), arrivals[k]);
    AcceptedStays(arrivals, k);
    var i :| 0 <= i < |Accepteds(arrivals)| && Accepteds(arrivals)[i] == Accepted(arrivals[k]).value;
    NonTextVersionStopsRefreshes(e, w, arrivals, route, idx, i);
  }

  // Version 1e999: the Worker takes it for infinite, accepts it and stores null, and the
  // client reads an empty text.
  lemma InfiniteVersionReads(w: Edge, a: Arrival)
    requires a.request.Complete? && a.request.manifest.value == ManifestWith(Infinite(true))
    requires !a.limited && Decide(a.verdict) != Reject
    requires |a.request.source| <= A.MAX_SOURCE && |a.request.manifest.text| <= A.MAX_MANIFEST
    requires TextOrNothing(a.verdict.verdict) && WholeOrNothing(a.verdict.riskScore)
    ensures Accepted(a).Some?
    ensures Readable(Publications(w, [Accepted(a).value]))
    ensures var ps := Publications(w, [Accepted(a).value]);
            LastVersion(ps, "a/x") == Some(Null) && Answering(ps, "a/x", Text("")).Some?
  {
    hide Decide, ManifestWith, Accepted, PublicationOf, Publications, TextOrNothing, WholeOrNothing, Readable, IdOf, Name, VersionIn,
      LastVersion, Answering;
    ManifestAccepted(Infinite(true), a);
    var s := Accepted(a).value;
    PublishedAlone(w, s);
    PublishedFields(w, s);
    IdOfX(s.manifest, Infinite(true));
    TextIsText("x");
    ReadableAlone(PublicationOf(w, s));
  }

  lemma PublishedAlone(w: Edge, s: Submission)
    ensures Publications(w, [s]) == [PublicationOf(w, s)]
  {
    hide PublicationOf;
    assert [s][..0] == [];
  }

  lemma TextIsText(t: string)
    ensures TextOrNothing(Text(t))
  {}

  lemma IdOfX(m: Document, version: Value)
    requires m.value == ManifestWith(version)
    ensures IdOf(m) == "a/x"
  {
    hide ManifestWith, Find;
    FieldsOf(version);
    assert "a" + "/" + "x" == "a/x";
  }

  lemma PublishedFields(w: Edge, s: Submission)
    ensures var p := PublicationOf(w, s);
            p.id == IdOf(s.manifest) && p.name == Name(s.manifest) && p.record.version == VersionIn(s.manifest)
            && p.record.review.verdict == s.verdict.verdict && p.record.review.riskScore == s.verdict.riskScore
  {}

  lemma ReadableAlone(p: Publication)
    requires p.record.version.Infinite? && TextOrNothing(p.name)
    requires TextOrNothing(p.record.review.verdict) && WholeOrNothing(p.record.review.riskScore)
    ensures Readable([p]) && LastVersion([p], p.id) == Some(Null)
    ensures Answering([p], p.id, Text("")).Some?
  {
    hide WholeOrNothing;
    assert [p][..0] == [];
  }

  // The submission that a look-up of (id, version) is about.
  function Wanted(w: Edge, subs: seq<Submission>, id: string, version: string): Option<Submission> {
    match LastVersion(Publications(w, subs), id)
    case None => None
    case Some(latest) => Answerer(subs, id, Asked(latest, version))
  }

  lemma {:induction false} WriterExists(subs: seq<Submission>, s: Submission)
    requires s in subs
    ensures LastWriter(subs, KeyOf(s.manifest)).Some?
  {
    hide KeyOf;
    var was, last := subs[..|subs| - 1], subs[|subs| - 1];
    assert subs == was + [last];
    if KeyOf(last.manifest) != KeyOf(s.manifest) {
      WriterExists(was, s);
    }
  }

  // The download of a submission's artifact: the bytes last stored under its key, and of
  // those only the ones that were published with it.
  function Expected(e: R.Env, w: Edge, subs: seq<Submission>, s: Submission): Result<Download, ClientError>
    requires LastWriter(subs, KeyOf(s.manifest)).Some?
  {
    var x := LastWriter(subs, KeyOf(s.manifest)).value;
    if ZipOf(x.manifest, x.source) != ZipOf(s.manifest, s.source) then Err(HashMismatch)
    else if s.source == [] then Err(NotUnpacked(A.MissingMember))
    else
      match ParseManifest(e.json, TextEncode(s.manifest.text))
      case Err(error) => Err(NotUnpacked(A.BadManifest(error)))
      case Ok(m) => Ok(Download(A.Tool(m, TextEncode(s.source)), KeptVersion(PublicationOf(w, s).record)))
  }

  lemma RecordPoints(w: Edge, s: Submission)
    ensures var r := KeptVersion(PublicationOf(w, s).record);
            && r.artifact == KeyOf(s.manifest)
            && r.zipSha == w.crypto.hash(ZipOf(s.manifest, s.source))
            && r.sourceSig == SourceSignature(w, s.manifest, s.source)
            && r.verified == (Decide(s.verdict) == Pass)
  {}

  lemma SizedZip(j: Codec, s: Submission)
    requires Market.Sized(s)
    ensures |ZipOf(s.manifest, s.source)| < GET_LIMIT
    ensures A.Unpacked(j, ZipOf(s.manifest, s.source))
         == if s.source == [] then Err(A.MissingMember)
            else match ParseManifest(j, TextEncode(s.manifest.text))
                 case Err(error) => Err(A.BadManifest(error))
                 case Ok(m) => Ok(A.Tool(m, TextEncode(s.source)))
  {
    hide A.ToolZip, A.Unpacked;
    A.UnpackPacked(j, s.manifest.text, s.source);
  }

  lemma WithinPrefix(subs: seq<Submission>, listed: seq<Submission>, s: Submission)
    requires listed <= subs && s in listed
    ensures s in subs
  {}

  // listed are the submissions that the client's catalog knows of, and subs those that
  // the bucket holds by now.
  lemma Downloads(
    e: R.Env, w: Edge, b: Bucket, listed: seq<Submission>, subs: seq<Submission>, route: string -> string,
    id: string, version: string, s: Submission)
    requires Paired(e, w) && BucketMatches(w, b, subs) && listed <= subs
    requires Wanted(w, listed, id, version) == Some(s)
    requires route(KeyOf(s.manifest)) == KeyOf(s.manifest)
    ensures LastWriter(subs, KeyOf(s.manifest)).Some?
    ensures Downloaded(e, IndexOf(w, listed), id, version, path => Served(b, route, path)) == Expected(e, w, subs, s)
  {
    hide Lookup, Answerer, LastVersion, KeyOf, ZipOf, A.Unpacked, Market.Sized, Parsed, IndexOf, IndexMatches, PublicationOf, Publications, KeptVersion;
    LookupFinds(w, listed, id, version);
    IndexHasTools(w, listed);
    RecordsAreSubmissions(w, listed, id, Asked(LastVersion(Publications(w, listed), id).value, version));
    WithinPrefix(subs, listed, s);
    WriterExists(subs, s);
    WritersAreArtifacts(w, subs, KeyOf(s.manifest));
    RecordPoints(w, s);
    var x := LastWriter(subs, KeyOf(s.manifest)).value;
    SizedZip(e.json, s);
    SizedZip(e.json, x);
    assert b[KeyOf(s.manifest)] == ZipOf(x.manifest, x.source);
  }

  lemma IndexHasTools(w: Edge, subs: seq<Submission>)
    ensures IndexOf(w, subs).tools == Build(Publications(w, subs))
  {
    hide InMemory, Build;
    BuildStores(Publications(w, subs));
    NothingPrinted(w);
  }

  // The name and version the reader sees are those that were signed, up to where the
  // framing can tell them apart.
  ghost predicate SameIdentity(m: Manifest, d: Document) {
    m.name + [LINE_FEED] + m.version == Str(Name(d)) + [LINE_FEED] + Str(VersionIn(d))
  }

  lemma SignatureChecks(e: R.Env, w: Edge, m: Manifest, s: Submission)
    requires Paired(e, w)
    ensures R.Signed(e, m, TextEncode(s.source), SourceSignature(w, s.manifest, s.source)) <==> SameIdentity(m, s.manifest)
  {
    hide TextEncode, Framed;
    var d, sha := s.manifest, e.crypto.hash(TextEncode(s.source));
    OwnSignatureChecks(e, w, SignedMessage(e.crypto, m.name, m.version, sha), SignedMessage(e.crypto, Str(Name(d)), Str(VersionIn(d)), sha));
    FramingBindsHash(m.name, m.version, sha, Str(Name(d)), Str(VersionIn(d)), sha);
  }

  // What the registry is to hold of a submission, field by field: the name and version of
  // its manifest, where it came from, the manifest's canonical bytes, the source's bytes
  // and hash, and a badge exactly when it passed review.
  function Row(e: R.Env, m: Manifest, s: Submission): Tables.ToolRow {
    Tables.ToolRow(m.name, m.version, "marketplace", e.json.canonical(m), TextEncode(s.source),
                   e.crypto.hash(TextEncode(s.source)), Decide(s.verdict) == Pass)
  }

  // Installing a version from a catalog, current or of an earlier time, succeeds exactly
  // when its artifact has not been replaced by another one stored under the same key
  // since, its source is not empty, and its manifest reads as one with the name and
  // version it was signed under.  A cached catalog is not refreshed.
  lemma InstallsExactlyWhen(
    e: R.Env, w: Edge, b: Bucket, listed: seq<Submission>, subs: seq<Submission>, route: string -> string,
    db: Tables.Db, id: string, version: string, s: Submission, m: Manifest)
    requires Paired(e, w) && BucketMatches(w, b, subs) && listed <= subs
    requires Wanted(w, listed, id, version) == Some(s)
    requires route(KeyOf(s.manifest)) == KeyOf(s.manifest)
    ensures var n, a := Node(Some(IndexOf(w, listed)), db), Installing(b, route, id, version);
            var x := LastWriter(subs, KeyOf(s.manifest));
            && x.Some?
            && (Reported(e, w.printer, n.idx, a) == Ok(m) <==>
                  && ZipOf(x.value.manifest, x.value.source) == ZipOf(s.manifest, s.source)
                  && s.source != []
                  && ParseManifest(e.json, TextEncode(s.manifest.text)) == Ok(m)
                  && SameIdentity(m, s.manifest))
            && (Reported(e, w.printer, n.idx, a) == Ok(m) ==>
                  Act(e, w.printer, n, a).db
                  == db.(tools := db.tools[m.name := Row(e, m, s)]))
            && (Reported(e, w.printer, n.idx, a).Err? ==> Act(e, w.printer, n, a) == n)
  {
    hide TextEncode, ZipOf, KeyOf, PublicationOf, KeptVersion, IndexOf, Paired, BucketMatches, R.Signed, Downloaded, SameIdentity, Decide, SourceSignature, LastWriter;
    Downloads(e, w, b, listed, subs, route, id, version, s);
    RecordPoints(w, s);
    SignatureChecks(e, w, m, s);
    if ParseManifest(e.json, TextEncode(s.manifest.text)).Ok? {
      SignatureChecks(e, w, ParseManifest(e.json, TextEncode(s.manifest.text)).value, s);
    }
  }

  // --- publish, then install ---

  // The manifest reads back as what the Worker took it for.
  ghost predicate WellFormed(e: R.Env, s: Submission, m: Manifest) {
    && ParseManifest(e.json, TextEncode(s.manifest.text)) == Ok(m)
    && Text(m.name) == Name(s.manifest) && Text(m.version) == VersionIn(s.manifest)
  }

  // Right after a submission with a well-formed manifest and a source is published, a
  // client that refreshes and installs its id stores those source bytes, that manifest
  // and the badge that review gave, as long as nothing on record keeps the client from
  // decoding the index.
  lemma PublishThenInstall(
    e: R.Env, w: Edge, arrivals: seq<Arrival>, route: string -> string, n: Node, s: Submission, m: Manifest)
    requires Paired(e, w) && FindsIndex(route) && route(KeyOf(s.manifest)) == KeyOf(s.manifest)
    requires arrivals != [] && Accepted(arrivals[|arrivals| - 1]) == Some(s)
    requires WellFormed(e, s, m) && s.source != []
    requires AllParsed(w, arrivals) && IndexFits(w, Accepteds(arrivals)) && SignatureFits(w, Accepteds(arrivals))
    requires Readable(Publications(w, Accepteds(arrivals)))
    requires n.idx.Some? ==> !Less(s.now, n.idx.value.generatedAt)
    ensures var b := Serve(w, arrivals);
            var run := [Refreshing(b, route), Installing(b, route, IdOf(s.manifest), "")];
            RunNode(e, w.printer, n, run)
            == Node(Some(IndexOf(w, Accepteds(arrivals))),
                    n.db.(tools := n.db.tools[m.name :=
                      Row(e, m, s)]))
  {
    hide Paired, BucketMatches, Decide, TextEncode, KeyOf, ZipOf, Less, Build, Accepteds, Serve, IdOf, Refreshed, Publications, Readable, Printed, AllParsed;
    var subs, b := Accepteds(arrivals), Serve(w, arrivals);
    ServeMatchesPaired(e, w, arrivals);
    LastAccepted(w, arrivals, s);
    RefreshesExactlyWhen(e, w, b, subs, route, n.idx);
    var refreshed := Act(e, w.printer, n, Refreshing(b, route));
    assert refreshed == Node(Some(IndexOf(w, subs)), n.db);
    InstallsExactlyWhen(e, w, b, subs, subs, route, n.db, IdOf(s.manifest), "", s, m);
    TwoActs(e, w.printer, n, Refreshing(b, route), Installing(b, route, IdOf(s.manifest), ""));
    assert Installing(b, route, IdOf(s.manifest), "").Install?;
    assert SameIdentity(m, s.manifest);
    KeepsIndex(e, w.printer, refreshed, Installing(b, route, IdOf(s.manifest), ""));
  }

  lemma TwoActs(e: R.Env, p: Printer, n: Node, x: Action, y: Action)
    ensures RunNode(e, p, n, [x, y]) == Act(e, p, Act(e, p, n, x), y)
  {
    hide Act;
    var m := Act(e, p, n, x);
    assert [x, y][1..] == [y] && [y][1..] == [];
    assert RunNode(e, p, m, [y]) == RunNode(e, p, Act(e, p, m, y), []);
  }

  lemma KeepsIndex(e: R.Env, p: Printer, n: Node, a: Action)
    requires n.idx.Some? && a.Install?
    ensures Act(e, p, n, a).idx == n.idx
  {
    hide Downloaded, Refreshed;
  }

  lemma ServeMatchesPaired(e: R.Env, w: Edge, arrivals: seq<Arrival>)
    requires Paired(e, w) && AllParsed(w, arrivals)
    ensures BucketMatches(w, Serve(w, arrivals), Accepteds(arrivals))
  {
    ServeMatches(w, arrivals);
  }

  // A submission just published is the one its id resolves to, and the last to have
  // written its artifact.
  lemma LastAccepted(w: Edge, arrivals: seq<Arrival>, s: Submission)
    requires arrivals != [] && Accepted(arrivals[|arrivals| - 1]) == Some(s) && VersionIn(s.manifest).Text?
    ensures var subs := Accepteds(arrivals);
            && subs != [] && subs[|subs| - 1] == s
            && IndexOf(w, subs).generatedAt == s.now
            && Wanted(w, subs, IdOf(s.manifest), "") == Some(s)
            && LastWriter(subs, KeyOf(s.manifest)) == Some(s)
  {
    hide KeyOf, PublicationOf, Build, InMemory, Accepted, Truthy;
    var subs, was := Accepteds(arrivals), Accepteds(arrivals[..|arrivals| - 1]);
    assert subs == was + [s];
    PublicationsSnoc(w, was, s);
    PublishedUnder(w, s);
    assert subs[|subs| - 1] == s && subs[..|subs| - 1] == was;
    var ps := Publications(w, subs);
    assert ps[|ps| - 1] == PublicationOf(w, s);
    assert LastVersion(ps, IdOf(s.manifest)) == Some(VersionIn(s.manifest));
  }

  // --- keys ---

  lemma {:induction false} KeysAgree(i: string, v: string, j: string, u: string)
    ensures ArtifactKey(i, v) == ArtifactKey(j, u) <==> i + "/" + v == j + "/" + u
  {
    var k, l := ArtifactKey(i, v), ArtifactKey(j, u);
    assert k == "tools/" + (i + "/" + v) + "/tool.zip" && l == "tools/" + (j + "/" + u) + "/tool.zip";
    if k == l {
      assert |i + "/" + v| == |k| - 15 && |j + "/" + u| == |l| - 15;
      assert k[6..|k| - 9] == i + "/" + v && l[6..|l| - 9] == j + "/" + u;
    }
  }

  // Versions without a slash keep artifacts apart.
  lemma SlashFreeKeys(i: string, v: string, j: string, u: string)
    requires '/' !in v && '/' !in u
    ensures ArtifactKey(i, v) == ArtifactKey(j, u) <==> i == j && v == u
  {
    KeysAgree(i, v, j, u);
    if i + "/" + v == j + "/" + u {
      CutLast('/', i, v, j, u);
    }
  }

  // With a slash in a version two tools can share one artifact.
  lemma KeysCollide()
    ensures ArtifactKey("a/b", "c/d") == ArtifactKey("a/b/c", "d")
  {
    KeysAgree("a/b", "c/d", "a/b/c", "d");
    assert "a/b" + "/" + "c/d" == "a/b/c" + "/" + "d";
  }

  ghost predicate SlashFree(subs: seq<Submission>) {
    forall i :: 0 <= i < |subs| ==> VersionIn(subs[i].manifest).Text? && '/' !in VersionIn(subs[i].manifest).text
  }

  lemma {:induction false} WriterIsLast(subs: seq<Submission>, id: string, version: string)
    requires SlashFree(subs) && '/' !in version
    ensures LastWriter(subs, ArtifactKey(id, version)) == Answerer(subs, id, Text(version))
  {
    hide ArtifactKey, IdOf, VersionIn;
    if subs != [] {
      var m := subs[|subs| - 1].manifest;
      SlashFreeKeys(IdOf(m), VersionIn(m).text, id, version);
      WriterIsLast(subs[..|subs| - 1], id, version);
    }
  }

  // As long as versions are texts without a slash, every version ever published with a
  // well-formed manifest and a source installs at any later time, from a catalog of any
  // time, as long as nothing else was published under its id and version since.
  lemma EveryVersionInstalls(
    e: R.Env, w: Edge, b: Bucket, listed: seq<Submission>, subs: seq<Submission>, route: string -> string,
    db: Tables.Db, id: string, version: string, s: Submission, m: Manifest)
    requires Paired(e, w) && BucketMatches(w, b, subs) && listed <= subs && SlashFree(subs)
    requires Wanted(w, listed, id, version) == Some(s) && WellFormed(e, s, m) && s.source != []
    requires Answerer(subs, id, VersionIn(s.manifest)) == Some(s)
    requires route(KeyOf(s.manifest)) == KeyOf(s.manifest)
    ensures var n, a := Node(Some(IndexOf(w, listed)), db), Installing(b, route, id, version);
            && Reported(e, w.printer, n.idx, a) == Ok(m)
            && Act(e, w.printer, n, a).db
               == db.(tools := db.tools[m.name := Row(e, m, s)])
  {
    hide Paired, BucketMatches, TextEncode, ZipOf, Decide, ArtifactKey, Act, Reported, IndexOf, LastWriter, Answerer, Publications;
    InstallsExactlyWhen(e, w, b, listed, subs, route, db, id, version, s, m);
    RecordsAreSubmissions(w, subs, id, VersionIn(s.manifest));
    WriterIsLast(subs, id, m.version);
    assert SameIdentity(m, s.manifest);
  }

  // With a current catalog that is no condition at all.
  lemma CurrentIsLast(w: Edge, subs: seq<Submission>, id: string, version: string, s: Submission)
    requires Wanted(w, subs, id, version) == Some(s) && VersionIn(s.manifest).Text?
    ensures Answerer(subs, id, VersionIn(s.manifest)) == Some(s)
  {
    hide Publications, Filled, Answerer;
    AnswersAs(subs, id, Asked(LastVersion(Publications(w, subs), id).value, version));
  }

  lemma {:induction false} AnswersAs(subs: seq<Submission>, id: string, version: Value)
    requires Answerer(subs, id, version).Some? && VersionIn(Answerer(subs, id, version).value.manifest).Text?
    ensures VersionIn(Answerer(subs, id, version).value.manifest) == version
  {
    hide IdOf, VersionIn;
    if Answerer(subs[..|subs| - 1], id, version) == Answerer(subs, id, version) {
      AnswersAs(subs[..|subs| - 1], id, version);
    }
  }

  // --- routes that put a prefix before the path ---

  function Below(prefix: string): string -> string {
    (path: string) => prefix + path
  }

  // No prefix finds the index and an artifact alike.
  lemma NoPrefixFindsBoth(prefix: string, id: string, version: string)
    ensures !(FindsIndex(Below(prefix)) && Below(prefix)(ArtifactKey(id, version)) == ArtifactKey(id, version))
  {
    if prefix + INDEX_PATH == INDEX_KEY {
      assert |prefix| == 3;
      assert |prefix + ArtifactKey(id, version)| == 3 + |ArtifactKey(id, version)|;
    }
  }

  // Whatever the prefix, a client either never gets an index or, from whatever catalog it
  // has, never gets an artifact, whatever was submitted.  The Worker's own route, which
  // drops the first /v1/, has what follows it in the base URL as its prefix; a domain
  // over the bucket has the whole path of the base URL.
  lemma NoPrefixServesBoth(
    e: R.Env, w: Edge, arrivals: seq<Arrival>, listed: seq<Submission>, prefix: string, idx: Option<Index>,
    id: string, version: string)
    requires RoundTrips(w.printer) && AllParsed(w, arrivals) && listed <= Accepteds(arrivals)
    ensures var b, route := Serve(w, arrivals), Below(prefix);
            if prefix == "v1/"
            then Wanted(w, listed, id, version).Some? ==>
                   Downloaded(e, IndexOf(w, listed), id, version, path => Served(b, route, path)) == Err(FetchFailed)
            else Refreshed(e, w.printer, idx, Served(b, route, INDEX_PATH), Served(b, route, SIGNATURE_PATH)) == Err(FetchFailed)
  {
    hide BucketMatches, Serve, Accepteds, IndexOf, Wanted, AllParsed, Downloaded;
    var subs, b := Accepteds(arrivals), Serve(w, arrivals);
    ServeMatches(w, arrivals);
    if prefix == "v1/" {
      if Wanted(w, listed, id, version).Some? {
        ArtifactNotServed(e, w, b, listed, subs, id, version);
      }
    } else {
      SignatureIsElsewhere(w, b, subs, prefix);
    }
  }

  lemma ArtifactNotServed(e: R.Env, w: Edge, b: Bucket, listed: seq<Submission>, subs: seq<Submission>, id: string, version: string)
    requires BucketMatches(w, b, subs) && listed <= subs && Wanted(w, listed, id, version).Some?
    ensures Downloaded(e, IndexOf(w, listed), id, version, path => Served(b, Below("v1/"), path)) == Err(FetchFailed)
  {
    hide Lookup, Answerer, LastVersion, KeyOf, IndexMatches, ArtifactsMatch, KnownKeys, IndexOf, PublicationOf, Publications,
      KeptVersion, A.Unpacked, Market.Sized, Parsed, Below, ZipOf, SourceSignature, Decide, Asked, Filled;
    LookupFinds(w, listed, id, version);
    IndexHasTools(w, listed);
    var s := Wanted(w, listed, id, version).value;
    RecordPoints(w, s);
    ArtifactIsElsewhere(w, b, subs, s.manifest);
  }

  lemma ArtifactIsElsewhere(w: Edge, b: Bucket, subs: seq<Submission>, m: Document)
    requires BucketMatches(w, b, subs)
    ensures Served(b, Below("v1/"), KeyOf(m)) == Failure
  {
    hide IndexMatches, ArtifactsMatch, Market.Sized, Parsed;
    var key := "v1/" + KeyOf(m);
    assert key[0] == 'v' && key[3] == 't';
    assert INDEX_KEY[3] == 'i' && SIGNATURE_KEY[3] == 'i' && CATALOG_KEY[3] == 'c';
    assert !KnownKey(key);
  }

  lemma SignatureIsElsewhere(w: Edge, b: Bucket, subs: seq<Submission>, prefix: string)
    requires BucketMatches(w, b, subs) && prefix != "v1/"
    ensures Served(b, Below(prefix), SIGNATURE_PATH) == Failure
  {
    hide IndexMatches, ArtifactsMatch, Market.Sized, Parsed;
    var key := prefix + SIGNATURE_PATH;
    assert key[|key| - 1] == 'g' && INDEX_KEY[|INDEX_KEY| - 1] == 'n' && CATALOG_KEY[|CATALOG_KEY| - 1] == 'n';
    assert key[..|prefix|] == prefix && |key| == |prefix| + 14;
    assert SIGNATURE_KEY[..3] == "v1/" && |SIGNATURE_KEY| == 17;
    assert !KnownKey(key);
  }
}
