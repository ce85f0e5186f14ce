/**
 From submission to installation: what a run of submissions leaves in the bucket, and
 what a client then gets out of it.
 */
module Market {
  import opened Wrappers
  import opened Utf
  import opened Values
  import opened Index
  import opened Worker
  import A = Artifact

  // --- runs of submissions from an empty bucket ---

  function Serve(w: Edge, arrivals: seq<Arrival>): Bucket {
    if arrivals == [] then map[]
    else SubmitOutcome(w, Serve(w, arrivals[..|arrivals| - 1]), arrivals[|arrivals| - 1]).bucket
  }

  // The submissions among them that were published.
  function Accepteds(arrivals: seq<Arrival>): seq<Submission> {
    if arrivals == [] then []
    else Accepteds(arrivals[..|arrivals| - 1]) + Single(Accepted(arrivals[|arrivals| - 1]))
  }

  function Single(s: Option<Submission>): seq<Submission> {
    match s
    case None => []
    case Some(x) => [x]
  }

  function Publications(w: Edge, subs: seq<Submission>): (ps: seq<Publication>)
    ensures |ps| == |subs|
  {
    if subs == [] then []
    else Publications(w, subs[..|subs| - 1]) + [PublicationOf(w, subs[|subs| - 1])]
  }

  // The submission that answers to (id, version): the last one under it, or else the
  // first one whose version reads as this one once stored.
  function Answerer(subs: seq<Submission>, id: string, version: Value): Option<Submission> {
    if subs == [] then None
    else
      var s, before := subs[|subs| - 1], Answerer(subs[..|subs| - 1], id, version);
      if IdOf(s.manifest) != id then before
      else if Same(VersionIn(s.manifest), version) then Some(s)
      else if before.None? && Filled(Kept(VersionIn(s.manifest))) == version then Some(s)
      else before
  }

  // The last submission stored at a key.
  function LastWriter(subs: seq<Submission>, key: string): Option<Submission> {
    if subs == [] then None
    else if KeyOf(subs[|subs| - 1].manifest) == key then Some(subs[|subs| - 1])
    else LastWriter(subs[..|subs| - 1], key)
  }

  // The index as printed, with infinite numbers, and as read back.
  function Printed(w: Edge, subs: seq<Submission>): Index {
    if subs == [] then NO_INDEX
    else Index(subs[|subs| - 1].now, InMemory(Publications(w, subs)))
  }

  function IndexOf(w: Edge, subs: seq<Submission>): Index {
    KeptIndex(Printed(w, subs))
  }

  // The catalog made of the index before it is stored.
  function CatalogOf(w: Edge, subs: seq<Submission>): seq<CatalogRow> {
    BuildCatalog(Printed(w, subs).tools, Printed(w, subs).generatedAt)
  }

  // --- what the bucket holds ---

  ghost predicate IndexMatches(w: Edge, b: Bucket, subs: seq<Submission>) {
    if subs == [] then INDEX_KEY !in b
    else
      var doc := w.printer.bytes(Printed(w, subs));
      && INDEX_KEY in b && b[INDEX_KEY] == doc
      && SIGNATURE_KEY in b && b[SIGNATURE_KEY] == w.sign(doc)
      && CATALOG_KEY in b && b[CATALOG_KEY] == w.catalog(CatalogOf(w, subs))
  }

  ghost predicate ArtifactsMatch(b: Bucket, subs: seq<Submission>) {
    forall key :: LastWriter(subs, key).Some? ==>
      key in b && b[key] == ZipOf(LastWriter(subs, key).value.manifest, LastWriter(subs, key).value.source)
  }

  // Submissions write zips under tools/, JSON under reviews/ and submissions/, and three
  // keys under v1/.
  predicate KnownKey(key: string) {
    || key in {INDEX_KEY, SIGNATURE_KEY, CATALOG_KEY}
    || Spans(key, 't', 'p') || Spans(key, 'r', 'n') || Spans(key, 's', 'n')
  }

  predicate Spans(key: string, first: char, last: char) {
    key != "" && key[0] == first && key[|key| - 1] == last
  }

  ghost predicate KnownKeys(b: Bucket) {
    forall key :: key in b ==> KnownKey(key)
  }

  predicate Sized(s: Submission) {
    |s.source| <= A.MAX_SOURCE && |s.manifest.text| <= A.MAX_MANIFEST && Truthy(VersionIn(s.manifest))
  }

  // Its values are such as JSON.parse returns.
  predicate Parsed(w: Edge, s: Submission) {
    && Plain(w.printer.double, s.manifest.value)
    && Plain(w.printer.double, s.verdict.verdict) && Plain(w.printer.double, s.verdict.riskScore)
  }

  predicate AllParsed(w: Edge, arrivals: seq<Arrival>) {
    forall k :: 0 <= k < |arrivals| && Accepted(arrivals[k]).Some? ==> Parsed(w, Accepted(arrivals[k]).value)
  }

  ghost predicate BucketMatches(w: Edge, b: Bucket, subs: seq<Submission>) {
    && IndexMatches(w, b, subs) && ArtifactsMatch(b, subs) && KnownKeys(b)
    && forall i :: 0 <= i < |subs| ==> Sized(subs[i]) && Parsed(w, subs[i])
  }

  lemma KeysSpan(w: Edge, m: Document, source: seq<Unit>)
    ensures Spans(KeyOf(m), 't', 'p') && Spans(ReviewKey(m), 'r', 'n') && Spans(SubmissionKey(w, m, source), 's', 'n')
  {
    hide IdOf, Str;
    Spanned("tools/", IdOf(m) + "/" + Str(VersionIn(m)), "/tool.zip");
    assert KeyOf(m) == "tools/" + (IdOf(m) + "/" + Str(VersionIn(m))) + "/tool.zip";
    Spanned("reviews/", IdOf(m) + "/" + Str(VersionIn(m)), ".json");
    assert ReviewKey(m) == "reviews/" + (IdOf(m) + "/" + Str(VersionIn(m))) + ".json";
    var hash := w.crypto.hash(TextEncode(m.text + [0] + source));
    Spanned("submissions/", hash, ".json");
  }

  lemma Spanned(a: string, b: string, c: string)
    requires a != "" && c != ""
    ensures Spans(a + b + c, a[0], c[|c| - 1])
  {}

  lemma SpansApart(key: string, first: char, last: char)
    requires Spans(key, first, last) && first != 'v'
    ensures key !in {INDEX_KEY, SIGNATURE_KEY, CATALOG_KEY}
  {}

  lemma {:induction false} WritersAreArtifacts(w: Edge, subs: seq<Submission>, key: string)
    ensures LastWriter(subs, key).Some? ==> KeyOf(LastWriter(subs, key).value.manifest) == key && Spans(key, 't', 'p')
    ensures LastWriter(subs, key).Some? ==> LastWriter(subs, key).value in subs
  {
    hide KeyOf;
    if subs != [] {
      WritersAreArtifacts(w, subs[..|subs| - 1], key);
      KeysSpan(w, subs[|subs| - 1].manifest, []);
    }
  }

  // JSON put beside the artifacts and the index.
  lemma AsideKeeps(w: Edge, b: Bucket, subs: seq<Submission>, key: string, body: seq<Byte>)
    requires BucketMatches(w, b, subs) && (Spans(key, 'r', 'n') || Spans(key, 's', 'n'))
    ensures BucketMatches(w, b[key := body], subs)
  {
    hide LastWriter, ZipOf, Printed, CatalogOf, Sized, Parsed, Spans;
    SpansApart(key, if Spans(key, 'r', 'n') then 'r' else 's', 'n');
    forall k ensures LastWriter(subs, k).Some? ==> k != key {
      WritersAreArtifacts(w, subs, k);
      OneSpan(key);
    }
  }

  lemma OneSpan(key: string)
    ensures Spans(key, 'r', 'n') || Spans(key, 's', 'n') ==> !Spans(key, 't', 'p')
  {}

  lemma PublicationsSnoc(w: Edge, subs: seq<Submission>, s: Submission)
    ensures Publications(w, subs + [s]) == Publications(w, subs) + [PublicationOf(w, s)]
    ensures InMemory(Publications(w, subs + [s])) == Upsert(Build(Publications(w, subs)), PublicationOf(w, s))
  {
    hide PublicationOf;
    var t := subs + [s];
    assert t[..|t| - 1] == subs && t[|t| - 1] == s;
    var ps := Publications(w, subs) + [PublicationOf(w, s)];
    assert ps[..|ps| - 1] == Publications(w, subs);
  }

  lemma {:induction false} PublicationAt(w: Edge, subs: seq<Submission>, i: nat)
    requires i < |subs|
    ensures Publications(w, subs)[i] == PublicationOf(w, subs[i])
  {
    hide PublicationOf;
    if i < |subs| - 1 {
      PublicationAt(w, subs[..|subs| - 1], i);
    }
  }

  lemma SubmissionPlain(w: Edge, s: Submission)
    requires Parsed(w, s)
    ensures PlainPublication(w.printer.double, PublicationOf(w, s))
  {
    hide Plain, Get, Kept;
    GetPlain(w.printer.double, s.manifest.value, "name");
    GetPlain(w.printer.double, s.manifest.value, "version");
    KeptPlain(w.printer.double, s.manifest.value);
  }

  // What is printed of parsed submissions reads back.
  lemma PrintedReads(w: Edge, subs: seq<Submission>)
    requires RoundTrips(w.printer) && forall i :: 0 <= i < |subs| ==> Parsed(w, subs[i])
    ensures w.printer.parse(w.printer.bytes(Printed(w, subs))) == Some(IndexOf(w, subs))
    ensures IndexOf(w, subs).tools == Build(Publications(w, subs))
  {
    hide PublicationOf, Parsed, PlainPublication, InMemory, Build, KeptTools, Publications;
    var ps := Publications(w, subs);
    forall i | 0 <= i < |ps| ensures PlainPublication(w.printer.double, ps[i]) {
      PublicationAt(w, subs, i);
      SubmissionPlain(w, subs[i]);
    }
    InMemoryPlain(w.printer.double, ps);
    BuildStores(ps);
    NothingPrinted(w);
  }

  lemma NothingPrinted(w: Edge)
    ensures PlainTools(w.printer.double, []) && KeptTools([]) == [] && Build(Publications(w, [])) == []
  {}

  lemma WriterSnoc(subs: seq<Submission>, s: Submission, key: string)
    ensures LastWriter(subs + [s], key) == if KeyOf(s.manifest) == key then Some(s) else LastWriter(subs, key)
  {
    var t := subs + [s];
    assert t[..|t| - 1] == subs && t[|t| - 1] == s;
  }

  // The index the Worker loads is the one of the submissions so far.
  lemma LoadMatches(w: Edge, b: Bucket, subs: seq<Submission>)
    requires RoundTrips(w.printer) && IndexMatches(w, b, subs) && forall i :: 0 <= i < |subs| ==> Parsed(w, subs[i])
    ensures LoadIndex(w, b).Some? && LoadIndex(w, b).value.tools == Build(Publications(w, subs))
    ensures subs != [] ==> LoadIndex(w, b) == Some(IndexOf(w, subs))
  {
    hide Build, Printed, Parsed, KeptIndex;
    PrintedReads(w, subs);
    NothingPrinted(w);
  }

  lemma PublishIndex(w: Edge, b: Bucket, subs: seq<Submission>, s: Submission)
    requires RoundTrips(w.printer) && BucketMatches(w, b, subs)
    ensures IndexMatches(w, PublishOutcome(w, b, s).bucket, subs + [s])
    ensures PublishOutcome(w, b, s).response
         == Published(Decide(s.verdict) == Pass, KeyOf(s.manifest), w.crypto.hash(ZipOf(s.manifest, s.source)))
    ensures var after := PublishOutcome(w, b, s).bucket;
            && CATALOG_KEY in after
            && after == WithIndex(w, b[KeyOf(s.manifest) := ZipOf(s.manifest, s.source)], Printed(w, subs + [s]))
                          [CATALOG_KEY := after[CATALOG_KEY]]
  {
    hide KeyOf, ZipOf, PublicationOf, Upsert, Build, InMemory, ArtifactsMatch, KnownKeys, Publications, Parsed, Sized, LoadIndex,
      Printed, IndexMatches, BuildCatalog, Merged;
    KeysSpan(w, s.manifest, []);
    SpansApart(KeyOf(s.manifest), 't', 'p');
    var stored := b[KeyOf(s.manifest) := ZipOf(s.manifest, s.source)];
    assert IndexMatches(w, stored, subs) by { ArtifactAside(w, b, subs, KeyOf(s.manifest), ZipOf(s.manifest, s.source)); }
    LoadMatches(w, stored, subs);
    MergedIsPrinted(w, LoadIndex(w, stored).value, subs, s);
    PublishedMatches(w, stored, subs + [s]);
  }

  lemma ArtifactAside(w: Edge, b: Bucket, subs: seq<Submission>, key: string, body: seq<Byte>)
    requires IndexMatches(w, b, subs) && key !in {INDEX_KEY, SIGNATURE_KEY, CATALOG_KEY}
    ensures IndexMatches(w, b[key := body], subs)
  {
    hide Printed, CatalogOf;
  }

  lemma MergedIsPrinted(w: Edge, index: Index, subs: seq<Submission>, s: Submission)
    requires index.tools == Build(Publications(w, subs))
    ensures Merged(w, index, s) == Printed(w, subs + [s]) && HaveVersions(Merged(w, index, s).tools)
    ensures BuildCatalog(Merged(w, index, s).tools, s.now) == CatalogOf(w, subs + [s])
  {
    hide PublicationOf, Upsert, Build, InMemory, Publications;
    PublicationsSnoc(w, subs, s);
  }

  // A bucket given the printed index, its signature and its catalog.
  lemma PublishedMatches(w: Edge, b: Bucket, subs: seq<Submission>)
    requires subs != []
    ensures IndexMatches(w, WithIndex(w, b, Printed(w, subs))[CATALOG_KEY := w.catalog(CatalogOf(w, subs))], subs)
  {
    hide Printed, CatalogOf;
  }

  lemma PublishKeeps(w: Edge, b: Bucket, subs: seq<Submission>, s: Submission)
    requires RoundTrips(w.printer) && BucketMatches(w, b, subs) && Sized(s) && Parsed(w, s)
    ensures BucketMatches(w, PublishOutcome(w, b, s).bucket, subs + [s])
  {
    hide KeyOf, ZipOf, PublishOutcome, IndexMatches, Printed, LastWriter, Sized, Parsed;
    PublishIndex(w, b, subs, s);
    KeysSpan(w, s.manifest, []);
    SpansApart(KeyOf(s.manifest), 't', 'p');
    var after := PublishOutcome(w, b, s).bucket;
    forall key | LastWriter(subs + [s], key).Some?
      ensures var x := LastWriter(subs + [s], key).value; key in after && after[key] == ZipOf(x.manifest, x.source)
    {
      WriterSnoc(subs, s, key);
      WritersAreArtifacts(w, subs, key);
    }
  }

  // Every submission, whatever comes of it, keeps the bucket in step with what was
  // published.
  lemma SubmitKeeps(w: Edge, b: Bucket, subs: seq<Submission>, a: Arrival)
    requires RoundTrips(w.printer) && BucketMatches(w, b, subs)
    requires Accepted(a).Some? ==> Parsed(w, Accepted(a).value)
    ensures BucketMatches(w, SubmitOutcome(w, b, a).bucket, subs + Single(Accepted(a)))
    ensures Accepted(a).Some? <==> SubmitOutcome(w, b, a).response.Published?
  {
    hide BucketMatches, PublishOutcome, ReviewKey, SubmissionKey, Decide, Spans, Printable, Truthy, Parsed, Name, VersionIn, Author;
    assert subs + [] == subs;
    if Guard(a.request).None? && !a.limited {
      var m, source := a.request.manifest, a.request.source;
      KeysSpan(w, m, source);
      var judged := if a.cached then b else b[SubmissionKey(w, m, source) := w.verdict(a.verdict)];
      AsideKeeps(w, b, subs, SubmissionKey(w, m, source), w.verdict(a.verdict));
      AsideKeeps(w, judged, subs, ReviewKey(m), w.report(a.verdict));
      if Accepted(a).Some? {
        var reviewed := judged[ReviewKey(m) := w.report(a.verdict)];
        PublishKeeps(w, reviewed, subs, Accepted(a).value);
        PublishIndex(w, reviewed, subs, Accepted(a).value);
      }
    }
  }

  lemma {:induction false} ServeMatches(w: Edge, arrivals: seq<Arrival>)
    requires RoundTrips(w.printer) && AllParsed(w, arrivals)
    ensures BucketMatches(w, Serve(w, arrivals), Accepteds(arrivals))
  {
    hide BucketMatches, SubmitOutcome, Parsed, Accepted;
    if arrivals == [] {
      EmptyMatches(w);
    } else {
      var before := arrivals[..|arrivals| - 1];
      ServeMatches(w, before);
      SubmitKeeps(w, Serve(w, before), Accepteds(before), arrivals[|arrivals| - 1]);
    }
  }

  // Where the index, its signature and the catalog are found once something is published.
  lemma PublishedKeys(w: Edge, arrivals: seq<Arrival>)
    requires RoundTrips(w.printer) && AllParsed(w, arrivals) && Accepteds(arrivals) != []
    ensures var b, index := Serve(w, arrivals), Printed(w, Accepteds(arrivals));
            && "v1/index.json" in b && b["v1/index.json"] == w.printer.bytes(index)
            && "v1/index.json.sig" in b && b["v1/index.json.sig"] == w.sign(w.printer.bytes(index))
            && "v1/catalog.json" in b && b["v1/catalog.json"] == w.catalog(BuildCatalog(index.tools, index.generatedAt))
  {
    hide Serve, Accepteds, Printed, ArtifactsMatch, KnownKeys, AllParsed, BuildCatalog;
    ServeMatches(w, arrivals);
  }

  lemma EmptyMatches(w: Edge)
    ensures BucketMatches(w, map[], [])
  {}

  // --- the verified badge ---

  lemma PublishedUnder(w: Edge, s: Submission)
    ensures PublicationOf(w, s).id == IdOf(s.manifest) && PublicationOf(w, s).record.version == VersionIn(s.manifest)
    ensures PublicationOf(w, s).record.verified <==> Decide(s.verdict) == Pass
  {}

  function RecordFor(w: Edge, s: Option<Submission>): Option<Version> {
    match s
    case None => None
    case Some(x) => Some(KeptVersion(PublicationOf(w, x).record))
  }

  lemma AnsweringSnoc(ps: seq<Publication>, p: Publication, id: string, version: Value)
    ensures var before := Answering(ps, id, version);
            Answering(ps + [p], id, version)
            == if Under(p, id, version) then Some(KeptVersion(p.record))
               else if p.id == id && before.None? && Filled(Kept(p.record.version)) == version then Some(KeptVersion(p.record))
               else before
  {
    hide Kept, KeptVersion, Filled, Same;
    var qs := ps + [p];
    assert qs[..|qs| - 1] == ps && qs[|qs| - 1] == p;
  }

  lemma {:induction false} RecordsAreSubmissions(w: Edge, subs: seq<Submission>, id: string, version: Value)
    ensures Answering(Publications(w, subs), id, version) == RecordFor(w, Answerer(subs, id, version))
    ensures Answerer(subs, id, version).Some? ==>
              Answerer(subs, id, version).value in subs && IdOf(Answerer(subs, id, version).value.manifest) == id
  {
    hide PublicationOf, Answering, IdOf, Kept, KeptVersion, Filled, Same, VersionIn;
    if subs == [] {
      NoRecords(id, version);
    } else {
      var was, s := subs[..|subs| - 1], subs[|subs| - 1];
      RecordsAreSubmissions(w, was, id, version);
      AnsweringSnoc(Publications(w, was), PublicationOf(w, s), id, version);
      PublishedUnder(w, s);
    }
  }

  lemma NoRecords(id: string, version: Value)
    ensures Answering([], id, version).None?
  {}

  lemma AllVersioned(w: Edge, subs: seq<Submission>)
    requires forall i :: 0 <= i < |subs| ==> Sized(subs[i])
    ensures Versioned(Publications(w, subs))
  {
    hide PublicationOf, Truthy;
    forall i | 0 <= i < |subs| ensures Truthy(Publications(w, subs)[i].record.version) {
      PublicationAt(w, subs, i);
      PublishedUnder(w, subs[i]);
    }
  }

  // What a look-up in the index of these submissions gives.
  lemma LookupFinds(w: Edge, subs: seq<Submission>, id: string, version: string)
    requires forall i :: 0 <= i < |subs| ==> Sized(subs[i])
    ensures var ps := Publications(w, subs);
            var hit := Lookup(Build(ps), id, version);
            match LastVersion(ps, id)
            case None => hit == Err(ToolNotInCatalog) && Answerer(subs, id, Text(version)).None?
            case Some(latest) =>
              var s := Answerer(subs, id, Asked(latest, version));
              if s.Some?
              then hit.Ok? && hit.value.record == KeptVersion(PublicationOf(w, s.value).record) && hit.value.tool.latest == latest
              else hit == Err(VersionNotFound) && version != ""
  {
    hide Build, Lookup, Publications, Answerer, Answering, PublicationOf, Filled, Sized, Kept, KeptVersion;
    var ps := Publications(w, subs);
    AllVersioned(w, subs);
    FindIsHistory(ps, id, version);
    if LastVersion(ps, id).Some? {
      LatestAnswers(ps, id);
      RecordsAreSubmissions(w, subs, id, Asked(LastVersion(ps, id).value, version));
    } else {
      NeverPublished(ps, id, Text(version));
      RecordsAreSubmissions(w, subs, id, Text(version));
    }
  }

  // A look-up finds the submission that answers there, with the badge of its verdict.
  predicate BadgeIsRight(subs: seq<Submission>, id: string, version: string, found: Result<Hit, FindError>) {
    if found.Err? then version != "" ==> Answerer(subs, id, Text(version)).None?
    else
      var s := Answerer(subs, id, Asked(found.value.tool.latest, version));
      s.Some? && (found.value.record.verified <==> Decide(s.value.verdict) == Pass)
  }

  // After any run of submissions, what the index lists under (id, version) carries the
  // badge exactly when the submission that answers there, the last one of a version that
  // is a text, passed review; rejected, limited and refused ones leave no trace.
  lemma VerifiedMeansPassed(w: Edge, arrivals: seq<Arrival>, id: string, version: string)
    requires RoundTrips(w.printer) && AllParsed(w, arrivals)
    ensures LoadIndex(w, Serve(w, arrivals)).Some?
    ensures BadgeIsRight(
              Accepteds(arrivals), id, version, Lookup(LoadIndex(w, Serve(w, arrivals)).value.tools, id, version))
  {
    hide Serve, Accepteds, Build, Lookup, Publications, Answerer, Decide, PublicationOf, LastVersion, ArtifactsMatch, KnownKeys, IndexMatches, Sized, Parsed, Kept, Filled, KeptVersion;
    var subs := Accepteds(arrivals);
    ServeMatches(w, arrivals);
    LoadMatches(w, Serve(w, arrivals), subs);
    LookupFinds(w, subs, id, version);
    var latest := LastVersion(Publications(w, subs), id);
    if latest.Some? {
      var s := Answerer(subs, id, Asked(latest.value, version));
      if s.Some? {
        PublishedUnder(w, s.value);
        KeptBadge(PublicationOf(w, s.value).record);
      }
    }
  }

  lemma KeptBadge(v: Version)
    ensures KeptVersion(v).verified == v.verified
  {}
}
