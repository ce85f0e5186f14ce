/**
 The marketplace Worker: which submissions it publishes, and what publishing leaves in
 its bucket.
 */
module Worker {
  import opened Wrappers
  import opened Utf
  import opened Crc
  import opened Values
  import opened Index
  import opened Sign
  import opened ZipWriter
  import Zip
  import A = Artifact

  type Bucket = map<string, seq<Byte>>

  const INDEX_KEY := "v1/index.json"
  const SIGNATURE_KEY := "v1/index.json.sig"
  const CATALOG_KEY := "v1/catalog.json"

  // --- review ---

  // The model's answer is not checked against its schema.  coerced is Number() of a risk
  // score that is a text, an array or an object, None for NaN.
  datatype Verdict = Verdict(
    verdict: Value, riskScore: Value, coerced: Option<Value>, consistency: Value, severities: seq<Value>)

  datatype Decision = Reject | Flag | Pass

  // riskScore >= bound, for a bound above 1.
  predicate Reaches(v: Verdict, bound: int) {
    var score: Option<Value> := if v.riskScore.Number? || v.riskScore.Infinite? then Some(v.riskScore)
                 else if v.riskScore.Null? || v.riskScore.Boolean? then None
                 else v.coerced;
    match score
    case Some(Number(n)) => AtLeast(n, bound)
    case Some(Infinite(positive)) => positive
    case _ => false
  }

  function Decide(v: Verdict): Decision {
    if Reaches(v, 70) || Text("critical") in v.severities then Reject
    else if Reaches(v, 30) || v.consistency == Text("under_declared") || v.consistency == Text("over_declared") then Flag
    else Pass
  }

  // --- submissions ---

  // A submitted manifest, with the text that JSON.stringify gives it.
  datatype Document = Document(value: Value, text: seq<Unit>)

  function Name(m: Document): Value {
    Get(m.value, "name")
  }

  function VersionIn(m: Document): Value {
    Get(m.value, "version")
  }

  function Author(m: Document): Value {
    Get(m.value, "author")
  }

  // A request's body: not the JSON that is asked for, or with a null manifest (which is
  // an object to JavaScript), or a manifest and a source.
  datatype Request = Unreadable | NullManifest(source: seq<Unit>) | Complete(manifest: Document, source: seq<Unit>)

  datatype Response =
    | BadRequest                  // 400
    | SourceTooLarge              // 413
    | ManifestTooLarge            // 413
    | RequiresNameVersionAuthor   // 400
    | RateLimited                 // 429
    | Rejected                    // 200
    | Published(verified: bool, artifact: string, zipSha: string)   // 200
    | Internal                    // 500, for whatever throws

  // What reaches review, with the verdict it gets and the time.
  datatype Submission = Submission(manifest: Document, source: seq<Unit>, verdict: Verdict, now: string)

  // Template strings print a value like String() does.
  predicate Printable(m: Document) {
    Shown(Name(m)).Some? && Shown(VersionIn(m)).Some? && Shown(Author(m)).Some?
  }

  function IdOf(m: Document): string {
    Str(Author(m)) + "/" + Str(Name(m))
  }

  function ArtifactKey(id: string, version: string): string {
    "tools/" + id + "/" + version + "/tool.zip"
  }

  function ReviewKey(m: Document): string {
    "reviews/" + IdOf(m) + "/" + Str(VersionIn(m)) + ".json"
  }

  // The content hash under which the verdict is cached.
  function SubmissionKey(w: Edge, m: Document, source: seq<Unit>): string {
    "submissions/" + w.crypto.hash(TextEncode(m.text + [0] + source)) + ".json"
  }

  function KeyOf(m: Document): string {
    ArtifactKey(IdOf(m), Str(VersionIn(m)))
  }

  function ZipOf(m: Document, source: seq<Unit>): seq<Byte> {
    A.ToolZip(m.text, source)
  }

  // The registry's key, and the printers of what it stores.
  datatype Edge = Edge(
    crypto: Crypto,
    publicKey: Key,
    sign: seq<Byte> -> seq<Byte>,
    printer: Printer,
    verdict: Verdict -> seq<Byte>,
    report: Verdict -> seq<Byte>,
    catalog: seq<CatalogRow> -> seq<Byte>)

  ghost predicate Signs(w: Edge) {
    |w.publicKey| == PUBLIC_KEY_SIZE && forall m :: w.crypto.valid(w.publicKey, m, w.sign(m))
  }

  function SourceSignature(w: Edge, m: Document, source: seq<Unit>): seq<Byte> {
    w.sign(SignedMessage(w.crypto, Str(Name(m)), Str(VersionIn(m)), w.crypto.hash(TextEncode(source))))
  }

  // The record a submission is published as.
  function PublicationOf(w: Edge, s: Submission): Publication {
    var m := s.manifest;
    Publication(IdOf(m), Str(Author(m)), Name(m),
                Version(VersionIn(m), KeyOf(m), w.crypto.hash(ZipOf(m, s.source)), SourceSignature(w, m, s.source),
                        Kept(m.value), Decide(s.verdict) == Pass, Review(s.verdict.verdict, s.verdict.riskScore, s.now)))
  }

  // --- publishing ---

  // None when the stored index does not parse.
  function LoadIndex(w: Edge, b: Bucket): Option<Index> {
    if INDEX_KEY !in b then Some(NO_INDEX) else w.printer.parse(b[INDEX_KEY])
  }

  function Merged(w: Edge, index: Index, s: Submission): Index {
    Index(s.now, Upsert(index.tools, PublicationOf(w, s)))
  }

  function WithIndex(w: Edge, b: Bucket, index: Index): Bucket {
    var doc := w.printer.bytes(index);
    b[INDEX_KEY := doc][SIGNATURE_KEY := w.sign(doc)]
  }

  datatype Outcome = Outcome(bucket: Bucket, response: Response)

  function PublishOutcome(w: Edge, b: Bucket, s: Submission): Outcome {
    var zip := ZipOf(s.manifest, s.source);
    var stored := b[KeyOf(s.manifest) := zip];
    match LoadIndex(w, stored)
    case None => Outcome(stored, Internal)
    case Some(index) =>
      var next := Merged(w, index, s);
      var indexed := WithIndex(w, stored, next);
      // A tool without versions makes building the catalog throw.
      if !HaveVersions(next.tools) then Outcome(indexed, Internal)
      else
        Outcome(indexed[CATALOG_KEY := w.catalog(BuildCatalog(next.tools, s.now))],
                Published(Decide(s.verdict) == Pass, KeyOf(s.manifest), w.crypto.hash(zip)))
  }

  // What the type, size and field checks let through; String() of the author may throw.
  function Guard(r: Request): Option<Response> {
    match r
    case Unreadable => Some(BadRequest)
    case NullManifest(source) => Some(if |source| > A.MAX_SOURCE then SourceTooLarge else Internal)
    case Complete(m, source) =>
      if !m.value.Object? && !m.value.List? then Some(BadRequest)
      else if |source| > A.MAX_SOURCE then Some(SourceTooLarge)
      else if |m.text| > A.MAX_MANIFEST then Some(ManifestTooLarge)
      else if !Truthy(Name(m)) || !Truthy(VersionIn(m)) || !Truthy(Author(m)) then Some(RequiresNameVersionAuthor)
      else if Shown(Author(m)).None? then Some(Internal)
      else None
  }

  // `limited` is the rate limiter's answer, `cached` says whether a verdict was stored
  // for the content, and `verdict` is that one or the review's.
  datatype Arrival = Arrival(request: Request, limited: bool, cached: bool, verdict: Verdict, now: string)

  // The submission an arrival is published as, if it is.
  function Accepted(a: Arrival): Option<Submission> {
    if Guard(a.request).Some? || a.limited || !Printable(a.request.manifest) || Decide(a.verdict) == Reject then None
    else Some(Submission(a.request.manifest, a.request.source, a.verdict, a.now))
  }

  function SubmitOutcome(w: Edge, b: Bucket, a: Arrival): Outcome {
    match Guard(a.request)
    case Some(r) => Outcome(b, r)
    case None =>
      var m, source := a.request.manifest, a.request.source;
      if a.limited then Outcome(b, RateLimited)
      else
        var judged := if a.cached then b else b[SubmissionKey(w, m, source) := w.verdict(a.verdict)];
        if !Printable(m) then Outcome(judged, Internal)
        else
          var reviewed := judged[ReviewKey(m) := w.report(a.verdict)];
          if Decide(a.verdict) == Reject then Outcome(reviewed, Rejected)
          else PublishOutcome(w, reviewed, Submission(m, source, a.verdict, a.now))
  }

  class Worker {
    const edge: Edge
    const crcTable: array<bv32>
    var bucket: Bucket

    constructor (edge: Edge, crcTable: array<bv32>)
      ensures this.edge == edge && this.crcTable == crcTable && bucket == map[]
    {
      this.edge, this.crcTable, bucket := edge, crcTable, map[];
    }

    method Put(key: string, body: seq<Byte>)
      modifies this
      ensures bucket == old(bucket)[key := body]
    {
      bucket := bucket[key := body];
    }

    method Publish(s: Submission) returns (r: Response)
      requires IsTable(crcTable[..])
      modifies this
      ensures Outcome(bucket, r) == PublishOutcome(edge, old(bucket), s)
    {
      hide IsTable, A.ToolZip, A.Packed, Zip.Archive, Encoded, Upsert, BuildCatalog, SourceSignature, Decide, KeyOf, ZipOf, IdOf;
      var m := s.manifest;
      var sourceSig := SourceSignature(edge, m, s.source);
      var out := MakeZip(crcTable, A.Packed(m.text, s.source));
      ZipIs(m, s.source);
      var zip := out[..];
      Put(KeyOf(m), zip);
      var zipSha := edge.crypto.hash(zip);
      var index := LoadIndex(edge, bucket);
      if index == None {
        return Internal;
      }
      var doc := new IndexDocument(index.value);
      doc.UpsertVersion(Publication(
        IdOf(m), Str(Author(m)), Name(m),
        Version(VersionIn(m), KeyOf(m), zipSha, sourceSig, Kept(m.value), Decide(s.verdict) == Pass,
                Review(s.verdict.verdict, s.verdict.riskScore, s.now))));
      var next := Index(s.now, doc.tools);
      var bytes := edge.printer.bytes(next);
      Put(INDEX_KEY, bytes);
      Put(SIGNATURE_KEY, edge.sign(bytes));
      if !HaveVersions(next.tools) {
        return Internal;
      }
      Put(CATALOG_KEY, edge.catalog(BuildCatalog(next.tools, s.now)));
      return Published(Decide(s.verdict) == Pass, KeyOf(m), zipSha);
    }

    method Submit(a: Arrival) returns (r: Response)
      requires IsTable(crcTable[..])
      modifies this
      ensures Outcome(bucket, r) == SubmitOutcome(edge, old(bucket), a)
    {
      hide IsTable, SubmissionKey, ReviewKey, Decide, PublishOutcome;
      match a.request
      case Unreadable => return BadRequest;
      case NullManifest(source) =>
        if |source| > A.MAX_SOURCE {
          return SourceTooLarge;
        }
        return Internal;
      case Complete(m, source) =>
        if !m.value.Object? && !m.value.List? {
          return BadRequest;
        }
        if |source| > A.MAX_SOURCE {
          return SourceTooLarge;
        }
        if |m.text| > A.MAX_MANIFEST {
          return ManifestTooLarge;
        }
        if !Truthy(Name(m)) || !Truthy(VersionIn(m)) || !Truthy(Author(m)) {
          return RequiresNameVersionAuthor;
        }
        if Shown(Author(m)).None? {
          return Internal;
        }
        if a.limited {
          return RateLimited;
        }
        if !a.cached {
          Put(SubmissionKey(edge, m, source), edge.verdict(a.verdict));
        }
        if !Printable(m) {
          return Internal;
        }
        Put(ReviewKey(m), edge.report(a.verdict));
        if Decide(a.verdict) == Reject {
          return Rejected;
        }
        r := Publish(Submission(m, source, a.verdict, a.now));
    }
  }

  lemma ZipIs(m: Document, source: seq<Unit>)
    ensures ZipOf(m, source) == Zip.Archive(Encoded(A.Packed(m.text, source)))
  {}

  // --- what is published, and what a refusal says ---

  // The score a verdict comes to, if it comes to a number.
  predicate ScoresAtLeast(v: Verdict, bound: int) {
    match v.riskScore
    case Number(n) => AtLeast(n, bound)
    case Infinite(positive) => positive
    case Null => false
    case Boolean(_) => false
    case _ =>
      v.coerced.Some? &&
      match v.coerced.value
      case Number(n) => AtLeast(n, bound)
      case Infinite(positive) => positive
      case _ => false
  }

  // A score of 70 or a critical finding is never published; a score of 30 or a manifest
  // that declares too little or too much is published without a badge; all else with one.
  lemma DecidesExactlyWhen(v: Verdict)
    ensures Decide(v) == Reject <==> ScoresAtLeast(v, 70) || Text("critical") in v.severities
    ensures Decide(v) == Pass <==>
              && !ScoresAtLeast(v, 70) && !(Text("critical") in v.severities)
              && !ScoresAtLeast(v, 30) && v.consistency != Text("under_declared") && v.consistency != Text("over_declared")
  {}

  // Whole scores compare as integers.
  lemma WholeScores(score: int, bound: int)
    requires score % 10 != 0
    ensures AtLeast(Decimal(score, 0), bound) <==> score >= bound
    ensures AtLeast(Decimal(7, 1), 70) && AtLeast(Decimal(3, 1), 30) && !AtLeast(Decimal(6, 1), 70) && !AtLeast(Decimal(2, 1), 30)
    ensures AtLeast(Decimal(695, -1), 69) && !AtLeast(Decimal(695, -1), 70)
  {
    assert Pow10(0) == 1 && Pow10(1) == 10;
  }

  // An arrival is published exactly when its manifest is an object or array with a name, a
  // version and an author that are truthy and print, neither it nor its source is too
  // long, the author is within the daily limit and the review does not reject it.
  lemma AcceptedExactlyWhen(a: Arrival)
    ensures Accepted(a).Some? <==>
              && a.request.Complete?
              && (a.request.manifest.value.Object? || a.request.manifest.value.List?)
              && |a.request.source| <= 262144 && |a.request.manifest.text| <= 32768
              && Truthy(Get(a.request.manifest.value, "name")) && Shown(Get(a.request.manifest.value, "name")).Some?
              && Truthy(Get(a.request.manifest.value, "version")) && Shown(Get(a.request.manifest.value, "version")).Some?
              && Truthy(Get(a.request.manifest.value, "author")) && Shown(Get(a.request.manifest.value, "author")).Some?
              && !a.limited && !ScoresAtLeast(a.verdict, 70) && !(Text("critical") in a.verdict.severities)
    ensures Accepted(a).Some? ==> Accepted(a).value == Submission(a.request.manifest, a.request.source, a.verdict, a.now)
  {
    hide Shown, Truthy, AtLeast;
    DecidesExactlyWhen(a.verdict);
  }

  // What an arrival is told, in the order of the checks, and what it leaves: nothing, or its
  // verdict, or its verdict and its review, with which alone it goes on to be published.
  lemma RefusalsExactly(w: Edge, b: Bucket, a: Arrival)
    ensures var out := SubmitOutcome(w, b, a);
            match a.request
            case Unreadable => out == Outcome(b, BadRequest)
            case NullManifest(source) => out == Outcome(b, if |source| > 262144 then SourceTooLarge else Internal)
            case Complete(m, source) =>
              var name, version, author := Get(m.value, "name"), Get(m.value, "version"), Get(m.value, "author");
              var contentHash := w.crypto.hash(TextEncode(m.text + [0] + source));
              var judged := if a.cached then b else b["submissions/" + contentHash + ".json" := w.verdict(a.verdict)];
              if !m.value.Object? && !m.value.List? then out == Outcome(b, BadRequest)
              else if |source| > 262144 then out == Outcome(b, SourceTooLarge)
              else if |m.text| > 32768 then out == Outcome(b, ManifestTooLarge)
              else if !Truthy(name) || !Truthy(version) || !Truthy(author) then out == Outcome(b, RequiresNameVersionAuthor)
              else if Shown(author).None? then out == Outcome(b, Internal)
              else if a.limited then out == Outcome(b, RateLimited)
              else if Shown(name).None? || Shown(version).None? then out == Outcome(judged, Internal)
              else
                var reviewed := judged["reviews/" + Str(author) + "/" + Str(name) + "/" + Str(version) + ".json" := w.report(a.verdict)];
                if ScoresAtLeast(a.verdict, 70) || Text("critical") in a.verdict.severities then out == Outcome(reviewed, Rejected)
                else out == PublishOutcome(w, reviewed, Submission(m, source, a.verdict, a.now))
  {
    hide Shown, Truthy, AtLeast, PublishOutcome, TextEncode;
    DecidesExactlyWhen(a.verdict);
    if a.request.Complete? {
      ReviewedUnder(a.request.manifest);
    }
  }

  lemma ReviewedUnder(m: Document)
    ensures ReviewKey(m)
         == "reviews/" + Str(Get(m.value, "author")) + "/" + Str(Get(m.value, "name")) + "/" + Str(Get(m.value, "version")) + ".json"
  {
    hide Str, Get;
    var a, n, v := Str(Get(m.value, "author")), Str(Get(m.value, "name")), Str(Get(m.value, "version"));
    assert "reviews/" + (a + "/" + n) + "/" + v + ".json" == "reviews/" + a + "/" + n + "/" + v + ".json";
  }

  // The record of a submission, field by field.
  lemma RecordFields(w: Edge, s: Submission)
    ensures var p, m := PublicationOf(w, s), s.manifest.value;
            var id := Str(Get(m, "author")) + "/" + Str(Get(m, "name"));
            && p.id == id && p.author == Str(Get(m, "author")) && p.name == Get(m, "name")
            && p.record.version == Get(m, "version")
            && p.record.artifact == "tools/" + id + "/" + Str(Get(m, "version")) + "/tool.zip"
            && p.record.zipSha == w.crypto.hash(A.ToolZip(s.manifest.text, s.source))
            && p.record.sourceSig == w.sign(SignedMessage(
                 w.crypto, Str(Get(m, "name")), Str(Get(m, "version")), w.crypto.hash(TextEncode(s.source))))
            && p.record.manifest == Kept(m)
            && p.record.verified == (Decide(s.verdict) == Pass)
            && p.record.review == Review(s.verdict.verdict, s.verdict.riskScore, s.now)
  {
    hide Str, Get, TextEncode, A.ToolZip, Kept, Decide;
  }

  // An index that does not parse fails the publication, with the artifact already stored.
  lemma UnparsableIndexFails(w: Edge, b: Bucket, s: Submission)
    requires "v1/index.json" in b && w.printer.parse(b["v1/index.json"]).None? && KeyOf(s.manifest) != "v1/index.json"
    ensures PublishOutcome(w, b, s) == Outcome(b[KeyOf(s.manifest) := A.ToolZip(s.manifest.text, s.source)], Internal)
  {
    hide KeyOf, A.ToolZip;
  }
}
