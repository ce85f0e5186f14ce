/**
 The marketplace index: tools in publication order, each with its versions.  The Worker
 merges publications into it, untyped as JavaScript is, and stores it as JSON; the client
 decodes it into typed fields and looks records up in it.
 */
module Index {
  import opened Wrappers
  import opened Utf
  import opened Values

  datatype Review = Review(verdict: Value, riskScore: Value, reviewedAt: string)

  datatype Version = Version(
    version: Value, artifact: string, zipSha: string, sourceSig: seq<Byte>,
    manifest: Value, verified: bool, review: Review)

  datatype Tool = Tool(id: string, author: string, name: Value, latest: Value, versions: seq<Version>)

  datatype Index = Index(generatedAt: string, tools: seq<Tool>)

  const NO_INDEX := Index("", [])

  // --- the index as JSON ---

  function KeptVersion(v: Version): Version {
    v.(version := Kept(v.version), manifest := Kept(v.manifest),
       review := v.review.(verdict := Kept(v.review.verdict), riskScore := Kept(v.review.riskScore)))
  }

  function KeptVersions(vs: seq<Version>): (r: seq<Version>)
    ensures |r| == |vs| && forall i :: 0 <= i < |vs| ==> r[i] == KeptVersion(vs[i])
  {
    seq(|vs|, i requires 0 <= i < |vs| => KeptVersion(vs[i]))
  }

  function KeptTool(t: Tool): Tool {
    t.(name := Kept(t.name), latest := Kept(t.latest), versions := KeptVersions(t.versions))
  }

  function KeptTools(tools: seq<Tool>): (r: seq<Tool>)
    ensures |r| == |tools| && forall i :: 0 <= i < |tools| ==> r[i] == KeptTool(tools[i])
  {
    seq(|tools|, i requires 0 <= i < |tools| => KeptTool(tools[i]))
  }

  // What storing makes of an index.
  function KeptIndex(i: Index): Index {
    i.(tools := KeptTools(i.tools))
  }

  // Its values are such as JSON.parse returns.
  predicate PlainVersion(double: Decimal -> bool, v: Version) {
    Plain(double, v.version) && Plain(double, v.manifest)
    && Plain(double, v.review.verdict) && Plain(double, v.review.riskScore)
  }

  predicate PlainTool(double: Decimal -> bool, t: Tool) {
    Plain(double, t.name) && Plain(double, t.latest)
    && forall i :: 0 <= i < |t.versions| ==> PlainVersion(double, t.versions[i])
  }

  predicate PlainTools(double: Decimal -> bool, tools: seq<Tool>) {
    forall i :: 0 <= i < |tools| ==> PlainTool(double, tools[i])
  }

  // JSON.stringify of a value, the index as the bytes of its JSON text, JSON.parse of
  // such bytes, and which decimals denote a double.
  datatype Printer = Printer(
    text: Value -> seq<Unit>,
    bytes: Index -> seq<Byte>,
    parse: seq<Byte> -> Option<Index>,
    double: Decimal -> bool)

  // The index prints as one line and is parsed as what storing makes of it.
  ghost predicate RoundTrips(p: Printer) {
    forall i: Index :: PlainTools(p.double, i.tools) ==> p.parse(p.bytes(i)) == Some(KeptIndex(i)) && 10 !in p.bytes(i)
  }

  // --- the client's typed fields ---

  // json.Unmarshal leaves a string field empty at a null.
  predicate Textual(v: Value) {
    v.Text? || v.Null?
  }

  function Filled(v: Value): Value {
    if v.Null? then Text("") else v
  }

  predicate Integral(v: Value) {
    v.Null? || (v.Number? && Whole(v.number))
  }

  predicate TypedVersion(v: Version) {
    Textual(v.version) && Textual(v.review.verdict) && Integral(v.review.riskScore)
  }

  predicate TypedTool(t: Tool) {
    Textual(t.name) && Textual(t.latest) && forall i :: 0 <= i < |t.versions| ==> TypedVersion(t.versions[i])
  }

  predicate Typed(tools: seq<Tool>) {
    forall i :: 0 <= i < |tools| ==> TypedTool(tools[i])
  }

  // json.Unmarshal into the client's structs: one value of another type anywhere and the
  // whole index is refused.  Its nulls read as empty texts.
  function Decoded(p: Printer, doc: seq<Byte>): Option<Index> {
    match p.parse(doc)
    case Some(i) => if Typed(i.tools) then Some(i) else None
    case None => None
  }

  // --- merging ---

  // What publish hands to upsertVersion.
  datatype Publication = Publication(id: string, author: string, name: Value, record: Version)

  function Others(vs: seq<Version>, version: Value): seq<Version> {
    if vs == [] then []
    else (if !Same(vs[0].version, version) then [vs[0]] else []) + Others(vs[1..], version)
  }

  function Bump(t: Tool, r: Version): Tool {
    t.(versions := Others(t.versions, r.version) + [r], latest := r.version)
  }

  function NewTool(p: Publication): Tool {
    Tool(p.id, p.author, p.name, p.record.version, [])
  }

  predicate HaveVersions(tools: seq<Tool>) {
    forall i :: 0 <= i < |tools| ==> tools[i].versions != []
  }

  function Upsert(tools: seq<Tool>, p: Publication): (r: seq<Tool>)
    ensures HaveVersions(tools) ==> HaveVersions(r)
  {
    if tools == [] then [Bump(NewTool(p), p.record)]
    else if tools[0].id == p.id then [Bump(tools[0], p.record)] + tools[1..]
    else [tools[0]] + Upsert(tools[1..], p)
  }

  // A merge keeps the tools in the order in which they were first published.
  lemma {:induction false} UpsertOrder(tools: seq<Tool>, p: Publication)
    ensures |Upsert(tools, p)| == |tools| || |Upsert(tools, p)| == |tools| + 1
    ensures forall i :: 0 <= i < |tools| ==> Upsert(tools, p)[i].id == tools[i].id
    ensures |Upsert(tools, p)| == |tools| + 1 ==> Upsert(tools, p)[|tools|].id == p.id
  {
    hide Others;
    if tools != [] && tools[0].id != p.id {
      UpsertOrder(tools[1..], p);
    }
  }

  // upsertVersion on the index document it is given.
  class IndexDocument {
    var generatedAt: string
    var tools: seq<Tool>

    constructor (index: Index)
      ensures generatedAt == index.generatedAt && tools == index.tools
    {
      generatedAt, tools := index.generatedAt, index.tools;
    }

    method UpsertVersion(p: Publication)
      modifies this`tools
      ensures tools == Upsert(old(tools), p)
    {
      hide Upsert, Others;
      var k := 0;
      while k < |tools| && tools[k].id != p.id
        invariant 0 <= k <= |tools| && tools == old(tools)
        invariant Upsert(tools, p) == tools[..k] + Upsert(tools[k..], p)
      {
        PassTool(tools[..k], tools[k], tools[k + 1..], p);
        assert tools[k..] == [tools[k]] + tools[k + 1..] && tools[..k + 1] == tools[..k] + [tools[k]];
        k := k + 1;
      }
      MergeHere(tools[k..], p);
      if k == |tools| {
        tools := tools + [NewTool(p)];
      }
      ghost var before, after := old(tools)[..k], tools[k + 1..];
      assert tools[..k] == before;
      var tool := tools[k];
      tool := tool.(versions := Others(tool.versions, p.record.version));
      tool := tool.(versions := tool.versions + [p.record]);
      tool := tool.(latest := p.record.version);
      tools := tools[k := tool];
      assert tools == before + ([tool] + after);
    }
  }

  lemma PassTool(done: seq<Tool>, t: Tool, rest: seq<Tool>, p: Publication)
    requires t.id != p.id
    ensures done + Upsert([t] + rest, p) == (done + [t]) + Upsert(rest, p)
  {
    assert ([t] + rest)[1..] == rest;
  }

  lemma MergeHere(tools: seq<Tool>, p: Publication)
    ensures tools == [] ==> Upsert(tools, p) == [Bump(NewTool(p), p.record)]
    ensures tools != [] && tools[0].id == p.id ==> Upsert(tools, p) == [Bump(tools[0], p.record)] + tools[1..]
  {}

  // --- looking up ---

  datatype FindError = VersionNotFound | ToolNotInCatalog

  datatype Hit = Hit(tool: Tool, record: Version)

  function ToolOf(tools: seq<Tool>, id: string): Option<Tool> {
    if tools == [] then None
    else if tools[0].id == id then Some(tools[0])
    else ToolOf(tools[1..], id)
  }

  // The first record whose version reads as wanted.
  function RecordOf(vs: seq<Version>, wanted: Value): Option<Version> {
    if vs == [] then None
    else if Filled(vs[0].version) == wanted then Some(vs[0])
    else RecordOf(vs[1..], wanted)
  }

  // The version a look-up is about: an empty one asks for the latest.
  function Asked(latest: Value, version: string): Value {
    if version == "" then Filled(latest) else Text(version)
  }

  // The first tool with the id decides.
  function Lookup(tools: seq<Tool>, id: string, version: string): Result<Hit, FindError> {
    match ToolOf(tools, id)
    case None => Err(ToolNotInCatalog)
    case Some(t) =>
      match RecordOf(t.versions, Asked(t.latest, version))
      case None => Err(VersionNotFound)
      case Some(r) => Ok(Hit(t, r))
  }

  method FindVersion(index: Index, id: string, version: string) returns (r: Result<Hit, FindError>)
    ensures r == Lookup(index.tools, id, version)
  {
    var i := 0;
    while i < |index.tools|
      invariant 0 <= i <= |index.tools|
      invariant ToolOf(index.tools, id) == ToolOf(index.tools[i..], id)
    {
      var t := index.tools[i];
      assert index.tools[i..][1..] == index.tools[i + 1..];
      if t.id != id {
        i := i + 1;
        continue;
      }
      var wanted := if version == "" then Filled(t.latest) else Text(version);
      var j := 0;
      while j < |t.versions|
        invariant 0 <= j <= |t.versions|
        invariant RecordOf(t.versions, wanted) == RecordOf(t.versions[j..], wanted)
      {
        if Filled(t.versions[j].version) == wanted {
          return Ok(Hit(t, t.versions[j]));
        }
        assert t.versions[j..][1..] == t.versions[j + 1..];
        j := j + 1;
      }
      return Err(VersionNotFound);
    }
    return Err(ToolNotInCatalog);
  }

  // --- what merging and storing keep ---

  // No version is listed twice, but for those stored as null.
  ghost predicate UniqueVersions(vs: seq<Version>) {
    forall i, j :: 0 <= i < j < |vs| && Same(vs[i].version, vs[j].version) ==> vs[i].version.Null?
  }

  // The latest version is the last one listed.
  ghost predicate SoundTool(t: Tool) {
    UniqueVersions(t.versions) && t.versions != [] && t.versions[|t.versions| - 1].version == t.latest
  }

  ghost predicate Sound(tools: seq<Tool>) {
    && (forall i, j :: 0 <= i < j < |tools| ==> tools[i].id != tools[j].id)
    && (forall i :: 0 <= i < |tools| ==> SoundTool(tools[i]))
  }

  // An index that is stored already.
  ghost predicate Stored(tools: seq<Tool>) {
    KeptTools(tools) == tools
  }

  lemma KeptVersionTwice(v: Version)
    ensures KeptVersion(KeptVersion(v)) == KeptVersion(v)
  {
    hide Kept;
    KeptTwice(v.version);
    KeptTwice(v.manifest);
    KeptTwice(v.review.verdict);
    KeptTwice(v.review.riskScore);
  }

  lemma KeptToolTwice(t: Tool)
    ensures KeptTool(KeptTool(t)) == KeptTool(t)
  {
    hide Kept, KeptVersion;
    KeptTwice(t.name);
    KeptTwice(t.latest);
    forall i | 0 <= i < |t.versions| ensures KeptVersion(KeptVersion(t.versions[i])) == KeptVersion(t.versions[i]) {
      KeptVersionTwice(t.versions[i]);
    }
    assert KeptVersions(KeptVersions(t.versions)) == KeptVersions(t.versions);
  }

  lemma KeptIsStored(tools: seq<Tool>)
    ensures Stored(KeptTools(tools))
  {
    hide KeptTool;
    forall i | 0 <= i < |tools| ensures KeptTool(KeptTool(tools[i])) == KeptTool(tools[i]) {
      KeptToolTwice(tools[i]);
    }
  }

  // Merging a publication into a stored index and storing the result.
  function Merge(tools: seq<Tool>, p: Publication): (r: seq<Tool>)
    ensures HaveVersions(tools) ==> HaveVersions(r)
  {
    KeptTools(Upsert(tools, p))
  }

  function StoredBump(t: Tool, r: Version): Tool {
    t.(versions := Others(t.versions, r.version) + [KeptVersion(r)], latest := Kept(r.version))
  }

  function StoredNew(p: Publication): Tool {
    NewTool(p).(name := Kept(p.name))
  }

  lemma {:induction false} KeptOthers(vs: seq<Version>, version: Value)
    requires KeptVersions(vs) == vs
    ensures KeptVersions(Others(vs, version)) == Others(vs, version)
  {
    hide Same, KeptVersion;
    if vs != [] {
      assert forall i :: 0 <= i < |vs| ==> KeptVersion(vs[i]) == vs[i];
      KeptOthers(vs[1..], version);
      var rest := Others(vs[1..], version);
      assert forall i :: 0 <= i < |rest| ==> KeptVersion(rest[i]) == rest[i];
    }
  }

  lemma BumpIsStored(t: Tool, r: Version)
    requires KeptTool(t) == t
    ensures KeptTool(Bump(t, r)) == StoredBump(t, r)
  {
    hide Same, KeptVersion, Kept, Others;
    assert KeptVersions(t.versions) == t.versions;
    KeptOthers(t.versions, r.version);
    var o := Others(t.versions, r.version);
    assert KeptVersions(o + [r]) == KeptVersions(o) + [KeptVersion(r)];
  }

  lemma NewIsStored(p: Publication)
    ensures KeptTool(Bump(NewTool(p), p.record)) == StoredBump(StoredNew(p), p.record)
  {
    hide KeptVersion, Kept;
    assert KeptVersions([] + [p.record]) == [] + [KeptVersion(p.record)];
  }

  // A merge changes the tool it names and no other.
  lemma {:induction false} ToolAfterUpsert(tools: seq<Tool>, p: Publication, id: string)
    ensures ToolOf(Upsert(tools, p), id)
         == if id != p.id then ToolOf(tools, id)
            else match ToolOf(tools, id)
                 case Some(t) => Some(Bump(t, p.record))
                 case None => Some(Bump(NewTool(p), p.record))
  {
    hide Bump;
    BumpKeepsId(NewTool(p), p.record);
    if tools != [] {
      BumpKeepsId(tools[0], p.record);
      if tools[0].id != p.id {
        ToolAfterUpsert(tools[1..], p, id);
      }
    }
  }

  lemma BumpKeepsId(t: Tool, r: Version)
    ensures Bump(t, r).id == t.id
  {}

  lemma {:induction false} ToolOfKept(tools: seq<Tool>, id: string)
    ensures ToolOf(KeptTools(tools), id)
         == match ToolOf(tools, id) case Some(t) => Some(KeptTool(t)) case None => None
  {
    if tools != [] {
      assert KeptTools(tools)[1..] == KeptTools(tools[1..]);
      ToolOfKept(tools[1..], id);
    }
  }

  lemma ToolAfterMerge(tools: seq<Tool>, p: Publication, id: string)
    requires Stored(tools)
    ensures ToolOf(Merge(tools, p), id)
         == if id != p.id then ToolOf(tools, id)
            else match ToolOf(tools, id)
                 case Some(t) => Some(StoredBump(t, p.record))
                 case None => Some(StoredBump(StoredNew(p), p.record))
  {
    hide KeptTool, Bump, StoredBump, Upsert;
    ToolAfterUpsert(tools, p, id);
    ToolOfKept(Upsert(tools, p), id);
    ToolOfKept(tools, id);
    NewIsStored(p);
    if ToolOf(tools, id).Some? {
      BumpIsStored(ToolOf(tools, id).value, p.record);
    }
  }

  lemma {:induction false} OthersAreOther(vs: seq<Version>, version: Value)
    requires UniqueVersions(vs)
    ensures UniqueVersions(Others(vs, version))
    ensures forall x :: x in Others(vs, version) ==> x in vs && !Same(x.version, version)
  {
    hide Same;
    if vs != [] {
      OthersAreOther(vs[1..], version);
      var rest := Others(vs[1..], version);
      forall k | 0 <= k < |rest| && Same(vs[0].version, rest[k].version) ensures vs[0].version.Null? {
        assert rest[k] in rest && rest[k] in vs[1..];
        var l :| 0 <= l < |vs[1..]| && vs[1..][l] == rest[k];
        assert vs[l + 1] == rest[k];
      }
    }
  }

  lemma {:induction false} OthersKeep(vs: seq<Version>, version: Value, x: Version)
    ensures x in Others(vs, version) <==> x in vs && !Same(x.version, version)
  {
    hide Same;
    if vs != [] {
      OthersKeep(vs[1..], version, x);
      assert vs == [vs[0]] + vs[1..];
    }
  }

  lemma SameKept(a: Value, b: Value)
    ensures Same(a, Kept(b)) ==> a.Null? || Same(a, b)
  {}

  lemma BumpIsSound(t: Tool, r: Version)
    requires UniqueVersions(t.versions)
    ensures SoundTool(StoredBump(t, r))
  {
    hide Same, Kept;
    var others := Others(t.versions, r.version);
    OthersAreOther(t.versions, r.version);
    forall k | 0 <= k < |others| && Same(others[k].version, Kept(r.version)) ensures others[k].version.Null? {
      assert others[k] in others;
      SameKept(others[k].version, r.version);
    }
  }

  lemma {:induction false} UpsertIds(tools: seq<Tool>, p: Publication)
    ensures forall x :: x in Upsert(tools, p) ==> x.id == p.id || x in tools
  {
    if tools != [] && tools[0].id != p.id {
      UpsertIds(tools[1..], p);
    }
  }

  lemma {:induction false} UpsertKeepsIds(tools: seq<Tool>, p: Publication)
    requires forall i, j :: 0 <= i < j < |tools| ==> tools[i].id != tools[j].id
    ensures forall i, j :: 0 <= i < j < |Upsert(tools, p)| ==> Upsert(tools, p)[i].id != Upsert(tools, p)[j].id
  {
    hide Bump;
    if tools != [] {
      BumpKeepsId(tools[0], p.record);
      if tools[0].id != p.id {
        UpsertKeepsIds(tools[1..], p);
        UpsertIds(tools[1..], p);
        var u := Upsert(tools[1..], p);
        forall k | 0 <= k < |u| ensures u[k].id != tools[0].id {
          assert u[k] in u;
        }
      }
    }
  }

  // Tool ids stay unique, versions but for infinite ones too, and `latest` is the version
  // listed last.
  lemma MergeKeepsSound(tools: seq<Tool>, p: Publication)
    requires Sound(tools) && Stored(tools)
    ensures Sound(Merge(tools, p)) && Stored(Merge(tools, p))
  {
    hide SoundTool, StoredBump, Upsert, Kept, KeptVersion;
    UpsertKeepsIds(tools, p);
    KeptIsStored(Upsert(tools, p));
    var m := Merge(tools, p);
    assert forall i :: 0 <= i < |m| ==> m[i].id == Upsert(tools, p)[i].id;
    forall i | 0 <= i < |m| ensures SoundTool(m[i]) {
      OwnTool(m, i);
      ToolAfterMerge(tools, p, m[i].id);
      ToolIds(tools, m[i].id);
      if ToolOf(tools, m[i].id).Some? {
        var t := ToolOf(tools, m[i].id).value;
        assert SoundTool(t);
        SoundBump(t, p.record);
      }
      FreshIsSound(p);
    }
  }

  lemma FreshIsSound(p: Publication)
    ensures SoundTool(StoredBump(StoredNew(p), p.record))
  {
    BumpIsSound(StoredNew(p), p.record);
  }

  lemma SoundBump(t: Tool, r: Version)
    requires SoundTool(t)
    ensures SoundTool(StoredBump(t, r))
  {
    BumpIsSound(t, r);
  }

  lemma {:induction false} OwnTool(tools: seq<Tool>, i: nat)
    requires (forall i, j :: 0 <= i < j < |tools| ==> tools[i].id != tools[j].id) && i < |tools|
    ensures ToolOf(tools, tools[i].id) == Some(tools[i])
  {
    if i > 0 {
      assert tools[0].id != tools[i].id;
      OwnTool(tools[1..], i - 1);
    }
  }

  lemma {:induction false} ToolIds(tools: seq<Tool>, id: string)
    ensures ToolOf(tools, id).Some? ==> ToolOf(tools, id).value in tools && ToolOf(tools, id).value.id == id
  {
    if tools != [] {
      ToolIds(tools[1..], id);
    }
  }

  // --- runs of publications ---

  // The index as stored after a run, and as the Worker holds it before storing it.
  function Build(ps: seq<Publication>): (tools: seq<Tool>)
    ensures HaveVersions(tools)
  {
    if ps == [] then [] else Merge(Build(ps[..|ps| - 1]), ps[|ps| - 1])
  }

  function InMemory(ps: seq<Publication>): (tools: seq<Tool>)
    ensures HaveVersions(tools)
  {
    if ps == [] then [] else Upsert(Build(ps[..|ps| - 1]), ps[|ps| - 1])
  }

  lemma BuildStores(ps: seq<Publication>)
    ensures Build(ps) == KeptTools(InMemory(ps))
  {
    hide Upsert;
  }

  lemma {:induction false} BuildIsSound(ps: seq<Publication>)
    ensures Sound(Build(ps)) && Stored(Build(ps))
  {
    hide Merge, Sound, Stored;
    if ps == [] {
      NoToolsIsSound();
    } else {
      BuildIsSound(ps[..|ps| - 1]);
      MergeKeepsSound(Build(ps[..|ps| - 1]), ps[|ps| - 1]);
    }
  }

  lemma NoToolsIsSound()
    ensures Sound([]) && Stored([])
  {}

  // The maps the index stands for, read off the history.  Publication p is under
  // (id, version) when its version is the same value.
  predicate Under(p: Publication, id: string, version: Value) {
    p.id == id && Same(p.record.version, version)
  }

  // The record that answers to (id, version): the last one published there, or else the
  // first one whose version reads as this one once stored.
  function Answering(ps: seq<Publication>, id: string, version: Value): Option<Version> {
    if ps == [] then None
    else
      var p, before := ps[|ps| - 1], Answering(ps[..|ps| - 1], id, version);
      if Under(p, id, version) then Some(KeptVersion(p.record))
      else if p.id == id && before.None? && Filled(Kept(p.record.version)) == version then Some(KeptVersion(p.record))
      else before
  }

  function LastVersion(ps: seq<Publication>, id: string): Option<Value> {
    if ps == [] then None
    else if ps[|ps| - 1].id == id then Some(Kept(ps[|ps| - 1].record.version))
    else LastVersion(ps[..|ps| - 1], id)
  }

  function First(ps: seq<Publication>, id: string): Option<Publication> {
    if ps == [] then None
    else if ps[0].id == id then Some(ps[0])
    else First(ps[1..], id)
  }

  // Only submissions with a version are published.
  predicate Versioned(ps: seq<Publication>) {
    forall i :: 0 <= i < |ps| ==> Truthy(ps[i].record.version)
  }

  // What the history says a look-up should give.
  datatype Listing = Listing(author: string, name: Value, latest: Value, record: Version)

  function Expected(ps: seq<Publication>, id: string, version: string): Result<Listing, FindError> {
    match (First(ps, id), LastVersion(ps, id))
    case (Some(f), Some(latest)) =>
      (match Answering(ps, id, Asked(latest, version))
       case None => Err(VersionNotFound)
       case Some(r) => Ok(Listing(f.author, Kept(f.name), latest, r)))
    case _ => Err(ToolNotInCatalog)
  }

  function Listed(h: Result<Hit, FindError>): Result<Listing, FindError> {
    match h
    case Err(e) => Err(e)
    case Ok(hit) => Ok(Listing(hit.tool.author, hit.tool.name, hit.tool.latest, hit.record))
  }

  // After a merge the version reads as the new record and every other as before, but that
  // a record stored as null is the answer only where there was none.
  lemma {:induction false} RecordAfterMerge(vs: seq<Version>, r: Version, wanted: Value)
    requires Truthy(r.version) && !wanted.Infinite?
    ensures RecordOf(Others(vs, r.version) + [KeptVersion(r)], wanted)
         == if Same(r.version, wanted) then Some(KeptVersion(r))
            else if RecordOf(vs, wanted).Some? then RecordOf(vs, wanted)
            else if Filled(Kept(r.version)) == wanted then Some(KeptVersion(r)) else None
  {
    var k := KeptVersion(r);
    hide Kept, KeptVersion, Same, Filled, Truthy;
    ReadsAfter(r, wanted);
    if vs == [] {
      assert [] + [k] == [k] && [k][1..] == [];
    } else {
      var rest := Others(vs[1..], r.version);
      RecordAfterMerge(vs[1..], r, wanted);
      Displaced(vs[0], r, wanted);
      if !Same(vs[0].version, r.version) {
        assert ([vs[0]] + rest + [k])[1..] == rest + [k];
      } else {
        assert [] + rest == rest;
      }
    }
  }

  lemma ReadsAfter(r: Version, wanted: Value)
    requires !wanted.Infinite?
    ensures KeptVersion(r).version == Kept(r.version)
    ensures Truthy(r.version) && Same(r.version, wanted) ==> Filled(Kept(r.version)) == wanted
  {}

  lemma Displaced(x: Version, r: Version, wanted: Value)
    requires Truthy(r.version)
    ensures Filled(x.version) == wanted && (Same(x.version, r.version) || Same(r.version, wanted)) ==>
              Same(x.version, r.version) && Same(r.version, wanted)
  {}

  lemma {:induction false} FirstOfSnoc(ps: seq<Publication>, p: Publication, id: string)
    ensures First(ps + [p], id)
         == if First(ps, id).Some? then First(ps, id) else if p.id == id then Some(p) else None
  {
    if ps == [] {
      assert [] + [p] == [p];
    } else {
      assert (ps + [p])[1..] == ps[1..] + [p];
      FirstOfSnoc(ps[1..], p, id);
    }
  }

  // The tool listed under an id, field by field, from the history.
  ghost predicate ToolMatches(t: Option<Tool>, ps: seq<Publication>, id: string) {
    match t
    case None => First(ps, id).None? && LastVersion(ps, id).None?
    case Some(tool) =>
      && First(ps, id).Some? && tool.author == First(ps, id).value.author && tool.name == Kept(First(ps, id).value.name)
      && LastVersion(ps, id) == Some(tool.latest)
      && forall v: Value :: !v.Infinite? ==> RecordOf(tool.versions, v) == Answering(ps, id, v)
  }

  lemma {:induction false} NeverPublished(ps: seq<Publication>, id: string, version: Value)
    requires LastVersion(ps, id).None?
    ensures Answering(ps, id, version).None? && First(ps, id).None?
  {
    if ps != [] {
      NeverPublished(ps[..|ps| - 1], id, version);
      FirstOfSnoc(ps[..|ps| - 1], ps[|ps| - 1], id);
      assert ps[..|ps| - 1] + [ps[|ps| - 1]] == ps;
    }
  }

  lemma {:induction false} BuildMatches(ps: seq<Publication>, id: string)
    requires Versioned(ps)
    ensures ToolMatches(ToolOf(Build(ps), id), ps, id)
  {
    hide Kept, Same, Filled, Truthy, Merge, KeptVersion, Others;
    if ps != [] {
      var was, p := ps[..|ps| - 1], ps[|ps| - 1];
      BuildMatches(was, id);
      BuildIsSound(was);
      ToolAfterMerge(Build(was), p, id);
      FirstOfSnoc(was, p, id);
      assert was + [p] == ps;
      if p.id == id {
        var t := ToolOf(Build(was), id);
        var vs := if t.Some? then t.value.versions else [];
        forall v: Value | !v.Infinite? ensures RecordOf(ToolOf(Build(ps), id).value.versions, v) == Answering(ps, id, v) {
          RecordAfterMerge(vs, p.record, v);
          if t.None? {
            NeverPublished(was, id, v);
          }
        }
      }
    }
  }

  lemma KeptIsFinite(v: Value)
    ensures !Kept(v).Infinite? && !Filled(Kept(v)).Infinite?
  {}

  lemma {:induction false} LastIsKept(ps: seq<Publication>, id: string, version: string)
    ensures LastVersion(ps, id).Some? ==> !Asked(LastVersion(ps, id).value, version).Infinite?
  {
    hide Kept;
    if ps != [] {
      KeptIsFinite(ps[|ps| - 1].record.version);
      LastIsKept(ps[..|ps| - 1], id, version);
    }
  }

  // After any sequence of publications a look-up answers like the history.
  lemma FindIsHistory(ps: seq<Publication>, id: string, version: string)
    requires Versioned(ps)
    ensures Listed(Lookup(Build(ps), id, version)) == Expected(ps, id, version)
  {
    hide Kept, Filled, Answering, Build, First, LastVersion, RecordOf;
    BuildMatches(ps, id);
    LastIsKept(ps, id, version);
  }

  // Publication i is under (id, version) and none after it is.
  ghost predicate LastUnder(ps: seq<Publication>, id: string, version: Value, i: nat) {
    && i < |ps| && Under(ps[i], id, version)
    && forall j :: i < j < |ps| ==> !Under(ps[j], id, version)
  }

  // The record that answers to a version is that of the last publication under it, if
  // there is one.
  lemma {:induction false} AnsweringMeansLast(ps: seq<Publication>, id: string, version: Value, i: nat)
    requires LastUnder(ps, id, version, i)
    ensures Answering(ps, id, version) == Some(KeptVersion(ps[i].record))
  {
    hide Same, Kept, KeptVersion;
    if i < |ps| - 1 {
      AnsweringMeansLast(ps[..|ps| - 1], id, version, i);
    }
  }

  // The empty version is what infinite versions read as, and the first of them answers.
  lemma {:induction false} AnsweringMeansFirst(ps: seq<Publication>, id: string, i: nat)
    requires Versioned(ps) && i < |ps| && ps[i].id == id && ps[i].record.version.Infinite?
    requires forall j :: 0 <= j < i ==> !(ps[j].id == id && ps[j].record.version.Infinite?)
    ensures Answering(ps, id, Text("")) == Some(KeptVersion(ps[i].record))
  {
    hide KeptVersion;
    var was, p := ps[..|ps| - 1], ps[|ps| - 1];
    assert Truthy(p.record.version);
    if i < |was| {
      AnsweringMeansFirst(was, id, i);
    } else {
      NoneInfinite(was, id);
    }
  }

  lemma {:induction false} NoneInfinite(ps: seq<Publication>, id: string)
    requires Versioned(ps) && forall j :: 0 <= j < |ps| ==> !(ps[j].id == id && ps[j].record.version.Infinite?)
    ensures Answering(ps, id, Text("")).None?
  {
    hide KeptVersion;
    if ps != [] {
      assert Truthy(ps[|ps| - 1].record.version);
      NoneInfinite(ps[..|ps| - 1], id);
    }
  }

  // The version published last always answers, so an empty version never misses.
  lemma {:induction false} LatestAnswers(ps: seq<Publication>, id: string)
    requires LastVersion(ps, id).Some?
    ensures Answering(ps, id, Filled(LastVersion(ps, id).value)).Some? && First(ps, id).Some?
  {
    hide Kept, Filled, KeptVersion;
    var was, p := ps[..|ps| - 1], ps[|ps| - 1];
    assert was + [p] == ps;
    FirstOfSnoc(was, p, id);
    if p.id != id {
      LatestAnswers(was, id);
    }
  }

  // --- the catalog the browse page reads ---

  datatype CatalogRow = CatalogRow(
    id: string, name: Value, author: string, version: Value, description: Value, verified: bool,
    verdict: Value, riskScore: Value, reviewedAt: string, hosts: Value, credentials: Value,
    storage: Option<Storage>, publishedAt: string)

  datatype Storage = Storage(namespace: Value, quotaMb: Value)

  // Math.round of a quota in mebibytes: halves go up.
  function Mebibytes(d: Decimals): int {
    if d.exponent >= 0 then (2 * d.digits * Pow10(d.exponent) + 1048576) / 2097152
    else (2 * d.digits + 1048576 * Pow10(-d.exponent)) / (2097152 * Pow10(-d.exponent))
  }

  // An integer as a number value.
  function Canonical(digits: int, exponent: nat): Decimal
    decreases if digits < 0 then -digits else digits
  {
    if digits == 0 then Decimal(0, 0)
    else if digits % 10 != 0 then Decimal(digits, exponent)
    else Canonical(digits / 10, exponent + 1)
  }

  function QuotaMb(quota: Value): Value {
    if !Truthy(quota) || !quota.Number? then Null
    else Number(Canonical(Mebibytes(quota.number), 0))
  }

  // The storage a manifest declares, unless it names no namespace.
  function StorageOf(caps: Value): Option<Storage> {
    var storage := Get(caps, "storage");
    if !Truthy(And(storage, Get(storage, "namespace"))) then None
    else Some(Storage(Get(storage, "namespace"), QuotaMb(Get(storage, "quota_bytes"))))
  }

  function RowOf(t: Tool, v: Version, generatedAt: string): CatalogRow {
    var m := v.manifest;
    var caps := Get(m, "capabilities");
    var network, vault := Get(caps, "network"), Get(caps, "vault");
    CatalogRow(t.id, t.name, t.author, v.version, Or(Get(m, "description"), Text("")), v.verified,
               v.review.verdict, v.review.riskScore,
               if v.review.reviewedAt != "" then v.review.reviewedAt else generatedAt,
               Or(And(network, Get(network, "hosts")), List(NoItem)),
               Or(And(vault, Get(vault, "credentials")), List(NoItem)),
               StorageOf(caps), generatedAt)
  }

  // A row shows the tool's id, name and author and its record's version, badge, verdict
  // and score, when it was reviewed or else published, and of the manifest the
  // description, the hosts and credentials asked for, and the storage if it has a name.
  lemma RowFields(t: Tool, v: Version, generatedAt: string)
    ensures var row := RowOf(t, v, generatedAt);
            && row.id == t.id && row.name == t.name && row.author == t.author && row.version == v.version
            && row.verified == v.verified && row.verdict == v.review.verdict && row.riskScore == v.review.riskScore
            && row.publishedAt == generatedAt
            && row.reviewedAt == (if v.review.reviewedAt == "" then generatedAt else v.review.reviewedAt)
    ensures var row, caps := RowOf(t, v, generatedAt), Get(v.manifest, "capabilities");
            var description, hosts, credentials :=
              Get(v.manifest, "description"), Get(Get(caps, "network"), "hosts"), Get(Get(caps, "vault"), "credentials");
            && row.description == (if Truthy(description) then description else Text(""))
            && row.hosts == (if Truthy(hosts) then hosts else List(NoItem))
            && row.credentials == (if Truthy(credentials) then credentials else List(NoItem))
            && (row.storage.Some? <==> Truthy(Get(Get(caps, "storage"), "namespace")))
            && (row.storage.Some? ==>
                  && row.storage.value.namespace == Get(Get(caps, "storage"), "namespace")
                  && row.storage.value.quotaMb == QuotaMb(Get(Get(caps, "storage"), "quota_bytes")))
  {}

  // A quota is shown as that whole number of mebibytes, none or zero as nothing.
  lemma QuotaShown(quota: Value)
    ensures !Truthy(quota) ==> QuotaMb(quota) == Null
    ensures quota.Number? && Truthy(quota) ==>
              && QuotaMb(quota).Number? && QuotaMb(quota).number.exponent >= 0
              && QuotaMb(quota).number.digits * Pow10(QuotaMb(quota).number.exponent) == Mebibytes(quota.number)
  {
    if quota.Number? {
      CanonicalIs(Mebibytes(quota.number), 0);
      assert Pow10(0) == 1;
    }
  }

  lemma {:induction false} CanonicalIs(digits: int, exponent: nat)
    ensures Canonical(digits, exponent).exponent >= 0
    ensures Canonical(digits, exponent).digits * Pow10(Canonical(digits, exponent).exponent) == digits * Pow10(exponent)
    decreases if digits < 0 then -digits else digits
  {
    if digits != 0 && digits % 10 == 0 {
      CanonicalIs(digits / 10, exponent + 1);
      Tenfold(digits / 10, Pow10(exponent));
      assert Pow10(exponent + 1) == 10 * Pow10(exponent);
    }
  }

  lemma Tenfold(d: int, p: int)
    ensures d * (10 * p) == (10 * d) * p
  {}

  // Math.round of a quota of whole mebibytes and a half goes up.
  lemma {:induction false} QuotaRounds(mb: nat)
    requires mb > 0
    ensures Mebibytes(Decimal(mb * 1048576, 0)) == mb && Mebibytes(Decimal(mb * 1048576 + 524287, 0)) == mb
    ensures Mebibytes(Decimal(mb * 1048576 + 524288, 0)) == mb + 1
  {
    assert Pow10(0) == 1;
  }

  // The first record that is the latest version, or else the last of the list.
  function Latest(vs: seq<Version>, version: Value): Option<Version> {
    if vs == [] then None
    else if Same(vs[0].version, version) then Some(vs[0])
    else Latest(vs[1..], version)
  }

  function ShownVersion(t: Tool): Version
    requires t.versions != []
  {
    match Latest(t.versions, t.latest)
    case Some(v) => v
    case None => t.versions[|t.versions| - 1]
  }

  function BuildCatalog(tools: seq<Tool>, generatedAt: string): (rows: seq<CatalogRow>)
    requires HaveVersions(tools)
    ensures |rows| == |tools|
    ensures forall i :: 0 <= i < |tools| ==> rows[i] == RowOf(tools[i], ShownVersion(tools[i]), generatedAt)
  {
    if tools == [] then []
    else [RowOf(tools[0], ShownVersion(tools[0]), generatedAt)] + BuildCatalog(tools[1..], generatedAt)
  }

  // --- what is on record ---

  // Publication q replaces the stored record of p.
  predicate Replaces(q: Publication, p: Publication) {
    q.id == p.id && Same(Kept(p.record.version), q.record.version)
  }

  // Publication i is still on record.
  predicate OnRecord(ps: seq<Publication>, i: nat)
    requires i < |ps|
  {
    forall j :: i < j < |ps| ==> !Replaces(ps[j], ps[i])
  }

  function VersionsOf(t: Option<Tool>): seq<Version> {
    match t
    case Some(tool) => tool.versions
    case None => []
  }

  lemma OnRecordSnoc(ps: seq<Publication>)
    requires ps != []
    ensures var n := |ps| - 1;
            && OnRecord(ps, n)
            && forall i :: 0 <= i < n ==> (OnRecord(ps, i) <==> OnRecord(ps[..n], i) && !Replaces(ps[n], ps[i]))
  {
    hide Replaces;
    var n := |ps| - 1;
    assert forall i :: 0 <= i < n ==> ps[..n][i] == ps[i];
  }

  // The versions listed for an id are the stored records still on record there.
  lemma {:induction false} VersionsAreRecords(ps: seq<Publication>, id: string, x: Version)
    ensures x in VersionsOf(ToolOf(Build(ps), id)) <==>
              exists i :: 0 <= i < |ps| && ps[i].id == id && KeptVersion(ps[i].record) == x && OnRecord(ps, i)
  {
    hide Same, Merge, OnRecord, KeptVersion, Kept;
    if ps != [] {
      var was, p := ps[..|ps| - 1], ps[|ps| - 1];
      var n := |was|;
      VersionsAreRecords(was, id, x);
      BuildIsSound(was);
      ToolAfterMerge(Build(was), p, id);
      OnRecordSnoc(ps);
      assert forall i :: 0 <= i < n ==> was[i] == ps[i];
      assert forall i :: 0 <= i < n ==> KeptVersion(ps[i].record).version == Kept(ps[i].record.version) by { KeptFields(); }
      if p.id == id {
        OthersKeep(VersionsOf(ToolOf(Build(was), id)), p.record.version, x);
        assert x in VersionsOf(ToolOf(Build(ps), id)) <==>
                 x == KeptVersion(p.record) || (x in VersionsOf(ToolOf(Build(was), id)) && !Same(x.version, p.record.version));
        if x == KeptVersion(p.record) {
          assert KeptVersion(ps[n].record) == x && OnRecord(ps, n);
        }
      }
      if i :| 0 <= i < n && was[i].id == id && KeptVersion(was[i].record) == x && OnRecord(was, i) {
        assert OnRecord(ps, i) <==> !Replaces(p, ps[i]);
      }
    }
  }

  lemma KeptFields()
    ensures forall v: Version :: KeptVersion(v).version == Kept(v.version)
  {}

  // --- the catalog against the look-up ---

  predicate Proper(v: Value) {
    v != Text("") && !v.Infinite?
  }

  // What the tools in memory list: stored versions, none of them empty, and the latest.
  ghost predicate ProperTool(t: Tool) {
    && t.latest != Text("")
    && forall k :: 0 <= k < |t.versions| ==>
         Proper(t.versions[k].version) || (t.versions[k].version.Infinite? && t.latest.Infinite?)
  }

  lemma BumpIsProper(t: Tool, r: Version)
    requires Truthy(r.version) && forall x :: x in t.versions ==> Proper(x.version)
    ensures ProperTool(Bump(t, r))
  {
    hide Same;
    var o := Others(t.versions, r.version);
    forall k | 0 <= k < |o| ensures Proper(o[k].version) {
      assert o[k] in o;
      OthersKeep(t.versions, r.version, o[k]);
    }
  }

  lemma StoredIsProper(t: Tool)
    requires SoundTool(t) && forall x :: x in t.versions ==> Proper(x.version)
    ensures ProperTool(t)
  {
    hide Proper;
    assert t.versions[|t.versions| - 1] in t.versions;
    assert Proper(t.latest);
    NotEmpty(t.latest);
  }

  lemma NotEmpty(v: Value)
    ensures Proper(v) ==> v != Text("")
  {}

  lemma MemoryVersions(ps: seq<Publication>, i: nat)
    requires Versioned(ps) && i < |InMemory(ps)|
    ensures ToolOf(InMemory(ps), InMemory(ps)[i].id) == Some(InMemory(ps)[i]) && ProperTool(InMemory(ps)[i])
  {
    hide Upsert, Merge, Bump, ProperTool, SoundTool, Proper, Truthy;
    var was, p := ps[..|ps| - 1], ps[|ps| - 1];
    var t := InMemory(ps)[i];
    BuildIsSound(was);
    UpsertKeepsIds(Build(was), p);
    OwnTool(InMemory(ps), i);
    ToolAfterUpsert(Build(was), p, t.id);
    var listed := ToolOf(Build(was), t.id);
    ToolIds(Build(was), t.id);
    forall x | x in VersionsOf(listed) ensures Proper(x.version) {
      StoredVersion(was, t.id, x);
    }
    BumpIsProper(if listed.Some? then listed.value else NewTool(p), p.record);
    if listed.Some? {
      StoredIsProper(listed.value);
    }
  }

  lemma StoredVersion(ps: seq<Publication>, id: string, x: Version)
    requires Versioned(ps) && x in VersionsOf(ToolOf(Build(ps), id))
    ensures Proper(x.version)
  {
    hide OnRecord, Build;
    VersionsAreRecords(ps, id, x);
    var i :| 0 <= i < |ps| && ps[i].id == id && KeptVersion(ps[i].record) == x && OnRecord(ps, i);
    assert Truthy(ps[i].record.version);
  }

  lemma {:induction false} LatestIsRecord(vs: seq<Version>, latest: Value)
    requires Same(latest, latest) && latest != Text("") && !latest.Infinite?
    requires forall k :: 0 <= k < |vs| ==> Proper(vs[k].version)
    ensures RecordOf(KeptVersions(vs), Filled(Kept(latest)))
         == match Latest(vs, latest) case Some(v) => Some(KeptVersion(v)) case None => None
  {
    if vs != [] {
      assert KeptVersions(vs)[1..] == KeptVersions(vs[1..]);
      LatestIsRecord(vs[1..], latest);
    }
  }

  // One row for each tool, in order, and each shows what installing the tool without
  // naming a version resolves to, once the index is stored: the badge cannot drift as
  // long as versions are texts, numbers or booleans.
  lemma CatalogAgreesWithFind(ps: seq<Publication>, generatedAt: string, i: nat)
    requires Versioned(ps) && i < |InMemory(ps)|
    requires var latest := InMemory(ps)[i].latest; Same(latest, latest) && !latest.Infinite?
    ensures var t := InMemory(ps)[i];
            var hit := Lookup(Build(ps), t.id, "");
            && hit.Ok? && hit.value.record == KeptVersion(ShownVersion(t))
            && BuildCatalog(InMemory(ps), generatedAt)[i] == RowOf(t, ShownVersion(t), generatedAt)
            && BuildCatalog(InMemory(ps), generatedAt)[i].verified == hit.value.record.verified
            && BuildCatalog(InMemory(ps), generatedAt)[i].id == hit.value.tool.id
            && BuildCatalog(InMemory(ps), generatedAt)[i].author == hit.value.tool.author
  {
    hide Same, Kept, Filled, Merge, Upsert, RowOf, KeptVersion;
    var t := InMemory(ps)[i];
    MemoryVersions(ps, i);
    BuildStores(ps);
    ToolOfKept(InMemory(ps), t.id);
    LatestIsRecord(t.versions, t.latest);
    BuildIsSound(ps);
    LatestIsListed(ps, t);
    RowFields(t, ShownVersion(t), generatedAt);
    KeptKeeps(t, ShownVersion(t));
  }

  lemma KeptKeeps(t: Tool, v: Version)
    ensures KeptTool(t).id == t.id && KeptTool(t).author == t.author && KeptVersion(v).verified == v.verified
  {}

  lemma LatestIsListed(ps: seq<Publication>, t: Tool)
    requires ToolOf(Build(ps), t.id) == Some(KeptTool(t)) && Sound(Build(ps))
    ensures Lookup(Build(ps), t.id, "").Ok?
  {
    hide Kept, Filled, UniqueVersions, Build;
    ToolIds(Build(ps), t.id);
    assert SoundTool(KeptTool(t));
    var vs := KeptTool(t).versions;
    LastAnswers(vs, Filled(KeptTool(t).latest));
  }

  lemma {:induction false} LastAnswers(vs: seq<Version>, wanted: Value)
    requires vs != [] && Filled(vs[|vs| - 1].version) == wanted
    ensures RecordOf(vs, wanted).Some?
  {
    if |vs| > 1 {
      LastAnswers(vs[1..], wanted);
    }
  }

  // An infinite version is stored as null, and publishing it again does not replace it:
  // the version is listed twice, the catalog shows the second one, and the client finds
  // the first.
  lemma InfiniteVersionTwice(p: Publication, q: Publication)
    requires p.id == q.id && p.record.version == q.record.version == Infinite(true)
    ensures var t := ToolOf(Build([p, q]), p.id);
            && t.Some? && t.value.versions == [KeptVersion(p.record), KeptVersion(q.record)]
            && t.value.versions[0].version == t.value.versions[1].version == Null
    ensures var hit := Lookup(Build([p, q]), p.id, ""); hit.Ok? && hit.value.record == KeptVersion(p.record)
    ensures ToolOf(InMemory([p, q]), p.id).Some? && ToolOf(InMemory([p, q]), p.id).value.versions != []
    ensures ShownVersion(ToolOf(InMemory([p, q]), p.id).value) == q.record
  {
    hide Merge, Upsert, KeptVersion, Build, InMemory, ToolOf, Others;
    var k, l := KeptVersion(p.record), KeptVersion(q.record);
    KeptFields();
    ListedTwice(p, q);
    FirstOfTwo(k, l);
    LatestOfTwo(k, q.record);
    assert [k] + [q.record] == [k, q.record];
  }

  lemma ListedTwice(p: Publication, q: Publication)
    requires p.id == q.id && p.record.version == q.record.version == Infinite(true)
    ensures var t := ToolOf(Build([p, q]), p.id);
            t.Some? && t.value.versions == [KeptVersion(p.record), KeptVersion(q.record)] && t.value.latest == Null
    ensures var t := ToolOf(InMemory([p, q]), p.id);
            t.Some? && t.value.versions == [KeptVersion(p.record), q.record] && t.value.latest == Infinite(true)
  {
    hide Merge, Upsert, KeptVersion, Sound, Stored, Build, Others;
    var k := KeptVersion(p.record);
    KeptFields();
    ListedOnce(p);
    assert [p, q][..1] == [p];
    TwoSteps(p, q);
    BuildIsSound([p]);
    ToolAfterMerge(Build([p]), q, p.id);
    ToolAfterUpsert(Build([p]), q, p.id);
    OthersOfOne(k, q.record.version);
    assert [k] + [KeptVersion(q.record)] == [k, KeptVersion(q.record)] && [k] + [q.record] == [k, q.record];
  }

  lemma TwoSteps(p: Publication, q: Publication)
    ensures Build([p, q]) == Merge(Build([p]), q) && InMemory([p, q]) == Upsert(Build([p]), q)
  {
    hide Merge, Upsert;
    assert [p, q][..1] == [p];
  }

  lemma ListedOnce(p: Publication)
    ensures var t := ToolOf(Build([p]), p.id); t.Some? && t.value.versions == [KeptVersion(p.record)]
  {
    hide Merge, Upsert, KeptVersion, Sound, Stored;
    assert [p][..0] == [];
    NoToolsIsSound();
    ToolAfterMerge([], p, p.id);
    assert Others([], p.record.version) + [KeptVersion(p.record)] == [KeptVersion(p.record)];
  }

  lemma FirstOfTwo(v: Version, w: Version)
    requires v.version == Null
    ensures RecordOf([v, w], Text("")) == Some(v)
  {}

  lemma OthersOfOne(v: Version, version: Value)
    requires !Same(v.version, version)
    ensures Others([v], version) == [v]
  {
    assert [v][1..] == [];
  }

  lemma LatestOfTwo(v: Version, w: Version)
    requires !Same(v.version, w.version) && Same(w.version, w.version)
    ensures Latest([v] + [w], w.version) == Some(w)
  {
    assert ([v] + [w])[1..] == [w];
  }

  // --- when the client can decode the index ---

  // A text, or what is stored as null and reads as an empty one.
  predicate TextOrNothing(v: Value) {
    v.Text? || v.Null? || v.Infinite?
  }

  // A number that prints as an integer of 64 bits, or what is stored as null.
  predicate WholeOrNothing(v: Value) {
    match v
    case Number(n) => n.exponent >= 0 && -0x8000_0000_0000_0000 <= n.digits * Pow10(n.exponent) < 0x8000_0000_0000_0000
    case Infinite(_) => true
    case Null => true
    case _ => false
  }

  // Every record on record has a text or nothing for a version and a verdict, a whole
  // number or nothing for a risk score, and every id was first published with a text or
  // nothing for a name.  An infinite number counts as nothing.
  predicate Readable(ps: seq<Publication>) {
    && (forall i :: 0 <= i < |ps| && OnRecord(ps, i) ==>
          && TextOrNothing(ps[i].record.version) && TextOrNothing(ps[i].record.review.verdict)
          && WholeOrNothing(ps[i].record.review.riskScore))
    && (forall i :: 0 <= i < |ps| && First(ps, ps[i].id) == Some(ps[i]) ==> TextOrNothing(ps[i].name))
  }

  lemma ReadableRecord(v: Version, name: Value)
    ensures TypedVersion(KeptVersion(v)) <==>
              TextOrNothing(v.version) && TextOrNothing(v.review.verdict) && WholeOrNothing(v.review.riskScore)
    ensures Textual(Kept(name)) <==> TextOrNothing(name)
  {}

  lemma {:induction false} FirstIsFirst(ps: seq<Publication>, id: string)
    ensures First(ps, id).Some? ==> First(ps, id).value in ps && First(ps, id).value.id == id
  {
    if ps != [] {
      FirstIsFirst(ps[1..], id);
    }
  }

  // A tool decodes exactly when its name and its records do.
  lemma ToolDecodes(ps: seq<Publication>, id: string)
    requires Versioned(ps) && ToolOf(Build(ps), id).Some?
    ensures TypedTool(ToolOf(Build(ps), id).value) <==>
              && First(ps, id).Some? && Textual(Kept(First(ps, id).value.name))
              && forall i :: 0 <= i < |ps| && ps[i].id == id && OnRecord(ps, i) ==> TypedVersion(KeptVersion(ps[i].record))
  {
    hide TypedVersion, OnRecord, Build, First, RecordOf, Answering, LastVersion, UniqueVersions, KeptVersion, Kept, Textual;
    var t := ToolOf(Build(ps), id).value;
    BuildMatches(ps, id);
    BuildIsSound(ps);
    ToolIds(Build(ps), id);
    assert SoundTool(t);
    assert TypedVersion(t.versions[|t.versions| - 1]) ==> Textual(t.latest) by { TextOf(t.versions[|t.versions| - 1]); }
    forall i | 0 <= i < |ps| && ps[i].id == id && OnRecord(ps, i) ensures KeptVersion(ps[i].record) in t.versions {
      VersionsAreRecords(ps, id, KeptVersion(ps[i].record));
    }
    forall k | 0 <= k < |t.versions|
      ensures exists i :: 0 <= i < |ps| && ps[i].id == id && KeptVersion(ps[i].record) == t.versions[k] && OnRecord(ps, i)
    {
      VersionsAreRecords(ps, id, t.versions[k]);
    }
  }

  lemma TextOf(v: Version)
    ensures TypedVersion(v) ==> Textual(v.version)
  {}

  lemma {:induction false} PublishedIsListed(ps: seq<Publication>, i: nat)
    requires i < |ps|
    ensures ToolOf(Build(ps), ps[i].id).Some?
  {
    hide StoredBump, Merge;
    var was, p := ps[..|ps| - 1], ps[|ps| - 1];
    BuildIsSound(was);
    ToolAfterMerge(Build(was), p, ps[i].id);
    if i < |was| {
      assert was[i] == ps[i];
      PublishedIsListed(was, i);
    }
  }

  // The client decodes the index exactly when it is readable.
  lemma TypedExactlyWhen(ps: seq<Publication>)
    requires Versioned(ps)
    ensures Typed(Build(ps)) <==> Readable(ps)
  {
    hide TypedTool, TypedVersion, OnRecord, Build, First, KeptVersion, Kept, Textual, TextOrNothing, WholeOrNothing;
    forall i | 0 <= i < |ps|
      ensures TypedVersion(KeptVersion(ps[i].record)) <==>
                && TextOrNothing(ps[i].record.version) && TextOrNothing(ps[i].record.review.verdict)
                && WholeOrNothing(ps[i].record.review.riskScore)
      ensures Textual(Kept(ps[i].name)) <==> TextOrNothing(ps[i].name)
    {
      ReadableRecord(ps[i].record, ps[i].name);
    }
    if Readable(ps) {
      BuildIsSound(ps);
      forall k | 0 <= k < |Build(ps)| ensures TypedTool(Build(ps)[k]) {
        var id := Build(ps)[k].id;
        OwnTool(Build(ps), k);
        BuildMatches(ps, id);
        FirstIsFirst(ps, id);
        var i :| 0 <= i < |ps| && ps[i] == First(ps, id).value;
        ToolDecodes(ps, id);
      }
    }
    if Typed(Build(ps)) {
      forall i | 0 <= i < |ps|
        ensures OnRecord(ps, i) ==> TypedVersion(KeptVersion(ps[i].record))
        ensures First(ps, ps[i].id) == Some(ps[i]) ==> Textual(Kept(ps[i].name))
      {
        PublishedIsListed(ps, i);
        ToolIds(Build(ps), ps[i].id);
        ToolDecodes(ps, ps[i].id);
      }
    }
  }

  // A version that is neither a text nor nothing stays on record for ever: republishing
  // it leaves one that is the same value.
  lemma {:induction false} NonTextStays(ps: seq<Publication>, i: nat)
    requires i < |ps| && !TextOrNothing(ps[i].record.version)
    ensures !Readable(ps)
    decreases |ps| - i
  {
    hide TextOrNothing, WholeOrNothing;
    if !OnRecord(ps, i) {
      var j :| i < j < |ps| && Replaces(ps[j], ps[i]);
      SameIsStored(ps[i].record.version, ps[j].record.version);
      NonTextStays(ps, j);
    }
  }

  lemma SameIsStored(a: Value, b: Value)
    ensures Same(Kept(a), b) && !TextOrNothing(a) ==> !TextOrNothing(b)
  {}

  // --- what the Worker prints is what JSON.parse returns ---

  predicate PlainPublication(double: Decimal -> bool, p: Publication) {
    Plain(double, p.name) && PlainVersion(double, p.record)
  }

  lemma {:induction false} OthersPlain(double: Decimal -> bool, vs: seq<Version>, version: Value)
    requires forall i :: 0 <= i < |vs| ==> PlainVersion(double, vs[i])
    ensures forall i :: 0 <= i < |Others(vs, version)| ==> PlainVersion(double, Others(vs, version)[i])
  {
    hide PlainVersion, Same;
    if vs != [] {
      OthersPlain(double, vs[1..], version);
    }
  }

  lemma BumpPlain(double: Decimal -> bool, t: Tool, r: Version)
    requires PlainTool(double, t) && PlainVersion(double, r)
    ensures PlainTool(double, Bump(t, r))
  {
    OthersPlain(double, t.versions, r.version);
  }

  lemma {:induction false} UpsertPlain(double: Decimal -> bool, tools: seq<Tool>, p: Publication)
    requires PlainTools(double, tools) && PlainPublication(double, p)
    ensures PlainTools(double, Upsert(tools, p))
  {
    hide PlainTool, Bump;
    NewPlain(double, p);
    if tools != [] {
      assert PlainTool(double, tools[0]);
      if tools[0].id == p.id {
        BumpPlain(double, tools[0], p.record);
      } else {
        UpsertPlain(double, tools[1..], p);
      }
    }
  }

  lemma NewPlain(double: Decimal -> bool, p: Publication)
    requires PlainPublication(double, p)
    ensures PlainTool(double, Bump(NewTool(p), p.record)) && PlainVersion(double, p.record)
  {
    BumpPlain(double, NewTool(p), p.record);
  }

  lemma KeptVersionPlain(double: Decimal -> bool, v: Version)
    requires PlainVersion(double, v)
    ensures PlainVersion(double, KeptVersion(v))
  {
    hide Plain, Kept;
    KeptPlain(double, v.version);
    KeptPlain(double, v.manifest);
    KeptPlain(double, v.review.verdict);
    KeptPlain(double, v.review.riskScore);
  }

  lemma KeptToolsPlain(double: Decimal -> bool, tools: seq<Tool>)
    requires PlainTools(double, tools)
    ensures PlainTools(double, KeptTools(tools))
  {
    hide Plain, Kept, PlainVersion, KeptVersion;
    forall i | 0 <= i < |tools| ensures PlainTool(double, KeptTools(tools)[i]) {
      var t := tools[i];
      KeptPlain(double, t.name);
      KeptPlain(double, t.latest);
      forall k | 0 <= k < |t.versions| ensures PlainVersion(double, KeptVersion(t.versions[k])) {
        KeptVersionPlain(double, t.versions[k]);
      }
    }
  }

  lemma {:induction false} InMemoryPlain(double: Decimal -> bool, ps: seq<Publication>)
    requires forall i :: 0 <= i < |ps| ==> PlainPublication(double, ps[i])
    ensures PlainTools(double, InMemory(ps)) && PlainTools(double, Build(ps))
  {
    hide PlainPublication, PlainTools, Upsert;
    if ps == [] {
      NonePlain(double);
    } else {
      InMemoryPlain(double, ps[..|ps| - 1]);
      UpsertPlain(double, Build(ps[..|ps| - 1]), ps[|ps| - 1]);
      KeptToolsPlain(double, InMemory(ps));
    }
  }

  lemma NonePlain(double: Decimal -> bool)
    ensures PlainTools(double, [])
  {}
}
