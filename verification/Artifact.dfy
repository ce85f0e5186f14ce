/**
 unpackTool and readZip of index.go: what the client takes out of a tool.zip, and that it
 takes out exactly what makeZip put in.
 */
module Artifact {
  import opened Wrappers
  import opened Utf
  import opened Lines
  import opened Crc
  import opened Zip
  import opened ZipWriter
  import opened Manifest

  const MANIFEST_LIMIT := 1048576
  const SOURCE_LIMIT := 4194304

  // "manifest.json" and "tool.js".
  const MANIFEST_JSON: seq<Scalar> :=
    [0x6D, 0x61, 0x6E, 0x69, 0x66, 0x65, 0x73, 0x74, 0x2E, 0x6A, 0x73, 0x6F, 0x6E]
  const TOOL_JS: seq<Scalar> := [0x74, 0x6F, 0x6F, 0x6C, 0x2E, 0x6A, 0x73]

  datatype UnpackError = BadArtifact | BadMember | MissingMember | BadManifest(error: ManifestError)

  datatype Tool = Tool(manifest: Manifest, source: seq<Byte>)

  // The bytes of a stored member that are there: the directory's size from behind the
  // local header on, cut off at the end of the file.
  function Section(b: seq<Byte>, h: Header): Option<seq<Byte>> {
    if !h.stored || h.offset + 30 > |b| || Get32(b, h.offset) != LOCAL_SIGNATURE then None
    else
      var start := h.offset + 30 + Get16(b, h.offset + 26) + Get16(b, h.offset + 28);
      Some(if start > |b| then [] else if start + h.packed > |b| then b[start..] else b[start..start + h.packed])
  }

  // At most `limit` bytes of a member.  Bytes beyond the declared size are an error as
  // they come; a missing byte and a wrong checksum are only noticed when the end of the
  // member is reached, which a full read of `limit` bytes does not do; a zero checksum
  // is never compared.
  function ReadZip(b: seq<Byte>, h: Header, limit: nat): Option<seq<Byte>> {
    match Section(b, h)
    case None => None
    case Some(data) =>
      var taken := if |data| >= limit then data[..limit] else data;
      if |taken| > h.size then None
      else if |data| >= limit then Some(taken)
      else if |data| != h.size || (h.crc != 0 && Crc32(data) != h.crc) then None
      else Some(data)
  }

  // What the loop over the members has collected.
  datatype Found = Found(manifest: Option<seq<Byte>>, source: seq<Byte>)

  // One member: a later one of the same name replaces an earlier one.
  function Collect(b: seq<Byte>, h: Header, f: Found): Option<Found> {
    if h.name == Utf8(MANIFEST_JSON) then
      (match ReadZip(b, h, MANIFEST_LIMIT)
       case None => None
       case Some(data) => Some(f.(manifest := Some(data))))
    else if h.name == Utf8(TOOL_JS) then
      (match ReadZip(b, h, SOURCE_LIMIT)
       case None => None
       case Some(data) => Some(f.(source := data)))
    else Some(f)
  }

  function CollectAll(b: seq<Byte>, hs: seq<Header>, f: Found): Option<Found>
    decreases |hs|
  {
    if hs == [] then Some(f)
    else
      match Collect(b, hs[0], f)
      case None => None
      case Some(g) => CollectAll(b, hs[1..], g)
  }

  function Unpacked(j: Codec, b: seq<Byte>): Result<Tool, UnpackError> {
    match Directory(b)
    case None => Err(BadArtifact)
    case Some(hs) =>
      match CollectAll(b, hs, Found(None, []))
      case None => Err(BadMember)
      case Some(f) =>
        if f.manifest == None || f.source == [] then Err(MissingMember)
        else
          match ParseManifest(j, f.manifest.value)
          case Err(e) => Err(BadManifest(e))
          case Ok(m) => Ok(Tool(m, f.source))
  }

  method UnpackTool(j: Codec, data: seq<Byte>) returns (r: Result<Tool, UnpackError>)
    ensures r == Unpacked(j, data)
  {
    hide Directory, Collect;
    var files := Directory(data);
    if files == None {
      return Err(BadArtifact);
    }
    var found := Found(None, []);
    var i := 0;
    while i < |files.value|
      invariant 0 <= i <= |files.value|
      invariant CollectAll(data, files.value, Found(None, [])) == CollectAll(data, files.value[i..], found)
    {
      var next := Collect(data, files.value[i], found);
      assert files.value[i..][1..] == files.value[i + 1..];
      if next == None {
        return Err(BadMember);
      }
      found := next.value;
      i := i + 1;
    }
    if found.manifest == None || found.source == [] {
      return Err(MissingMember);
    }
    match ParseManifest(j, found.manifest.value)
    case Err(e) => return Err(BadManifest(e));
    case Ok(m) => return Ok(Tool(m, found.source));
  }

  // --- what the Worker packs ---

  function Packed(manifest: seq<Unit>, source: seq<Unit>): seq<Source> {
    [Source(Utf16(MANIFEST_JSON), manifest), Source(Utf16(TOOL_JS), source)]
  }

  function ToolZip(manifest: seq<Unit>, source: seq<Unit>): seq<Byte> {
    Archive(Encoded(Packed(manifest, source)))
  }

  const MAX_SOURCE := 262144
  const MAX_MANIFEST := 32768

  lemma {:induction false} Utf8Size(s: seq<Scalar>)
    ensures |Utf8(s)| <= 4 * |s|
  {
    if s != [] {
      Utf8Size(s[1..]);
    }
  }

  lemma NamesDiffer()
    ensures Utf8(MANIFEST_JSON) != Utf8(TOOL_JS)
  {
    NamePrefix();
    FirstBytes(0x6D, 0x74);
  }

  lemma NamePrefix()
    ensures EncodeUtf8(0x6D) <= Utf8(MANIFEST_JSON) && EncodeUtf8(0x74) <= Utf8(TOOL_JS)
  {
    hide EncodeUtf8;
  }

  lemma FirstBytes(a: Scalar, b: Scalar)
    requires a < 0x80 && b < 0x80 && a != b
    ensures EncodeUtf8(a) == [a as Byte] && EncodeUtf8(b) == [b as Byte] && a as Byte != b as Byte
  {}

  // The members of a tool.zip once encoded.
  function Members(m: seq<Byte>, s: seq<Byte>): seq<Entry> {
    [Entry(Utf8(MANIFEST_JSON), m), Entry(Utf8(TOOL_JS), s)]
  }

  lemma PackedMembers(manifest: seq<Unit>, source: seq<Unit>)
    ensures Encoded(Packed(manifest, source)) == Members(TextEncode(manifest), TextEncode(source))
  {
    hide TextEncode, Utf8, Utf16;
    TextEncodeUtf16(MANIFEST_JSON);
    TextEncodeUtf16(TOOL_JS);
  }

  lemma PairSize(a: Entry, b: Entry)
    ensures |Locals([a, b])| == 60 + |a.name| + |a.data| + |b.name| + |b.data|
    ensures |Centrals(Files([a, b], 0))| == 92 + |a.name| + |b.name|
  {
    hide LocalRecord, CentralRecord, Crc32, Locals, Centrals, Files;
    LocalsCons([a, b], 0);
    LocalsCons([b], |LocalRecord(a)|);
    assert [a, b][1..] == [b] && [b][1..] == [];
    NoneLeft([], |LocalRecord(a)| + |LocalRecord(b)|);
    var f, g := FileOf(a, 0), FileOf(b, |LocalRecord(a)|);
    CentralsCons(f, [g]);
    CentralsCons(g, []);
    NoCentrals();
    assert [g] + [] == [g] && Files([a, b], 0) == [f] + [g];
  }

  lemma MembersFit(m: seq<Byte>, s: seq<Byte>)
    requires |m| < 0x1000_0000 && |s| < 0x1000_0000
    ensures Fits(Members(m, s)) && |Archive(Members(m, s))| <= 334 + |m| + |s|
  {
    hide Locals, Centrals, Files, EndRecord, Utf8;
    Utf8Size(MANIFEST_JSON);
    Utf8Size(TOOL_JS);
    var a, b := Entry(Utf8(MANIFEST_JSON), m), Entry(Utf8(TOOL_JS), s);
    PairSize(a, b);
    assert Members(m, s) == [a, b] && |a.name| <= 52 && |b.name| <= 28;
    assert NamesFit([a, b]);
  }

  // A member under its limit, with a truthful size and checksum, is read whole.
  lemma ReadWhole(b: seq<Byte>, h: Header, data: seq<Byte>, limit: nat)
    requires Body(b, h) == Some(data) && h.size == |data| < limit && h.crc == Crc32(data)
    ensures ReadZip(b, h, limit) == Some(data)
  {
    hide Crc32, Get16, Get32;
    assert Section(b, h) == Some(data);
  }

  lemma CollectTwo(b: seq<Byte>, h: Header, k: Header, m: seq<Byte>, s: seq<Byte>)
    requires h.name == Utf8(MANIFEST_JSON) && ReadZip(b, h, MANIFEST_LIMIT) == Some(m)
    requires k.name == Utf8(TOOL_JS) && ReadZip(b, k, SOURCE_LIMIT) == Some(s)
    ensures CollectAll(b, [h, k], Found(None, [])) == Some(Found(Some(m), s))
  {
    hide ReadZip, Utf8;
    NamesDiffer();
    assert [h, k][1..] == [k] && [k][1..] == [];
    var f := Found(Some(m), []);
    assert Collect(b, h, Found(None, [])) == Some(f);
    assert Collect(b, k, f) == Some(Found(Some(m), s));
    assert CollectAll(b, [k], f) == CollectAll(b, [], Found(Some(m), s));
  }

  lemma CollectMembers(m: seq<Byte>, s: seq<Byte>)
    requires |m| < MANIFEST_LIMIT && |s| < SOURCE_LIMIT
    ensures var b := Archive(Members(m, s));
            Directory(b).Some? && CollectAll(b, Directory(b).value, Found(None, [])) == Some(Found(Some(m), s))
  {
    hide Archive, Directory, Files, Body, ReadZip, CollectAll, Crc32, Fits, Utf8;
    var es := Members(m, s);
    MembersFit(m, s);
    ZipRoundTrip(es);
    var b, hs := Archive(es), Headers(Files(es, 0));
    assert |hs| == |Files(es, 0)| == |es| == 2;
    assert hs == [hs[0], hs[1]];
    assert hs[0].name == es[0].name && hs[1].name == es[1].name;
    assert Body(b, hs[0]) == Some(es[0].data) && Body(b, hs[1]) == Some(es[1].data);
    ReadWhole(b, hs[0], m, MANIFEST_LIMIT);
    ReadWhole(b, hs[1], s, SOURCE_LIMIT);
    CollectTwo(b, hs[0], hs[1], m, s);
  }

  // Whatever the Worker accepts, by the sizes it checks in UTF-16 units, stays under the
  // reader's limits in bytes: nothing is truncated, and the client gets the manifest's
  // text and the source as encoded.  An empty source is the one the reader refuses.
  lemma UnpackPacked(j: Codec, manifest: seq<Unit>, source: seq<Unit>)
    requires |manifest| <= MAX_MANIFEST && |source| <= MAX_SOURCE
    ensures Unpacked(j, ToolZip(manifest, source))
         == if source == [] then Err(MissingMember)
            else match ParseManifest(j, TextEncode(manifest))
                 case Err(e) => Err(BadManifest(e))
                 case Ok(m) => Ok(Tool(m, TextEncode(source)))
    ensures |ToolZip(manifest, source)| < 4 * 1048576
  {
    hide TextEncode, Archive, Directory, CollectAll, Utf8, Encoded, Fits, Packed, Members, ParseManifest;
    var m, s := TextEncode(manifest), TextEncode(source);
    TextEncodeAtMostTriples(manifest);
    TextEncodeAtMostTriples(source);
    PackedMembers(manifest, source);
    CollectMembers(m, s);
    MembersFit(m, s);
    EmptyIsEmpty(source);
  }

  lemma EmptyIsEmpty(source: seq<Unit>)
    ensures TextEncode(source) == [] <==> source == []
  {
    hide TextEncode;
    TextEncodeAtMostTriples(source);
  }

  // --- what the reader accepts ---

  // A member below the limit is read exactly when its bytes are as many as declared and
  // its checksum is absent or right; one that reaches the limit is cut off there, unless
  // more is read than was declared.
  lemma ReadsExactlyWhen(b: seq<Byte>, h: Header, data: seq<Byte>, limit: nat, got: seq<Byte>)
    requires Section(b, h) == Some(data)
    ensures |data| < limit ==>
              (ReadZip(b, h, limit) == Some(got) <==> got == data && |data| == h.size && (h.crc == 0 || Crc32(data) == h.crc))
    ensures |data| >= limit ==>
              (ReadZip(b, h, limit) == Some(got) <==> got == data[..limit] && limit <= h.size)
  {
    hide Crc32, Section;
  }

  lemma {:induction false} CollectSnoc(b: seq<Byte>, hs: seq<Header>, h: Header, f: Found)
    ensures CollectAll(b, hs + [h], f)
         == match CollectAll(b, hs, f) case None => None case Some(g) => Collect(b, h, g)
    decreases |hs|
  {
    hide Collect;
    if hs == [] {
      assert [] + [h] == [h] && [h][1..] == [];
    } else {
      assert (hs + [h])[1..] == hs[1..] + [h];
      if Collect(b, hs[0], f).Some? {
        CollectSnoc(b, hs[1..], h, Collect(b, hs[0], f).value);
      }
    }
  }

  // The last member called manifest.json, or tool.js, is the one that counts, up to 1 and
  // 4 MiB; any unreadable one among them fails the whole artifact; others do not matter.
  lemma LastMemberCounts(b: seq<Byte>, hs: seq<Header>, h: Header, f: Found)
    requires CollectAll(b, hs, Found(None, [])) == Some(f)
    ensures var all := CollectAll(b, hs + [h], Found(None, []));
            && (h.name == Utf8(MANIFEST_JSON) ==>
                  all == match ReadZip(b, h, 1048576) case Some(d) => Some(Found(Some(d), f.source)) case None => None)
            && (h.name == Utf8(TOOL_JS) ==>
                  all == match ReadZip(b, h, 4194304) case Some(d) => Some(Found(f.manifest, d)) case None => None)
            && (h.name != Utf8(MANIFEST_JSON) && h.name != Utf8(TOOL_JS) ==> all == Some(f))
  {
    hide ReadZip, Utf8, CollectAll;
    NamesDiffer();
    CollectSnoc(b, hs, h, Found(None, []));
  }

  // What unpacking says, in the order in which it looks: an archive without a directory, a
  // member that cannot be read, no manifest or an empty source, a manifest that does not
  // parse.
  lemma UnpackAnswers(j: Codec, b: seq<Byte>)
    ensures Directory(b).None? ==> Unpacked(j, b) == Err(BadArtifact)
    ensures Directory(b).Some? ==>
              match CollectAll(b, Directory(b).value, Found(None, []))
              case None => Unpacked(j, b) == Err(BadMember)
              case Some(f) =>
                if f.manifest.None? || |f.source| == 0 then Unpacked(j, b) == Err(MissingMember)
                else match ParseManifest(j, f.manifest.value)
                  case Err(e) => Unpacked(j, b) == Err(BadManifest(e))
                  case Ok(m) => Unpacked(j, b) == Ok(Tool(m, f.source))
  {
    hide Directory, CollectAll, ParseManifest;
  }

  lemma MemberNames()
    ensures |MANIFEST_JSON| == 13 && forall i :: 0 <= i < 13 ==> MANIFEST_JSON[i] as int == "manifest.json"[i] as int
    ensures |TOOL_JS| == 7 && forall i :: 0 <= i < 7 ==> TOOL_JS[i] as int == "tool.js"[i] as int
  {
    forall i | 0 <= i < 13 ensures MANIFEST_JSON[i] as int == "manifest.json"[i] as int {
      assert i in {0, 1, 2, 3, 4, 5, 6, 7, 8, 9, 10, 11, 12};
    }
    forall i | 0 <= i < 7 ensures TOOL_JS[i] as int == "tool.js"[i] as int {
      assert i in {0, 1, 2, 3, 4, 5, 6};
    }
  }
}
