/**
 Manifests and grants as values, with encoding/json as printing and parsing functions
 that undo each other up to how raw messages are spelt.
 */
module Manifest {
  import opened Wrappers
  import opened Utf
  import opened Sign

  // paramsSchema is the raw JSON text of the field; a list that is null or missing is None.
  datatype Manifest = Manifest(
    name: string, version: string, description: string, author: string, paramsSchema: string,
    hosts: Option<seq<string>>, credentials: Option<seq<string>>, namespace: string, quotaBytes: int,
    memPages: nat, wallMs: int)

  datatype Grant = Grant(
    hosts: Option<seq<string>>, credentials: Option<seq<string>>, namespace: string, quotaBytes: int,
    wall: int, memPages: nat, manifestHash: string)

  // decode refuses what json.Decoder refuses, unknown fields included; compact is what
  // printing does to a raw message: white space goes, and <, > and & are escaped.
  datatype Codec = Codec(
    compact: string -> string,
    canonical: Manifest -> seq<Byte>,
    decode: seq<Byte> -> Option<Manifest>,
    marshal: Grant -> seq<Byte>,
    unmarshal: seq<Byte> -> Option<Grant>)

  ghost predicate Lawful(j: Codec) {
    && (forall s :: j.compact(j.compact(s)) == j.compact(s))
    && (forall m :: j.decode(j.canonical(m)) == Some(Compacted(j, m)))
    && (forall m :: j.canonical(Compacted(j, m)) == j.canonical(m))
    && (forall g :: j.unmarshal(j.marshal(g)) == Some(g))
  }

  function Compacted(j: Codec, m: Manifest): Manifest {
    m.(paramsSchema := j.compact(m.paramsSchema))
  }

  datatype ManifestError = Undecodable | NameAndVersionRequired

  predicate Complete(m: Manifest) {
    m.name != "" && m.version != ""
  }

  // The storage namespace defaults to the tool's name.
  function Defaulted(m: Manifest): Manifest {
    if m.namespace == "" then m.(namespace := m.name) else m
  }

  function ParseManifest(j: Codec, b: seq<Byte>): Result<Manifest, ManifestError> {
    match j.decode(b)
    case None => Err(Undecodable)
    case Some(m) => if Complete(m) then Ok(Defaulted(m)) else Err(NameAndVersionRequired)
  }

  function Hash(c: Crypto, j: Codec, m: Manifest): string {
    c.hash(j.canonical(m))
  }

  // Parsing what was stored gives the manifest back, compacted, and parsing once more
  // changes nothing, so that its hash is stable.
  lemma {:induction false} ParseCanonical(j: Codec, m: Manifest)
    requires Lawful(j)
    ensures ParseManifest(j, j.canonical(m))
         == if Complete(m) then Ok(Defaulted(Compacted(j, m))) else Err(NameAndVersionRequired)
    ensures ParseManifest(j, j.canonical(m)).Err? <==> m.name == "" || m.version == ""
    ensures ParseManifest(j, j.canonical(m)).Ok? ==>
              ParseManifest(j, j.canonical(m)).value
              == m.(paramsSchema := j.compact(m.paramsSchema), namespace := if m.namespace == "" then m.name else m.namespace)
    ensures Complete(m) ==>
              ParseManifest(j, j.canonical(Defaulted(Compacted(j, m)))) == Ok(Defaulted(Compacted(j, m)))
  {
    var n := Defaulted(Compacted(j, m));
    assert j.decode(j.canonical(m)) == Some(Compacted(j, m));
    assert j.decode(j.canonical(n)) == Some(Compacted(j, n));
    assert j.compact(j.compact(m.paramsSchema)) == j.compact(m.paramsSchema);
    assert Compacted(j, n) == n;
  }

  // Equal hashes mean manifests equal up to how their schema is spelt.
  lemma {:induction false} HashIdentifies(c: Crypto, j: Codec, m: Manifest, n: Manifest)
    requires Ideal(c) && Lawful(j)
    ensures Hash(c, j, m) == Hash(c, j, n) <==> Compacted(j, m) == Compacted(j, n)
  {
    if Hash(c, j, m) == Hash(c, j, n) {
      assert j.decode(j.canonical(m)) == j.decode(j.canonical(n));
    }
    if Compacted(j, m) == Compacted(j, n) {
      assert j.canonical(m) == j.canonical(Compacted(j, m)) == j.canonical(Compacted(j, n)) == j.canonical(n);
    }
  }
}
