/**
 The stored-only ZIP archive of zip.js, record by record, against a reader that follows
 PKWARE's APPNOTE.TXT: find the end record (4.3.16), walk the central directory
 (4.3.12) and follow each local offset (4.3.7).
 */
module Zip {
  import opened Wrappers
  import opened Utf
  import opened Lines
  import opened Crc

  // A member by its encoded name and content.
  datatype Entry = Entry(name: seq<Byte>, data: seq<Byte>)

  // What makeZip keeps of a member for the central directory.
  datatype File = File(name: seq<Byte>, crc: bv32, size: nat, offset: nat)

  // --- little-endian fields; a DataView keeps the low bits of what it is given ---

  function Int(b: Byte): nat {
    b as int
  }

  // The byte of value n.
  function ToByte(n: nat): (b: Byte)
    requires n < 256
    ensures Int(b) == n
  {
    if n == 0 then 0 else ToByte(n - 1) + 1
  }

  function LowByte(x: nat): Byte {
    ToByte(x % 256)
  }

  function Le16(x: nat): (r: seq<Byte>)
    ensures |r| == 2
  {
    [LowByte(x), LowByte(x / 256)]
  }

  function Le32(x: nat): (r: seq<Byte>)
    ensures |r| == 4
  {
    [LowByte(x), LowByte(x / 256), LowByte(x / 0x1_0000), LowByte(x / 0x100_0000)]
  }

  function LeCrc(c: bv32): (r: seq<Byte>)
    ensures |r| == 4
  {
    [(c & 0xFF) as Byte, ((c >> 8) & 0xFF) as Byte, ((c >> 16) & 0xFF) as Byte, ((c >> 24) & 0xFF) as Byte]
  }

  function Word(b0: Byte, b1: Byte): nat {
    Int(b0) + 256 * Int(b1)
  }

  function Get16(b: seq<Byte>, p: nat): nat
    requires p + 2 <= |b|
  {
    Word(b[p], b[p + 1])
  }

  function Get32(b: seq<Byte>, p: nat): nat
    requires p + 4 <= |b|
  {
    Word(b[p], b[p + 1]) + 0x1_0000 * Word(b[p + 2], b[p + 3])
  }

  function CrcOf(b0: Byte, b1: Byte, b2: Byte, b3: Byte): bv32 {
    (b0 as bv32) | ((b1 as bv32) << 8) | ((b2 as bv32) << 16) | ((b3 as bv32) << 24)
  }

  function GetCrc(b: seq<Byte>, p: nat): bv32
    requires p + 4 <= |b|
  {
    CrcOf(b[p], b[p + 1], b[p + 2], b[p + 3])
  }

  lemma LowIsInt(x: nat)
    ensures Int(LowByte(x)) == x % 256
  {
    hide Int;
  }

  lemma Digits16(x: nat)
    requires x < 0x1_0000
    ensures x % 256 + 256 * (x / 256 % 256) == x
  {}

  lemma Word16(x: nat)
    requires x < 0x1_0000
    ensures Word(LowByte(x), LowByte(x / 256)) == x
  {
    hide LowByte, Int;
    LowIsInt(x);
    LowIsInt(x / 256);
    Digits16(x);
  }

  lemma Word32(x: nat)
    requires x < 0x1_0000_0000
    ensures Word(LowByte(x), LowByte(x / 256)) + 0x1_0000 * Word(LowByte(x / 0x1_0000), LowByte(x / 0x100_0000)) == x
  {
    hide LowByte, Int;
    LowIsInt(x);
    LowIsInt(x / 256);
    LowIsInt(x / 0x1_0000);
    LowIsInt(x / 0x100_0000);
    Digits32(x);
  }

  lemma DivTwice(x: nat)
    ensures x / 256 / 256 == x / 0x1_0000
  {}

  lemma Quotient(x: nat)
    ensures x / 0x1_0000 / 256 == x / 0x100_0000
  {}

  lemma Digits32(x: nat)
    requires x < 0x1_0000_0000
    ensures x % 256 + 256 * (x / 256 % 256) + 0x1_0000 * (x / 0x1_0000 % 256 + 256 * (x / 0x100_0000 % 256)) == x
  {
    var q1, q2, q3 := x / 256, x / 0x1_0000, x / 0x100_0000;
    DivTwice(x);
    DivTwice(q1);
    Quotient(x);
    assert q1 / 256 == q2 && q2 / 256 == q3 && q3 < 256;
    assert x == 256 * q1 + x % 256 && q1 == 256 * q2 + q1 % 256 && q2 == 256 * q3 + q2 % 256 && q3 % 256 == q3;
  }

  lemma CrcBytes(c: bv32)
    ensures CrcOf((c & 0xFF) as Byte, ((c >> 8) & 0xFF) as Byte, ((c >> 16) & 0xFF) as Byte, ((c >> 24) & 0xFF) as Byte) == c
  {}

  // --- the records, field by field ---

  const LOCAL_SIGNATURE := 0x0403_4B50
  const CENTRAL_SIGNATURE := 0x0201_4B50
  const END_SIGNATURE := 0x0605_4B50

  function Zeros(n: nat): (r: seq<Byte>)
    ensures |r| == n && forall k :: 0 <= k < n ==> r[k] == 0
  {
    seq(n, _ => 0)
  }

  // 4.3.7, up to the file name: version 2.0, no flags, stored, no date, no extra field.
  function LocalHead(crc: bv32, size: nat, nameLen: nat): (r: seq<Byte>)
    ensures |r| == 30
  {
    Le32(LOCAL_SIGNATURE) + Le16(20) + Le16(0) + Le16(0) + Le16(0) + Le16(0)
    + LeCrc(crc) + Le32(size) + Le32(size) + Le16(nameLen) + Le16(0)
  }

  // 4.3.12, up to the file name; what the writer leaves out stays zero.
  function CentralHead(f: File): (r: seq<Byte>)
    ensures |r| == 46
  {
    Le32(CENTRAL_SIGNATURE) + Le16(20) + Le16(20) + Zeros(8)
    + LeCrc(f.crc) + Le32(f.size) + Le32(f.size) + Le16(|f.name|) + Zeros(12) + Le32(f.offset)
  }

  // 4.3.16 without a comment.
  function EndRecord(count: nat, cdSize: nat, cdOffset: nat): (r: seq<Byte>)
    ensures |r| == 22
  {
    Le32(END_SIGNATURE) + Zeros(4) + Le16(count) + Le16(count) + Le32(cdSize) + Le32(cdOffset) + Zeros(2)
  }

  function LocalRecord(e: Entry): (r: seq<Byte>)
    ensures |r| == 30 + |e.name| + |e.data|
  {
    LocalHead(Crc32(e.data), |e.data|, |e.name|) + e.name + e.data
  }

  function CentralRecord(f: File): (r: seq<Byte>)
    ensures |r| == 46 + |f.name|
  {
    CentralHead(f) + f.name
  }

  // --- the archive ---

  function FileOf(e: Entry, offset: nat): File {
    File(e.name, Crc32(e.data), |e.data|, offset)
  }

  // Each member with the offset of its local record, the first at `offset`.
  function Files(es: seq<Entry>, offset: nat): (r: seq<File>)
    ensures |r| == |es|
    decreases |es|
  {
    if es == [] then []
    else [FileOf(es[0], offset)] + Files(es[1..], offset + |LocalRecord(es[0])|)
  }

  function Locals(es: seq<Entry>): seq<Byte> {
    if es == [] then [] else LocalRecord(es[0]) + Locals(es[1..])
  }

  function Centrals(fs: seq<File>): seq<Byte> {
    if fs == [] then [] else CentralRecord(fs[0]) + Centrals(fs[1..])
  }

  function Archive(es: seq<Entry>): seq<Byte> {
    var locals, centrals := Locals(es), Centrals(Files(es, 0));
    locals + centrals + EndRecord(|es|, |centrals|, |locals|)
  }

  // --- the reader ---

  datatype Header = Header(name: seq<Byte>, stored: bool, crc: bv32, packed: nat, size: nat, offset: nat)

  datatype Listed = Listed(header: Header, next: nat)

  // The last position at or before i where an end record fits, comment included.
  function FindEnd(b: seq<Byte>, i: nat): (r: Option<nat>)
    requires i + 22 <= |b|
    ensures r.Some? ==> r.value + 22 <= |b|
    decreases i
  {
    if Get32(b, i) == END_SIGNATURE then
      if i + 22 + Get16(b, i + 20) <= |b| then Some(i) else None
    else if i == 0 then None
    else FindEnd(b, i - 1)
  }

  // The central header at p and the position after it.
  function CentralAt(b: seq<Byte>, p: nat): Option<Listed> {
    if p + 46 > |b| || Get32(b, p) != CENTRAL_SIGNATURE then None
    else
      var n := Get16(b, p + 28);
      var next := p + 46 + n + Get16(b, p + 30) + Get16(b, p + 32);
      if next > |b| then None
      else
        var h := Header(b[p + 46..p + 46 + n], Get16(b, p + 10) == 0, GetCrc(b, p + 16),
                        Get32(b, p + 20), Get32(b, p + 24), Get32(b, p + 42));
        Some(Listed(h, next))
  }

  function Walk(b: seq<Byte>, p: nat, n: nat): Option<seq<Header>>
    decreases n
  {
    if n == 0 then Some([])
    else
      match CentralAt(b, p)
      case None => None
      case Some(h) =>
        match Walk(b, h.next, n - 1)
        case None => None
        case Some(rest) => Some([h.header] + rest)
  }

  function Directory(b: seq<Byte>): Option<seq<Header>> {
    if |b| < 22 then None
    else
      match FindEnd(b, |b| - 22)
      case None => None
      case Some(e) => Walk(b, Get32(b, e + 16), Get16(b, e + 10))
  }

  // The stored bytes of a member, found through its local header.
  function Body(b: seq<Byte>, h: Header): Option<seq<Byte>> {
    if !h.stored || h.offset + 30 > |b| || Get32(b, h.offset) != LOCAL_SIGNATURE then None
    else
      var start := h.offset + 30 + Get16(b, h.offset + 26) + Get16(b, h.offset + 28);
      if start + h.packed > |b| then None else Some(b[start..start + h.packed])
  }

  // --- a record in its place ---

  ghost predicate Here(b: seq<Byte>, p: nat, s: seq<Byte>) {
    p + |s| <= |b| && b[p..p + |s|] == s
  }

  lemma Parts(b: seq<Byte>, p: nat, s: seq<Byte>, t: seq<Byte>)
    requires Here(b, p, s + t)
    ensures Here(b, p, s) && Here(b, p + |s|, t)
  {
    assert b[p..p + |s|] == (s + t)[..|s|] == s;
    assert b[p + |s|..p + |s| + |t|] == (s + t)[|s|..] == t;
  }

  lemma Read16(b: seq<Byte>, p: nat, x: nat)
    requires Here(b, p, Le16(x)) && x < 0x1_0000
    ensures Get16(b, p) == x
  {
    hide LowByte, Word;
    assert b[p] == Le16(x)[0] && b[p + 1] == Le16(x)[1];
    Word16(x);
  }

  lemma Read32(b: seq<Byte>, p: nat, x: nat)
    requires Here(b, p, Le32(x)) && x < 0x1_0000_0000
    ensures Get32(b, p) == x
  {
    hide LowByte, Word;
    var s := b[p..p + 4];
    assert b[p] == s[0] && b[p + 1] == s[1] && b[p + 2] == s[2] && b[p + 3] == s[3];
    Word32(x);
  }

  lemma ReadCrc(b: seq<Byte>, p: nat, c: bv32)
    requires Here(b, p, LeCrc(c))
    ensures GetCrc(b, p) == c
  {
    hide CrcOf;
    var s := b[p..p + 4];
    assert b[p] == s[0] && b[p + 1] == s[1] && b[p + 2] == s[2] && b[p + 3] == s[3];
    CrcBytes(c);
  }

  lemma ReadZero(b: seq<Byte>, p: nat, n: nat, k: nat)
    requires Here(b, p, Zeros(n)) && k + 2 <= n
    ensures Get16(b, p + k) == 0
  {
    assert b[p + k] == b[p..p + n][k] && b[p + k + 1] == b[p..p + n][k + 1];
  }

  lemma LocalFields(b: seq<Byte>, p: nat, crc: bv32, size: nat, nameLen: nat)
    requires Here(b, p, LocalHead(crc, size, nameLen)) && nameLen < 0x1_0000
    ensures Get32(b, p) == LOCAL_SIGNATURE && Get16(b, p + 26) == nameLen && Get16(b, p + 28) == 0
  {
    hide Here, Le16, Le32, LeCrc, Get16, Get32;
    var sig := Le32(LOCAL_SIGNATURE);
    var toCrc := Le16(20) + Le16(0) + Le16(0) + Le16(0) + Le16(0) + LeCrc(crc) + Le32(size) + Le32(size);
    var name, extra := Le16(nameLen), Le16(0);
    assert LocalHead(crc, size, nameLen) == sig + toCrc + name + extra;
    Parts(b, p, sig + toCrc + name, extra);
    Parts(b, p, sig + toCrc, name);
    Parts(b, p, sig, toCrc);
    Read32(b, p, LOCAL_SIGNATURE);
    Read16(b, p + 26, nameLen);
    Read16(b, p + 28, 0);
  }

  lemma CentralPlaces(b: seq<Byte>, p: nat, f: File)
    requires Here(b, p, CentralHead(f))
    ensures Here(b, p, Le32(CENTRAL_SIGNATURE)) && Here(b, p + 8, Zeros(8)) && Here(b, p + 16, LeCrc(f.crc))
    ensures Here(b, p + 20, Le32(f.size)) && Here(b, p + 24, Le32(f.size)) && Here(b, p + 28, Le16(|f.name|))
    ensures Here(b, p + 30, Zeros(12)) && Here(b, p + 42, Le32(f.offset))
  {
    hide Here, Le16, Le32, LeCrc, Zeros;
    var sig, v, z, c, n := Le32(CENTRAL_SIGNATURE), Le16(20), Le32(f.size), LeCrc(f.crc), Le16(|f.name|);
    Parts(b, p, sig + v + v + Zeros(8) + c + z + z + n + Zeros(12), Le32(f.offset));
    Parts(b, p, sig + v + v + Zeros(8) + c + z + z + n, Zeros(12));
    Parts(b, p, sig + v + v + Zeros(8) + c + z + z, n);
    Parts(b, p, sig + v + v + Zeros(8) + c + z, z);
    Parts(b, p, sig + v + v + Zeros(8) + c, z);
    Parts(b, p, sig + v + v + Zeros(8), c);
    Parts(b, p, sig + v + v, Zeros(8));
    Parts(b, p, sig + v, v);
    Parts(b, p, sig, v);
  }

  lemma CentralFields(b: seq<Byte>, p: nat, f: File)
    requires Here(b, p, CentralHead(f)) && p + 46 <= |b|
    requires |f.name| < 0x1_0000 && f.size < 0x1_0000_0000 && f.offset < 0x1_0000_0000
    ensures Get32(b, p) == CENTRAL_SIGNATURE && Get16(b, p + 10) == 0 && GetCrc(b, p + 16) == f.crc
    ensures Get32(b, p + 20) == f.size && Get32(b, p + 24) == f.size && Get32(b, p + 42) == f.offset
    ensures Get16(b, p + 28) == |f.name| && Get16(b, p + 30) == 0 && Get16(b, p + 32) == 0
  {
    hide Here, Le16, Le32, LeCrc, Zeros, Get16, Get32, GetCrc, CentralHead;
    CentralPlaces(b, p, f);
    Read32(b, p, CENTRAL_SIGNATURE);
    ReadZero(b, p + 8, 8, 2);
    ReadCrc(b, p + 16, f.crc);
    Read32(b, p + 20, f.size);
    Read32(b, p + 24, f.size);
    Read16(b, p + 28, |f.name|);
    ReadZero(b, p + 30, 12, 0);
    ReadZero(b, p + 30, 12, 2);
    Read32(b, p + 42, f.offset);
  }

  lemma EndFields(b: seq<Byte>, p: nat, count: nat, cdSize: nat, cdOffset: nat)
    requires Here(b, p, EndRecord(count, cdSize, cdOffset)) && p + 22 <= |b|
    requires count < 0x1_0000 && cdSize < 0x1_0000_0000 && cdOffset < 0x1_0000_0000
    ensures Get32(b, p) == END_SIGNATURE && Get16(b, p + 10) == count && Get32(b, p + 12) == cdSize
    ensures Get32(b, p + 16) == cdOffset && Get16(b, p + 20) == 0
  {
    hide Here, Le16, Le32, Zeros, Get16, Get32;
    var sig, n, z, o := Le32(END_SIGNATURE), Le16(count), Le32(cdSize), Le32(cdOffset);
    Parts(b, p, sig + Zeros(4) + n + n + z + o, Zeros(2));
    Parts(b, p, sig + Zeros(4) + n + n + z, o);
    Parts(b, p, sig + Zeros(4) + n + n, z);
    Parts(b, p, sig + Zeros(4) + n, n);
    Parts(b, p, sig + Zeros(4), n);
    Parts(b, p, sig, Zeros(4));
    Read32(b, p, END_SIGNATURE);
    Read16(b, p + 10, count);
    Read32(b, p + 12, cdSize);
    Read32(b, p + 16, cdOffset);
    ReadZero(b, p + 20, 2, 0);
  }

  // --- the round trip ---

  // What fits the 16 and 32-bit fields.
  ghost predicate Fits(es: seq<Entry>) {
    && |es| < 0x1_0000
    && |Locals(es)| < 0x1_0000_0000
    && |Centrals(Files(es, 0))| < 0x1_0000_0000
    && NamesFit(es)
  }

  ghost predicate NamesFit(es: seq<Entry>) {
    forall i :: 0 <= i < |es| ==> |es[i].name| < 0x1_0000
  }

  lemma NamesFitRest(es: seq<Entry>)
    requires es != [] && NamesFit(es)
    ensures |es[0].name| < 0x1_0000 && NamesFit(es[1..])
  {
    forall i | 0 <= i < |es[1..]| ensures |es[1..][i].name| < 0x1_0000 {
      assert es[1..][i] == es[i + 1];
    }
  }

  function HeaderOf(f: File): Header {
    Header(f.name, true, f.crc, f.size, f.size, f.offset)
  }

  function Headers(fs: seq<File>): (r: seq<Header>)
    ensures |r| == |fs| && forall i :: 0 <= i < |fs| ==> r[i] == HeaderOf(fs[i])
  {
    if fs == [] then [] else [HeaderOf(fs[0])] + Headers(fs[1..])
  }

  lemma ReadCentral(b: seq<Byte>, p: nat, f: File)
    requires Here(b, p, CentralRecord(f))
    requires |f.name| < 0x1_0000 && f.size < 0x1_0000_0000 && f.offset < 0x1_0000_0000
    ensures CentralAt(b, p) == Some(Listed(HeaderOf(f), p + |CentralRecord(f)|))
  {
    hide CentralHead, Get16, Get32, GetCrc;
    assert p + 46 + |f.name| <= |b|;
    Parts(b, p, CentralHead(f), f.name);
    CentralFields(b, p, f);
  }

  lemma ReadLocal(b: seq<Byte>, e: Entry, offset: nat)
    requires Here(b, offset, LocalRecord(e)) && |e.name| < 0x1_0000
    ensures Body(b, HeaderOf(FileOf(e, offset))) == Some(e.data)
  {
    hide LocalHead, Crc32, Get16, Get32;
    var f := LocalHead(Crc32(e.data), |e.data|, |e.name|);
    assert offset + 30 + |e.name| + |e.data| <= |b|;
    Parts(b, offset, f + e.name, e.data);
    Parts(b, offset, f, e.name);
    LocalFields(b, offset, Crc32(e.data), |e.data|, |e.name|);
  }

  lemma WalkOne(b: seq<Byte>, p: nat, n: nat, h: Header, next: nat, rest: seq<Header>)
    requires CentralAt(b, p) == Some(Listed(h, next)) && Walk(b, next, n) == Some(rest)
    ensures Walk(b, p, n + 1) == Some([h] + rest)
  {
    hide CentralAt;
  }

  lemma LocalsCons(es: seq<Entry>, offset: nat)
    requires es != []
    ensures Locals(es) == LocalRecord(es[0]) + Locals(es[1..])
    ensures Files(es, offset) == [FileOf(es[0], offset)] + Files(es[1..], offset + |LocalRecord(es[0])|)
    ensures |LocalRecord(es[0])| == 30 + |es[0].name| + |es[0].data|
  {
    hide LocalRecord;
  }

  lemma CentralsCons(f: File, fs: seq<File>)
    ensures Centrals([f] + fs) == CentralRecord(f) + Centrals(fs)
    ensures Headers([f] + fs) == [HeaderOf(f)] + Headers(fs)
  {
    hide CentralRecord;
    assert ([f] + fs)[1..] == fs;
  }

  lemma WalkOn(b: seq<Byte>, p: nat, f: File, fs: seq<File>, n: nat)
    requires Here(b, p, Centrals([f] + fs))
    requires |f.name| < 0x1_0000 && f.size < 0x1_0000_0000 && f.offset < 0x1_0000_0000
    ensures var next: nat := p + |CentralRecord(f)|;
            && Here(b, next, Centrals(fs))
            && (Walk(b, next, n) == Some(Headers(fs)) ==> Walk(b, p, n + 1) == Some(Headers([f] + fs)))
  {
    hide CentralAt, CentralRecord, Here, Centrals, Headers, Walk;
    CentralsCons(f, fs);
    Parts(b, p, CentralRecord(f), Centrals(fs));
    ReadCentral(b, p, f);
    var next: nat := p + |CentralRecord(f)|;
    if Walk(b, next, n) == Some(Headers(fs)) {
      WalkOne(b, p, n, HeaderOf(f), next, Headers(fs));
    }
  }

  lemma {:induction false} WalkReadsAll(b: seq<Byte>, p: nat, es: seq<Entry>, offset: nat)
    requires Here(b, p, Centrals(Files(es, offset))) && NamesFit(es)
    requires offset + |Locals(es)| < 0x1_0000_0000
    ensures Walk(b, p, |es|) == Some(Headers(Files(es, offset)))
    decreases |es|
  {
    hide CentralRecord, LocalRecord, Here, NamesFit, Locals, Centrals, Headers, Crc32;
    if es == [] {
      NothingListed();
    } else {
      hide Files, Walk;
      var e := es[0];
      LocalsCons(es, offset);
      NamesFitRest(es);
      var f, rest: nat := FileOf(e, offset), offset + |LocalRecord(e)|;
      WalkOn(b, p, f, Files(es[1..], rest), |es| - 1);
      WalkReadsAll(b, p + |CentralRecord(f)|, es[1..], rest);
    }
  }

  lemma NothingListed()
    ensures Headers([]) == []
  {}

  lemma {:induction false} BodiesReadBack(b: seq<Byte>, es: seq<Entry>, offset: nat)
    requires Here(b, offset, Locals(es)) && NamesFit(es)
    ensures forall i :: 0 <= i < |es| ==> Body(b, HeaderOf(Files(es, offset)[i])) == Some(es[i].data)
    decreases |es|
  {
    hide Body, Here, LocalRecord, FileOf, HeaderOf, NamesFit, Locals, Files;
    if es != [] {
      LocalsCons(es, offset);
      NamesFitRest(es);
      var fs := Files(es[1..], offset + |LocalRecord(es[0])|);
      Parts(b, offset, LocalRecord(es[0]), Locals(es[1..]));
      ReadLocal(b, es[0], offset);
      BodiesReadBack(b, es[1..], offset + |LocalRecord(es[0])|);
      forall i | 0 <= i < |es| ensures Body(b, HeaderOf(Files(es, offset)[i])) == Some(es[i].data) {
        if i > 0 {
          assert Files(es, offset)[i] == fs[i - 1] && es[i] == es[1..][i - 1];
        }
      }
    }
  }

  lemma ArchiveParts(es: seq<Entry>)
    ensures var b, l, c := Archive(es), Locals(es), Centrals(Files(es, 0));
            && |b| == |l| + |c| + 22
            && Here(b, 0, l) && Here(b, |l|, c)
            && Here(b, |l| + |c|, EndRecord(|es|, |c|, |l|))
  {
    hide Locals, Centrals, EndRecord, Files;
    var b, l, c := Archive(es), Locals(es), Centrals(Files(es, 0));
    var z := EndRecord(|es|, |c|, |l|);
    assert Here(b, 0, (l + c) + z);
    Parts(b, 0, l + c, z);
    Parts(b, 0, l, c);
  }

  lemma DirectoryFound(b: seq<Byte>, hs: seq<Header>)
    requires |b| >= 22 && Get32(b, |b| - 22) == END_SIGNATURE && Get16(b, |b| - 2) == 0
    requires Walk(b, Get32(b, |b| - 6), Get16(b, |b| - 12)) == Some(hs)
    ensures Directory(b) == Some(hs)
  {
    hide Get16, Get32, Walk;
    assert FindEnd(b, |b| - 22) == Some(|b| - 22);
  }

  // Every archive the writer makes within the field limits reads back, through its
  // end record, central directory and local headers, as the same names, checksums,
  // sizes and bytes, in order.
  lemma ZipRoundTrip(es: seq<Entry>)
    requires Fits(es)
    ensures var b, hs := Archive(es), Headers(Files(es, 0));
            && Directory(b) == Some(hs)
            && forall i :: 0 <= i < |es| ==>
                 && hs[i].name == es[i].name
                 && hs[i].crc == Crc32(es[i].data)
                 && hs[i].packed == hs[i].size == |es[i].data|
                 && Body(b, hs[i]) == Some(es[i].data)
  {
    hide Locals, Centrals, EndRecord, Walk, Get16, Get32, Body, Files, Archive, Here, Crc32, NamesFit, Directory;
    var b, l, c := Archive(es), Locals(es), Centrals(Files(es, 0));
    ArchiveParts(es);
    EndFields(b, |l| + |c|, |es|, |c|, |l|);
    WalkReadsAll(b, |l|, es, 0);
    DirectoryFound(b, Headers(Files(es, 0)));
    BodiesReadBack(b, es, 0);
    FilesMatch(es, 0);
  }

  lemma {:induction false} FilesMatch(es: seq<Entry>, offset: nat)
    ensures forall i :: 0 <= i < |es| ==> Files(es, offset)[i] == FileOf(es[i], Files(es, offset)[i].offset)
    decreases |es|
  {
    hide Crc32, LocalRecord;
    if es != [] {
      var rest := Files(es[1..], offset + |LocalRecord(es[0])|);
      FilesMatch(es[1..], offset + |LocalRecord(es[0])|);
      forall i | 0 <= i < |es| ensures Files(es, offset)[i] == FileOf(es[i], Files(es, offset)[i].offset) {
        if i > 0 {
          assert Files(es, offset)[i] == rest[i - 1] && es[i] == es[1..][i - 1];
        }
      }
    }
  }

  // Where the local record of member i ends: at the next one, or at the end of them all.
  function EndOf(es: seq<Entry>, offset: nat, i: nat): nat
    requires i < |es|
  {
    if i + 1 < |es| then Files(es, offset)[i + 1].offset else offset + |Locals(es)|
  }

  // The local records tile the archive from its start to the central directory: no gap
  // and no overlap.
  lemma {:induction false} RecordsTile(es: seq<Entry>, offset: nat)
    ensures forall i :: 0 <= i < |es| ==>
              Files(es, offset)[i].offset + 30 + |es[i].name| + |es[i].data| == EndOf(es, offset, i)
    ensures es != [] ==> Files(es, offset)[0].offset == offset
    decreases |es|
  {
    hide LocalRecord, Crc32, Files, Locals;
    if es != [] {
      var rest := offset + |LocalRecord(es[0])|;
      LocalsCons(es, offset);
      RecordsTile(es[1..], rest);
      NothingStored(es[1..]);
      forall i | 0 <= i < |es|
        ensures Files(es, offset)[i].offset + 30 + |es[i].name| + |es[i].data| == EndOf(es, offset, i)
      {
        if i + 1 < |es| {
          assert Files(es, offset)[i + 1] == Files(es[1..], rest)[i];
        }
        if i > 0 {
          assert Files(es, offset)[i] == Files(es[1..], rest)[i - 1] && es[i] == es[1..][i - 1];
          assert EndOf(es, offset, i) == EndOf(es[1..], rest, i - 1);
        }
      }
    }
  }

  lemma NothingStored(es: seq<Entry>)
    ensures es == [] ==> Locals(es) == []
  {}

  // --- the records byte for byte, against APPNOTE.TXT ---

  lemma SameByte(a: Byte, b: Byte)
    requires Int(a) == Int(b)
    ensures a == b
  {}

  lemma ByteIs(x: nat, b: Byte)
    requires x % 256 == Int(b)
    ensures LowByte(x) == b
  {
    hide LowByte, Int;
    LowIsInt(x);
    SameByte(LowByte(x), b);
  }

  lemma Ints()
    ensures Int(0) == 0 && Int(1) == 1 && Int(2) == 2 && Int(3) == 3 && Int(4) == 4 && Int(5) == 5 && Int(6) == 6
    ensures Int(20) == 20 && Int(0x50) == 0x50 && Int(0x4B) == 0x4B
  {}

  lemma Signatures()
    ensures Le32(LOCAL_SIGNATURE) == [0x50, 0x4B, 0x03, 0x04]
    ensures Le32(CENTRAL_SIGNATURE) == [0x50, 0x4B, 0x01, 0x02]
    ensures Le32(END_SIGNATURE) == [0x50, 0x4B, 0x05, 0x06]
  {
    hide LowByte, Int;
    Ints();
    ByteIs(0x0403_4B50, 0x50); ByteIs(0x0403_4B50 / 256, 0x4B); ByteIs(0x0403_4B50 / 0x1_0000, 3); ByteIs(0x0403_4B50 / 0x100_0000, 4);
    ByteIs(0x0201_4B50, 0x50); ByteIs(0x0201_4B50 / 256, 0x4B); ByteIs(0x0201_4B50 / 0x1_0000, 1); ByteIs(0x0201_4B50 / 0x100_0000, 2);
    ByteIs(0x0605_4B50, 0x50); ByteIs(0x0605_4B50 / 256, 0x4B); ByteIs(0x0605_4B50 / 0x1_0000, 5); ByteIs(0x0605_4B50 / 0x100_0000, 6);
  }

  lemma SmallFields()
    ensures Le16(20) == [20, 0] && Le16(0) == [0, 0]
  {
    hide LowByte, Int;
    Ints();
    ByteIs(20, 20);
    ByteIs(20 / 256, 0);
    ByteIs(0, 0);
    ByteIs(0 / 256, 0);
  }

  // A local header: signature, version 2.0, no flags, stored, no time or date, checksum,
  // size packed and unpacked, length of the name, no extra field.
  lemma LocalLayout(crc: bv32, size: nat, nameLen: nat)
    ensures var h := LocalHead(crc, size, nameLen);
            && h[0..4] == [0x50, 0x4B, 0x03, 0x04] && h[4..6] == [20, 0] && h[6..14] == [0, 0, 0, 0, 0, 0, 0, 0]
            && h[14..18] == LeCrc(crc) && h[18..22] == Le32(size) && h[22..26] == Le32(size)
            && h[26..28] == Le16(nameLen) && h[28..30] == [0, 0]
  {
    hide Le16, Le32, LeCrc;
    Signatures();
    SmallFields();
    var h := LocalHead(crc, size, nameLen);
    assert h[6..14] == Le16(0) + Le16(0) + Le16(0) + Le16(0);
  }

  // A central header: signature, made by and needing version 2.0, the rest as in the local
  // header, no extra field, comment, disk or attributes, and the local header's offset.
  lemma CentralLayout(f: File)
    ensures var h := CentralHead(f);
            && h[0..4] == [0x50, 0x4B, 0x01, 0x02] && h[4..6] == [20, 0] && h[6..8] == [20, 0]
            && h[8..16] == [0, 0, 0, 0, 0, 0, 0, 0]
            && h[16..20] == LeCrc(f.crc) && h[20..24] == Le32(f.size) && h[24..28] == Le32(f.size)
            && h[28..30] == Le16(|f.name|) && h[30..42] == [0, 0, 0, 0, 0, 0, 0, 0, 0, 0, 0, 0]
            && h[42..46] == Le32(f.offset)
  {
    hide Le16, Le32, LeCrc;
    Signatures();
    SmallFields();
    assert CentralHead(f)[8..16] == Zeros(8);
    assert CentralHead(f)[30..42] == Zeros(12);
  }

  // The end record: signature, one disk, the number of members twice, size and offset of
  // the central directory, no comment.
  lemma EndLayout(count: nat, cdSize: nat, cdOffset: nat)
    ensures var r := EndRecord(count, cdSize, cdOffset);
            && r[0..4] == [0x50, 0x4B, 0x05, 0x06] && r[4..8] == [0, 0, 0, 0]
            && r[8..10] == Le16(count) && r[10..12] == Le16(count)
            && r[12..16] == Le32(cdSize) && r[16..20] == Le32(cdOffset) && r[20..22] == [0, 0]
  {
    hide Le16, Le32;
    Signatures();
    assert EndRecord(count, cdSize, cdOffset)[4..8] == Zeros(4);
    assert EndRecord(count, cdSize, cdOffset)[20..22] == Zeros(2);
  }

  // The name follows the header, the data the name.
  lemma RecordLayout(e: Entry, f: File)
    ensures LocalRecord(e)[..30] == LocalHead(Crc32(e.data), |e.data|, |e.name|)
    ensures LocalRecord(e)[30..30 + |e.name|] == e.name && LocalRecord(e)[30 + |e.name|..] == e.data
    ensures CentralRecord(f)[..46] == CentralHead(f) && CentralRecord(f)[46..] == f.name
  {
    hide LocalHead, CentralHead, Crc32;
  }

  // The archive is the local records, the central directory and the end record, which
  // gives the number of members and where the directory is.
  lemma ArchiveLayout(es: seq<Entry>)
    ensures var a, l, c := Archive(es), |Locals(es)|, |Centrals(Files(es, 0))|;
            && a[..l] == Locals(es) && a[l..l + c] == Centrals(Files(es, 0)) && a[l + c..] == EndRecord(|es|, c, l)
  {
    hide Locals, Centrals, EndRecord, Files;
  }

  // The fields are little-endian.
  lemma FieldsAreLittleEndian(x: nat)
    ensures x < 0x1_0000 ==> Int(Le16(x)[0]) + 256 * Int(Le16(x)[1]) == x
    ensures x < 0x1_0000_0000 ==>
              Int(Le32(x)[0]) + 256 * Int(Le32(x)[1]) + 0x1_0000 * Int(Le32(x)[2]) + 0x100_0000 * Int(Le32(x)[3]) == x
  {
    hide LowByte, Int;
    if x < 0x1_0000 {
      Word16(x);
    }
    if x < 0x1_0000_0000 {
      Word32(x);
    }
  }

  lemma ChecksumIsLittleEndian(c: bv32)
    ensures (LeCrc(c)[0] as bv32) | ((LeCrc(c)[1] as bv32) << 8) | ((LeCrc(c)[2] as bv32) << 16) | ((LeCrc(c)[3] as bv32) << 24) == c
  {}
}
