/**
 The transcoding bootstrap.js does by hand: bytes from the Go host become a
 JavaScript string, that is, a sequence of UTF-16 code units.  The reference is
 RFC 3629 section 3 (UTF-8) and RFC 2781 section 2.1 (UTF-16).
 */
module Utf {
  type Byte = bv8
  type Unit = bv16

  // A Unicode scalar value: any code point that is not a surrogate.
  type Scalar = c: bv32 | c < 0xD800 || 0xE000 <= c <= 0x10FFFF witness 0

  const REPLACEMENT: Scalar := 0xFFFD

  // RFC 3629 section 3, the table of bit distributions.
  function EncodeUtf8(c: Scalar): (b: seq<Byte>)
    ensures 1 <= |b| <= 4
  {
    if c < 0x80 then
      [c as Byte]
    else if c < 0x800 then
      [0xC0 | (c >> 6) as Byte, Trailer(c)]
    else if c < 0x1_0000 then
      [LeadThree(c), Trailer(c >> 6), Trailer(c)]
    else
      [0xF0 | (c >> 18) as Byte, Trailer(c >> 12), Trailer(c >> 6), Trailer(c)]
  }

  function LeadThree(c: bv32): Byte
    requires c < 0x1_0000
  {
    0xE0 | (c >> 12) as Byte
  }

  function Trailer(c: bv32): Byte {
    0x80 | (c & 0x3F) as Byte
  }

  // RFC 2781 section 2.1.
  function EncodeUtf16(c: Scalar): (u: seq<Unit>)
    ensures 1 <= |u| <= 2
  {
    if c < 0x1_0000 then
      [c as Unit]
    else
      var v := c - 0x1_0000;
      [HighHalf(v), LowHalf(v)]
  }

  function HighHalf(v: bv32): Unit
    requires v <= 0xF_FFFF
  {
    0xD800 | (v >> 10) as Unit
  }

  function LowHalf(v: bv32): Unit {
    0xDC00 | (v & 0x3FF) as Unit
  }

  function Utf8(s: seq<Scalar>): seq<Byte> {
    if s == [] then [] else EncodeUtf8(s[0]) + Utf8(s[1..])
  }

  function Utf16(s: seq<Scalar>): seq<Unit> {
    if s == [] then [] else EncodeUtf16(s[0]) + Utf16(s[1..])
  }

  // --- the decoder ---

  // b[i] as a JavaScript number in a bitwise expression: past the end it is
  // undefined, which the bitwise operators turn into 0.
  function At(b: seq<Byte>, i: nat): bv32 {
    if i < |b| then b[i] as bv32 else 0
  }

  // String.fromCharCode keeps the low 16 bits of its argument.
  function CharCode(c: bv32): Unit {
    (c & 0xFFFF) as Unit
  }

  // The code units bootstrap.js makes of a lead byte and its trailing bytes.
  function FromTwo(c: bv32, x: bv32): seq<Unit> {
    [CharCode(((c & 0x1F) << 6) | (x & 0x3F))]
  }

  function FromThree(c: bv32, x: bv32, y: bv32): seq<Unit> {
    [CharCode(ThreeBytes(c, x, y))]
  }

  function ThreeBytes(c: bv32, x: bv32, y: bv32): bv32 {
    ((c & 0x0F) << 12) | ((x & 0x3F) << 6) | (y & 0x3F)
  }

  function CodePoint(c: bv32, x: bv32, y: bv32, z: bv32): bv32 {
    ((c & 0x07) << 18) | ((x & 0x3F) << 12) | ((y & 0x3F) << 6) | (z & 0x3F)
  }

  function Pair(v: bv32): seq<Unit> {
    [CharCode(0xD800 + (v >> 10)), CharCode(0xDC00 + (v & 0x3FF))]
  }

  function FromFour(c: bv32, x: bv32, y: bv32, z: bv32): seq<Unit> {
    Pair(CodePoint(c, x, y, z) - 0x1_0000)
  }

  // What decoding b from position i onwards appends.
  function DecodeFrom(b: seq<Byte>, i: nat): seq<Unit>
    decreases |b| - i
  {
    if i >= |b| then []
    else
      var c := At(b, i);
      if c < 0x80 then [CharCode(c)] + DecodeFrom(b, i + 1)
      else if c < 0xE0 then FromTwo(c, At(b, i + 1)) + DecodeFrom(b, i + 2)
      else if c < 0xF0 then FromThree(c, At(b, i + 1), At(b, i + 2)) + DecodeFrom(b, i + 3)
      else FromFour(c, At(b, i + 1), At(b, i + 2), At(b, i + 3)) + DecodeFrom(b, i + 4)
  }

  function Decode(b: seq<Byte>): seq<Unit> {
    DecodeFrom(b, 0)
  }

  // The loop of bootstrap.js.  Its index runs ahead of the loop test, so a truncated
  // sequence reads past the end.
  method Utf8Decode(b: seq<Byte>) returns (s: seq<Unit>)
    ensures s == Decode(b)
  {
    hide CharCode, FromTwo, FromThree, FromFour;
    s := [];
    var i: nat := 0;
    while i < |b|
      invariant s + DecodeFrom(b, i) == Decode(b)
      decreases |b| - i
    {
      ghost var before, start := s, i;
      var c, units := At(b, i), [];
      i := i + 1;
      if c < 0x80 {
        units := [CharCode(c)];
      } else if c < 0xE0 {
        units := FromTwo(c, At(b, i));
        i := i + 1;
      } else if c < 0xF0 {
        units := FromThree(c, At(b, i), At(b, i + 1));
        i := i + 2;
      } else {
        units := FromFour(c, At(b, i), At(b, i + 1), At(b, i + 2));
        i := i + 3;
      }
      s := s + units;
      assert before + (units + DecodeFrom(b, i)) == s + DecodeFrom(b, i);
    }
  }

  // --- what the decoder promises ---

  // Facts about bits, one per field, kept apart so that each is small.

  lemma TrailerBits(c: bv32)
    ensures 0x80 <= Trailer(c) < 0xC0
    ensures (Trailer(c) as bv32) & 0x3F == c & 0x3F
  {}

  lemma LeadTwoBits(c: bv32)
    requires 0x80 <= c < 0x800
    ensures var a := 0xC0 | (c >> 6) as Byte; 0xC2 <= a < 0xE0 && (a as bv32) & 0x1F == c >> 6
  {}

  lemma LeadThreeBits(c: bv32)
    requires 0x800 <= c < 0x1_0000
    ensures 0xE0 <= LeadThree(c) < 0xF0
  {}

  lemma LeadFourBits(c: bv32)
    requires 0x1_0000 <= c <= 0x10FFFF
    ensures var a := 0xF0 | (c >> 18) as Byte; 0xF0 <= a && (a as bv32) & 0x07 == c >> 18
  {}

  lemma JoinTwo(c: bv32)
    requires c < 0x800
    ensures ((c >> 6) << 6) | (c & 0x3F) == c
  {}

  lemma JoinThree(c: bv32)
    requires c < 0x1_0000
    ensures ThreeBytes(LeadThree(c) as bv32, Trailer(c >> 6) as bv32, Trailer(c) as bv32) == c
  {}

  lemma JoinFour(c: bv32)
    requires 0x1_0000 <= c <= 0x10FFFF
    ensures ((((0xF0 | (c >> 18) as Byte) as bv32) & 0x07) << 18)
          | ((((0x80 | ((c >> 12) & 0x3F) as Byte) as bv32) & 0x3F) << 12)
          | ((((0x80 | ((c >> 6) & 0x3F) as Byte) as bv32) & 0x3F) << 6)
          | (((0x80 | (c & 0x3F) as Byte) as bv32) & 0x3F) == c
  {}

  lemma CharCodeKeeps(c: bv32)
    requires c < 0x1_0000
    ensures CharCode(c) == c as Unit
  {}

  lemma SurrogateBits(v: bv32)
    requires v <= 0xF_FFFF
    ensures v >> 10 <= 0x3FF
    ensures CharCode(0xD800 + (v >> 10)) == HighHalf(v)
    ensures CharCode(0xDC00 + (v & 0x3FF)) == LowHalf(v)
  {}

  lemma TwoInverts(c: Scalar, a: Byte, x: Byte)
    requires 0x80 <= c < 0x800
    requires EncodeUtf8(c) == [a, x]
    ensures 0x80 <= a < 0xE0 && FromTwo(a as bv32, x as bv32) == EncodeUtf16(c)
  {
    LeadTwoBits(c);
    TrailerBits(c);
    JoinTwo(c);
    CharCodeKeeps(c);
  }

  lemma ThreeInverts(c: Scalar, a: Byte, x: Byte, y: Byte)
    requires 0x800 <= c < 0x1_0000
    requires EncodeUtf8(c) == [a, x, y]
    ensures 0xE0 <= a < 0xF0 && FromThree(a as bv32, x as bv32, y as bv32) == EncodeUtf16(c)
  {
    hide ThreeBytes, LeadThree, Trailer, CharCode;
    LeadThreeBits(c);
    JoinThree(c);
    CharCodeKeeps(c);
    assert a == [a, x, y][0] && x == [a, x, y][1] && y == [a, x, y][2];
  }

  lemma PairInverts(c: Scalar)
    requires 0x1_0000 <= c
    ensures Pair(c - 0x1_0000) == EncodeUtf16(c)
  {
    SurrogateBits(c - 0x1_0000);
  }

  lemma FourFields(c: bv32)
    requires 0x1_0000 <= c <= 0x10FFFF
    ensures CodePoint((0xF0 | (c >> 18) as Byte) as bv32, Trailer(c >> 12) as bv32, Trailer(c >> 6) as bv32, Trailer(c) as bv32) == c
  {
    JoinFour(c);
  }

  lemma StepTwo(b: seq<Byte>, i: nat, a: Byte)
    requires i < |b| && b[i] == a && 0x80 <= a < 0xE0
    ensures DecodeFrom(b, i) == FromTwo(a as bv32, At(b, i + 1)) + DecodeFrom(b, i + 2)
  {}

  lemma StepThree(b: seq<Byte>, i: nat, a: Byte)
    requires i < |b| && b[i] == a && 0xE0 <= a < 0xF0
    ensures DecodeFrom(b, i) == FromThree(a as bv32, At(b, i + 1), At(b, i + 2)) + DecodeFrom(b, i + 3)
  {}

  lemma StepFour(b: seq<Byte>, i: nat, a: Byte)
    requires i < |b| && b[i] == a && 0xF0 <= a
    ensures DecodeFrom(b, i)
         == FromFour(a as bv32, At(b, i + 1), At(b, i + 2), At(b, i + 3)) + DecodeFrom(b, i + 4)
  {}

  ghost predicate HasAt(b: seq<Byte>, i: nat, e: seq<Byte>) {
    i + |e| <= |b| && forall k :: 0 <= k < |e| ==> b[i + k] == e[k]
  }

  lemma DecodeFour(c: Scalar, b: seq<Byte>, i: nat)
    requires 0x1_0000 <= c && i + 4 <= |b|
    requires b[i] == 0xF0 | (c >> 18) as Byte && b[i + 1] == Trailer(c >> 12)
    requires b[i + 2] == Trailer(c >> 6) && b[i + 3] == Trailer(c)
    ensures DecodeFrom(b, i) == EncodeUtf16(c) + DecodeFrom(b, i + 4)
  {
    LeadFourBits(c);
    FourFields(c);
    PairInverts(c);
    StepFour(b, i, b[i]);
  }

  lemma DecodeThree(c: Scalar, b: seq<Byte>, i: nat, a: Byte, x: Byte, y: Byte)
    requires 0x800 <= c < 0x1_0000 && EncodeUtf8(c) == [a, x, y]
    requires i + 3 <= |b| && b[i] == a && b[i + 1] == x && b[i + 2] == y
    ensures DecodeFrom(b, i) == EncodeUtf16(c) + DecodeFrom(b, i + 3)
  {
    ThreeInverts(c, a, x, y);
    StepThree(b, i, a);
  }

  lemma AsciiBits(c: bv32)
    requires c < 0x80
    ensures (c as Byte) as bv32 == c
  {}

  lemma DecodeOne(c: Scalar, b: seq<Byte>, i: nat)
    requires c < 0x80 && i < |b| && b[i] == c as Byte
    ensures DecodeFrom(b, i) == EncodeUtf16(c) + DecodeFrom(b, i + 1)
  {
    AsciiBits(c);
    CharCodeKeeps(c);
  }

  lemma DecodeTwo(c: Scalar, b: seq<Byte>, i: nat, a: Byte, x: Byte)
    requires 0x80 <= c < 0x800 && EncodeUtf8(c) == [a, x]
    requires i + 2 <= |b| && b[i] == a && b[i + 1] == x
    ensures DecodeFrom(b, i) == EncodeUtf16(c) + DecodeFrom(b, i + 2)
  {
    TwoInverts(c, a, x);
    StepTwo(b, i, a);
  }

  lemma DecodeStep(c: Scalar, b: seq<Byte>, i: nat, e: seq<Byte>)
    requires e == EncodeUtf8(c) && HasAt(b, i, e)
    ensures DecodeFrom(b, i) == EncodeUtf16(c) + DecodeFrom(b, i + |e|)
  {
    if 0x1_0000 <= c {
      assert b[i + 0] == e[0] && b[i + 1] == e[1] && b[i + 2] == e[2] && b[i + 3] == e[3];
      DecodeFour(c, b, i);
    } else if 0x800 <= c {
      DecodeThree(c, b, i, b[i], b[i + 1], b[i + 2]);
    } else if 0x80 <= c {
      DecodeTwo(c, b, i, b[i], b[i + 1]);
    } else {
      assert b[i + 0] == e[0];
      DecodeOne(c, b, i);
    }
  }

  lemma SuffixStep(b: seq<Byte>, i: nat, e: seq<Byte>, rest: seq<Byte>)
    requires i <= |b| && b[i..] == e + rest
    ensures HasAt(b, i, e) && b[i + |e|..] == rest
  {
    assert forall k :: 0 <= k < |e| ==> b[i + k] == b[i..][k];
  }

  lemma DecodeAtEnd(b: seq<Byte>)
    ensures DecodeFrom(b, |b|) == []
  {}

  lemma {:induction false} DecodeSuffix(b: seq<Byte>, i: nat, s: seq<Scalar>)
    requires i <= |b| && b[i..] == Utf8(s)
    ensures DecodeFrom(b, i) == Utf16(s)
    decreases |s|
  {
    hide EncodeUtf8, EncodeUtf16, DecodeFrom, HasAt;
    if s == [] {
      DecodeAtEnd(b);
    } else {
      var e := EncodeUtf8(s[0]);
      SuffixStep(b, i, e, Utf8(s[1..]));
      DecodeStep(s[0], b, i, e);
      DecodeSuffix(b, i + |e|, s[1..]);
    }
  }

  // Decoding the UTF-8 form of any text gives its UTF-16 form.
  lemma DecodeCorrect(s: seq<Scalar>)
    ensures Decode(Utf8(s)) == Utf16(s)
  {
    DecodeSuffix(Utf8(s), 0, s);
  }

  lemma NewlineInOne(c: Scalar)
    ensures 10 in EncodeUtf8(c) <==> c == 10
  {
    assert forall x: bv32 :: Trailer(x) != 10;
  }

  // Byte 0x0A stands for U+000A and nothing else, so text may be cut at that byte
  // before it is decoded.
  lemma {:induction false} NewlineOnlyFromNewline(s: seq<Scalar>)
    ensures 10 in Utf8(s) <==> 10 in s
  {
    if s != [] {
      NewlineInOne(s[0]);
      NewlineOnlyFromNewline(s[1..]);
      assert s == [s[0]] + s[1..];
    }
  }

  // --- TextEncoder, used by the Worker ---

  predicate High(u: Unit) { 0xD800 <= u < 0xDC00 }
  predicate Low(u: Unit) { 0xDC00 <= u < 0xE000 }

  function Combine(hi: Unit, lo: Unit): Scalar
    requires High(hi) && Low(lo)
  {
    JoinedFits(hi, lo);
    Joined(hi, lo) + 0x1_0000
  }

  // A JavaScript string read as scalar values; a lone surrogate becomes U+FFFD.
  function ToScalars(u: seq<Unit>): seq<Scalar> {
    if u == [] then []
    else if High(u[0]) && |u| >= 2 && Low(u[1]) then [Combine(u[0], u[1])] + ToScalars(u[2..])
    else if High(u[0]) || Low(u[0]) then [REPLACEMENT] + ToScalars(u[1..])
    else [u[0] as bv32] + ToScalars(u[1..])
  }

  function TextEncode(u: seq<Unit>): seq<Byte> {
    Utf8(ToScalars(u))
  }

  lemma JoinedFits(hi: Unit, lo: Unit)
    ensures 0x1_0000 <= Joined(hi, lo) + 0x1_0000 <= 0x10FFFF
  {}

  // The ten bits that each half of a pair carries.
  function Joined(hi: Unit, lo: Unit): bv32 {
    (((hi as bv32) & 0x3FF) << 10) | ((lo as bv32) & 0x3FF)
  }

  lemma CombineBits(v: bv32)
    requires v <= 0xF_FFFF
    ensures Joined(HighHalf(v), LowHalf(v)) == v
  {}

  lemma SurrogateRanges(v: bv32)
    requires v <= 0xF_FFFF
    ensures High(HighHalf(v)) && Low(LowHalf(v))
  {}

  lemma CombineJoins(hi: Unit, lo: Unit)
    requires High(hi) && Low(lo)
    ensures Combine(hi, lo) == Joined(hi, lo) + 0x1_0000
  {
    hide Joined;
  }

  lemma PairRead(c: Scalar, v: bv32)
    requires 0x1_0000 <= c && v == c - 0x1_0000
    ensures High(HighHalf(v)) && Low(LowHalf(v)) && Combine(HighHalf(v), LowHalf(v)) == c
  {
    hide Joined, HighHalf, LowHalf, Combine, High, Low;
    Above(c, v);
    SurrogateRanges(v);
    CombineBits(v);
    CombineJoins(HighHalf(v), LowHalf(v));
  }

  lemma Above(c: Scalar, v: bv32)
    requires 0x1_0000 <= c && v == c - 0x1_0000
    ensures v <= 0xF_FFFF && v + 0x1_0000 == c
  {}

  lemma UnitRead(c: bv32)
    requires c < 0xD800 || 0xE000 <= c < 0x1_0000
    ensures !High(c as Unit) && !Low(c as Unit) && (c as Unit) as bv32 == c
  {}

  lemma ReadPair(c: Scalar, hi: Unit, lo: Unit)
    requires 0x1_0000 <= c && EncodeUtf16(c) == [hi, lo]
    ensures High(hi) && Low(lo) && Combine(hi, lo) == c
  {
    hide Combine, High, Low, HighHalf, LowHalf;
    PairRead(c, c - 0x1_0000);
    assert hi == [hi, lo][0] && lo == [hi, lo][1];
  }

  lemma ReadUnit(c: Scalar, a: Unit)
    requires c < 0x1_0000 && EncodeUtf16(c) == [a]
    ensures !High(a) && !Low(a) && a as bv32 == c
  {
    UnitRead(c);
    assert a == [a][0];
  }

  lemma ToScalarsOne(c: Scalar, e: seq<Unit>, rest: seq<Unit>)
    requires e == EncodeUtf16(c)
    ensures ToScalars(e + rest) == [c] + ToScalars(rest)
  {
    assert (e + rest)[|e|..] == rest;
    if 0x1_0000 <= c {
      ReadPair(c, e[0], e[1]);
    } else {
      ReadUnit(c, e[0]);
    }
  }

  // On text without lone surrogates TextEncoder is UTF-8.
  lemma {:induction false} TextEncodeUtf16(s: seq<Scalar>)
    ensures TextEncode(Utf16(s)) == Utf8(s)
    ensures ToScalars(Utf16(s)) == s
  {
    if s != [] {
      TextEncodeUtf16(s[1..]);
      ToScalarsOne(s[0], EncodeUtf16(s[0]), Utf16(s[1..]));
      assert s == [s[0]] + s[1..];
    }
  }

  // A cap on code units caps the bytes at three times as much: a unit on its own
  // takes at most three bytes and a surrogate pair takes four.
  lemma {:induction false} TextEncodeAtMostTriples(u: seq<Unit>)
    ensures |u| <= |TextEncode(u)| <= 3 * |u|
  {
    if u == [] {
    } else if High(u[0]) && |u| >= 2 && Low(u[1]) {
      var c, rest := Combine(u[0], u[1]), ToScalars(u[2..]);
      assert 0x1_0000 <= c;
      assert ([c] + rest)[1..] == rest;
      TextEncodeAtMostTriples(u[2..]);
    } else {
      var s := ToScalars(u);
      assert s[0] < 0x1_0000;
      assert s[1..] == ToScalars(u[1..]);
      TextEncodeAtMostTriples(u[1..]);
    }
  }

  // One character of each length, in both encodings, as the standards have it, and a
  // truncated one: the missing bytes count as zero.
  lemma EncodingExamples()
    ensures EncodeUtf8(0x24) == [0x24] && EncodeUtf8(0xE9) == [0xC3, 0xA9]
    ensures EncodeUtf8(0x20AC) == [0xE2, 0x82, 0xAC] && EncodeUtf8(0x1_F600) == [0xF0, 0x9F, 0x98, 0x80]
    ensures EncodeUtf16(0x20AC) == [0x20AC] && EncodeUtf16(0x1_F600) == [0xD83D, 0xDE00]
  {}

  lemma TruncatedExample()
    ensures Decode([0xC3]) == [0xC0]
  {
    assert DecodeFrom([0xC3], 2) == [];
    assert FromTwo(0xC3, 0) == [0xC0];
    StepTwo([0xC3], 0, 0xC3);
  }

  // TextEncoder writes U+FFFD for a surrogate without its other half.
  lemma LoneSurrogateExample()
    ensures TextEncode([0xD83D]) == [0xEF, 0xBF, 0xBD]
  {
    assert ToScalars([0xD83D]) == [REPLACEMENT] + ToScalars([]);
    assert [REPLACEMENT][1..] == [];
    assert EncodeUtf8(REPLACEMENT) == [0xEF, 0xBF, 0xBD];
  }
}
