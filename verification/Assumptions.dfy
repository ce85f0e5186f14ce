/**
 What the other modules assume of cryptography and of JSON can be met: for each
 assumption there are functions that meet it.  They print a value as its fields in turn,
 each field as a tally, so that no print is the beginning of another one's.
 */
module Assumptions {
  import opened Wrappers
  import opened Utf
  import opened Values
  import opened Index
  import opened Sign
  import opened Manifest
  import F = Frames
  import R = Registry
  import W = Worker
  import C = Client
  import E = EndToEnd

  // --- codes: each puts a value before the codes of what follows ---

  function BitCode(b: bool, rest: seq<nat>): seq<nat> {
    [if b then 1 else 0] + rest
  }

  function IntCode(i: int, rest: seq<nat>): seq<nat> {
    [if i < 0 then 1 else 0] + ([if i < 0 then -i else i] + rest)
  }

  function TextCode(s: string, rest: seq<nat>): seq<nat> {
    if s == "" then [0] + rest else [1 + s[0] as int] + TextCode(s[1..], rest)
  }

  function ByteCode(b: Byte): (n: nat) {
    b as int
  }

  function BytesCode(b: seq<Byte>, rest: seq<nat>): seq<nat> {
    if b == [] then [0] + rest else [1 + ByteCode(b[0])] + BytesCode(b[1..], rest)
  }

  function ValueCode(v: Value, rest: seq<nat>): seq<nat>
    decreases v
  {
    match v
    case Text(t) => [0] + TextCode(t, rest)
    case Number(n) => [1] + IntCode(n.digits, IntCode(n.exponent, rest))
    case Infinite(positive) => [2] + BitCode(positive, rest)
    case Boolean(on) => [3] + BitCode(on, rest)
    case Null => [4] + rest
    case List(items) => [5] + ItemsCode(items, rest)
    case Object(members) => [6] + MembersCode(members, rest)
  }

  function ItemsCode(items: Items, rest: seq<nat>): seq<nat>
    decreases items
  {
    match items
    case NoItem => [0] + rest
    case Item(head, tail) => [1] + ValueCode(head, ItemsCode(tail, rest))
  }

  function MembersCode(ms: Members, rest: seq<nat>): seq<nat>
    decreases ms
  {
    match ms
    case NoMember => [0] + rest
    case Member(k, v, others) => [1] + TextCode(k, ValueCode(v, MembersCode(others, rest)))
  }

  function VersionCode(v: Version, rest: seq<nat>): seq<nat> {
    ValueCode(v.version, TextCode(v.artifact, TextCode(v.zipSha, BytesCode(v.sourceSig, ValueCode(v.manifest,
      BitCode(v.verified, ValueCode(v.review.verdict, ValueCode(v.review.riskScore, TextCode(v.review.reviewedAt, rest)))))))))
  }

  function VersionsCode(vs: seq<Version>, rest: seq<nat>): seq<nat> {
    if vs == [] then [0] + rest else [1] + VersionCode(vs[0], VersionsCode(vs[1..], rest))
  }

  function ToolCode(t: Tool, rest: seq<nat>): seq<nat> {
    TextCode(t.id, TextCode(t.author, ValueCode(t.name, ValueCode(t.latest, VersionsCode(t.versions, rest)))))
  }

  function ToolsCode(tools: seq<Tool>, rest: seq<nat>): seq<nat> {
    if tools == [] then [0] + rest else [1] + ToolCode(tools[0], ToolsCode(tools[1..], rest))
  }

  function IndexCode(i: Index): seq<nat> {
    TextCode(i.generatedAt, ToolsCode(i.tools, []))
  }

  // --- a code determines the value and what follows ---

  lemma Cons(m: nat, s: seq<nat>, n: nat, t: seq<nat>)
    requires [m] + s == [n] + t
    ensures m == n && s == t
  {
    assert ([m] + s)[0] == ([n] + t)[0] && ([m] + s)[1..] == s && ([n] + t)[1..] == t;
  }

  lemma {:induction false} TextOnce(a: string, b: string, s: seq<nat>, t: seq<nat>)
    requires TextCode(a, s) == TextCode(b, t)
    ensures a == b && s == t
    decreases |a|
  {
    if a == "" && b == "" {
      Cons(0, s, 0, t);
    } else if a != "" && b != "" {
      Cons(1 + a[0] as int, TextCode(a[1..], s), 1 + b[0] as int, TextCode(b[1..], t));
      TextOnce(a[1..], b[1..], s, t);
      assert a == [a[0]] + a[1..] && b == [b[0]] + b[1..];
    } else if a == "" {
      Cons(0, s, 1 + b[0] as int, TextCode(b[1..], t));
    } else {
      Cons(1 + a[0] as int, TextCode(a[1..], s), 0, t);
    }
  }

  lemma ByteOnce(a: Byte, b: Byte)
    requires ByteCode(a) == ByteCode(b)
    ensures a == b
  {}

  lemma {:induction false} BytesOnce(a: seq<Byte>, b: seq<Byte>, s: seq<nat>, t: seq<nat>)
    requires BytesCode(a, s) == BytesCode(b, t)
    ensures a == b && s == t
    decreases |a|
  {
    hide ByteCode;
    if a == [] && b == [] {
      Cons(0, s, 0, t);
    } else if a != [] && b != [] {
      Cons(1 + ByteCode(a[0]), BytesCode(a[1..], s), 1 + ByteCode(b[0]), BytesCode(b[1..], t));
      ByteOnce(a[0], b[0]);
      BytesOnce(a[1..], b[1..], s, t);
      assert a == [a[0]] + a[1..] && b == [b[0]] + b[1..];
    } else if a == [] {
      Cons(0, s, 1 + ByteCode(b[0]), BytesCode(b[1..], t));
    } else {
      Cons(1 + ByteCode(a[0]), BytesCode(a[1..], s), 0, t);
    }
  }

  lemma BitOnce(a: bool, b: bool, s: seq<nat>, t: seq<nat>)
    requires BitCode(a, s) == BitCode(b, t)
    ensures a == b && s == t
  {
    Cons(if a then 1 else 0, s, if b then 1 else 0, t);
  }

  lemma IntOnce(a: int, b: int, s: seq<nat>, t: seq<nat>)
    requires IntCode(a, s) == IntCode(b, t)
    ensures a == b && s == t
  {
    var x: nat, y: nat := if a < 0 then -a else a, if b < 0 then -b else b;
    Cons(if a < 0 then 1 else 0, [x] + s, if b < 0 then 1 else 0, [y] + t);
    Cons(x, s, y, t);
  }

  function Mark(v: Value): nat {
    match v
    case Text(_) => 0
    case Number(_) => 1
    case Infinite(_) => 2
    case Boolean(_) => 3
    case Null => 4
    case List(_) => 5
    case Object(_) => 6
  }

  // What follows the mark.
  function Payload(v: Value, rest: seq<nat>): seq<nat> {
    match v
    case Text(t) => TextCode(t, rest)
    case Number(n) => IntCode(n.digits, IntCode(n.exponent, rest))
    case Infinite(positive) => BitCode(positive, rest)
    case Boolean(on) => BitCode(on, rest)
    case Null => rest
    case List(items) => ItemsCode(items, rest)
    case Object(members) => MembersCode(members, rest)
  }

  lemma MarkAndPayload(v: Value, rest: seq<nat>)
    ensures ValueCode(v, rest) == [Mark(v)] + Payload(v, rest)
  {
    hide TextCode, IntCode, BitCode, ItemsCode, MembersCode;
  }

  lemma {:induction false} ValueOnce(a: Value, b: Value, s: seq<nat>, t: seq<nat>)
    requires ValueCode(a, s) == ValueCode(b, t)
    ensures a == b && s == t
    decreases a
  {
    hide ValueCode, TextCode, IntCode, BitCode, ItemsCode, MembersCode;
    MarkAndPayload(a, s);
    MarkAndPayload(b, t);
    Cons(Mark(a), Payload(a, s), Mark(b), Payload(b, t));
    match a
    case Text(x) => TextOnce(x, b.text, s, t);
    case Number(n) =>
      IntOnce(n.digits, b.number.digits, IntCode(n.exponent, s), IntCode(b.number.exponent, t));
      IntOnce(n.exponent, b.number.exponent, s, t);
    case Infinite(x) => BitOnce(x, b.positive, s, t);
    case Boolean(x) => BitOnce(x, b.on, s, t);
    case Null =>
    case List(x) => ItemsOnce(x, b.items, s, t);
    case Object(x) => MembersOnce(x, b.members, s, t);
  }

  lemma {:induction false} ItemsOnce(a: Items, b: Items, s: seq<nat>, t: seq<nat>)
    requires ItemsCode(a, s) == ItemsCode(b, t)
    ensures a == b && s == t
    decreases a
  {
    hide ValueCode;
    var x := if a.NoItem? then s else ValueCode(a.head, ItemsCode(a.tail, s));
    var y := if b.NoItem? then t else ValueCode(b.head, ItemsCode(b.tail, t));
    Cons(if a.NoItem? then 0 else 1, x, if b.NoItem? then 0 else 1, y);
    if a.Item? {
      ValueOnce(a.head, b.head, ItemsCode(a.tail, s), ItemsCode(b.tail, t));
      ItemsOnce(a.tail, b.tail, s, t);
    }
  }

  lemma {:induction false} MembersOnce(a: Members, b: Members, s: seq<nat>, t: seq<nat>)
    requires MembersCode(a, s) == MembersCode(b, t)
    ensures a == b && s == t
    decreases a
  {
    hide ValueCode, TextCode;
    var x := if a.NoMember? then s else TextCode(a.key, ValueCode(a.value, MembersCode(a.rest, s)));
    var y := if b.NoMember? then t else TextCode(b.key, ValueCode(b.value, MembersCode(b.rest, t)));
    Cons(if a.NoMember? then 0 else 1, x, if b.NoMember? then 0 else 1, y);
    if a.Member? {
      TextOnce(a.key, b.key, ValueCode(a.value, MembersCode(a.rest, s)), ValueCode(b.value, MembersCode(b.rest, t)));
      ValueOnce(a.value, b.value, MembersCode(a.rest, s), MembersCode(b.rest, t));
      MembersOnce(a.rest, b.rest, s, t);
    }
  }

  lemma VersionOnce(a: Version, b: Version, s: seq<nat>, t: seq<nat>)
    requires VersionCode(a, s) == VersionCode(b, t)
    ensures a == b && s == t
  {
    hide ValueCode, TextCode, BytesCode, BitCode;
    var r, q := a.review, b.review;
    var s1, t1 := TextCode(r.reviewedAt, s), TextCode(q.reviewedAt, t);
    var s2, t2 := ValueCode(r.riskScore, s1), ValueCode(q.riskScore, t1);
    var s3, t3 := ValueCode(r.verdict, s2), ValueCode(q.verdict, t2);
    var s4, t4 := BitCode(a.verified, s3), BitCode(b.verified, t3);
    var s5, t5 := ValueCode(a.manifest, s4), ValueCode(b.manifest, t4);
    var s6, t6 := BytesCode(a.sourceSig, s5), BytesCode(b.sourceSig, t5);
    var s7, t7 := TextCode(a.zipSha, s6), TextCode(b.zipSha, t6);
    var s8, t8 := TextCode(a.artifact, s7), TextCode(b.artifact, t7);
    ValueOnce(a.version, b.version, s8, t8);
    TextOnce(a.artifact, b.artifact, s7, t7);
    TextOnce(a.zipSha, b.zipSha, s6, t6);
    BytesOnce(a.sourceSig, b.sourceSig, s5, t5);
    ValueOnce(a.manifest, b.manifest, s4, t4);
    BitOnce(a.verified, b.verified, s3, t3);
    ValueOnce(r.verdict, q.verdict, s2, t2);
    ValueOnce(r.riskScore, q.riskScore, s1, t1);
    TextOnce(r.reviewedAt, q.reviewedAt, s, t);
  }

  lemma {:induction false} VersionsOnce(a: seq<Version>, b: seq<Version>, s: seq<nat>, t: seq<nat>)
    requires VersionsCode(a, s) == VersionsCode(b, t)
    ensures a == b && s == t
    decreases |a|
  {
    hide VersionCode;
    var x := if a == [] then s else VersionCode(a[0], VersionsCode(a[1..], s));
    var y := if b == [] then t else VersionCode(b[0], VersionsCode(b[1..], t));
    Cons(if a == [] then 0 else 1, x, if b == [] then 0 else 1, y);
    if a != [] {
      VersionOnce(a[0], b[0], VersionsCode(a[1..], s), VersionsCode(b[1..], t));
      VersionsOnce(a[1..], b[1..], s, t);
      assert a == [a[0]] + a[1..] && b == [b[0]] + b[1..];
    }
  }

  lemma ToolOnce(a: Tool, b: Tool, s: seq<nat>, t: seq<nat>)
    requires ToolCode(a, s) == ToolCode(b, t)
    ensures a == b && s == t
  {
    hide ValueCode, TextCode, VersionsCode;
    var s1, t1 := VersionsCode(a.versions, s), VersionsCode(b.versions, t);
    var s2, t2 := ValueCode(a.latest, s1), ValueCode(b.latest, t1);
    var s3, t3 := ValueCode(a.name, s2), ValueCode(b.name, t2);
    TextOnce(a.id, b.id, TextCode(a.author, s3), TextCode(b.author, t3));
    TextOnce(a.author, b.author, s3, t3);
    ValueOnce(a.name, b.name, s2, t2);
    ValueOnce(a.latest, b.latest, s1, t1);
    VersionsOnce(a.versions, b.versions, s, t);
  }

  lemma {:induction false} ToolsOnce(a: seq<Tool>, b: seq<Tool>, s: seq<nat>, t: seq<nat>)
    requires ToolsCode(a, s) == ToolsCode(b, t)
    ensures a == b && s == t
    decreases |a|
  {
    hide ToolCode;
    var x := if a == [] then s else ToolCode(a[0], ToolsCode(a[1..], s));
    var y := if b == [] then t else ToolCode(b[0], ToolsCode(b[1..], t));
    Cons(if a == [] then 0 else 1, x, if b == [] then 0 else 1, y);
    if a != [] {
      ToolOnce(a[0], b[0], ToolsCode(a[1..], s), ToolsCode(b[1..], t));
      ToolsOnce(a[1..], b[1..], s, t);
      assert a == [a[0]] + a[1..] && b == [b[0]] + b[1..];
    }
  }

  lemma IndexOnce(a: Index, b: Index)
    requires IndexCode(a) == IndexCode(b)
    ensures a == b
  {
    hide TextCode, ToolsCode;
    TextOnce(a.generatedAt, b.generatedAt, ToolsCode(a.tools, []), ToolsCode(b.tools, []));
    ToolsOnce(a.tools, b.tools, [], []);
  }

  // --- codes as text ---

  const STROKE: Byte := 0x41
  const GAP: Byte := 0x42

  function Tally(n: nat, rest: seq<Byte>): seq<Byte> {
    if n == 0 then [GAP] + rest else [STROKE] + Tally(n - 1, rest)
  }

  function Tallies(ns: seq<nat>): seq<Byte> {
    if ns == [] then [] else Tally(ns[0], Tallies(ns[1..]))
  }

  lemma {:induction false} TallyOnce(m: nat, n: nat, s: seq<Byte>, t: seq<Byte>)
    requires Tally(m, s) == Tally(n, t)
    ensures m == n && s == t
  {
    var a, b := Tally(m, s), Tally(n, t);
    assert a[0] == (if m == 0 then GAP else STROKE) && b[0] == (if n == 0 then GAP else STROKE);
    assert a[1..] == (if m == 0 then s else Tally(m - 1, s)) && b[1..] == (if n == 0 then t else Tally(n - 1, t));
    if m > 0 {
      TallyOnce(m - 1, n - 1, s, t);
    }
  }

  lemma {:induction false} TalliesOnce(a: seq<nat>, b: seq<nat>)
    requires Tallies(a) == Tallies(b)
    ensures a == b
  {
    hide Tally;
    if a != [] && b != [] {
      TallyOnce(a[0], b[0], Tallies(a[1..]), Tallies(b[1..]));
      TalliesOnce(a[1..], b[1..]);
      assert a == [a[0]] + a[1..] && b == [b[0]] + b[1..];
    } else {
      if a != [] {
        TallyIsSome(a[0], Tallies(a[1..]));
      }
      if b != [] {
        TallyIsSome(b[0], Tallies(b[1..]));
      }
    }
  }

  lemma TallyIsSome(n: nat, rest: seq<Byte>)
    ensures Tally(n, rest) != []
  {}

  lemma {:induction false} TallyMarks(n: nat, rest: seq<Byte>)
    requires forall b :: b in rest ==> b == STROKE || b == GAP
    ensures forall b :: b in Tally(n, rest) ==> b == STROKE || b == GAP
  {
    if n > 0 {
      TallyMarks(n - 1, rest);
    }
  }

  lemma {:induction false} TalliesMark(ns: seq<nat>)
    ensures forall b :: b in Tallies(ns) ==> b == STROKE || b == GAP
  {
    hide Tally;
    if ns != [] {
      TalliesMark(ns[1..]);
      TallyMarks(ns[0], Tallies(ns[1..]));
    }
  }

  // --- a printer of indexes ---

  ghost function ParsedIndex(b: seq<Byte>): Option<Index> {
    if exists i: Index :: Tallies(IndexCode(i)) == b
    then var i: Index :| Tallies(IndexCode(i)) == b; Some(KeptIndex(i))
    else None
  }

  lemma ParsedIs(i: Index)
    ensures ParsedIndex(Tallies(IndexCode(i))) == Some(KeptIndex(i))
  {
    hide IndexCode, Tallies;
    var b := Tallies(IndexCode(i));
    assert exists j: Index :: Tallies(IndexCode(j)) == b;
    forall j: Index | Tallies(IndexCode(j)) == b ensures j == i {
      TalliesOnce(IndexCode(i), IndexCode(j));
      IndexOnce(i, j);
    }
  }

  // A printer meets its assumption, whichever decimals denote doubles.
  lemma PrinterExists(text: Value -> seq<Unit>, double: Decimal -> bool) returns (p: Printer)
    ensures RoundTrips(p) && p.double == double && p.text == text
    ensures forall b :: p.parse(b).Some? ==> 10 !in b
  {
    hide IndexCode, Tallies;
    p := Printer(text, i => Tallies(IndexCode(i)), b => ParsedIndex(b), double);
    forall i: Index ensures p.parse(p.bytes(i)) == Some(KeptIndex(i)) && 10 !in p.bytes(i) {
      ParsedIs(i);
      TalliesMark(IndexCode(i));
    }
    forall b | p.parse(b).Some? ensures 10 !in b {
      var i: Index :| Tallies(IndexCode(i)) == b;
      TalliesMark(IndexCode(i));
    }
  }

  // --- cryptography ---

  // A text as bytes, with a line feed as byte 10 and every other character as a tally.
  function TextBytes(s: string): seq<Byte> {
    if s == "" then []
    else if s[0] == LINE_FEED then [10] + TextBytes(s[1..])
    else Tally(s[0] as int, TextBytes(s[1..]))
  }

  lemma {:induction false} TextBytesOnce(a: string, b: string)
    requires TextBytes(a) == TextBytes(b)
    ensures a == b
  {
    if a != "" && b != "" {
      var x, y := TextBytes(a), TextBytes(b);
      TallyHead(a[0] as int, TextBytes(a[1..]));
      TallyHead(b[0] as int, TextBytes(b[1..]));
      if a[0] == LINE_FEED {
        assert x[0] == 10 && x[1..] == TextBytes(a[1..]) && y[1..] == TextBytes(b[1..]);
      } else {
        TallyOnce(a[0] as int, b[0] as int, TextBytes(a[1..]), TextBytes(b[1..]));
      }
      TextBytesOnce(a[1..], b[1..]);
      assert a == [a[0]] + a[1..] && b == [b[0]] + b[1..];
    } else {
      if a != "" {
        TallyIsSome(a[0] as int, TextBytes(a[1..]));
      }
      if b != "" {
        TallyIsSome(b[0] as int, TextBytes(b[1..]));
      }
    }
  }

  lemma TallyHead(n: nat, rest: seq<Byte>)
    ensures Tally(n, rest) != [] && Tally(n, rest)[0] != 10
  {}

  lemma {:induction false} TallyHasTen(n: nat, rest: seq<Byte>)
    ensures 10 in Tally(n, rest) <==> 10 in rest
  {
    if n > 0 {
      TallyHasTen(n - 1, rest);
    }
  }

  lemma {:induction false} TenIsLineFeed(s: string)
    ensures 10 in TextBytes(s) <==> LINE_FEED in s
  {
    if s != "" {
      TenIsLineFeed(s[1..]);
      assert s == [s[0]] + s[1..];
      if s[0] != LINE_FEED {
        TallyHasTen(s[0] as int, TextBytes(s[1..]));
      }
    }
  }

  function Strokes(n: nat, rest: string): string {
    if n == 0 then "b" + rest else "a" + Strokes(n - 1, rest)
  }

  // A hash of any length: the bytes as tallies of letters.
  function Letters(b: seq<Byte>): string {
    if b == [] then "" else Strokes(ByteCode(b[0]), Letters(b[1..]))
  }

  lemma {:induction false} StrokesOnce(m: nat, n: nat, s: string, t: string)
    requires Strokes(m, s) == Strokes(n, t)
    ensures m == n && s == t
  {
    var a, b := Strokes(m, s), Strokes(n, t);
    assert a[0] == (if m == 0 then 'b' else 'a') && b[0] == (if n == 0 then 'b' else 'a');
    assert a[1..] == (if m == 0 then s else Strokes(m - 1, s)) && b[1..] == (if n == 0 then t else Strokes(n - 1, t));
    if m > 0 {
      StrokesOnce(m - 1, n - 1, s, t);
    }
  }

  lemma StrokesAreSome(n: nat, rest: string)
    ensures Strokes(n, rest) != ""
  {}

  lemma {:induction false} LettersOnce(a: seq<Byte>, b: seq<Byte>)
    requires Letters(a) == Letters(b)
    ensures a == b
  {
    hide Strokes, ByteCode;
    if a != [] && b != [] {
      StrokesOnce(ByteCode(a[0]), ByteCode(b[0]), Letters(a[1..]), Letters(b[1..]));
      ByteOnce(a[0], b[0]);
      LettersOnce(a[1..], b[1..]);
      assert a == [a[0]] + a[1..] && b == [b[0]] + b[1..];
    } else {
      if a != [] {
        StrokesAreSome(ByteCode(a[0]), Letters(a[1..]));
      }
      if b != [] {
        StrokesAreSome(ByteCode(b[0]), Letters(b[1..]));
      }
    }
  }

  lemma {:induction false} StrokesOneLine(n: nat, rest: string)
    requires LINE_FEED !in rest
    ensures LINE_FEED !in Strokes(n, rest)
  {
    if n > 0 {
      StrokesOneLine(n - 1, rest);
    }
  }

  lemma {:induction false} LettersOneLine(b: seq<Byte>)
    ensures LINE_FEED !in Letters(b)
  {
    hide Strokes;
    if b != [] {
      LettersOneLine(b[1..]);
      StrokesOneLine(ByteCode(b[0]), Letters(b[1..]));
    }
  }

  // A signature that names its message is ideal, whatever messages a key validates.
  lemma CryptoExists(signed: seq<Byte> -> bool) returns (c: Crypto)
    ensures Ideal(c)
    ensures forall k, m, sig :: c.valid(k, m, sig) <==> sig == m && signed(m)
  {
    hide TextBytes, Letters;
    c := Crypto(s => TextBytes(s), b => Letters(b), (k, m, sig) => sig == m && signed(m));
    forall s, t | c.text(s) == c.text(t) ensures s == t {
      TextBytesOnce(s, t);
    }
    forall s ensures 10 in c.text(s) <==> LINE_FEED in s {
      TenIsLineFeed(s);
    }
    forall a, b | c.hash(a) == c.hash(b) ensures a == b {
      LettersOnce(a, b);
    }
    forall a ensures LINE_FEED !in c.hash(a) {
      LettersOneLine(a);
    }
  }

  // --- manifests and grants ---

  function TextsCode(ts: seq<string>, rest: seq<nat>): seq<nat> {
    if ts == [] then [0] + rest else [1] + TextCode(ts[0], TextsCode(ts[1..], rest))
  }

  function ListCode(ts: Option<seq<string>>, rest: seq<nat>): seq<nat> {
    match ts
    case None => [0] + rest
    case Some(l) => [1] + TextsCode(l, rest)
  }

  function ManifestCode(m: Manifest): seq<nat> {
    TextCode(m.name, TextCode(m.version, TextCode(m.description, TextCode(m.author, TextCode(m.paramsSchema,
      ListCode(m.hosts, ListCode(m.credentials, TextCode(m.namespace, IntCode(m.quotaBytes, IntCode(m.memPages,
      IntCode(m.wallMs, [])))))))))))
  }

  function GrantCode(g: Grant): seq<nat> {
    ListCode(g.hosts, ListCode(g.credentials, TextCode(g.namespace, IntCode(g.quotaBytes, IntCode(g.wall,
      IntCode(g.memPages, TextCode(g.manifestHash, [])))))))
  }

  lemma {:induction false} TextsOnce(a: seq<string>, b: seq<string>, s: seq<nat>, t: seq<nat>)
    requires TextsCode(a, s) == TextsCode(b, t)
    ensures a == b && s == t
    decreases |a|
  {
    hide TextCode;
    var x := if a == [] then s else TextCode(a[0], TextsCode(a[1..], s));
    var y := if b == [] then t else TextCode(b[0], TextsCode(b[1..], t));
    Cons(if a == [] then 0 else 1, x, if b == [] then 0 else 1, y);
    if a != [] {
      TextOnce(a[0], b[0], TextsCode(a[1..], s), TextsCode(b[1..], t));
      TextsOnce(a[1..], b[1..], s, t);
      assert a == [a[0]] + a[1..] && b == [b[0]] + b[1..];
    }
  }

  lemma ListOnce(a: Option<seq<string>>, b: Option<seq<string>>, s: seq<nat>, t: seq<nat>)
    requires ListCode(a, s) == ListCode(b, t)
    ensures a == b && s == t
  {
    hide TextsCode;
    var x := if a.None? then s else TextsCode(a.value, s);
    var y := if b.None? then t else TextsCode(b.value, t);
    Cons(if a.None? then 0 else 1, x, if b.None? then 0 else 1, y);
    if a.Some? {
      TextsOnce(a.value, b.value, s, t);
    }
  }

  lemma ManifestOnce(a: Manifest, b: Manifest)
    requires ManifestCode(a) == ManifestCode(b)
    ensures a == b
  {
    hide TextCode, ListCode, IntCode;
    var s1, t1 := IntCode(a.wallMs, []), IntCode(b.wallMs, []);
    var s2, t2 := IntCode(a.memPages, s1), IntCode(b.memPages, t1);
    var s3, t3 := IntCode(a.quotaBytes, s2), IntCode(b.quotaBytes, t2);
    var s4, t4 := TextCode(a.namespace, s3), TextCode(b.namespace, t3);
    var s5, t5 := ListCode(a.credentials, s4), ListCode(b.credentials, t4);
    var s6, t6 := ListCode(a.hosts, s5), ListCode(b.hosts, t5);
    var s7, t7 := TextCode(a.paramsSchema, s6), TextCode(b.paramsSchema, t6);
    var s8, t8 := TextCode(a.author, s7), TextCode(b.author, t7);
    var s9, t9 := TextCode(a.description, s8), TextCode(b.description, t8);
    TextOnce(a.name, b.name, TextCode(a.version, s9), TextCode(b.version, t9));
    TextOnce(a.version, b.version, s9, t9);
    TextOnce(a.description, b.description, s8, t8);
    TextOnce(a.author, b.author, s7, t7);
    TextOnce(a.paramsSchema, b.paramsSchema, s6, t6);
    ListOnce(a.hosts, b.hosts, s5, t5);
    ListOnce(a.credentials, b.credentials, s4, t4);
    TextOnce(a.namespace, b.namespace, s3, t3);
    IntOnce(a.quotaBytes, b.quotaBytes, s2, t2);
    IntOnce(a.memPages, b.memPages, s1, t1);
    IntOnce(a.wallMs, b.wallMs, [], []);
  }

  lemma GrantOnce(a: Grant, b: Grant)
    requires GrantCode(a) == GrantCode(b)
    ensures a == b
  {
    hide TextCode, ListCode, IntCode;
    var s1, t1 := TextCode(a.manifestHash, []), TextCode(b.manifestHash, []);
    var s2, t2 := IntCode(a.memPages, s1), IntCode(b.memPages, t1);
    var s3, t3 := IntCode(a.wall, s2), IntCode(b.wall, t2);
    var s4, t4 := IntCode(a.quotaBytes, s3), IntCode(b.quotaBytes, t3);
    var s5, t5 := TextCode(a.namespace, s4), TextCode(b.namespace, t4);
    ListOnce(a.hosts, b.hosts, ListCode(a.credentials, s5), ListCode(b.credentials, t5));
    ListOnce(a.credentials, b.credentials, s5, t5);
    TextOnce(a.namespace, b.namespace, s4, t4);
    IntOnce(a.quotaBytes, b.quotaBytes, s3, t3);
    IntOnce(a.wall, b.wall, s2, t2);
    IntOnce(a.memPages, b.memPages, s1, t1);
    TextOnce(a.manifestHash, b.manifestHash, [], []);
  }

  ghost function ParsedManifest(b: seq<Byte>): Option<Manifest> {
    if exists m: Manifest :: Tallies(ManifestCode(m)) == b then var m: Manifest :| Tallies(ManifestCode(m)) == b; Some(m) else None
  }

  ghost function ParsedGrant(b: seq<Byte>): Option<Grant> {
    if exists g: Grant :: Tallies(GrantCode(g)) == b then var g: Grant :| Tallies(GrantCode(g)) == b; Some(g) else None
  }

  lemma CodecExists() returns (j: Codec)
    ensures Lawful(j)
  {
    hide Tallies, ManifestCode, GrantCode;
    j := Codec(s => s, m => Tallies(ManifestCode(m)), b => ParsedManifest(b),
                        g => Tallies(GrantCode(g)), b => ParsedGrant(b));
    forall m: Manifest ensures j.decode(j.canonical(m)) == Some(m) {
      assert exists n: Manifest :: Tallies(ManifestCode(n)) == Tallies(ManifestCode(m));
      forall n: Manifest | Tallies(ManifestCode(n)) == Tallies(ManifestCode(m)) ensures n == m {
        TalliesOnce(ManifestCode(n), ManifestCode(m));
        ManifestOnce(n, m);
      }
    }
    forall g: Grant ensures j.unmarshal(j.marshal(g)) == Some(g) {
      assert exists h: Grant :: Tallies(GrantCode(h)) == Tallies(GrantCode(g));
      forall h: Grant | Tallies(GrantCode(h)) == Tallies(GrantCode(g)) ensures h == g {
        TalliesOnce(GrantCode(h), GrantCode(g));
        GrantOnce(h, g);
      }
    }
  }

  // --- frames and responses ---

  function FrameMark(f: F.Frame): nat {
    match f
    case Call(_, _, _) => 0
    case Log(_, _) => 1
    case Result(_) => 2
    case Error(_) => 3
    case Other => 4
  }

  function FrameFields(f: F.Frame): seq<nat> {
    match f
    case Call(id, op, args) => IntCode(id, TextCode(op, BytesCode(args, [])))
    case Log(level, msg) => TextCode(level, TextCode(msg, []))
    case Result(value) => BytesCode(value, [])
    case Error(error) => TextCode(error, [])
    case Other => []
  }

  function FrameCode(f: F.Frame): seq<nat> {
    [FrameMark(f)] + FrameFields(f)
  }

  lemma FrameOnce(f: F.Frame, g: F.Frame)
    requires FrameCode(f) == FrameCode(g)
    ensures f == g
  {
    hide TextCode, BytesCode, IntCode;
    Cons(FrameMark(f), FrameFields(f), FrameMark(g), FrameFields(g));
    match f
    case Call(id, op, args) =>
      IntOnce(id, g.id, TextCode(op, BytesCode(args, [])), TextCode(g.op, BytesCode(g.args, [])));
      TextOnce(op, g.op, BytesCode(args, []), BytesCode(g.args, []));
      BytesOnce(args, g.args, [], []);
    case Log(level, msg) =>
      TextOnce(level, g.level, TextCode(msg, []), TextCode(g.msg, []));
      TextOnce(msg, g.msg, [], []);
    case Result(value) => BytesOnce(value, g.value, [], []);
    case Error(error) => TextOnce(error, g.error, [], []);
    case Other =>
  }

  function ResponseCode(r: F.Response): seq<nat> {
    match r.answer
    case Value(v) => [0] + IntCode(r.id, BytesCode(v, []))
    case Failure(m) => [1] + IntCode(r.id, TextCode(m, []))
  }

  lemma ResponseOnce(q: F.Response, r: F.Response)
    requires ResponseCode(q) == ResponseCode(r)
    ensures q == r
  {
    hide TextCode, BytesCode, IntCode;
    var x := match q.answer case Value(v) => BytesCode(v, []) case Failure(m) => TextCode(m, []);
    var y := match r.answer case Value(v) => BytesCode(v, []) case Failure(m) => TextCode(m, []);
    Cons(if q.answer.Value? then 0 else 1, IntCode(q.id, x), if r.answer.Value? then 0 else 1, IntCode(r.id, y));
    IntOnce(q.id, r.id, x, y);
    match q.answer
    case Value(v) => BytesOnce(v, r.answer.value, [], []);
    case Failure(m) => TextOnce(m, r.answer.message, [], []);
  }

  // A print as scalar values.
  function Scalars(b: seq<Byte>): seq<Scalar> {
    if b == [] then [] else [if b[0] == STROKE then 0x41 else 0x42] + Scalars(b[1..])
  }

  lemma {:induction false} ScalarsOnce(a: seq<Byte>, b: seq<Byte>)
    requires Scalars(a) == Scalars(b)
    requires forall x :: x in a || x in b ==> x == STROKE || x == GAP
    ensures a == b
  {
    if a != [] && b != [] {
      assert a == [a[0]] + a[1..] && b == [b[0]] + b[1..];
      assert Scalars(a)[0] == Scalars(b)[0] && Scalars(a)[1..] == Scalars(a[1..]) && Scalars(b)[1..] == Scalars(b[1..]);
      assert a[0] in a && b[0] in b;
      forall x: Byte | x in a[1..] || x in b[1..] ensures x == STROKE || x == GAP {
        assert x in a || x in b;
      }
      ScalarsOnce(a[1..], b[1..]);
    }
  }

  lemma {:induction false} ScalarsOneLine(b: seq<Byte>)
    ensures 10 !in Scalars(b) && |Scalars(b)| == |b|
  {
    if b != [] {
      ScalarsOneLine(b[1..]);
    }
  }

  ghost function ParsedFrame(b: seq<Byte>): Option<F.Frame> {
    if exists f: F.Frame :: Tallies(FrameCode(f)) == b then var f: F.Frame :| Tallies(FrameCode(f)) == b; Some(f) else None
  }

  function ResponseText(r: F.Response): seq<Scalar> {
    Scalars(Tallies(ResponseCode(r)))
  }

  ghost function ParsedResponse(u: seq<Unit>): Option<F.Response> {
    if exists r: F.Response :: Utf16(ResponseText(r)) == u
    then var r: F.Response :| Utf16(ResponseText(r)) == u; Some(r)
    else None
  }

  lemma ResponseTextOnce(q: F.Response, r: F.Response)
    requires Utf16(ResponseText(q)) == Utf16(ResponseText(r))
    ensures q == r
  {
    hide Utf16, Tallies, ResponseCode, Scalars, ToScalars;
    TextEncodeUtf16(ResponseText(q));
    TextEncodeUtf16(ResponseText(r));
    TalliesMark(ResponseCode(q));
    TalliesMark(ResponseCode(r));
    ScalarsOnce(Tallies(ResponseCode(q)), Tallies(ResponseCode(r)));
    TalliesOnce(ResponseCode(q), ResponseCode(r));
    ResponseOnce(q, r);
  }

  lemma NothingToTrim(b: seq<Byte>)
    requires b != [] && forall x :: x in b ==> x == STROKE || x == GAP
    ensures F.PrintsLine(b)
  {
    assert b[0] in b && b[|b| - 1] in b;
  }

  lemma TalliesAreSome(ns: seq<nat>)
    requires ns != []
    ensures Tallies(ns) != []
  {
    TallyIsSome(ns[0], Tallies(ns[1..]));
  }

  lemma FrameCodecExists() returns (c: F.Codec)
    ensures c.Lawful()
  {
    hide Tallies, FrameFields, ResponseCode, Utf16, Scalars, F.PrintsLine;
    c := F.Codec(f => Tallies(FrameCode(f)), b => ParsedFrame(b), r => ResponseText(r), u => ParsedResponse(u));
    forall f: F.Frame ensures F.PrintsLine(c.stringify(f)) && c.unmarshal(c.stringify(f)) == Some(f) {
      TalliesMark(FrameCode(f));
      TalliesAreSome(FrameCode(f));
      NothingToTrim(Tallies(FrameCode(f)));
      assert exists g: F.Frame :: Tallies(FrameCode(g)) == Tallies(FrameCode(f));
      forall g: F.Frame | Tallies(FrameCode(g)) == Tallies(FrameCode(f)) ensures g == f {
        TalliesOnce(FrameCode(g), FrameCode(f));
        FrameOnce(g, f);
      }
    }
    forall r: F.Response ensures c.marshal(r) != [] && 10 !in c.marshal(r) && c.parse(Utf16(c.marshal(r))) == Some(r) {
      ResponseIsSome(r);
      ScalarsOneLine(Tallies(ResponseCode(r)));
      assert exists q: F.Response :: Utf16(ResponseText(q)) == Utf16(ResponseText(r));
      forall q: F.Response | Utf16(ResponseText(q)) == Utf16(ResponseText(r)) ensures q == r {
        ResponseTextOnce(q, r);
      }
    }
  }

  lemma ResponseIsSome(r: F.Response)
    ensures Tallies(ResponseCode(r)) != []
  {
    TalliesAreSome(ResponseCode(r));
  }

  // --- all of them together ---

  // A registry and a Worker as the end-to-end theorems require them.
  lemma PairExists(text: Value -> seq<Unit>, double: Decimal -> bool, key: Key) returns (e: R.Env, w: W.Edge)
    requires |key| == PUBLIC_KEY_SIZE
    ensures E.Paired(e, w) && w.printer.double == double && w.printer.text == text
  {
    var c := CryptoExists(_ => true);
    var p := PrinterExists(text, double);
    var j := CodecExists();
    e := R.Env(c, j, [key]);
    w := W.Edge(c, key, m => m, p, _ => [], _ => [], _ => []);
  }

  // A world in which exactly what the registry signed validates, as the client's theorems
  // require it.
  lemma ClientWorldExists(text: Value -> seq<Unit>, double: Decimal -> bool, key: Key, releases: set<C.Release>, indexes: set<Index>)
    returns (e: R.Env, p: Printer)
    requires |key| == PUBLIC_KEY_SIZE
    ensures Ideal(e.crypto) && RoundTrips(p) && p.double == double
    ensures C.Apart(e.crypto, p) && C.Unforgeable(e, p, releases, indexes)
    ensures forall i :: i in indexes ==> Pinned(e.crypto, e.keys, p.bytes(i), p.bytes(i))
  {
    hide Ideal, RoundTrips;
    p := PrinterExists(text, double);
    var plain := CryptoExists(_ => true);
    var signed := m => C.SignedRelease(plain, releases, m) || C.SignedIndex(p, indexes, m);
    var c := plain.(valid := (k, m, sig) => sig == m && signed(m));
    SameTexts(plain, c);
    var j := CodecExists();
    e := R.Env(c, j, [key]);
    forall n, v, source ensures p.parse(SignedMessage(c, n, v, c.hash(source))) == None {
      assert Framed(n, v, c.hash(source))[|n|] == LINE_FEED;
      TextHasTen(c, Framed(n, v, c.hash(source)));
    }
    forall m, sig | Pinned(c, [key], m, sig) ensures C.SignedRelease(c, releases, m) || C.SignedIndex(p, indexes, m) {
      assert signed(m);
      SameReleases(plain, c, releases, m);
    }
    forall i | i in indexes ensures Pinned(c, [key], p.bytes(i), p.bytes(i)) {
      assert C.SignedIndex(p, indexes, p.bytes(i));
      assert [key][0] == key;
    }
  }

  lemma TextHasTen(c: Crypto, s: string)
    requires Ideal(c) && LINE_FEED in s
    ensures 10 in c.text(s)
  {}

  lemma SameTexts(c: Crypto, d: Crypto)
    requires Ideal(c) && d.text == c.text && d.hash == c.hash
    requires forall k, m, sig :: d.valid(k, m, sig) ==> sig == m
    ensures Ideal(d)
  {}

  lemma SameReleases(c: Crypto, d: Crypto, releases: set<C.Release>, m: seq<Byte>)
    requires d.text == c.text && d.hash == c.hash
    ensures C.SignedRelease(c, releases, m) ==> C.SignedRelease(d, releases, m)
  {}
}
