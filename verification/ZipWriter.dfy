/**
 makeZip: the typed arrays it allocates and fills, its running offset and directory
 size, and the final copy into one buffer.
 */
module ZipWriter {
  import opened Utf
  import opened Lines
  import opened Crc
  import opened Zip

  // A [name, content] pair of strings.
  datatype Source = Source(name: seq<Unit>, content: seq<Unit>)

  // The members after TextEncoder.
  function Encoded(sources: seq<Source>): (es: seq<Entry>)
    ensures |es| == |sources|
    ensures forall i :: 0 <= i < |es| ==> es[i] == Entry(TextEncode(sources[i].name), TextEncode(sources[i].content))
  {
    seq(|sources|, i requires 0 <= i < |sources| => Entry(TextEncode(sources[i].name), TextEncode(sources[i].content)))
  }

  // --- buffers that start out zero and are filled from left to right ---

  ghost predicate Filled(s: seq<Byte>, done: seq<Byte>) {
    |done| <= |s| && s == done + Zeros(|s| - |done|)
  }

  lemma SetFills(s: seq<Byte>, t: seq<Byte>, done: seq<Byte>, p: nat, bytes: seq<Byte>)
    requires Filled(s, done) && |done| <= p && p + |bytes| <= |s|
    requires t == s[..p] + bytes + s[p + |bytes|..]
    ensures Filled(t, if |done| == p then done + bytes else done + Zeros(p - |done|) + bytes)
  {
    assert s[..p] == done + Zeros(p - |done|);
    assert s[p + |bytes|..] == Zeros(|s| - p - |bytes|);
  }

  method NewBuffer(n: nat) returns (a: array<Byte>)
    ensures fresh(a) && a.Length == n && Filled(a[..], [])
  {
    a := new Byte[n](_ => 0);
    assert a[..] == [] + Zeros(n);
  }

  // The set method of a typed array, and of a view for a field's bytes.
  method Set(a: array<Byte>, p: nat, bytes: seq<Byte>, ghost done: seq<Byte>)
    requires Filled(a[..], done) && |done| <= p && p + |bytes| <= a.Length
    modifies a
    ensures Filled(a[..], if |done| == p then done + bytes else done + Zeros(p - |done|) + bytes)
  {
    var k := 0;
    while k < |bytes|
      invariant 0 <= k <= |bytes|
      invariant a[..p] == old(a[..p]) && a[p..p + k] == bytes[..k]
      invariant a[p + |bytes|..] == old(a[p + |bytes|..])
    {
      a[p + k] := bytes[k];
      k := k + 1;
    }
    assert a[..] == a[..p] + a[p..p + |bytes|] + a[p + |bytes|..];
    SetFills(old(a[..]), a[..], done, p, bytes);
  }

  lemma FilledUp(s: seq<Byte>, done: seq<Byte>)
    requires Filled(s, done) && |s| == |done|
    ensures s == done
  {}

  // --- the three kinds of record ---

  method LocalHeader(crc: bv32, size: nat, name: seq<Byte>) returns (local: array<Byte>)
    ensures fresh(local) && local[..] == LocalHead(crc, size, |name|) + name
  {
    hide Filled, Le16, Le32, LeCrc;
    local := NewBuffer(30 + |name|);
    ghost var d: seq<Byte> := [];
    Set(local, 0, Le32(LOCAL_SIGNATURE), d); d := d + Le32(LOCAL_SIGNATURE);
    Set(local, 4, Le16(20), d); d := d + Le16(20);
    Set(local, 6, Le16(0), d); d := d + Le16(0);
    Set(local, 8, Le16(0), d); d := d + Le16(0);
    Set(local, 10, Le16(0), d); d := d + Le16(0);
    Set(local, 12, Le16(0), d); d := d + Le16(0);
    Set(local, 14, LeCrc(crc), d); d := d + LeCrc(crc);
    Set(local, 18, Le32(size), d); d := d + Le32(size);
    Set(local, 22, Le32(size), d); d := d + Le32(size);
    Set(local, 26, Le16(|name|), d); d := d + Le16(|name|);
    Set(local, 28, Le16(0), d); d := d + Le16(0);
    assert d == LocalHead(crc, size, |name|);
    Set(local, 30, name, d);
    FilledUp(local[..], d + name);
  }

  method CentralHeader(f: File) returns (c: array<Byte>)
    ensures fresh(c) && c[..] == CentralRecord(f)
  {
    hide Filled, Le16, Le32, LeCrc, Zeros;
    c := NewBuffer(46 + |f.name|);
    ghost var d: seq<Byte> := [];
    Set(c, 0, Le32(CENTRAL_SIGNATURE), d); d := d + Le32(CENTRAL_SIGNATURE);
    Set(c, 4, Le16(20), d); d := d + Le16(20);
    Set(c, 6, Le16(20), d); d := d + Le16(20);
    Set(c, 16, LeCrc(f.crc), d); d := d + Zeros(8) + LeCrc(f.crc);
    Set(c, 20, Le32(f.size), d); d := d + Le32(f.size);
    Set(c, 24, Le32(f.size), d); d := d + Le32(f.size);
    Set(c, 28, Le16(|f.name|), d); d := d + Le16(|f.name|);
    Set(c, 42, Le32(f.offset), d); d := d + Zeros(12) + Le32(f.offset);
    assert d == CentralHead(f);
    Set(c, 46, f.name, d);
    FilledUp(c[..], d + f.name);
  }

  method EndHeader(count: nat, cdSize: nat, offset: nat) returns (end: array<Byte>)
    ensures fresh(end) && end[..] == EndRecord(count, cdSize, offset)
  {
    hide Filled, Le16, Le32, Zeros;
    end := NewBuffer(22);
    ghost var d: seq<Byte> := [];
    Set(end, 0, Le32(END_SIGNATURE), d); d := d + Le32(END_SIGNATURE);
    Set(end, 8, Le16(count), d); d := d + Zeros(4) + Le16(count);
    Set(end, 10, Le16(count), d); d := d + Le16(count);
    Set(end, 12, Le32(cdSize), d); d := d + Le32(cdSize);
    Set(end, 16, Le32(offset), d); d := d + Le32(offset);
    TailZeros(end[..], d, count, cdSize, offset);
  }

  lemma TailZeros(s: seq<Byte>, d: seq<Byte>, count: nat, cdSize: nat, offset: nat)
    requires Filled(s, d) && |s| == 22 && |d| == 20 && d + Zeros(2) == EndRecord(count, cdSize, offset)
    ensures s == EndRecord(count, cdSize, offset)
  {
    hide EndRecord, Zeros;
  }

  // --- the archive ---

  lemma {:induction false} ConcatAppend(a: seq<seq<Byte>>, b: seq<seq<Byte>>)
    ensures Concat(a + b) == Concat(a) + Concat(b)
    decreases |a|
  {
    if a == [] {
      assert a + b == b;
    } else {
      assert (a + b)[1..] == a[1..] + b;
      ConcatAppend(a[1..], b);
    }
  }

  lemma ConcatOne(s: seq<Byte>)
    ensures Concat([s]) == s
  {
    assert [s][1..] == [];
  }

  lemma PushMember(chunks: seq<seq<Byte>>, local: seq<Byte>, e: Entry)
    requires local + e.data == LocalRecord(e)
    ensures Concat(chunks + [local, e.data]) == Concat(chunks) + LocalRecord(e)
  {
    ConcatAppend(chunks, [local, e.data]);
    assert [local, e.data][1..] == [e.data];
    ConcatOne(e.data);
  }

  lemma PushOne(chunks: seq<seq<Byte>>, c: seq<Byte>)
    ensures Concat(chunks + [c]) == Concat(chunks) + c
  {
    ConcatAppend(chunks, [c]);
    ConcatOne(c);
  }

  // A stretch moved from what is to come to what is done.
  lemma Shift<T>(done: seq<T>, x: seq<T>, rest: seq<T>, all: seq<T>)
    requires done + (x + rest) == all
    ensures (done + x) + rest == all
  {}

  lemma Tail<T>(s: seq<T>, i: nat)
    requires i < |s|
    ensures s[i..] == [s[i]] + s[i + 1..] && s[i..][0] == s[i] && s[i..][1..] == s[i + 1..]
  {}

  // The first loop: local headers and data, with the file list and the running offset.
  method WriteLocals(table: array<bv32>, sources: seq<Source>) returns (files: seq<File>, chunks: seq<seq<Byte>>, offset: nat)
    requires IsTable(table[..])
    ensures Concat(chunks) == Locals(Encoded(sources)) && offset == |Locals(Encoded(sources))|
    ensures files == Files(Encoded(sources), 0)
  {
    hide IsTable, LocalRecord, Crc32, Locals, Files, Concat, TextEncode, LocalHead;
    ghost var es := Encoded(sources);
    files, chunks, offset := [], [], 0;
    var i := 0;
    Empty(es);
    while i < |sources|
      invariant 0 <= i <= |sources|
      invariant Concat(chunks) + Locals(es[i..]) == Locals(es)
      invariant files + Files(es[i..], offset) == Files(es, 0)
      invariant offset == |Concat(chunks)|
    {
      var data, name := TextEncode(sources[i].content), TextEncode(sources[i].name);
      var crc := Checksum(table, data);
      var local := LocalHeader(crc, |data|, name);
      ghost var e := es[i];
      LocalIs(e, local[..]);
      PushMember(chunks, local[..], e);
      Tail(es, i);
      LocalsCons(es[i..], offset);
      Shift(Concat(chunks), LocalRecord(e), Locals(es[i + 1..]), Locals(es));
      Shift(files, [FileOf(e, offset)], Files(es[i + 1..], offset + |LocalRecord(e)|), Files(es, 0));
      chunks := chunks + [local[..], data];
      files := files + [File(name, crc, |data|, offset)];
      offset := offset + local.Length + |data|;
      i := i + 1;
    }
    Empty(es);
    NoneLeft(es, offset);
  }

  lemma LocalIs(e: Entry, local: seq<Byte>)
    requires local == LocalHead(Crc32(e.data), |e.data|, |e.name|) + e.name
    ensures local + e.data == LocalRecord(e) && |local| == 30 + |e.name|
  {
    hide LocalHead, Crc32;
  }

  lemma Empty(es: seq<Entry>)
    ensures es[0..] == es && es[|es|..] == [] && Concat([]) == []
  {}

  lemma NoneLeft(es: seq<Entry>, offset: nat)
    ensures Locals([]) == [] && Files([], offset) == []
  {}

  // The second loop: the central headers and their total size.
  method WriteCentrals(files: seq<File>) returns (central: seq<seq<Byte>>, cdSize: nat)
    ensures Concat(central) == Centrals(files) && cdSize == |Centrals(files)|
  {
    hide CentralRecord, Centrals, Concat;
    central, cdSize := [], 0;
    var i := 0;
    NoCentrals();
    assert files[0..] == files;
    while i < |files|
      invariant 0 <= i <= |files|
      invariant Concat(central) + Centrals(files[i..]) == Centrals(files)
      invariant cdSize == |Concat(central)|
    {
      var c := CentralHeader(files[i]);
      PushOne(central, c[..]);
      Tail(files, i);
      CentralsCons(files[i], files[i + 1..]);
      Shift(Concat(central), c[..], Centrals(files[i + 1..]), Centrals(files));
      central := central + [c[..]];
      cdSize := cdSize + c.Length;
      i := i + 1;
    }
    assert files[|files|..] == [];
  }

  lemma NoCentrals()
    ensures Centrals([]) == [] && Concat([]) == []
  {}

  // The reduce and the copy loop.
  method Gather(all: seq<seq<Byte>>) returns (out: array<Byte>)
    ensures fresh(out) && out[..] == Concat(all)
  {
    hide Concat, Filled;
    var total, i := 0, 0;
    NoCentrals();
    while i < |all|
      invariant 0 <= i <= |all|
      invariant total == |Concat(all[..i])|
    {
      assert all[..i + 1] == all[..i] + [all[i]];
      PushOne(all[..i], all[i]);
      total := total + |all[i]|;
      i := i + 1;
    }
    assert all[..|all|] == all;
    out := NewBuffer(total);
    var p := 0;
    i := 0;
    while i < |all|
      invariant 0 <= i <= |all| && out.Length == |Concat(all)|
      invariant p == |Concat(all[..i])| && Filled(out[..], Concat(all[..i]))
    {
      assert all[..i + 1] == all[..i] + [all[i]];
      PushOne(all[..i], all[i]);
      assert all[..i + 1] + all[i + 1..] == all;
      ConcatAppend(all[..i + 1], all[i + 1..]);
      Set(out, p, all[i], Concat(all[..i]));
      p := p + |all[i]|;
      i := i + 1;
    }
    FilledUp(out[..], Concat(all));
  }

  // makeZip writes the archive of its entries.
  method MakeZip(table: array<bv32>, sources: seq<Source>) returns (out: array<Byte>)
    requires IsTable(table[..])
    ensures fresh(out) && out[..] == Archive(Encoded(sources))
  {
    hide IsTable, Files, Locals, Centrals, Concat, EndRecord;
    var files, chunks, offset := WriteLocals(table, sources);
    var central, cdSize := WriteCentrals(files);
    var end := EndHeader(|files|, cdSize, offset);
    PushOne(chunks + central, end[..]);
    ConcatAppend(chunks, central);
    out := Gather(chunks + central + [end[..]]);
  }
}
