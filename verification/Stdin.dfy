/**
 stdin.go: the Go to JavaScript response pipe, a byte buffer with a read offset.
 */
module Stdin {
  import opened Utf
  import opened Lines

  class RespPipe {
    var buf: seq<Byte>
    var offset: nat
    var closed: bool

    ghost predicate Valid()
      reads this
    {
      offset <= |buf|
    }

    // The bytes written and not yet read.
    ghost function Pending(): seq<Byte>
      requires Valid()
      reads this
    {
      buf[offset..]
    }

    constructor ()
      ensures Valid() && Pending() == [] && !closed
    {
      buf, offset, closed := [], 0, false;
    }

    method Write(b: seq<Byte>) returns (n: nat, closedPipe: bool)
      requires Valid()
      modifies this
      ensures Valid() && closed == old(closed) && closedPipe == closed
      ensures !closed ==> n == |b| && Pending() == old(Pending()) + b
      ensures closed ==> n == 0 && Pending() == old(Pending())
    {
      if closed {
        return 0, true;
      }
      buf := buf + b;
      return |b|, false;
    }

    // Read hands over as much as fits in size bytes; an empty pipe gives nothing,
    // and end of file once it is closed.
    method Read(size: nat) returns (data: seq<Byte>, eof: bool)
      requires Valid()
      modifies this
      ensures Valid() && closed == old(closed)
      ensures old(Pending()) == data + Pending()
      ensures |data| == if size < |old(Pending())| then size else |old(Pending())|
      ensures eof <==> closed && old(Pending()) == []
    {
      if |buf| - offset <= 0 {
        return [], closed;
      }
      var n := if size < |buf| - offset then size else |buf| - offset;
      data, eof := buf[offset..offset + n], false;
      offset := offset + n;
      if offset >= |buf| {
        buf, offset := [], 0;
      }
    }

    method Close()
      requires Valid()
      modifies this`closed
      ensures closed
    {
      closed := true;
    }

    method Poll() returns (ready: bool)
      requires Valid()
      ensures ready <==> Pending() != [] || closed
    {
      ready := |buf| > offset || closed;
    }
  }

  // --- runs of an open pipe ---

  datatype Event = Wrote(bytes: seq<Byte>) | Asked(size: nat)

  function Give(pending: seq<Byte>, size: nat): (n: nat)
    ensures n <= |pending|
  {
    if size < |pending| then size else |pending|
  }

  // The chunks a run of writes and reads hands to the reader, and what stays.
  function Chunks(pending: seq<Byte>, run: seq<Event>): seq<seq<Byte>>
    decreases |run|
  {
    if run == [] then []
    else match run[0]
      case Wrote(b) => Chunks(pending + b, run[1..])
      case Asked(n) => [pending[..Give(pending, n)]] + Chunks(pending[Give(pending, n)..], run[1..])
  }

  function Left(pending: seq<Byte>, run: seq<Event>): seq<Byte>
    decreases |run|
  {
    if run == [] then pending
    else match run[0]
      case Wrote(b) => Left(pending + b, run[1..])
      case Asked(n) => Left(pending[Give(pending, n)..], run[1..])
  }

  function Written(run: seq<Event>): seq<Byte>
    decreases |run|
  {
    if run == [] then []
    else (if run[0].Wrote? then run[0].bytes else []) + Written(run[1..])
  }

  lemma ConcatCons(chunk: seq<Byte>, chunks: seq<seq<Byte>>)
    ensures Concat([chunk] + chunks) == chunk + Concat(chunks)
  {
    assert ([chunk] + chunks)[1..] == chunks;
  }

  lemma NothingGiven(pending: seq<Byte>)
    ensures Concat([]) + pending == pending + []
  {}

  lemma Reassociate(a: seq<Byte>, b: seq<Byte>, c: seq<Byte>, d: seq<Byte>, e: seq<Byte>)
    requires c + d == b + e
    ensures (a + c) + d == (a + b) + e
  {
    assert (a + c) + d == a + (c + d);
    assert (a + b) + e == a + (b + e);
  }

  // Nothing is lost, duplicated or reordered.
  lemma {:induction false} PipeConserves(pending: seq<Byte>, run: seq<Event>)
    ensures Concat(Chunks(pending, run)) + Left(pending, run) == pending + Written(run)
    decreases |run|
  {
    hide Concat, Give;
    if run == [] {
      NothingGiven(pending);
    } else if run[0].Wrote? {
      PipeConserves(pending + run[0].bytes, run[1..]);
      assert (pending + run[0].bytes) + Written(run[1..]) == pending + Written(run);
    } else {
      var k := Give(pending, run[0].size);
      var given, kept := pending[..k], pending[k..];
      PipeConserves(kept, run[1..]);
      ConcatCons(given, Chunks(kept, run[1..]));
      assert given + kept == pending;
      Reassociate(given, kept, Concat(Chunks(kept, run[1..])), Left(kept, run[1..]), Written(run[1..]));
    }
  }

  // Whatever the interleaving of writes and reads and whatever the read sizes, the
  // reader's line splitter emits the first lines written, in order, and all of
  // them once the pipe is drained.
  lemma PipeDeliversLines(run: seq<Event>)
    ensures FeedLines([], Chunks([], run)) <= Complete([], Written(run))
    ensures Left([], run) == [] ==> FeedLines([], Chunks([], run)) == Complete([], Written(run))
  {
    var chunks := Chunks([], run);
    ChunkingIndependence([], chunks);
    PipeConserves([], run);
    assert [] + Written(run) == Written(run);
    CompleteConcat([], Concat(chunks), Left([], run));
    if Left([], run) == [] {
      assert Concat(chunks) + [] == Concat(chunks);
    }
  }
}
