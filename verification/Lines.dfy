/**
 Newline framing: how a stream of bytes that arrives in arbitrary chunks is cut
 into lines.  Both ends of the host-call channel do this, each with its own code.
 */
module Lines {
  import opened Utf

  const NEWLINE: Byte := 10

  // The lines completed by reading s with `held` already collected, without their
  // newlines.
  function Complete(held: seq<Byte>, s: seq<Byte>): seq<seq<Byte>>
    decreases |s|
  {
    if s == [] then []
    else if s[0] == NEWLINE then [held] + Complete([], s[1..])
    else Complete(held + [s[0]], s[1..])
  }

  // What is then still being collected.
  function Rest(held: seq<Byte>, s: seq<Byte>): seq<Byte>
    decreases |s|
  {
    if s == [] then held
    else if s[0] == NEWLINE then Rest([], s[1..])
    else Rest(held + [s[0]], s[1..])
  }

  // The stream that a sequence of lines followed by a partial one stands for.
  function Join(lines: seq<seq<Byte>>, rest: seq<Byte>): seq<Byte> {
    if lines == [] then rest else (lines[0] + [NEWLINE]) + Join(lines[1..], rest)
  }

  function Concat(chunks: seq<seq<Byte>>): seq<Byte> {
    if chunks == [] then [] else chunks[0] + Concat(chunks[1..])
  }

  ghost predicate NewlineFree(lines: seq<seq<Byte>>) {
    forall k :: 0 <= k < |lines| ==> NEWLINE !in lines[k]
  }

  // Cutting loses and invents nothing: lines and rest spell the stream.
  lemma {:induction false} CutSpellsStream(held: seq<Byte>, s: seq<Byte>)
    requires NEWLINE !in held
    ensures Join(Complete(held, s), Rest(held, s)) == held + s
    ensures NewlineFree(Complete(held, s)) && NEWLINE !in Rest(held, s)
    decreases |s|
  {
    if s == [] {
      assert held + s == held;
    } else {
      assert s == [s[0]] + s[1..];
      if s[0] == NEWLINE {
        CutSpellsStream([], s[1..]);
        assert Complete(held, s)[1..] == Complete([], s[1..]);
        assert [] + s[1..] == s[1..];
        assert (held + [NEWLINE]) + s[1..] == held + s;
      } else {
        CutSpellsStream(held + [s[0]], s[1..]);
        assert (held + [s[0]]) + s[1..] == held + s;
      }
    }
  }

  // Cutting a stream in two places the same lines: the key to independence from
  // chunking.
  lemma {:induction false} CompleteConcat(held: seq<Byte>, a: seq<Byte>, b: seq<Byte>)
    ensures Complete(held, a + b) == Complete(held, a) + Complete(Rest(held, a), b)
    ensures Rest(held, a + b) == Rest(Rest(held, a), b)
    decreases |a|
  {
    if a == [] {
      assert a + b == b;
    } else {
      assert (a + b)[1..] == a[1..] + b;
      CompleteConcat(if a[0] == NEWLINE then [] else held + [a[0]], a[1..], b);
    }
  }

  // A newline-free stretch is only collected.
  lemma {:induction false} Collects(held: seq<Byte>, a: seq<Byte>)
    requires NEWLINE !in a
    ensures Complete(held, a) == [] && Rest(held, a) == held + a
    decreases |a|
  {
    if a != [] {
      assert a[0] in a;
      Collects(held + [a[0]], a[1..]);
      assert (held + [a[0]]) + a[1..] == held + a;
    }
  }

  // A newline-free stretch and a newline complete one line.
  lemma OneLine(held: seq<Byte>, a: seq<Byte>, s: seq<Byte>)
    requires NEWLINE !in a
    ensures Complete(held, a + ([NEWLINE] + s)) == [held + a] + Complete([], s)
    ensures Rest(held, a + ([NEWLINE] + s)) == Rest([], s)
  {
    Collects(held, a);
    CompleteConcat(held, a, [NEWLINE] + s);
    assert ([NEWLINE] + s)[1..] == s;
  }

  // Bytes held are as good as bytes still to come.
  lemma HeldIsStream(held: seq<Byte>, s: seq<Byte>)
    requires NEWLINE !in held
    ensures Complete([], held + s) == Complete(held, s) && Rest([], held + s) == Rest(held, s)
  {
    Collects([], held);
    CompleteConcat([], held, s);
    assert [] + held == held;
  }

  // The lines a splitter emits when fed chunk by chunk, and what it then holds.
  function FeedLines(held: seq<Byte>, chunks: seq<seq<Byte>>): seq<seq<Byte>>
    decreases |chunks|
  {
    if chunks == [] then []
    else Complete(held, chunks[0]) + FeedLines(Rest(held, chunks[0]), chunks[1..])
  }

  function FeedHeld(held: seq<Byte>, chunks: seq<seq<Byte>>): seq<Byte>
    decreases |chunks|
  {
    if chunks == [] then held else FeedHeld(Rest(held, chunks[0]), chunks[1..])
  }

  // However the stream is chunked, the lines are those of the whole stream.
  lemma {:induction false} ChunkingIndependence(held: seq<Byte>, chunks: seq<seq<Byte>>)
    ensures FeedLines(held, chunks) == Complete(held, Concat(chunks))
    ensures FeedHeld(held, chunks) == Rest(held, Concat(chunks))
    decreases |chunks|
  {
    if chunks != [] {
      ChunkingIndependence(Rest(held, chunks[0]), chunks[1..]);
      CompleteConcat(held, chunks[0], Concat(chunks[1..]));
    }
  }

  // A newline-terminated message appended to a stream adds exactly one line.
  lemma CompleteMessage(held: seq<Byte>, s: seq<Byte>, line: seq<Byte>)
    requires NEWLINE !in line
    requires Rest(held, s) == []
    ensures Complete(held, s + (line + [NEWLINE])) == Complete(held, s) + [line]
    ensures Rest(held, s + (line + [NEWLINE])) == []
  {
    CompleteConcat(held, s, line + [NEWLINE]);
    OneLine([], line, []);
    assert line + ([NEWLINE] + []) == line + [NEWLINE];
    assert [] + line == line;
  }
}
