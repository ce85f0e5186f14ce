/**
 transport.go: the Go end of the tool's stdout.  Bytes arrive in any chunks; the
 writer keeps an incomplete line and appends the frames of the complete ones.
 */
module Transport {
  import opened Wrappers
  import opened Utf
  import opened Lines
  import opened Frames

  class FrameWriter {
    const codec: Codec
    var buf: seq<Byte>
    var frames: seq<Frame>

    constructor (codec: Codec)
      ensures this.codec == codec && buf == [] && frames == []
    {
      this.codec := codec;
      buf, frames := [], [];
    }

    // bytes.Buffer.ReadBytes('\n'): consumes up to and including the first newline,
    // or everything, with an error, when there is none.
    method ReadBytes() returns (line: seq<Byte>, eof: bool)
      modifies this`buf
      ensures eof ==> line == old(buf) && NEWLINE !in line && buf == []
      ensures !eof ==> line != [] && line[|line| - 1] == NEWLINE && NEWLINE !in line[..|line| - 1]
      ensures !eof ==> old(buf) == line + buf
    {
      var k := 0;
      while k < |buf| && buf[k] != NEWLINE
        invariant 0 <= k <= |buf|
        invariant NEWLINE !in buf[..k]
      {
        k := k + 1;
      }
      eof := k == |buf|;
      var n := if eof then k else k + 1;
      assert buf[..n][..k] == buf[..k];
      line, buf := buf[..n], buf[n..];
    }

    // Write keeps the frames of all lines completed so far and the incomplete rest.
    method Write(p: seq<Byte>) returns (n: nat)
      requires NEWLINE !in buf
      modifies this
      ensures n == |p|
      ensures buf == Rest(old(buf), p) && NEWLINE !in buf
      ensures frames == old(frames) + ParseFrames(codec, Complete(old(buf), p))
    {
      hide Complete, Rest, ParseFrames, Trim;
      ghost var held := buf;
      HeldIsStream(held, p);
      buf := buf + p;
      ghost var total := buf;
      while true
        invariant frames + ParseFrames(codec, Complete([], buf)) == old(frames) + ParseFrames(codec, Complete([], total))
        invariant Rest([], buf) == Rest([], total)
        decreases |buf|
      {
        ghost var before, had := buf, frames;
        var line, eof := ReadBytes();
        if eof {
          LastLine(codec, before);
          buf := line;
          break;
        }
        FirstLine(codec, before, line, buf);
        line := Trim(line);
        if line != [] {
          match codec.unmarshal(line) {
            case Some(f) => frames := frames + [f];
            case None =>
          }
        }
        assert frames + ParseFrames(codec, Complete([], buf)) == had + ParseFrames(codec, Complete([], before));
      }
      n := |p|;
    }

    method Take() returns (taken: seq<Frame>)
      modifies this`frames
      ensures taken == old(frames) && frames == []
    {
      taken := frames;
      frames := [];
    }
  }

  lemma {:induction false} TrimLeftDropsNewline(b: seq<Byte>)
    ensures TrimLeft(b + [NEWLINE]) == (if TrimLeft(b) == [] then [] else TrimLeft(b) + [NEWLINE])
    decreases |b|
  {
    if b == [] {
      assert b + [NEWLINE] == [NEWLINE];
      assert TrimLeft([NEWLINE]) == TrimLeft([NEWLINE][1..]);
    } else if Space(b[0]) {
      assert (b + [NEWLINE])[1..] == b[1..] + [NEWLINE];
      TrimLeftDropsNewline(b[1..]);
    }
  }

  // The delimiter is white space, so trimming removes it.
  lemma TrimDropsNewline(b: seq<Byte>)
    ensures Trim(b + [NEWLINE]) == Trim(b)
  {
    TrimLeftDropsNewline(b);
    var t := TrimLeft(b);
    assert (t + [NEWLINE])[..|t|] == t;
  }

  // A stream without a newline holds no frame yet.
  lemma LastLine(c: Codec, before: seq<Byte>)
    requires NEWLINE !in before
    ensures ParseFrames(c, Complete([], before)) == [] && Rest([], before) == before
  {
    Collects([], before);
    assert [] + before == before;
  }

  // Taking the first line off a stream.
  lemma FirstLine(c: Codec, before: seq<Byte>, line: seq<Byte>, rest: seq<Byte>)
    requires before == line + rest
    requires line != [] && line[|line| - 1] == NEWLINE && NEWLINE !in line[..|line| - 1]
    ensures ParseFrames(c, Complete([], before)) == ParseFrame(c, line) + ParseFrames(c, Complete([], rest))
    ensures Rest([], before) == Rest([], rest)
  {
    var body := line[..|line| - 1];
    assert line == body + [NEWLINE];
    assert before == body + ([NEWLINE] + rest);
    assert [] + body == body;
    OneLine([], body, rest);
    TrimDropsNewline(body);
    assert ([body] + Complete([], rest))[1..] == Complete([], rest);
  }

  // However stdout is chunked, the frames are those of the whole stream.
  function WriteAll(c: Codec, held: seq<Byte>, chunks: seq<seq<Byte>>): seq<Frame>
    decreases |chunks|
  {
    if chunks == [] then []
    else ParseFrames(c, Complete(held, chunks[0])) + WriteAll(c, Rest(held, chunks[0]), chunks[1..])
  }

  lemma {:induction false} FramesIndependentOfChunking(c: Codec, held: seq<Byte>, chunks: seq<seq<Byte>>)
    ensures WriteAll(c, held, chunks) == ParseFrames(c, Complete(held, Concat(chunks)))
    decreases |chunks|
  {
    if chunks != [] {
      var a := chunks[0];
      FramesIndependentOfChunking(c, Rest(held, a), chunks[1..]);
      CompleteConcat(held, a, Concat(chunks[1..]));
      ParseFramesConcat(c, Complete(held, a), Complete(Rest(held, a), Concat(chunks[1..])));
    }
  }
}
