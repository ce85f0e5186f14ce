/**
 The messages of the host-call protocol and the JSON library that carries them.
 JSON itself is taken as given: a Codec is lawful when printing and parsing are
 inverse and what is printed is one non-empty, trimmed line.
 */
module Frames {
  import opened Wrappers
  import opened Utf
  import opened Lines

  type Json = seq<Byte>

  // What the tool writes to stdout.  Other stands for a well-formed frame with a
  // type the driver does not know.
  datatype Frame =
    | Call(id: nat, op: string, args: Json)
    | Log(level: string, msg: string)
    | Result(value: Json)
    | Error(error: string)
    | Other

  predicate Terminal(f: Frame) {
    f.Result? || f.Error?
  }

  // What the Go host writes back for one call.
  datatype Answer = Value(value: Json) | Failure(message: string)

  datatype Response = Response(id: nat, answer: Answer)

  datatype Codec = Codec(
    stringify: Frame -> seq<Byte>,            // JSON.stringify, as std.out.puts encodes it
    unmarshal: seq<Byte> -> Option<Frame>,    // json.Unmarshal into a frame
    marshal: Response -> seq<Scalar>,         // json.Marshal of a response
    parse: seq<Unit> -> Option<Response>)     // JSON.parse of a response line
  {
    ghost predicate Lawful() {
      && (forall f :: PrintsLine(stringify(f)) && unmarshal(stringify(f)) == Some(f))
      && (forall r :: marshal(r) != [] && 10 !in marshal(r) && parse(Utf16(marshal(r))) == Some(r))
    }
  }

  ghost predicate PrintsLine(b: seq<Byte>) {
    NEWLINE !in b && b != [] && Trim(b) == b
  }

  // bytes.TrimSpace on its ASCII white space.
  predicate Space(b: Byte) {
    b == 0x20 || 0x09 <= b <= 0x0D
  }

  function TrimLeft(b: seq<Byte>): seq<Byte> {
    if b != [] && Space(b[0]) then TrimLeft(b[1..]) else b
  }

  function TrimRight(b: seq<Byte>): seq<Byte> {
    if b != [] && Space(b[|b| - 1]) then TrimRight(b[..|b| - 1]) else b
  }

  function Trim(b: seq<Byte>): seq<Byte> {
    TrimRight(TrimLeft(b))
  }

  // The frames the Go side makes of complete lines: blank and malformed lines are
  // dropped.
  function ParseFrames(c: Codec, lines: seq<seq<Byte>>): seq<Frame> {
    if lines == [] then []
    else ParseFrame(c, lines[0]) + ParseFrames(c, lines[1..])
  }

  function ParseFrame(c: Codec, line: seq<Byte>): seq<Frame> {
    var t := Trim(line);
    if t == [] then []
    else match c.unmarshal(t)
      case Some(f) => [f]
      case None => []
  }

  lemma {:induction false} ParseFramesConcat(c: Codec, a: seq<seq<Byte>>, b: seq<seq<Byte>>)
    ensures ParseFrames(c, a + b) == ParseFrames(c, a) + ParseFrames(c, b)
    decreases |a|
  {
    if a == [] {
      assert a + b == b;
    } else {
      assert (a + b)[1..] == a[1..] + b;
      ParseFramesConcat(c, a[1..], b);
    }
  }

  // The responses the JavaScript side makes of complete lines.
  function ParseResponses(c: Codec, lines: seq<seq<Byte>>): seq<Response> {
    if lines == [] then []
    else ParseResponse(c, lines[0]) + ParseResponses(c, lines[1..])
  }

  function ParseResponse(c: Codec, line: seq<Byte>): seq<Response> {
    if line == [] then []
    else match c.parse(Decode(line))
      case Some(r) => [r]
      case None => []
  }

  lemma {:induction false} ParseResponsesConcat(c: Codec, a: seq<seq<Byte>>, b: seq<seq<Byte>>)
    ensures ParseResponses(c, a + b) == ParseResponses(c, a) + ParseResponses(c, b)
    decreases |a|
  {
    if a == [] {
      assert a + b == b;
    } else {
      assert (a + b)[1..] == a[1..] + b;
      ParseResponsesConcat(c, a[1..], b);
    }
  }

  // --- one message, there and back ---

  function FrameLine(c: Codec, f: Frame): seq<Byte> {
    c.stringify(f) + [NEWLINE]
  }

  function ResponseLine(c: Codec, r: Response): seq<Byte> {
    Utf8(c.marshal(r)) + [NEWLINE]
  }

  // Appending a frame to a stream appends it to the frames read from the stream.
  lemma FrameArrives(c: Codec, held: seq<Byte>, s: seq<Byte>, f: Frame)
    requires c.Lawful() && Rest(held, s) == []
    ensures var s' := s + FrameLine(c, f);
            && Rest(held, s') == []
            && ParseFrames(c, Complete(held, s')) == ParseFrames(c, Complete(held, s)) + [f]
  {
    var line := c.stringify(f);
    assert PrintsLine(line);
    CompleteMessage(held, s, line);
    ParseFramesConcat(c, Complete(held, s), [line]);
    assert ParseFrames(c, [line]) == ParseFrame(c, line) + ParseFrames(c, []);
  }

  // The same for a response, through UTF-8, byte-level line cutting and the
  // hand-written decoder.
  lemma ResponseArrives(c: Codec, held: seq<Byte>, s: seq<Byte>, r: Response)
    requires c.Lawful() && Rest(held, s) == []
    ensures var s' := s + ResponseLine(c, r);
            && Rest(held, s') == []
            && ParseResponses(c, Complete(held, s')) == ParseResponses(c, Complete(held, s)) + [r]
  {
    var text := c.marshal(r);
    var line := Utf8(text);
    NewlineOnlyFromNewline(text);
    DecodeCorrect(text);
    CompleteMessage(held, s, line);
    ParseResponsesConcat(c, Complete(held, s), [line]);
    assert line != [];
    assert ParseResponses(c, [line]) == ParseResponse(c, line) + ParseResponses(c, []);
  }

  // --- trimming ---

  // From i to j is what is left of b without white space at its ends.
  ghost predicate Inside(b: seq<Byte>, i: nat, j: nat) {
    && i <= j <= |b|
    && forall k :: 0 <= k < |b| && (k < i || j <= k) ==> Space(b[k])
  }

  lemma {:induction false} TrimLeftMeans(b: seq<Byte>) returns (i: nat)
    ensures i <= |b| && TrimLeft(b) == b[i..] && forall k :: 0 <= k < i ==> Space(b[k])
    ensures TrimLeft(b) != [] ==> !Space(TrimLeft(b)[0])
  {
    if b != [] && Space(b[0]) {
      var n := TrimLeftMeans(b[1..]);
      assert b[n + 1..] == b[1..][n..];
      assert forall k :: 0 < k < n + 1 ==> b[k] == b[1..][k - 1];
      i := n + 1;
    } else {
      assert b[0..] == b;
      i := 0;
    }
  }

  lemma {:induction false} TrimRightMeans(b: seq<Byte>) returns (j: nat)
    ensures j <= |b| && TrimRight(b) == b[..j] && forall k :: j <= k < |b| ==> Space(b[k])
    ensures TrimRight(b) != [] ==> !Space(TrimRight(b)[|TrimRight(b)| - 1])
  {
    if b != [] && Space(b[|b| - 1]) {
      var c := b[..|b| - 1];
      j := TrimRightMeans(c);
      assert b[..j] == c[..j];
      assert forall k :: 0 <= k < |c| ==> b[k] == c[k];
    } else {
      assert b[..|b|] == b;
      j := |b|;
    }
  }

  // Trimming takes white space off both ends, and all of it.
  lemma TrimMeans(b: seq<Byte>)
    ensures exists i: nat, j: nat :: Inside(b, i, j) && Trim(b) == b[i..j]
    ensures Trim(b) != [] ==> !Space(Trim(b)[0]) && !Space(Trim(b)[|Trim(b)| - 1])
  {
    hide Space, TrimLeft, TrimRight;
    var i := TrimLeftMeans(b);
    var c := TrimLeft(b);
    var n := TrimRightMeans(c);
    var j: nat := i + n;
    assert b[i..j] == c[..n];
    assert forall k :: i <= k < |b| ==> b[k] == c[k - i];
    assert Inside(b, i, j);
  }
}
