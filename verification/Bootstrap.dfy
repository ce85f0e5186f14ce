/**
 bootstrap.js: the JavaScript end of the host-call protocol.  hostCall files a
 promise under a fresh id, prints the arguments and writes a call frame; the read
 handler cuts stdin into lines, decodes each and settles the promise it names.
 */
module Bootstrap {
  import opened Wrappers
  import opened Utf
  import opened Lines
  import opened Frames

  // The promises of a run: the ids in the map, the next id, what has been settled with
  // what, oldest first, and the ids whose call could not be printed.  Such a promise is
  // rejected on the spot, and its entry stays in the map.
  datatype Promises = Promises(pending: set<nat>, nextId: nat, settled: seq<Response>, rejected: set<nat>)

  const FRESH := Promises({}, 1, [], {})

  function Issue(p: Promises): Promises {
    p.(pending := p.pending + {p.nextId}, nextId := p.nextId + 1)
  }

  function Settle(p: Promises, r: Response): Promises {
    if r.id in p.pending then p.(pending := p.pending - {r.id}, settled := p.settled + [r]) else p
  }

  function SettleAll(p: Promises, rs: seq<Response>): Promises
    decreases |rs|
  {
    if rs == [] then p else SettleAll(Settle(p, rs[0]), rs[1..])
  }

  // The promises after the lines completed by `data` when `held` was collected.
  function Receive(c: Codec, p: Promises, held: seq<Byte>, data: seq<Byte>): Promises {
    SettleAll(p, ParseResponses(c, Complete(held, data)))
  }

  lemma {:induction false} SettleAllConcat(p: Promises, a: seq<Response>, b: seq<Response>)
    ensures SettleAll(p, a + b) == SettleAll(SettleAll(p, a), b)
    decreases |a|
  {
    if a == [] {
      assert a + b == b;
    } else {
      assert (a + b)[1..] == a[1..] + b;
      SettleAllConcat(Settle(p, a[0]), a[1..], b);
    }
  }

  // --- printing an argument ---

  // What JSON.stringify does with the arguments of a call.  They are the tool's own
  // values, so their toJSON methods and getters may log or call the host on the way; in
  // the end there is a text, or an exception for a value that has none.
  datatype Printing =
    | Text(json: Json)
    | Throws
    | Logs(level: string, msg: string, rest: Printing)
    | Calls(op: string, arg: Printing, rest: Printing)

  predicate Prints(a: Printing) {
    match a
    case Text(_) => true
    case Throws => false
    case Logs(_, _, rest) => Prints(rest)
    case Calls(_, _, rest) => Prints(rest)
  }

  // How many calls are issued on the way.
  function Count(a: Printing): nat {
    match a
    case Text(_) => 0
    case Throws => 0
    case Logs(_, _, rest) => Count(rest)
    case Calls(_, arg, rest) => 1 + Count(arg) + Count(rest)
  }

  // The frames written while the arguments of call `id` are printed, when n is the next
  // id: those of calls on the way first, that of the call itself last or not at all.
  function Written(id: nat, op: string, n: nat, a: Printing): seq<Frame>
    decreases a
  {
    match a
    case Text(json) => [Call(id, op, json)]
    case Throws => []
    case Logs(level, msg, rest) => [Log(level, msg)] + Written(id, op, n, rest)
    case Calls(op', arg, rest) => Written(n, op', n + 1, arg) + Written(id, op, n + 1 + Count(arg), rest)
  }

  // The ids whose promise is rejected meanwhile.
  function Failed(id: nat, n: nat, a: Printing): set<nat>
    decreases a
  {
    match a
    case Text(_) => {}
    case Throws => {id}
    case Logs(_, _, rest) => Failed(id, n, rest)
    case Calls(_, arg, rest) => Failed(n, n + 1, arg) + Failed(id, n + 1 + Count(arg), rest)
  }

  // Printing issues the ids from n on, and fails call `id` exactly when its own
  // arguments do not print.
  lemma {:induction false} FailsExactlyWhen(id: nat, n: nat, a: Printing)
    requires id < n
    ensures id in Failed(id, n, a) <==> !Prints(a)
    ensures forall i :: i in Failed(id, n, a) ==> i == id || n <= i < n + Count(a)
    decreases a
  {
    match a
    case Text(_) =>
    case Throws =>
    case Logs(_, _, rest) => FailsExactlyWhen(id, n, rest);
    case Calls(_, arg, rest) =>
      FailsExactlyWhen(n, n + 1, arg);
      FailsExactlyWhen(id, n + 1 + Count(arg), rest);
  }

  // The promises after printing the arguments of call `id`, and after a whole call.
  function Printed(p: Promises, id: nat, a: Printing): Promises
    decreases a, 0
  {
    match a
    case Text(_) => p
    case Throws => p.(rejected := p.rejected + {id})
    case Logs(_, _, rest) => Printed(p, id, rest)
    case Calls(_, arg, rest) => Printed(Called(p, arg), id, rest)
  }

  function Called(p: Promises, a: Printing): Promises
    decreases a, 1
  {
    Printed(Issue(p), p.nextId, a)
  }

  // A call takes one id and those of the calls on the way, files each, and rejects
  // exactly the failed ones.
  lemma {:induction false} PrintedIs(p: Promises, id: nat, a: Printing)
    ensures var q := Printed(p, id, a);
            && q.nextId == p.nextId + Count(a)
            && q.settled == p.settled
            && q.rejected == p.rejected + Failed(id, p.nextId, a)
            && forall i: nat :: i in q.pending <==> i in p.pending || p.nextId <= i < q.nextId
    decreases a
  {
    match a
    case Text(_) =>
    case Throws =>
    case Logs(_, _, rest) => PrintedIs(p, id, rest);
    case Calls(_, arg, rest) =>
      PrintedIs(Issue(p), p.nextId, arg);
      PrintedIs(Called(p, arg), id, rest);
  }

  // A hostCall's promise is rejected on the spot if and only if its arguments do not
  // print, whatever they do on the way.
  lemma RejectedExactlyWhen(p: Promises, a: Printing)
    requires p.nextId !in p.rejected
    ensures p.nextId in Called(p, a).rejected <==> !Prints(a)
    ensures p.nextId in Called(p, a).pending
  {
    PrintedIs(Issue(p), p.nextId, a);
    FailsExactlyWhen(p.nextId, p.nextId + 1, a);
  }

  class Script {
    const codec: Codec
    var pendingBytes: seq<Byte>
    var pending: set<nat>
    var nextId: nat
    var settled: seq<Response>
    var rejected: set<nat>
    var stdout: seq<Byte>

    ghost function State(): Promises
      reads this
    {
      Promises(pending, nextId, settled, rejected)
    }

    constructor (codec: Codec)
      ensures this.codec == codec && State() == FRESH && pendingBytes == [] && stdout == []
    {
      this.codec := codec;
      pendingBytes, pending, nextId, settled, rejected, stdout := [], {}, 1, [], {}, [];
    }

    method Send(f: Frame)
      modifies this`stdout
      ensures stdout == old(stdout) + FrameLine(codec, f)
    {
      stdout := stdout + (codec.stringify(f) + [NEWLINE]);
    }

    // hostCall files its promise before the arguments are printed, so calls made on the
    // way take later ids and are sent first.
    method HostCall(op: string, args: Printing) returns (id: nat)
      modifies this`pending, this`nextId, this`rejected, this`stdout
      ensures id == old(nextId)
      ensures State() == Called(old(State()), args)
      ensures stdout == old(stdout) + FrameLines(codec, Written(id, op, id + 1, args))
      decreases args, 1
    {
      id := nextId;
      nextId := nextId + 1;
      pending := pending + {id};
      Stringify(id, op, args);
    }

    // JSON.stringify and the send of call `id`; an exception rejects its promise.
    method Stringify(id: nat, op: string, args: Printing)
      modifies this`pending, this`nextId, this`rejected, this`stdout
      ensures State() == Printed(old(State()), id, args)
      ensures stdout == old(stdout) + FrameLines(codec, Written(id, op, old(nextId), args))
      decreases args, 0
    {
      hide FrameLine, FrameLines, Failed;
      ghost var was := State();
      match args
      case Text(json) =>
        LineOf(codec, Call(id, op, json));
        Send(Call(id, op, json));
      case Throws =>
        NoLines(codec);
        rejected := rejected + {id};
      case Logs(level, msg, rest) =>
        LineOf(codec, Log(level, msg));
        LinesAppend(codec, [Log(level, msg)], Written(id, op, nextId, rest));
        Send(Log(level, msg));
        Stringify(id, op, rest);
      case Calls(op', arg, rest) =>
        PrintedIs(Issue(was), was.nextId, arg);
        LinesAppend(codec, Written(nextId, op', nextId + 1, arg), Written(id, op, nextId + 1 + Count(arg), rest));
        var n := HostCall(op', arg);
        Stringify(id, op, rest);
    }

    // pendingBytes.indexOf(10), with the length standing for -1.
    method IndexOfNewline() returns (nl: nat)
      ensures nl <= |pendingBytes| && NEWLINE !in pendingBytes[..nl]
      ensures nl < |pendingBytes| ==> pendingBytes[nl] == NEWLINE
    {
      nl := 0;
      while nl < |pendingBytes| && pendingBytes[nl] != NEWLINE
        invariant nl <= |pendingBytes| && NEWLINE !in pendingBytes[..nl]
      {
        nl := nl + 1;
      }
    }

    // The read handler settles the promises of the lines completed so far, each
    // decoded on its own, and keeps the incomplete rest.
    method ReadHandler(data: seq<Byte>)
      requires NEWLINE !in pendingBytes
      modifies this`pendingBytes, this`pending, this`settled
      ensures State() == Receive(codec, old(State()), old(pendingBytes), data)
      ensures pendingBytes == Rest(old(pendingBytes), data) && NEWLINE !in pendingBytes
    {
      hide Complete, Rest, ParseResponses, SettleAll, Decode;
      ghost var was := State();
      HeldIsStream(pendingBytes, data);
      pendingBytes := pendingBytes + data;
      ghost var total := pendingBytes;
      var nl: nat := IndexOfNewline();
      while nl < |pendingBytes|
        invariant nl <= |pendingBytes| && NEWLINE !in pendingBytes[..nl]
        invariant nl < |pendingBytes| ==> pendingBytes[nl] == NEWLINE
        invariant Rest([], pendingBytes) == Rest([], total)
        invariant Receive(codec, State(), [], pendingBytes) == Receive(codec, was, [], total)
        decreases |pendingBytes|
      {
        ghost var before, stream := State(), pendingBytes;
        var lineBytes := pendingBytes[..nl];
        pendingBytes := pendingBytes[nl + 1..];
        assert stream == lineBytes + ([NEWLINE] + pendingBytes);
        FirstResponse(codec, before, lineBytes, pendingBytes);
        SettleParsed(codec, before, lineBytes);
        if lineBytes != [] {
          var text := Utf8Decode(lineBytes);
          match codec.parse(text) {
            case Some(msg) =>
              if msg.id in pending {
                pending := pending - {msg.id};
                settled := settled + [msg];
              }
            case None =>
          }
        }
        nl := IndexOfNewline();
      }
      assert pendingBytes == pendingBytes[..nl];
      NoResponse(codec, State(), pendingBytes);
    }
  }

  function FrameLines(c: Codec, fs: seq<Frame>): seq<Byte> {
    if fs == [] then [] else FrameLine(c, fs[0]) + FrameLines(c, fs[1..])
  }

  lemma NoLines(c: Codec)
    ensures FrameLines(c, []) == []
  {}

  lemma LineOf(c: Codec, f: Frame)
    ensures FrameLines(c, [f]) == FrameLine(c, f)
  {
    hide FrameLine;
    assert [f][1..] == [];
  }

  lemma {:induction false} LinesAppend(c: Codec, a: seq<Frame>, b: seq<Frame>)
    ensures FrameLines(c, a + b) == FrameLines(c, a) + FrameLines(c, b)
    decreases |a|
  {
    hide FrameLine;
    if a == [] {
      assert a + b == b;
    } else {
      assert (a + b)[1..] == a[1..] + b;
      LinesAppend(c, a[1..], b);
    }
  }

  // Taking the first line off a stream of responses.
  lemma FirstResponse(c: Codec, p: Promises, line: seq<Byte>, rest: seq<Byte>)
    requires NEWLINE !in line
    ensures Receive(c, p, [], line + ([NEWLINE] + rest))
         == Receive(c, SettleAll(p, ParseResponse(c, line)), [], rest)
    ensures Rest([], line + ([NEWLINE] + rest)) == Rest([], rest)
  {
    assert [] + line == line;
    OneLine([], line, rest);
    var lines := [line] + Complete([], rest);
    assert lines[1..] == Complete([], rest);
    var one := ParseResponse(c, line);
    SettleAllConcat(p, one, ParseResponses(c, Complete([], rest)));
  }

  lemma SettleParsed(c: Codec, p: Promises, line: seq<Byte>)
    ensures SettleAll(p, ParseResponse(c, line))
         == if line != [] && c.parse(Decode(line)).Some? then Settle(p, c.parse(Decode(line)).value) else p
  {}

  lemma NoResponse(c: Codec, p: Promises, stream: seq<Byte>)
    requires NEWLINE !in stream
    ensures Receive(c, p, [], stream) == p && Rest([], stream) == stream
  {
    Collects([], stream);
    assert [] + stream == stream;
  }
}
