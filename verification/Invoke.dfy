/**
 invoke.go: the driver loop.  It drains the frames of the tool, executes host calls,
 writes each answer to the response pipe and stops at the first terminal frame.
 */
module Invoke {
  import opened Wrappers
  import opened Utf
  import opened Lines
  import opened Frames
  import opened Stdin

  datatype LogLine = LogLine(level: string, msg: string)

  // A host operation the driver executed, and what it answered.
  datatype Executed = Executed(id: nat, op: string, args: Json, answer: Answer)

  datatype Outcome = Returned(value: Json) | ToolError(error: string) | TimedOut | Stalled

  const JSON_NULL: Json := [0x6E, 0x75, 0x6C, 0x6C]

  // An empty result is sent as null.
  function Normal(a: Answer): Answer {
    if a == Value([]) then Value(JSON_NULL) else a
  }

  function OutcomeOf(f: Frame): Outcome
    requires Terminal(f)
  {
    if f.Result? then Returned(f.value) else ToolError(f.error)
  }

  // The call frames of a sequence of frames, and the log lines.
  function CallsOf(fs: seq<Frame>): seq<Frame> {
    if fs == [] then []
    else
      var f := fs[|fs| - 1];
      CallsOf(fs[..|fs| - 1]) + if f.Call? then [f] else []
  }

  function LogsOf(fs: seq<Frame>): seq<LogLine> {
    if fs == [] then []
    else
      var f := fs[|fs| - 1];
      LogsOf(fs[..|fs| - 1]) + if f.Log? then [LogLine(f.level, f.msg)] else []
  }

  ghost predicate NoTerminal(fs: seq<Frame>) {
    forall k :: 0 <= k < |fs| ==> !Terminal(fs[k])
  }

  // The executed operations are exactly these calls, each once and in this order.
  ghost predicate Matches(calls: seq<Executed>, fs: seq<Frame>) {
    && |calls| == |fs|
    && forall k :: 0 <= k < |calls| ==> fs[k] == Call(calls[k].id, calls[k].op, calls[k].args)
  }

  function Reply(e: Executed): Response {
    Response(e.id, e.answer)
  }

  function Replies(calls: seq<Executed>): seq<Response> {
    seq(|calls|, k requires 0 <= k < |calls| => Reply(calls[k]))
  }

  function ReplyBytes(c: Codec, calls: seq<Executed>): seq<Byte> {
    if calls == [] then []
    else ReplyBytes(c, calls[..|calls| - 1]) + ResponseLine(c, Reply(calls[|calls| - 1]))
  }

  lemma Snoc(fs: seq<Frame>, f: Frame)
    ensures CallsOf(fs + [f]) == CallsOf(fs) + if f.Call? then [f] else []
    ensures LogsOf(fs + [f]) == LogsOf(fs) + if f.Log? then [LogLine(f.level, f.msg)] else []
  {
    assert (fs + [f])[..|fs|] == fs;
  }

  // The host, which may answer differently on each call: its first argument counts
  // the calls made before.
  type Host = (nat, string, Json) -> Answer

  // What executing the calls among fs in order yields, when n calls came before.
  function Execute(host: Host, n: nat, fs: seq<Frame>): seq<Executed> {
    if fs == [] then []
    else
      var done := Execute(host, n, fs[..|fs| - 1]);
      done + ExecuteOne(host, n + |done|, fs[|fs| - 1])
  }

  function ExecuteOne(host: Host, n: nat, f: Frame): seq<Executed> {
    if f.Call? then [Executed(f.id, f.op, f.args, Normal(host(n, f.op, f.args)))] else []
  }

  lemma {:induction false} ExecuteMatches(host: Host, n: nat, fs: seq<Frame>)
    ensures Matches(Execute(host, n, fs), CallsOf(fs))
  {
    if fs != [] {
      ExecuteMatches(host, n, fs[..|fs| - 1]);
    }
  }

  lemma ExecuteSnoc(host: Host, n: nat, fs: seq<Frame>, f: Frame)
    ensures var done := Execute(host, n, fs);
            Execute(host, n, fs + [f]) == done + ExecuteOne(host, n + |done|, f)
  {
    hide ExecuteOne;
    var all := fs + [f];
    assert all[..|all| - 1] == fs && all[|all| - 1] == f;
  }

  lemma ReplyBytesSnoc(c: Codec, calls: seq<Executed>, e: Executed)
    ensures ReplyBytes(c, calls + [e]) == ReplyBytes(c, calls) + ResponseLine(c, Reply(e))
  {
    assert (calls + [e])[..|calls|] == calls;
  }

  // --- what the driver did, frame by frame ---

  predicate IsCall(f: Frame) { f.Call? }

  predicate IsLog(f: Frame) { f.Log? }

  // How many frames are of a kind.
  function HowMany(kind: Frame -> bool, fs: seq<Frame>): nat {
    if fs == [] then 0 else HowMany(kind, fs[..|fs| - 1]) + if kind(fs[|fs| - 1]) then 1 else 0
  }

  lemma TallySnoc(kind: Frame -> bool, fs: seq<Frame>, f: Frame)
    ensures HowMany(kind, fs + [f]) == HowMany(kind, fs) + if kind(f) then 1 else 0
  {
    assert (fs + [f])[..|fs|] == fs;
  }

  // The log lines are the level and message of each log frame, in order.
  ghost predicate LogsInOrder(logs: seq<LogLine>, fs: seq<Frame>) {
    && |logs| == HowMany(IsLog, fs)
    && forall j :: 0 <= j < |fs| && fs[j].Log? ==>
         HowMany(IsLog, fs[..j]) < |logs| && logs[HowMany(IsLog, fs[..j])] == LogLine(fs[j].level, fs[j].msg)
  }

  // The operations executed are the id, name and arguments of each call frame, in order.
  ghost predicate CallsInOrder(calls: seq<Executed>, fs: seq<Frame>) {
    && |calls| == HowMany(IsCall, fs)
    && forall j :: 0 <= j < |fs| && fs[j].Call? ==>
         && HowMany(IsCall, fs[..j]) < |calls|
         && calls[HowMany(IsCall, fs[..j])].id == fs[j].id
         && calls[HowMany(IsCall, fs[..j])].op == fs[j].op
         && calls[HowMany(IsCall, fs[..j])].args == fs[j].args
  }

  lemma {:induction false} LogsOfInOrder(fs: seq<Frame>)
    ensures LogsInOrder(LogsOf(fs), fs)
  {
    if fs != [] {
      var n := |fs| - 1;
      LogsOfInOrder(fs[..n]);
      assert fs[..n] + [fs[n]] == fs;
      Snoc(fs[..n], fs[n]);
      TallySnoc(IsLog, fs[..n], fs[n]);
      assert forall j :: 0 <= j < n ==> fs[..n][j] == fs[j] && fs[..n][..j] == fs[..j];
    }
  }

  lemma {:induction false} CallsOfInOrder(fs: seq<Frame>)
    ensures |CallsOf(fs)| == HowMany(IsCall, fs)
    ensures forall j :: 0 <= j < |fs| && fs[j].Call? ==>
              HowMany(IsCall, fs[..j]) < |CallsOf(fs)| && CallsOf(fs)[HowMany(IsCall, fs[..j])] == fs[j]
  {
    if fs != [] {
      var n := |fs| - 1;
      CallsOfInOrder(fs[..n]);
      assert fs[..n] + [fs[n]] == fs;
      Snoc(fs[..n], fs[n]);
      TallySnoc(IsCall, fs[..n], fs[n]);
      assert forall j :: 0 <= j < n ==> fs[..n][j] == fs[j] && fs[..n][..j] == fs[..j];
    }
  }

  lemma MatchesInOrder(calls: seq<Executed>, fs: seq<Frame>)
    requires Matches(calls, CallsOf(fs))
    ensures CallsInOrder(calls, fs)
  {
    CallsOfInOrder(fs);
  }

  // The answer recorded for an operation is what the host answered to it, with null for
  // an empty value.
  lemma {:induction false} AnswersAreTheHosts(host: Host, n: nat, fs: seq<Frame>)
    ensures forall i :: 0 <= i < |Execute(host, n, fs)| ==>
              var x := Execute(host, n, fs)[i];
              var a := host(n + i, x.op, x.args);
              x.answer == if a == Value([]) then Value([0x6E, 0x75, 0x6C, 0x6C]) else a
  {
    if fs != [] {
      AnswersAreTheHosts(host, n, fs[..|fs| - 1]);
    }
  }

  class Driver {
    const codec: Codec
    const host: Host
    const pipe: RespPipe
    var calls: seq<Executed>
    var logs: seq<LogLine>

    constructor (codec: Codec, host: Host, pipe: RespPipe)
      ensures this.codec == codec && this.host == host && this.pipe == pipe
      ensures calls == [] && logs == []
    {
      this.codec, this.host, this.pipe := codec, host, pipe;
      calls, logs := [], [];
    }

    method WriteResp(id: nat, val: Answer)
      requires pipe.Valid() && !pipe.closed
      modifies pipe
      ensures pipe.Valid() && !pipe.closed
      ensures pipe.Pending() == old(pipe.Pending()) + ResponseLine(codec, Response(id, Normal(val)))
      ensures pipe.Pending() == old(pipe.Pending())
                + ResponseLine(codec, Response(id, if val == Value([]) then Value([0x6E, 0x75, 0x6C, 0x6C]) else val))
    {
      var answer := val;
      match val {
        case Failure(_) =>
        case Value(v) => if |v| == 0 { answer := Value(JSON_NULL); }
      }
      var line := Utf8(codec.marshal(Response(id, answer)));
      var n, err := pipe.Write(line + [NEWLINE]);
    }

    // One round of the loop over the frames taken.  The calls before the first
    // terminal frame are executed and answered, each once and in order; nothing
    // after it is looked at.
    method HandleBatch(batch: seq<Frame>) returns (outcome: Option<Outcome>, k: nat)
      requires pipe.Valid() && !pipe.closed
      modifies this`calls, this`logs, pipe
      ensures pipe.Valid() && !pipe.closed
      ensures k <= |batch| && NoTerminal(batch[..k])
      ensures k == |batch| ==> outcome == None
      ensures k < |batch| ==> Terminal(batch[k]) && outcome == Some(OutcomeOf(batch[k]))
      ensures forall j :: 0 <= j < k ==> !batch[j].Result? && !batch[j].Error?
      ensures forall v :: outcome == Some(Returned(v)) <==> k < |batch| && batch[k] == Result(v)
      ensures forall e :: outcome == Some(ToolError(e)) <==> k < |batch| && batch[k] == Error(e)
      ensures calls == old(calls) + Execute(host, |old(calls)|, batch[..k])
      ensures logs == old(logs) + LogsOf(batch[..k])
      ensures pipe.Pending() == old(pipe.Pending()) + ReplyBytes(codec, Execute(host, |old(calls)|, batch[..k]))
    {
      hide Execute, LogsOf, CallsOf, ReplyBytes, ResponseLine;
      k := 0;
      NothingYet(codec, host, |calls|, batch[..0]);
      while k < |batch|
        invariant pipe.Valid() && !pipe.closed
        invariant k <= |batch| && NoTerminal(batch[..k])
        invariant calls == old(calls) + Execute(host, |old(calls)|, batch[..k])
        invariant logs == old(logs) + LogsOf(batch[..k])
        invariant pipe.Pending() == old(pipe.Pending()) + ReplyBytes(codec, Execute(host, |old(calls)|, batch[..k]))
      {
        var f := batch[k];
        assert batch[..k + 1] == batch[..k] + [f];
        ghost var done := Execute(host, |old(calls)|, batch[..k]);
        ExecuteSnoc(host, |old(calls)|, batch[..k], f);
        assert |calls| == |old(calls)| + |done| && done + [] == done;
        Snoc(batch[..k], f);
        match f {
          case Call(id, op, args) =>
            var val := host(|calls|, op, args);
            ReplyBytesSnoc(codec, done, Executed(id, op, args, Normal(val)));
            WriteResp(id, val);
            calls := calls + [Executed(id, op, args, Normal(val))];
          case Log(level, msg) =>
            logs := logs + [LogLine(level, msg)];
          case Result(value) =>
            return Some(Returned(value)), k;
          case Error(error) =>
            return Some(ToolError(error)), k;
          case Other =>
        }
        k := k + 1;
      }
      outcome := None;
    }
  }

  lemma NothingYet(c: Codec, host: Host, n: nat, fs: seq<Frame>)
    requires fs == []
    ensures Execute(host, n, fs) == [] && LogsOf(fs) == [] && ReplyBytes(c, Execute(host, n, fs)) == []
  {}
}
