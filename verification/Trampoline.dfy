/**
 The two ends of the host-call protocol run against each other.  A step is one thing
 either side does: the tool issues a call, prints one or writes another frame, some of
 the bytes in flight reach the other side, the driver takes what has been parsed or handles one
 frame.  Steps interleave freely, which covers every schedule of LoopOnce and PollIO.
 */
module Trampoline {
  import opened Wrappers
  import opened Utf
  import opened Lines
  import opened Frames
  import opened Bootstrap
  import opened Invoke

  const READ_BUFFER := 65536

  datatype World = World(
    sent: seq<Frame>,          // every frame the tool has written
    promises: Promises,
    open: seq<nat>,            // calls whose arguments are being printed, innermost last
    around: seq<seq<nat>>,     // for each call frame sent, the calls still open around it
    held: seq<Byte>,           // the script's incomplete response line
    wire: seq<Byte>,           // stdout bytes the frame writer has not seen
    buf: seq<Byte>,            // the frame writer's incomplete line
    frames: seq<Frame>,        // parsed, not taken
    batch: seq<Frame>,         // taken, not handled
    handled: seq<Frame>,
    calls: seq<Executed>,
    logs: seq<LogLine>,
    pipe: seq<Byte>,           // stdin bytes the script has not read
    outcome: Option<Outcome>)

  const START := World([], FRESH, [], [], [], [], [], [], [], [], [], [], [], None)

  datatype Step =
    | Begin                              // hostCall takes an id and files its promise
    | Emit(op: string, args: Json)       // the innermost open call is printed and sent
    | Throw                              // or it cannot be printed
    | Write(frame: Frame)
    | Flush(n: nat)            // n bytes of stdout reach frameWriter.Write
    | Take
    | Handle(answer: Answer)   // the driver handles one frame; a call gets this answer
    | Read(n: nat)             // the read handler gets n bytes of stdin
    | Expire
    | Stall

  predicate Enabled(w: World, s: Step) {
    && w.outcome == None
    && match s
       case Begin => true
       case Emit(_, _) => w.open != []
       case Throw => w.open != []
       case Write(f) => !f.Call?       // only hostCall writes call frames
       case Flush(n) => n <= |w.wire|
       case Take => w.batch == []
       case Handle(_) => w.batch != []
       case Read(n) => n <= |w.pipe| && n <= READ_BUFFER
       case Expire => w.batch == []
       case Stall => w.batch == []
  }

  function Sent(c: Codec, w: World, f: Frame): World {
    w.(sent := w.sent + [f], wire := w.wire + FrameLine(c, f))
  }

  // Host operations executed for a frame: one for a call, none otherwise.
  function Execution(f: Frame, answer: Answer): seq<Executed> {
    if f.Call? then [Executed(f.id, f.op, f.args, Normal(answer))] else []
  }

  function HandleFrame(c: Codec, w: World, f: Frame, answer: Answer): World
    requires w.batch != []
  {
    w.(batch := w.batch[1..],
       handled := w.handled + [f],
       calls := w.calls + Execution(f, answer),
       pipe := w.pipe + ReplyBytes(c, Execution(f, answer)),
       logs := w.logs + if f.Log? then [LogLine(f.level, f.msg)] else [],
       outcome := if Terminal(f) then Some(OutcomeOf(f)) else None)
  }

  function Next(c: Codec, w: World, s: Step): World
    requires Enabled(w, s)
  {
    match s
    case Begin => w.(promises := Issue(w.promises), open := w.open + [w.promises.nextId])
    case Emit(op, args) =>
      var (id, rest) := (w.open[|w.open| - 1], w.open[..|w.open| - 1]);
      Sent(c, w, Call(id, op, args)).(open := rest, around := w.around + [rest])
    case Throw =>
      var (id, rest) := (w.open[|w.open| - 1], w.open[..|w.open| - 1]);
      w.(open := rest, promises := w.promises.(rejected := w.promises.rejected + {id}))
    case Write(f) => Sent(c, w, f)
    case Flush(n) =>
      w.(wire := w.wire[n..], buf := Rest(w.buf, w.wire[..n]),
         frames := w.frames + ParseFrames(c, Complete(w.buf, w.wire[..n])))
    case Take => w.(batch := w.frames, frames := [])
    case Handle(answer) => HandleFrame(c, w, w.batch[0], answer)
    case Read(n) =>
      w.(pipe := w.pipe[n..], held := Rest(w.held, w.pipe[..n]),
         promises := Receive(c, w.promises, w.held, w.pipe[..n]))
    case Expire => w.(outcome := Some(TimedOut))
    case Stall => w.(outcome := Some(Stalled))
  }

  ghost predicate Possible(c: Codec, w: World, run: seq<Step>)
    decreases |run|
  {
    run == [] || (Enabled(w, run[0]) && Possible(c, Next(c, w, run[0]), run[1..]))
  }

  function After(c: Codec, w: World, run: seq<Step>): World
    requires Possible(c, w, run)
    decreases |run|
  {
    if run == [] then w else After(c, Next(c, w, run[0]), run[1..])
  }

  // --- the invariant ---

  // No frame is lost, duplicated or reordered between the tool and the driver.
  ghost predicate FramesConserved(c: Codec, w: World) {
    && Rest(w.buf, w.wire) == []
    && w.sent == w.handled + (w.batch + (w.frames + ParseFrames(c, Complete(w.buf, w.wire))))
  }

  // No answer is lost, duplicated or reordered between the driver and the promises.
  ghost predicate AnswersConserved(c: Codec, w: World) {
    && Rest(w.held, w.pipe) == []
    && Replies(w.calls) == w.promises.settled + ParseResponses(c, Complete(w.held, w.pipe))
  }

  // The driver has executed the calls it handled and nothing else, and it stopped
  // at the first terminal frame.
  ghost predicate DriverExact(w: World) {
    && Matches(w.calls, CallsOf(w.handled))
    && w.logs == LogsOf(w.handled)
    && match w.outcome
       case Some(Returned(_)) => EndsIn(w.handled, w.outcome)
       case Some(ToolError(_)) => EndsIn(w.handled, w.outcome)
       case _ => NoTerminal(w.handled)
  }

  ghost predicate EndsIn(handled: seq<Frame>, outcome: Option<Outcome>) {
    && handled != []
    && NoTerminal(handled[..|handled| - 1])
    && Terminal(handled[|handled| - 1])
    && outcome == Some(OutcomeOf(handled[|handled| - 1]))
  }

  // The ids of the call frames of a sequence of frames.
  function CallIds(fs: seq<Frame>): seq<nat> {
    if fs == [] then []
    else
      var f := fs[|fs| - 1];
      CallIds(fs[..|fs| - 1]) + if f.Call? then [f.id] else []
  }

  ghost predicate Distinct(ids: seq<nat>) {
    forall k, l :: 0 <= k < l < |ids| ==> ids[k] != ids[l]
  }

  ghost predicate Increasing(ids: seq<nat>) {
    forall k, l :: 0 <= k < l < |ids| ==> ids[k] < ids[l]
  }

  ghost predicate Issued(p: Promises, id: nat) {
    1 <= id < p.nextId
  }

  // Every id issued was sent, is being printed or was rejected, and only one of these.
  ghost predicate IdsExact(sent: seq<nat>, open: seq<nat>, p: Promises) {
    && 1 <= p.nextId && Distinct(sent) && Increasing(open)
    && (forall id: nat :: id in sent ==> Issued(p, id) && id !in open && id !in p.rejected)
    && (forall id: nat :: id in open ==> Issued(p, id) && id !in p.rejected)
    && (forall id: nat :: id in p.rejected ==> Issued(p, id))
    && (forall id: nat :: Issued(p, id) ==> id in sent || id in open || id in p.rejected)
  }

  // The pending ids are those issued and not among the first ones answered.
  ghost predicate PendingExact(sent: seq<nat>, p: Promises) {
    && |p.settled| <= |sent|
    && forall id: nat :: id in p.pending <==> Issued(p, id) && id !in sent[..|p.settled|]
  }

  // A call overtakes the calls around it that are sent after all, and no others.
  ghost predicate OrderExact(sent: seq<nat>, open: seq<nat>, around: seq<seq<nat>>) {
    && |around| == |sent|
    && (forall k, id: nat :: 0 <= k < |sent| && id in around[k] ==> id < sent[k])
    && (forall k, l :: 0 <= l <= k < |sent| ==> sent[l] !in around[k])
    && (forall k, l :: 0 <= k < l < |sent| ==> (sent[l] < sent[k] <==> sent[l] in around[k]))
    && (forall k, id: nat :: 0 <= k < |sent| && id in open ==> (id < sent[k] <==> id in around[k]))
  }

  ghost predicate PromisesExact(w: World) {
    && IdsExact(CallIds(w.sent), w.open, w.promises)
    && PendingExact(CallIds(w.sent), w.promises)
    && OrderExact(CallIds(w.sent), w.open, w.around)
  }

  ghost predicate Inv(c: Codec, w: World) {
    FramesConserved(c, w) && AnswersConserved(c, w) && DriverExact(w) && PromisesExact(w)
  }

  lemma StartInv(c: Codec)
    ensures Inv(c, START)
  {
    hide PromisesExact;
    assert ParseFrames(c, Complete([], [])) == [] && ParseResponses(c, Complete([], [])) == [];
    StartPromises();
  }

  lemma StartPromises()
    ensures PromisesExact(START)
  {}

  // --- the tool writes a frame ---

  lemma SentKeepsFrames(c: Codec, w: World, f: Frame, w': World)
    requires c.Lawful() && FramesConserved(c, w)
    requires w'.sent == w.sent + [f] && w'.wire == w.wire + FrameLine(c, f)
    requires w'.buf == w.buf && w'.frames == w.frames && w'.batch == w.batch && w'.handled == w.handled
    ensures FramesConserved(c, w')
  {
    hide ParseFrames, Complete, Rest, Trim, FrameLine;
    FrameArrives(c, w.buf, w.wire, f);
  }

  lemma CallIdsSnoc(fs: seq<Frame>, f: Frame)
    ensures CallIds(fs + [f]) == CallIds(fs) + if f.Call? then [f.id] else []
  {
    assert (fs + [f])[..|fs|] == fs;
  }

  lemma BeginKeepsIds(sent: seq<nat>, open: seq<nat>, around: seq<seq<nat>>, p: Promises)
    requires IdsExact(sent, open, p) && PendingExact(sent, p) && OrderExact(sent, open, around)
    ensures IdsExact(sent, open + [p.nextId], Issue(p)) && PendingExact(sent, Issue(p))
    ensures OrderExact(sent, open + [p.nextId], around)
  {
    assert forall k :: 0 <= k < |sent| ==> sent[k] in sent && Issued(p, sent[k]);
    assert forall k :: 0 <= k < |open| ==> open[k] in open && Issued(p, open[k]);
  }

  // Closing the innermost call.
  lemma TopOf(open: seq<nat>)
    requires open != [] && Increasing(open)
    ensures var (id, rest) := (open[|open| - 1], open[..|open| - 1]);
            && Increasing(rest) && id !in rest
            && (forall i: nat :: i in open <==> (i == id || i in rest))
            && forall i: nat :: i in rest ==> i < id
  {
    var (id, rest) := (open[|open| - 1], open[..|open| - 1]);
    assert open == rest + [id];
  }

  lemma ThrowKeepsIds(sent: seq<nat>, open: seq<nat>, around: seq<seq<nat>>, p: Promises)
    requires IdsExact(sent, open, p) && PendingExact(sent, p) && OrderExact(sent, open, around) && open != []
    ensures var (id, rest) := (open[|open| - 1], open[..|open| - 1]);
            var q := p.(rejected := p.rejected + {id});
            IdsExact(sent, rest, q) && PendingExact(sent, q) && OrderExact(sent, rest, around)
  {
    TopOf(open);
  }

  lemma EmitKeepsIds(sent: seq<nat>, open: seq<nat>, around: seq<seq<nat>>, p: Promises)
    requires IdsExact(sent, open, p) && PendingExact(sent, p) && OrderExact(sent, open, around) && open != []
    ensures var (id, rest) := (open[|open| - 1], open[..|open| - 1]);
            && IdsExact(sent + [id], rest, p) && PendingExact(sent + [id], p)
            && OrderExact(sent + [id], rest, around + [rest])
  {
    TopOf(open);
    var (id, rest) := (open[|open| - 1], open[..|open| - 1]);
    assert id in open;
    var now := sent + [id];
    assert now[..|p.settled|] == sent[..|p.settled|];
    assert forall i: nat :: i in now <==> i in sent || i == id;
    assert forall k :: 0 <= k < |sent| ==> sent[k] in sent;
  }

  lemma BeginKeepsPromises(w: World, w': World)
    requires PromisesExact(w)
    requires w'.sent == w.sent && w'.promises == Issue(w.promises) && w'.around == w.around
    requires w'.open == w.open + [w.promises.nextId]
    ensures PromisesExact(w')
  {
    BeginKeepsIds(CallIds(w.sent), w.open, w.around, w.promises);
  }

  lemma ThrowKeepsPromises(c: Codec, w: World)
    requires PromisesExact(w) && Enabled(w, Throw)
    ensures PromisesExact(Next(c, w, Throw))
  {
    hide IdsExact, PendingExact, OrderExact;
    ThrowKeepsIds(CallIds(w.sent), w.open, w.around, w.promises);
  }

  lemma EmitKeepsPromises(c: Codec, w: World, op: string, args: Json)
    requires PromisesExact(w) && Enabled(w, Emit(op, args))
    ensures PromisesExact(Next(c, w, Emit(op, args)))
  {
    hide IdsExact, PendingExact, OrderExact, FrameLine;
    EmitKeepsIds(CallIds(w.sent), w.open, w.around, w.promises);
    CallIdsSnoc(w.sent, Call(w.open[|w.open| - 1], op, args));
  }

  lemma WriteKeepsPromises(w: World, w': World, f: Frame)
    requires PromisesExact(w) && !f.Call?
    requires w'.sent == w.sent + [f] && w'.promises == w.promises && w'.open == w.open && w'.around == w.around
    ensures PromisesExact(w')
  {
    hide IdsExact, PendingExact, OrderExact;
    CallIdsSnoc(w.sent, f);
    assert CallIds(w.sent) + [] == CallIds(w.sent);
  }

  // --- bytes move ---

  lemma FlushKeepsFrames(c: Codec, w: World, n: nat)
    requires FramesConserved(c, w) && Enabled(w, Flush(n))
    ensures FramesConserved(c, Next(c, w, Flush(n)))
  {
    hide ParseFrames, Complete, Rest;
    var now, later := w.wire[..n], w.wire[n..];
    assert w.wire == now + later;
    CompleteConcat(w.buf, now, later);
    var a, b := Complete(w.buf, now), Complete(Rest(w.buf, now), later);
    ParseFramesConcat(c, a, b);
    assert w.frames + (ParseFrames(c, a) + ParseFrames(c, b)) == (w.frames + ParseFrames(c, a)) + ParseFrames(c, b);
  }

  // Responses that answer the next calls sent, in turn, settle exactly those.
  lemma {:induction false} SettleInOrder(sent: seq<nat>, p: Promises, rs: seq<Response>)
    requires PendingExact(sent, p) && Distinct(sent) && |p.settled| + |rs| <= |sent|
    requires forall k :: 0 <= k < |sent| ==> Issued(p, sent[k])
    requires forall k :: 0 <= k < |rs| ==> rs[k].id == sent[|p.settled| + k]
    ensures SettleAll(p, rs) == p.(pending := SettleAll(p, rs).pending, settled := p.settled + rs)
    ensures PendingExact(sent, SettleAll(p, rs))
    decreases |rs|
  {
    if rs == [] {
      assert p.settled + rs == p.settled;
    } else {
      SettleNext(sent, p, rs[0]);
      assert forall k :: 0 <= k < |rs[1..]| ==> rs[1..][k].id == rs[k + 1].id;
      SettleInOrder(sent, Settle(p, rs[0]), rs[1..]);
      assert (p.settled + [rs[0]]) + rs[1..] == p.settled + rs;
    }
  }

  lemma SettleNext(sent: seq<nat>, p: Promises, r: Response)
    requires PendingExact(sent, p) && Distinct(sent) && |p.settled| < |sent|
    requires Issued(p, r.id) && r.id == sent[|p.settled|]
    ensures Settle(p, r) == p.(pending := p.pending - {r.id}, settled := p.settled + [r])
    ensures PendingExact(sent, Settle(p, r))
  {
    var n := |p.settled|;
    assert sent[..n + 1] == sent[..n] + [sent[n]];
    assert r.id !in sent[..n];
  }

  // Every call executed is among the calls sent, at the same place.
  lemma ExecutedIds(c: Codec, w: World)
    requires Inv(c, w)
    ensures |w.calls| <= |CallIds(w.sent)|
    ensures forall k :: 0 <= k < |w.calls| ==> w.calls[k].id == CallIds(w.sent)[k]
  {
    hide CallIds, CallsOf, FramesConserved, AnswersConserved, PromisesExact;
    IdsOfCalls(w.handled);
    HandledFirst(c, w);
  }

  lemma HandledFirst(c: Codec, w: World)
    requires FramesConserved(c, w)
    ensures CallIds(w.handled) <= CallIds(w.sent)
  {
    CallIdsPrefix(w.handled, w.batch + (w.frames + ParseFrames(c, Complete(w.buf, w.wire))));
  }

  lemma {:induction false} IdsOfCalls(fs: seq<Frame>)
    ensures |CallIds(fs)| == |CallsOf(fs)|
    ensures forall k :: 0 <= k < |CallsOf(fs)| ==> CallsOf(fs)[k].Call? && CallsOf(fs)[k].id == CallIds(fs)[k]
  {
    if fs != [] {
      IdsOfCalls(fs[..|fs| - 1]);
    }
  }

  lemma {:induction false} CallIdsPrefix(a: seq<Frame>, b: seq<Frame>)
    ensures CallIds(a) <= CallIds(a + b)
    decreases |b|
  {
    if b == [] {
      assert a + b == a;
    } else {
      var init := b[..|b| - 1];
      CallIdsPrefix(a, init);
      assert a + b == (a + init) + [b[|b| - 1]];
      CallIdsSnoc(a + init, b[|b| - 1]);
    }
  }

  // Reading splits what is in flight into what arrives now and what comes later.
  lemma ReadSplits(c: Codec, w: World, n: nat)
    requires AnswersConserved(c, w) && Enabled(w, Read(n))
    ensures var rs := ParseResponses(c, Complete(w.held, w.pipe[..n]));
            var held := Rest(w.held, w.pipe[..n]);
            var rest := ParseResponses(c, Complete(held, w.pipe[n..]));
            && Rest(held, w.pipe[n..]) == []
            && Replies(w.calls) == w.promises.settled + (rs + rest)
            && forall k :: 0 <= k < |rs| ==> rs[k] == Replies(w.calls)[|w.promises.settled| + k]
  {
    hide ParseResponses, Complete, Rest, Replies;
    var now, later := w.pipe[..n], w.pipe[n..];
    assert w.pipe == now + later;
    CompleteConcat(w.held, now, later);
    ParseResponsesConcat(c, Complete(w.held, now), Complete(Rest(w.held, now), later));
  }

  lemma ReadKeepsPromises(c: Codec, w: World, n: nat)
    requires Inv(c, w) && Enabled(w, Read(n))
    ensures var w' := Next(c, w, Read(n)); AnswersConserved(c, w') && PromisesExact(w')
  {
    hide ParseResponses, Complete, Rest, FramesConserved, DriverExact, CallIds, OrderExact, SettleAll;
    var rs := ParseResponses(c, Complete(w.held, w.pipe[..n]));
    var s, ids := w.promises.settled, CallIds(w.sent);
    ExecutedIds(c, w);
    ReadSplits(c, w, n);
    IssuedIds(ids, w.open, w.promises);
    SettleInOrder(ids, w.promises, rs);
    var rest := ParseResponses(c, Complete(Rest(w.held, w.pipe[..n]), w.pipe[n..]));
    assert s + (rs + rest) == (s + rs) + rest;
    SameIds(ids, w.open, w.promises, SettleAll(w.promises, rs));
  }

  lemma IssuedIds(sent: seq<nat>, open: seq<nat>, p: Promises)
    requires IdsExact(sent, open, p)
    ensures forall k :: 0 <= k < |sent| ==> Issued(p, sent[k])
  {
    assert forall k :: 0 <= k < |sent| ==> sent[k] in sent;
  }

  lemma SameIds(sent: seq<nat>, open: seq<nat>, p: Promises, q: Promises)
    requires IdsExact(sent, open, p) && q.nextId == p.nextId && q.rejected == p.rejected
    ensures IdsExact(sent, open, q)
  {
    assert forall id: nat :: Issued(q, id) <==> Issued(p, id);
  }

  // --- the driver handles a frame ---

  lemma HandleKeepsFrames(c: Codec, w: World, answer: Answer)
    requires FramesConserved(c, w) && Enabled(w, Handle(answer))
    ensures FramesConserved(c, Next(c, w, Handle(answer)))
  {
    hide ParseFrames, Complete, Rest;
    var f, rest := w.batch[0], w.batch[1..];
    var tail := w.frames + ParseFrames(c, Complete(w.buf, w.wire));
    assert w.batch == [f] + rest;
    assert w.handled + (([f] + rest) + tail) == (w.handled + [f]) + (rest + tail);
  }

  lemma MatchesSnoc(calls: seq<Executed>, fs: seq<Frame>, f: Frame, answer: Answer)
    requires Matches(calls, fs)
    ensures Matches(calls + Execution(f, answer), fs + if f.Call? then [f] else [])
  {}

  lemma HandleKeepsDriver(c: Codec, w: World, answer: Answer)
    requires DriverExact(w) && Enabled(w, Handle(answer))
    ensures DriverExact(Next(c, w, Handle(answer)))
  {
    hide CallsOf, LogsOf, Matches, ReplyBytes, Execution;
    var f := w.batch[0];
    Snoc(w.handled, f);
    MatchesSnoc(w.calls, CallsOf(w.handled), f, answer);
    var h := w.handled + [f];
    assert h[..|h| - 1] == w.handled;
  }

  lemma ReplyBytesOne(c: Codec, e: Executed)
    ensures ReplyBytes(c, [e]) == ResponseLine(c, Reply(e)) && ReplyBytes(c, []) == []
  {
    assert [e][..0] == [];
    assert [] + ResponseLine(c, Reply(e)) == ResponseLine(c, Reply(e));
  }

  lemma HandleKeepsAnswers(c: Codec, w: World, answer: Answer)
    requires c.Lawful() && AnswersConserved(c, w) && Enabled(w, Handle(answer))
    ensures AnswersConserved(c, Next(c, w, Handle(answer)))
  {
    hide ParseResponses, Complete, Rest, ResponseLine, ReplyBytes;
    var f := w.batch[0];
    var e := Executed(if f.Call? then f.id else 0, if f.Call? then f.op else "", if f.Call? then f.args else [], Normal(answer));
    ReplyBytesOne(c, e);
    if f.Call? {
      ResponseArrives(c, w.held, w.pipe, Reply(e));
      assert Replies(w.calls + [e]) == Replies(w.calls) + [Reply(e)];
      var rs := ParseResponses(c, Complete(w.held, w.pipe));
      assert (w.promises.settled + rs) + [Reply(e)] == w.promises.settled + (rs + [Reply(e)]);
    } else {
      assert w.pipe + [] == w.pipe && w.calls + [] == w.calls;
    }
  }

  // --- every step, every run ---

  lemma StepKeepsInv(c: Codec, w: World, s: Step)
    requires c.Lawful() && Inv(c, w) && Enabled(w, s)
    ensures Inv(c, Next(c, w, s))
  {
    hide FramesConserved, AnswersConserved, DriverExact, PromisesExact;
    match s {
      case Begin =>
        BeginKeepsPromises(w, Next(c, w, s));
        Untouched(c, w, Next(c, w, s));
      case Emit(op, args) =>
        SentKeepsFrames(c, w, Call(w.open[|w.open| - 1], op, args), Next(c, w, s));
        EmitKeepsPromises(c, w, op, args);
        Untouched(c, w, Next(c, w, s));
      case Throw =>
        ThrowKeepsPromises(c, w);
        Untouched(c, w, Next(c, w, s));
      case Write(f) =>
        SentKeepsFrames(c, w, f, Next(c, w, s));
        WriteKeepsPromises(w, Next(c, w, s), f);
        Untouched(c, w, Next(c, w, s));
      case Flush(n) =>
        FlushKeepsFrames(c, w, n);
        Untouched(c, w, Next(c, w, s));
      case Take =>
        TakeKeepsFrames(c, w);
        Untouched(c, w, Next(c, w, s));
      case Handle(answer) =>
        HandleKeepsFrames(c, w, answer);
        HandleKeepsDriver(c, w, answer);
        HandleKeepsAnswers(c, w, answer);
        Untouched(c, w, Next(c, w, s));
      case Read(n) =>
        ReadKeepsPromises(c, w, n);
        Untouched(c, w, Next(c, w, s));
      case Expire =>
        Untouched(c, w, Next(c, w, s));
      case Stall =>
        Untouched(c, w, Next(c, w, s));
    }
  }

  lemma TakeKeepsFrames(c: Codec, w: World)
    requires FramesConserved(c, w) && Enabled(w, Take)
    ensures FramesConserved(c, Next(c, w, Take))
  {
    hide ParseFrames, Complete, Rest;
    var rest := ParseFrames(c, Complete(w.buf, w.wire));
    assert w.batch + (w.frames + rest) == w.frames + ([] + rest);
  }

  // A part of the invariant survives a step that leaves its fields alone.
  lemma Untouched(c: Codec, w: World, w': World)
    requires Inv(c, w)
    ensures (&& w'.wire == w.wire && w'.buf == w.buf && w'.frames == w.frames && w'.batch == w.batch
             && w'.handled == w.handled && w'.sent == w.sent) ==> FramesConserved(c, w')
    ensures (&& w'.held == w.held && w'.pipe == w.pipe && w'.calls == w.calls
             && w'.promises.settled == w.promises.settled) ==> AnswersConserved(c, w')
    ensures (&& w'.calls == w.calls && w'.handled == w.handled && w'.logs == w.logs
             && (w'.outcome == w.outcome || (w.outcome == None && w'.outcome in {Some(TimedOut), Some(Stalled)})))
            ==> DriverExact(w')
    ensures (w'.sent == w.sent && w'.promises == w.promises && w'.open == w.open && w'.around == w.around)
            ==> PromisesExact(w')
  {}

  lemma {:induction false} RunKeepsInv(c: Codec, w: World, run: seq<Step>)
    requires c.Lawful() && Inv(c, w) && Possible(c, w, run)
    ensures Inv(c, After(c, w, run))
    decreases |run|
  {
    hide Inv;
    if run != [] {
      StepKeepsInv(c, w, run[0]);
      RunKeepsInv(c, Next(c, w, run[0]), run[1..]);
    }
  }

  // --- what the protocol promises ---

  // How many of the frames sent the driver looked at and executed.
  ghost function Consumed(w: World): nat {
    if w.outcome.Some? && (w.outcome.value.Returned? || w.outcome.value.ToolError?) && w.handled != []
    then |w.handled| - 1 else |w.handled|
  }

  lemma InvExecutesPrefix(c: Codec, w: World)
    requires Inv(c, w)
    ensures var k := Consumed(w);
            && k <= |w.sent| && NoTerminal(w.sent[..k])
            && Matches(w.calls, CallsOf(w.sent[..k])) && w.logs == LogsOf(w.sent[..k])
            && (w.outcome.Some? && (w.outcome.value.Returned? || w.outcome.value.ToolError?) ==>
                  k < |w.sent| && Terminal(w.sent[k]) && w.outcome == Some(OutcomeOf(w.sent[k])))
  {
    hide CallsOf, LogsOf, Matches, ParseFrames, Complete, Rest;
    var k := Consumed(w);
    assert w.sent[..k] == w.handled[..k];
    if k < |w.handled| {
      assert w.sent[k] == w.handled[k];
      assert w.handled == w.handled[..k] + [w.handled[k]];
      Snoc(w.handled[..k], w.handled[k]);
      assert CallsOf(w.handled[..k]) + [] == CallsOf(w.handled[..k]);
      assert LogsOf(w.handled[..k]) + [] == LogsOf(w.handled[..k]);
    } else {
      assert w.handled[..k] == w.handled;
    }
  }

  // The driver stopped at frame k: none before it ends the run, what was executed and
  // logged are the calls and log lines before it, each once and in order.
  ghost predicate StoppedAt(w: World, k: nat) {
    && k < |w.sent|
    && (forall j :: 0 <= j < k ==> !w.sent[j].Result? && !w.sent[j].Error?)
    && CallsInOrder(w.calls, w.sent[..k])
    && LogsInOrder(w.logs, w.sent[..k])
  }

  // When the driver returns a value or a tool's error, the first frame that ends the run
  // is the result with that value or the error with that message; the host operations
  // executed are exactly the calls the tool wrote before it, each once and in the order
  // in which they were written, and the logs are the log lines before it.
  lemma ExactlyOnceInOrder(c: Codec, run: seq<Step>)
    requires c.Lawful() && Possible(c, START, run)
    ensures var w := After(c, START, run);
            && (forall v :: w.outcome == Some(Returned(v)) ==> exists k: nat :: StoppedAt(w, k) && w.sent[k] == Result(v))
            && (forall e :: w.outcome == Some(ToolError(e)) ==> exists k: nat :: StoppedAt(w, k) && w.sent[k] == Error(e))
  {
    hide Inv, Possible, After, CallsOf, LogsOf, Matches, StoppedAt;
    StartInv(c);
    RunKeepsInv(c, START, run);
    var w := After(c, START, run);
    if w.outcome.Some? && (w.outcome.value.Returned? || w.outcome.value.ToolError?) {
      StopsAt(c, w);
    }
  }

  lemma StopsAt(c: Codec, w: World)
    requires Inv(c, w) && w.outcome.Some? && (w.outcome.value.Returned? || w.outcome.value.ToolError?)
    ensures var k := Consumed(w);
            && StoppedAt(w, k)
            && (w.outcome.value.Returned? ==> w.sent[k] == Result(w.outcome.value.value))
            && (w.outcome.value.ToolError? ==> w.sent[k] == Error(w.outcome.value.error))
  {
    hide Inv, CallsOf, LogsOf, Matches, CallsInOrder, LogsInOrder;
    var k := Consumed(w);
    InvExecutesPrefix(c, w);
    LogsOfInOrder(w.sent[..k]);
    MatchesInOrder(w.calls, w.sent[..k]);
    assert forall j :: 0 <= j < k ==> w.sent[..k][j] == w.sent[j];
  }

  // At every moment, also after a timeout, the operations executed and the logs are those
  // of a beginning of what the tool wrote in which no frame ends the run.
  lemma NeverPastTerminal(c: Codec, run: seq<Step>)
    requires c.Lawful() && Possible(c, START, run)
    ensures var w := After(c, START, run);
            exists k :: && 0 <= k <= |w.sent| && (forall j :: 0 <= j < k ==> !w.sent[j].Result? && !w.sent[j].Error?)
                        && CallsInOrder(w.calls, w.sent[..k]) && LogsInOrder(w.logs, w.sent[..k])
  {
    hide Inv, Possible, After, CallsOf, LogsOf, Matches, OutcomeOf, CallsInOrder, LogsInOrder;
    StartInv(c);
    RunKeepsInv(c, START, run);
    var w := After(c, START, run);
    InvExecutesPrefix(c, w);
    var k := Consumed(w);
    LogsOfInOrder(w.sent[..k]);
    MatchesInOrder(w.calls, w.sent[..k]);
    assert forall j :: 0 <= j < k ==> w.sent[..k][j] == w.sent[j];
  }

  // The n-th promise settled is that of the n-th call executed.
  lemma InvSettles(c: Codec, w: World)
    requires Inv(c, w)
    ensures |w.promises.settled| <= |w.calls|
    ensures forall n :: 0 <= n < |w.promises.settled| ==>
              w.promises.settled[n] == Reply(w.calls[n]) && w.calls[n].id == CallIds(w.sent)[n]
    ensures forall n :: 0 <= n < |w.calls| ==> w.calls[n].id in CallIds(w.sent)
    ensures forall n, m :: 0 <= n < m < |w.calls| ==> w.calls[n].id != w.calls[m].id
  {
    hide CallIds, Matches, ParseResponses, Complete, Rest, FramesConserved, DriverExact;
    ExecutedIds(c, w);
    var settled := w.promises.settled;
    assert |Replies(w.calls)| >= |settled|;
    assert forall n :: 0 <= n < |settled| ==> settled[n] == Replies(w.calls)[n];
  }

  ghost predicate IsSettled(p: Promises, id: nat) {
    exists n :: 0 <= n < |p.settled| && p.settled[n].id == id
  }

  // A promise is settled at most once, and only with the host's answer to the one
  // executed call that bears its id; a promise rejected on the spot is never settled;
  // the promises pending are those issued and not settled.
  lemma PromisesGetTheirAnswers(c: Codec, run: seq<Step>)
    requires c.Lawful() && Possible(c, START, run)
    ensures var w := After(c, START, run);
            var settled := w.promises.settled;
            && |settled| <= |w.calls|
            && (forall n :: 0 <= n < |settled| ==>
                  && settled[n] == Response(w.calls[n].id, w.calls[n].answer)
                  && Issued(w.promises, settled[n].id) && settled[n].id !in w.promises.rejected)
            && (forall n, m :: 0 <= n < m < |w.calls| ==> w.calls[n].id != w.calls[m].id)
            && (forall id: nat :: id in w.promises.pending <==> Issued(w.promises, id) && !IsSettled(w.promises, id))
  {
    hide Inv, Possible, After;
    StartInv(c);
    RunKeepsInv(c, START, run);
    var w := After(c, START, run);
    InvSettles(c, w);
    PendingAreUnsettled(c, w);
  }

  lemma PendingAreUnsettled(c: Codec, w: World)
    requires Inv(c, w)
    ensures forall n :: 0 <= n < |w.promises.settled| ==>
              Issued(w.promises, w.promises.settled[n].id) && w.promises.settled[n].id !in w.promises.rejected
    ensures forall id: nat :: id in w.promises.pending <==> Issued(w.promises, id) && !IsSettled(w.promises, id)
  {
    hide CallIds, FramesConserved, AnswersConserved, DriverExact, OrderExact;
    InvSettles(c, w);
    SettledIds(CallIds(w.sent), w.promises, w.calls);
  }

  lemma SettledIds(sent: seq<nat>, p: Promises, calls: seq<Executed>)
    requires |p.settled| <= |calls| && |p.settled| <= |sent|
    requires forall n :: 0 <= n < |p.settled| ==> p.settled[n] == Reply(calls[n]) && calls[n].id == sent[n]
    ensures forall n :: 0 <= n < |p.settled| ==> p.settled[n].id == sent[n] && sent[n] in sent
    ensures forall id: nat :: IsSettled(p, id) <==> id in sent[..|p.settled|]
  {
    var n := |p.settled|;
    forall id: nat ensures IsSettled(p, id) <==> id in sent[..n] {
      if id in sent[..n] {
        var k :| 0 <= k < n && sent[..n][k] == id;
        assert p.settled[k].id == id;
      }
      if IsSettled(p, id) {
        var k :| 0 <= k < n && p.settled[k].id == id;
        assert sent[..n][k] == id;
      }
    }
  }

  // Once both channels are drained, the frames handled and no call is being printed,
  // every promise has its answer but those that were rejected on the spot.
  lemma DrainedMeansSettled(c: Codec, run: seq<Step>)
    requires c.Lawful() && Possible(c, START, run)
    ensures var w := After(c, START, run);
            w.wire == [] && w.frames == [] && w.batch == [] && w.pipe == [] && w.open == [] ==>
              w.handled == w.sent && w.promises.pending == w.promises.rejected
  {
    hide Possible, After, Inv;
    StartInv(c);
    RunKeepsInv(c, START, run);
    var w := After(c, START, run);
    if w.wire == [] && w.frames == [] && w.batch == [] && w.pipe == [] && w.open == [] {
      InvDrained(c, w);
    }
  }

  lemma InvDrained(c: Codec, w: World)
    requires Inv(c, w) && w.wire == [] && w.frames == [] && w.batch == [] && w.pipe == [] && w.open == []
    ensures w.handled == w.sent && w.promises.pending == w.promises.rejected
  {
    hide CallIds, CallsOf, OrderExact;
    assert Complete(w.buf, []) == [] && Complete(w.held, []) == [];
    assert w.handled + ([] + ([] + [])) == w.handled;
    assert w.promises.settled + [] == w.promises.settled;
    IdsOfCalls(w.sent);
    var ids := CallIds(w.sent);
    assert |ids| == |w.calls| == |Replies(w.calls)| == |w.promises.settled|;
    assert ids[..|ids|] == ids;
  }

  // Calls go out in the order in which they were issued exactly when no call that is
  // sent was printed around another one that is.
  lemma WireOrder(c: Codec, run: seq<Step>)
    requires c.Lawful() && Possible(c, START, run)
    ensures var w := After(c, START, run);
            var ids := CallIds(w.sent);
            && |w.around| == |ids|
            && (Increasing(ids) <==> forall k, l :: 0 <= k < |ids| && 0 <= l < |ids| ==> ids[l] !in w.around[k])
  {
    hide Possible, After, Inv;
    StartInv(c);
    RunKeepsInv(c, START, run);
    InvOrder(c, After(c, START, run));
  }

  lemma InvOrder(c: Codec, w: World)
    requires Inv(c, w)
    ensures var ids := CallIds(w.sent);
            && |w.around| == |ids|
            && (Increasing(ids) <==> forall k, l :: 0 <= k < |ids| && 0 <= l < |ids| ==> ids[l] !in w.around[k])
  {
    hide CallIds, FramesConserved, AnswersConserved, DriverExact, PendingExact;
    var ids := CallIds(w.sent);
    if Increasing(ids) {
      forall k, l | 0 <= k < |ids| && 0 <= l < |ids| ensures ids[l] !in w.around[k] {
        if l > k {
          assert ids[k] < ids[l];
        }
      }
    }
  }

  // --- hostCall takes these steps ---

  function CallSteps(op: string, a: Printing): seq<Step>
    decreases a, 1
  {
    [Begin] + PrintSteps(op, a)
  }

  function PrintSteps(op: string, a: Printing): seq<Step>
    decreases a, 0
  {
    match a
    case Text(json) => [Emit(op, json)]
    case Throws => [Throw]
    case Logs(level, msg, rest) => [Write(Log(level, msg))] + PrintSteps(op, rest)
    case Calls(op', arg, rest) => CallSteps(op', arg) + PrintSteps(op, rest)
  }

  // What writing these frames and changing the promises makes of a world; which calls
  // were open around which is left to the steps.
  ghost predicate Wrote(c: Codec, w: World, w': World, fs: seq<Frame>, p: Promises, open: seq<nat>) {
    w' == w.(sent := w.sent + fs, wire := w.wire + FrameLines(c, fs), promises := p, open := open, around := w'.around)
  }

  lemma WroteThen(c: Codec, w: World, m: World, w': World, fs: seq<Frame>, gs: seq<Frame>, p: Promises, q: Promises, o: seq<nat>, r: seq<nat>)
    requires Wrote(c, w, m, fs, p, o) && Wrote(c, m, w', gs, q, r)
    ensures Wrote(c, w, w', fs + gs, q, r)
  {
    hide FrameLines;
    LinesAppend(c, fs, gs);
    assert (w.sent + fs) + gs == w.sent + (fs + gs);
    assert (w.wire + FrameLines(c, fs)) + FrameLines(c, gs) == w.wire + (FrameLines(c, fs) + FrameLines(c, gs));
  }

  lemma OneOf(c: Codec, w: World, s: Step)
    requires Enabled(w, s)
    ensures Possible(c, w, [s]) && After(c, w, [s]) == Next(c, w, s)
  {
    assert [s][1..] == [];
  }

  lemma {:induction false} RunsCompose(c: Codec, w: World, a: seq<Step>, b: seq<Step>)
    requires Possible(c, w, a) && Possible(c, After(c, w, a), b)
    ensures Possible(c, w, a + b) && After(c, w, a + b) == After(c, After(c, w, a), b)
    decreases |a|
  {
    hide Enabled, Next;
    if a == [] {
      assert a + b == b;
    } else {
      assert (a + b)[1..] == a[1..] + b;
      RunsCompose(c, Next(c, w, a[0]), a[1..], b);
    }
  }

  // A hostCall, with all that printing its arguments does, is a run of the protocol:
  // the same promises and the same bytes as the method of module Bootstrap.
  lemma {:induction false} HostCallIsARun(c: Codec, w: World, op: string, a: Printing)
    requires w.outcome == None
    ensures var steps, id := CallSteps(op, a), w.promises.nextId;
            && Possible(c, w, steps)
            && Wrote(c, w, After(c, w, steps), Bootstrap.Written(id, op, id + 1, a), Called(w.promises, a), w.open)
    decreases a, 1
  {
    hide Possible, After, Enabled, Next, FrameLines, PrintSteps, Bootstrap.Written, Printed;
    var id := w.promises.nextId;
    Beginning(c, w);
    var m := Next(c, w, Begin);
    OneOf(c, w, Begin);
    PrintingIsARun(c, m, op, a, w.open, id);
    RunsCompose(c, w, [Begin], PrintSteps(op, a));
  }

  lemma Beginning(c: Codec, w: World)
    requires w.outcome == None
    ensures Enabled(w, Begin)
    ensures Next(c, w, Begin) == w.(promises := Issue(w.promises), open := w.open + [w.promises.nextId])
  {}

  lemma {:induction false} PrintingIsARun(c: Codec, w: World, op: string, a: Printing, open: seq<nat>, id: nat)
    requires w.outcome == None && w.open == open + [id]
    ensures var steps := PrintSteps(op, a);
            && Possible(c, w, steps)
            && Wrote(c, w, After(c, w, steps), Bootstrap.Written(id, op, w.promises.nextId, a), Printed(w.promises, id, a), open)
    decreases a, 0
  {
    hide Possible, After, Enabled, Next, FrameLines, CallSteps;
    match a
    case Text(json) =>
      Printing1(c, w, op, json, open, id);
      OneOf(c, w, Emit(op, json));
    case Throws =>
      Printing0(c, w, open, id);
      OneOf(c, w, Throw);
    case Logs(level, msg, rest) =>
      var s := Write(Log(level, msg));
      LogWritten(c, w, level, msg);
      var m := Next(c, w, s);
      OneOf(c, w, s);
      PrintingIsARun(c, m, op, rest, open, id);
      RunsCompose(c, w, [s], PrintSteps(op, rest));
      WroteThen(c, w, m, After(c, m, PrintSteps(op, rest)), [Log(level, msg)], Bootstrap.Written(id, op, w.promises.nextId, rest),
                w.promises, Printed(w.promises, id, rest), w.open, open);
    case Calls(op', arg, rest) =>
      var n := w.promises.nextId;
      HostCallIsARun(c, w, op', arg);
      var m := After(c, w, CallSteps(op', arg));
      PrintedIs(Issue(w.promises), n, arg);
      PrintingIsARun(c, m, op, rest, open, id);
      RunsCompose(c, w, CallSteps(op', arg), PrintSteps(op, rest));
      WroteThen(c, w, m, After(c, m, PrintSteps(op, rest)), Bootstrap.Written(n, op', n + 1, arg),
                Bootstrap.Written(id, op, n + 1 + Count(arg), rest),
                Called(w.promises, arg), Printed(Called(w.promises, arg), id, rest), w.open, open);
  }

  lemma Printing1(c: Codec, w: World, op: string, json: Json, open: seq<nat>, id: nat)
    requires w.outcome == None && w.open == open + [id]
    ensures Enabled(w, Emit(op, json))
    ensures Wrote(c, w, Next(c, w, Emit(op, json)), [Call(id, op, json)], w.promises, open)
  {
    hide FrameLine;
    LineOf(c, Call(id, op, json));
  }

  lemma Printing0(c: Codec, w: World, open: seq<nat>, id: nat)
    requires w.outcome == None && w.open == open + [id]
    ensures Enabled(w, Throw)
    ensures Wrote(c, w, Next(c, w, Throw), [], w.promises.(rejected := w.promises.rejected + {id}), open)
  {
    NoLines(c);
    assert w.wire + [] == w.wire && w.sent + [] == w.sent;
  }

  lemma LogWritten(c: Codec, w: World, level: string, msg: string)
    requires w.outcome == None
    ensures var s := Write(Log(level, msg));
            && Enabled(w, s) && Next(c, w, s).outcome == None
            && Wrote(c, w, Next(c, w, s), [Log(level, msg)], w.promises, w.open)
  {
    hide FrameLine;
    LineOf(c, Log(level, msg));
  }

  // --- two tools ---

  // A tool whose first call has an argument that does not print: its promise is
  // rejected on the spot, stays in the map for ever, and the first call on the wire
  // and in the driver is call 2.
  lemma UnprintableArgument(c: Codec, json: Json)
    ensures var first := CallSteps("kv.set", Throws);
            var second := CallSteps("kv.get", Text(json));
            && Possible(c, START, first + second)
            && var w := After(c, START, first + second);
               && w.sent == [Call(2, "kv.get", json)]
               && w.promises == Promises({1, 2}, 3, [], {1}) && w.open == []
  {
    hide Possible, After, FrameLines, CallSteps;
    var first, second := CallSteps("kv.set", Throws), CallSteps("kv.get", Text(json));
    HostCallIsARun(c, START, "kv.set", Throws);
    var m := After(c, START, first);
    HostCallIsARun(c, m, "kv.get", Text(json));
    RunsCompose(c, START, first, second);
    assert m.promises == Promises({1}, 2, [], {1});
    assert {1} + {2} == {1, 2};
  }

  // Once call 2 has its answer nothing is in flight, and promise 1 is still filed.
  lemma UnprintableStaysFiled(c: Codec, run: seq<Step>)
    requires c.Lawful() && Possible(c, START, run)
    requires var w := After(c, START, run);
             && w.wire == [] && w.frames == [] && w.batch == [] && w.pipe == [] && w.open == []
             && w.promises.rejected == {1} && w.promises.nextId == 3
    ensures After(c, START, run).promises.pending == {1} && IsSettled(After(c, START, run).promises, 2)
  {
    hide Possible, After, Inv;
    DrainedMeansSettled(c, run);
    PromisesGetTheirAnswers(c, run);
    assert Issued(After(c, START, run).promises, 2) && 2 !in After(c, START, run).promises.pending;
  }

  // A tool whose argument calls the host while it is printed: the later call goes out
  // first.
  lemma ReentrantArgument(c: Codec, inner: Json, outer: Json)
    ensures var steps := CallSteps("kv.set", Calls("kv.get", Text(inner), Text(outer)));
            && Possible(c, START, steps)
            && After(c, START, steps).sent == [Call(2, "kv.get", inner), Call(1, "kv.set", outer)]
            && After(c, START, steps).promises == Promises({1, 2}, 3, [], {})
  {
    hide Possible, After, FrameLines, CallSteps;
    var a := Calls("kv.get", Text(inner), Text(outer));
    HostCallIsARun(c, START, "kv.set", a);
    assert Count(Text(inner)) == 0;
    assert Bootstrap.Written(1, "kv.set", 2, a)
        == Bootstrap.Written(2, "kv.get", 3, Text(inner)) + Bootstrap.Written(1, "kv.set", 3, Text(outer));
    assert Called(FRESH, a) == Printed(Called(Issue(FRESH), Text(inner)), 1, Text(outer));
    assert {1} + {2} == {1, 2};
  }

  // --- the driver's loop takes these steps ---

  function AnswerOf(host: Host, n: nat, f: Frame): Answer {
    if f.Call? then host(n, f.op, f.args) else Value([])
  }

  // What one round of the driver's loop does to its first k frames.
  function Round(c: Codec, host: Host, w: World, k: nat): World
    requires w.outcome == None && k <= |w.batch|
  {
    var fs := w.batch[..k];
    var done := Execute(host, |w.calls|, fs);
    w.(batch := w.batch[k..], handled := w.handled + fs, calls := w.calls + done,
       logs := w.logs + LogsOf(fs), pipe := w.pipe + ReplyBytes(c, done))
  }

  function HandleSteps(host: Host, n: nat, fs: seq<Frame>): seq<Step> {
    if fs == [] then []
    else
      var before, f := fs[..|fs| - 1], fs[|fs| - 1];
      HandleSteps(host, n, before) + [Handle(AnswerOf(host, n + |Execute(host, n, before)|, f))]
  }

  lemma {:induction false} OneMore(c: Codec, w: World, run: seq<Step>, s: Step)
    requires Possible(c, w, run) && Enabled(After(c, w, run), s)
    ensures Possible(c, w, run + [s]) && After(c, w, run + [s]) == Next(c, After(c, w, run), s)
    decreases |run|
  {
    hide Enabled, Next;
    if run == [] {
      assert [] + [s] == [s] && [s][1..] == [];
    } else {
      assert (run + [s])[1..] == run[1..] + [s];
      OneMore(c, Next(c, w, run[0]), run[1..], s);
    }
  }

  lemma RoundGrows(c: Codec, host: Host, w: World, k: nat)
    requires w.outcome == None && k < |w.batch| && !Terminal(w.batch[k])
    ensures var s := Handle(AnswerOf(host, |w.calls| + |Execute(host, |w.calls|, w.batch[..k])|, w.batch[k]));
            Enabled(Round(c, host, w, k), s) && Next(c, Round(c, host, w, k), s) == Round(c, host, w, k + 1)
  {
    hide Execute, LogsOf, ReplyBytes, ResponseLine;
    var fs, f := w.batch[..k], w.batch[k];
    var done := Execute(host, |w.calls|, fs);
    var answer := AnswerOf(host, |w.calls| + |done|, f);
    assert w.batch[..k + 1] == fs + [f] && w.batch[k..][1..] == w.batch[k + 1..];
    ExecuteSnoc(host, |w.calls|, fs, f);
    Snoc(fs, f);
    var one := Execution(f, answer);
    assert one == ExecuteOne(host, |w.calls| + |done|, f);
    RepliesOf(c, done, one);
    assert (w.calls + done) + one == w.calls + (done + one);
    assert (w.pipe + ReplyBytes(c, done)) + ReplyBytes(c, one) == w.pipe + (ReplyBytes(c, done) + ReplyBytes(c, one));
    assert (w.handled + fs) + [f] == w.handled + (fs + [f]);
    var log := if f.Log? then [LogLine(f.level, f.msg)] else [];
    assert (w.logs + LogsOf(fs)) + log == w.logs + (LogsOf(fs) + log);
  }

  lemma RepliesOf(c: Codec, done: seq<Executed>, one: seq<Executed>)
    requires |one| <= 1
    ensures ReplyBytes(c, done + one) == ReplyBytes(c, done) + ReplyBytes(c, one)
  {
    hide ResponseLine;
    if one == [] {
      assert done + one == done;
    } else {
      assert one == [one[0]];
      ReplyBytesSnoc(c, done, one[0]);
      ReplyBytesOne(c, one[0]);
    }
  }

  // One round of HandleBatch over frames without a terminal one is that many Handle
  // steps of the protocol: the same calls, logs and response bytes.
  lemma {:induction false} RoundIsHandles(c: Codec, host: Host, w: World, k: nat)
    requires w.outcome == None && k <= |w.batch| && NoTerminal(w.batch[..k])
    ensures var steps := HandleSteps(host, |w.calls|, w.batch[..k]);
            Possible(c, w, steps) && After(c, w, steps) == Round(c, host, w, k)
    decreases k
  {
    hide Round, Execute, Next, Enabled;
    if k == 0 {
      RoundOfNone(c, host, w);
    } else {
      var fs := w.batch[..k];
      assert fs[..k - 1] == w.batch[..k - 1] && fs[k - 1] == w.batch[k - 1] && !Terminal(fs[k - 1]);
      RoundIsHandles(c, host, w, k - 1);
      RoundGrows(c, host, w, k - 1);
      var s := Handle(AnswerOf(host, |w.calls| + |Execute(host, |w.calls|, fs[..k - 1])|, fs[k - 1]));
      OneMore(c, w, HandleSteps(host, |w.calls|, fs[..k - 1]), s);
    }
  }

  // The whole of HandleBatch: with the terminal frame at k, if there is one, the run
  // has one Handle step more and ends with the outcome that HandleBatch returns.
  lemma BatchIsHandles(c: Codec, host: Host, w: World, k: nat)
    requires w.outcome == None && k <= |w.batch| && NoTerminal(w.batch[..k])
    requires k < |w.batch| ==> Terminal(w.batch[k])
    ensures var steps := HandleSteps(host, |w.calls|, if k < |w.batch| then w.batch[..k + 1] else w.batch[..k]);
            && Possible(c, w, steps)
            && var w' := After(c, w, steps);
               && (k == |w.batch| ==> w'.outcome == None)
               && (k < |w.batch| && w.batch[k].Result? ==> w'.outcome == Some(Returned(w.batch[k].value)))
               && (k < |w.batch| && w.batch[k].Error? ==> w'.outcome == Some(ToolError(w.batch[k].error)))
               && w'.calls == w.calls + Execute(host, |w.calls|, w.batch[..k])
               && w'.logs == w.logs + LogsOf(w.batch[..k])
               && w'.pipe == w.pipe + ReplyBytes(c, Execute(host, |w.calls|, w.batch[..k]))
  {
    hide Execute, ReplyBytes, ResponseLine, LogsOf, Possible, After;
    RoundIsHandles(c, host, w, k);
    if k < |w.batch| {
      var fs := w.batch[..k + 1];
      assert fs[..k] == w.batch[..k] && fs[k] == w.batch[k];
      var s := Handle(AnswerOf(host, |w.calls| + |Execute(host, |w.calls|, fs[..k])|, fs[k]));
      OneMore(c, w, HandleSteps(host, |w.calls|, fs[..k]), s);
      NoReply(c);
    }
  }

  lemma NoReply(c: Codec)
    ensures ReplyBytes(c, []) == []
  {}

  lemma RoundOfNone(c: Codec, host: Host, w: World)
    requires w.outcome == None
    ensures Round(c, host, w, 0) == w
  {
    hide Execute, LogsOf, ReplyBytes;
    NothingYet(c, host, |w.calls|, w.batch[..0]);
  }
}
