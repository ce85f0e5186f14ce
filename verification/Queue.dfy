/**
 One queue table serves every namespace and queue name.  Seen through one namespace
 and name it is a first-in first-out queue.
 */
module Queue {
  import opened Wrappers
  import opened Utf
  import opened Tables
  import opened Ops

  // The messages of one named queue, oldest first.
  function Fifo(q: seq<Message>, ns: string, name: string): seq<seq<Byte>> {
    if q == [] then []
    else (if Named(q[0], ns, name) then [q[0].msg] else []) + Fifo(q[1..], ns, name)
  }

  lemma {:induction false} FifoSnoc(q: seq<Message>, m: Message, ns: string, name: string)
    ensures Fifo(q + [m], ns, name) == Fifo(q, ns, name) + if Named(m, ns, name) then [m.msg] else []
  {
    if q == [] {
      assert q + [m] == [m] && [m][1..] == [];
    } else {
      assert (q + [m])[1..] == q[1..] + [m];
      FifoSnoc(q[1..], m, ns, name);
    }
  }

  // Removing a row that is not in a queue leaves that queue alone.
  lemma {:induction false} FifoOther(q: seq<Message>, k: nat, ns: string, name: string)
    requires k < |q| && !Named(q[k], ns, name)
    ensures Fifo(Without(q, k), ns, name) == Fifo(q, ns, name)
  {
    if k == 0 {
      assert Without(q, 0) == q[1..];
      assert [] + Fifo(q[1..], ns, name) == Fifo(q[1..], ns, name);
    } else {
      assert Without(q, k)[1..] == Without(q[1..], k - 1);
      FifoOther(q[1..], k - 1, ns, name);
    }
  }

  lemma {:induction false} FifoNone(q: seq<Message>, ns: string, name: string)
    requires forall i :: 0 <= i < |q| ==> !Named(q[i], ns, name)
    ensures Fifo(q, ns, name) == []
  {
    if q != [] {
      assert forall i :: 0 <= i < |q[1..]| ==> q[1..][i] == q[i + 1];
      FifoNone(q[1..], ns, name);
    }
  }

  // The first row of a queue is its head.
  lemma {:induction false} FirstIsHead(q: seq<Message>, k: nat, ns: string, name: string)
    requires k < |q| && Named(q[k], ns, name)
    requires forall i :: 0 <= i < k ==> !Named(q[i], ns, name)
    ensures Fifo(q, ns, name) == [q[k].msg] + Fifo(Without(q, k), ns, name)
    decreases k
  {
    if k == 0 {
      assert Without(q, 0) == q[1..];
    } else {
      assert !Named(q[0], ns, name);
      assert Without(q, k)[1..] == Without(q[1..], k - 1);
      assert forall i :: 0 <= i < k - 1 ==> q[1..][i] == q[i + 1];
      FirstIsHead(q[1..], k - 1, ns, name);
      var tail := Fifo(q[1..], ns, name);
      assert [] + tail == tail;
    }
  }

  // The row with the least id is the head of its queue, because ids grow.
  lemma OldestIsHead(q: seq<Message>, lastId: nat, ns: string, name: string)
    requires Ordered(q, lastId)
    ensures match Oldest(q, ns, name)
            case None => Fifo(q, ns, name) == []
            case Some(k) => Fifo(q, ns, name) == [q[k].msg] + Fifo(Without(q, k), ns, name)
  {
    hide Fifo;
    match Oldest(q, ns, name)
    case None => FifoNone(q, ns, name);
    case Some(k) => FirstIsHead(q, k, ns, name);
  }

  // What one operation does to one named queue: a successful push of its own appends,
  // a successful pop of its own takes the head, nothing else touches it.
  lemma QueueStep(db: Db, e: Event, ns: string, name: string)
    requires WellFormed(db)
    ensures var r := Apply(db, e.ns, e.op, e.now);
            Fifo(db.queue, ns, name) + Pushed([e], [r.answer], ns, name)
            == Popped([e], [r.answer], ns, name) + Fifo(r.db.queue, ns, name)
  {
    hide Select, Upsert, Delete, Refused, Unique, Sized, Oldest, Fifo, Pushed, Popped;
    var f := Fifo(db.queue, ns, name);
    var r := Apply(db, e.ns, e.op, e.now);
    OnePushed(e, r.answer, ns, name);
    assert f + [] == f && [] + f == f;
    match e.op {
      case QueuePush(n, msg) => PushStep(db, e.ns, n, msg, ns, name);
      case QueuePop(n) => PopStep(db, e.ns, n, ns, name);
      case _ =>
    }
    assert [] + Fifo(r.db.queue, ns, name) == Fifo(r.db.queue, ns, name);
  }

  // A pop answers with the head of its queue and leaves the tail; it misses exactly when
  // the queue is empty.
  lemma PopTakesHead(db: Db, ns: string, name: string, now: nat)
    requires WellFormed(db)
    ensures var f, r := Fifo(db.queue, ns, name), Apply(db, ns, QueuePop(name), now);
            && r.answer == (if f == [] then Missing else Found(f[0]))
            && Fifo(r.db.queue, ns, name) == (if f == [] then [] else f[1..])
  {
    hide Fifo;
    PopStep(db, ns, name, ns, name);
  }

  lemma PushStep(db: Db, ens: string, n: string, msg: seq<Byte>, ns: string, name: string)
    ensures Fifo(Push(db, ens, n, msg).queue, ns, name)
         == Fifo(db.queue, ns, name) + if ens == ns && n == name then [msg] else []
  {
    hide Fifo;
    FifoSnoc(db.queue, Message(ens, n, db.lastId + 1, msg, |msg|), ns, name);
  }

  lemma PopStep(db: Db, ens: string, n: string, ns: string, name: string)
    requires Ordered(db.queue, db.lastId)
    ensures match Oldest(db.queue, ens, n)
            case None => ens == ns && n == name ==> Fifo(db.queue, ns, name) == []
            case Some(k) =>
              Fifo(db.queue, ns, name)
              == (if ens == ns && n == name then [db.queue[k].msg] else []) + Fifo(Without(db.queue, k), ns, name)
  {
    hide Fifo;
    OldestIsHead(db.queue, db.lastId, ens, n);
    match Oldest(db.queue, ens, n)
    case None =>
    case Some(k) =>
      if !(ens == ns && n == name) {
        FifoOther(db.queue, k, ns, name);
        var f := Fifo(Without(db.queue, k), ns, name);
        assert [] + f == f;
      }
  }

  // The messages a run pushes to and pops from one named queue, in order.
  function Pushed(events: seq<Event>, answers: seq<Answer>, ns: string, name: string): seq<seq<Byte>>
    requires |events| == |answers|
    decreases |events|
  {
    if events == [] then []
    else
      var e, a := events[0], answers[0];
      (if e.op.QueuePush? && e.ns == ns && e.op.name == name && a == Done then [e.op.msg] else [])
      + Pushed(events[1..], answers[1..], ns, name)
  }

  function Popped(events: seq<Event>, answers: seq<Answer>, ns: string, name: string): seq<seq<Byte>>
    requires |events| == |answers|
    decreases |events|
  {
    if events == [] then []
    else
      var e, a := events[0], answers[0];
      (if e.op.QueuePop? && e.ns == ns && e.op.name == name && a.Found? then [a.val] else [])
      + Popped(events[1..], answers[1..], ns, name)
  }

  lemma OnePushed(e: Event, a: Answer, ns: string, name: string)
    ensures Pushed([e], [a], ns, name)
         == if e.op.QueuePush? && e.ns == ns && e.op.name == name && a == Done then [e.op.msg] else []
    ensures Popped([e], [a], ns, name)
         == if e.op.QueuePop? && e.ns == ns && e.op.name == name && a.Found? then [a.val] else []
  {
    assert [e][1..] == [] && [a][1..] == [];
  }

  // Every answer of a run.
  function Answers(db: Db, events: seq<Event>): (r: seq<Answer>)
    ensures |r| == |events|
    decreases |events|
  {
    if events == [] then []
    else
      var r := Apply(db, events[0].ns, events[0].op, events[0].now);
      [r.answer] + Answers(r.db, events[1..])
  }

  // Over any run, interleaved over all namespaces and names: what was in a queue and
  // what was pushed to it is, in this order, what was popped from it and what is left.
  // So every message popped was pushed once and comes out in push order.
  lemma {:induction false} QueueIsFifo(db: Db, events: seq<Event>, ns: string, name: string)
    requires WellFormed(db)
    ensures Fifo(db.queue, ns, name) + Pushed(events, Answers(db, events), ns, name)
         == Popped(events, Answers(db, events), ns, name) + Fifo(Run(db, events).queue, ns, name)
    decreases |events|
  {
    hide Apply, WellFormed, Fifo;
    if events == [] {
      assert Fifo(db.queue, ns, name) + [] == [] + Fifo(db.queue, ns, name);
    } else {
      var e := events[0];
      var r := Apply(db, e.ns, e.op, e.now);
      ApplyKeepsWellFormed(db, e.ns, e.op, e.now);
      QueueStep(db, e, ns, name);
      QueueIsFifo(r.db, events[1..], ns, name);
      OnePushed(e, r.answer, ns, name);
      var rest := Answers(r.db, events[1..]);
      assert Answers(db, events)[1..] == rest;
      Chain(Fifo(db.queue, ns, name), Pushed([e], [r.answer], ns, name), Popped([e], [r.answer], ns, name),
            Fifo(r.db.queue, ns, name), Pushed(events[1..], rest, ns, name), Popped(events[1..], rest, ns, name),
            Fifo(Run(r.db, events[1..]).queue, ns, name));
    }
  }

  lemma Chain<T>(q0: seq<T>, in1: seq<T>, out1: seq<T>, q1: seq<T>, in2: seq<T>, out2: seq<T>, q2: seq<T>)
    requires q0 + in1 == out1 + q1 && q1 + in2 == out2 + q2
    ensures q0 + (in1 + in2) == (out1 + out2) + q2
  {
    assert q0 + (in1 + in2) == (q0 + in1) + in2;
    assert (out1 + q1) + in2 == out1 + (q1 + in2);
  }
}
