/**
  The send queue of one WebSocket session on a first-in first-out executor. A finished write
  joins the end of the same line of handlers as the requests other threads post.
 */
module SendQueue {
  import opened Wrappers

  const MAX_SEND_QUEUE_SIZE := 1024

  type Text = string

  datatype Task = Send(msg: Text) | WriteDone(ok: bool) | Close

  datatype State = State(
    ready: seq<Task>,
    queue: seq<Text>,
    inFlight: bool,
    closed: bool,
    // history: what callers asked for, what was queued, what was handed to the stream
    requests: seq<Text>,
    accepted: seq<Text>,
    started: seq<Text>,
    // the write chain broke, and how much had been queued when a message was first turned away
    failed: bool,
    overflowAt: Option<nat>,
    // a finished write popped an empty queue; nothing is known of the program after that
    poppedEmpty: bool)

  const INIT := State([], [], false, false, [], [], [], false, None, false)

  datatype Event = PostSend(msg: Text) | PostClose | Complete(ok: bool) | RunNext

  predicate Enabled(st: State, e: Event) {
    match e
    case PostSend(_) => true
    case PostClose => true
    case Complete(_) => st.inFlight
    case RunNext => st.ready != []
  }

  function DoWrite(st: State): State
    requires st.queue != []
  {
    st.(inFlight := true, started := st.started + [st.queue[0]])
  }

  function RunSend(st: State, msg: Text): State {
    if st.closed then st
    else if |st.queue| >= MAX_SEND_QUEUE_SIZE then
      st.(ready := st.ready + [Close], overflowAt := if st.overflowAt.None? then Some(|st.accepted|) else st.overflowAt)
    else
      var st' := st.(queue := st.queue + [msg], accepted := st.accepted + [msg]);
      if |st'.queue| == 1 then DoWrite(st') else st'
  }

  /** The handler pops without asking whether the session is closed, or whether the queue holds anything. */
  function RunWriteDone(st: State, ok: bool): State {
    if !ok then st.(ready := st.ready + [Close], failed := true)
    else if st.queue == [] then st.(poppedEmpty := true)
    else
      var st' := st.(queue := st.queue[1..]);
      if st'.queue != [] then DoWrite(st') else st'
  }

  function RunClose(st: State): State {
    if st.closed then st else st.(closed := true, queue := [])
  }

  function Step(st: State, e: Event): State
    requires Enabled(st, e)
  {
    match e
    case PostSend(msg) => st.(ready := st.ready + [Send(msg)], requests := st.requests + [msg])
    case PostClose => st.(ready := st.ready + [Close])
    case Complete(ok) => st.(inFlight := false, ready := st.ready + [WriteDone(ok)])
    case RunNext =>
      var st' := st.(ready := st.ready[1..]);
      (match st.ready[0]
       case Send(msg) => RunSend(st', msg)
       case WriteDone(ok) => RunWriteDone(st', ok)
       case Close => RunClose(st'))
  }

  predicate ValidRun(st: State, es: seq<Event>)
    decreases |es|
  {
    es == [] || (Enabled(st, es[0]) && ValidRun(Step(st, es[0]), es[1..]))
  }

  function Exec(st: State, es: seq<Event>): State
    requires ValidRun(st, es)
    decreases |es|
  {
    if es == [] then st else Exec(Step(st, es[0]), es[1..])
  }

  // ---------------------------------------------------------------- invariant

  function One(b: bool): nat { if b then 1 else 0 }

  function SendsIn(ready: seq<Task>): seq<Text> {
    if ready == [] then []
    else SendsIn(ready[..|ready| - 1]) + (if ready[|ready| - 1].Send? then [ready[|ready| - 1].msg] else [])
  }

  function DonesIn(ready: seq<Task>): nat {
    if ready == [] then 0 else DonesIn(ready[1..]) + One(ready[0].WriteDone?)
  }

  /** Finished writes that stand in line before the first close. */
  function Ahead(ready: seq<Task>): nat {
    if ready == [] || ready[0] == Close then 0 else Ahead(ready[1..]) + One(ready[0].WriteDone?)
  }

  predicate OpenInv(st: State) {
    // a write is outstanding exactly when the queue is non-empty, unless the chain broke
    && DonesIn(st.ready) + One(st.inFlight) == One(st.queue != [] && !st.failed)
    && |st.queue| <= MAX_SEND_QUEUE_SIZE
    && (st.failed ==> st.queue != [] && Close in st.ready)
    // started, then still queued: together everything that was accepted, in order
    && (if st.queue == [] then st.accepted == st.started
        else st.started != [] && st.started[|st.started| - 1] == st.queue[0] && st.accepted == st.started + st.queue[1..])
    && (match st.overflowAt
        case None => st.requests == st.accepted + SendsIn(st.ready)
        case Some(good) =>
          && Close in st.ready && good <= |st.accepted| && st.accepted[..good] <= st.requests
          && |st.started| + Ahead(st.ready) < good)
  }

  predicate Inv(st: State) {
    if st.closed then st.queue == [] else OpenInv(st) && !st.poppedEmpty
  }

  lemma {:induction false} AppendTask(ready: seq<Task>, t: Task)
    ensures SendsIn(ready + [t]) == SendsIn(ready) + (if t.Send? then [t.msg] else [])
    ensures DonesIn(ready + [t]) == DonesIn(ready) + One(t.WriteDone?)
    ensures Ahead(ready + [t]) == Ahead(ready) + One(t.WriteDone? && Close !in ready)
    decreases |ready|
  {
    assert (ready + [t])[..|ready|] == ready;
    if ready != [] {
      assert (ready + [t])[1..] == ready[1..] + [t];
      AppendTask(ready[1..], t);
    } else {
      assert [t][1..] == [];
    }
  }

  lemma {:induction false} HeadTask(ready: seq<Task>)
    requires ready != []
    ensures SendsIn(ready) == (if ready[0].Send? then [ready[0].msg] else []) + SendsIn(ready[1..])
    decreases |ready|
  {
    var n := |ready| - 1;
    if n > 0 {
      assert ready[..n][1..] == ready[1..][..n - 1];
      HeadTask(ready[..n]);
    }
  }

  lemma {:induction false} AheadBound(ready: seq<Task>)
    ensures Ahead(ready) <= DonesIn(ready)
    decreases |ready|
  {
    if ready != [] { AheadBound(ready[1..]); }
  }

  lemma KeepsPost(st: State, t: Task)
    requires Inv(st) && !t.WriteDone?
    ensures Inv(st.(ready := st.ready + [t], requests := if t.Send? then st.requests + [t.msg] else st.requests))
  {
    hide SendsIn, DonesIn, Ahead;
    AppendTask(st.ready, t);
    if !st.closed && st.overflowAt.None? && t.Send? {
      assert st.accepted + SendsIn(st.ready) + [t.msg] == st.accepted + (SendsIn(st.ready) + [t.msg]);
    }
  }

  lemma KeepsComplete(st: State, ok: bool)
    requires Inv(st) && st.inFlight
    ensures Inv(Step(st, Complete(ok)))
  {
    hide SendsIn, DonesIn, Ahead;
    AppendTask(st.ready, WriteDone(ok));
  }

  lemma KeepsSend(st: State)
    requires Inv(st) && !st.closed && st.ready != [] && st.ready[0].Send?
    ensures Inv(Step(st, RunNext))
  {
    hide SendsIn;
    HeadTask(st.ready);
    var rest, msg := st.ready[1..], st.ready[0].msg;
    AppendTask(rest, Close);
    AheadBound(rest);
    if |st.queue| >= MAX_SEND_QUEUE_SIZE {
      assert st.accepted[..|st.accepted|] == st.accepted;
    } else {
      assert st.accepted + ([msg] + SendsIn(rest)) == st.accepted + [msg] + SendsIn(rest);
      if st.queue != [] {
        assert (st.queue + [msg])[1..] == st.queue[1..] + [msg];
        assert st.started + st.queue[1..] + [msg] == st.started + (st.queue[1..] + [msg]);
      }
    }
  }

  lemma KeepsWriteDone(st: State, ok: bool)
    requires Inv(st) && !st.closed && st.ready != [] && st.ready[0] == WriteDone(ok)
    ensures Inv(Step(st, RunNext))
  {
    hide SendsIn;
    HeadTask(st.ready);
    var rest := st.ready[1..];
    AppendTask(rest, Close);
    if ok && st.queue[1..] != [] {
      assert st.queue[1..] == [st.queue[1]] + st.queue[2..];
      assert st.started + ([st.queue[1]] + st.queue[2..]) == st.started + [st.queue[1]] + st.queue[2..];
    }
  }

  lemma StepKeepsInv(st: State, e: Event)
    requires Inv(st) && Enabled(st, e)
    ensures Inv(Step(st, e))
  {
    hide OpenInv;
    match e
    case PostSend(msg) => KeepsPost(st, Send(msg));
    case PostClose => KeepsPost(st, Close);
    case Complete(ok) => KeepsComplete(st, ok);
    case RunNext =>
      if !st.closed && st.ready[0].Send? {
        KeepsSend(st);
      } else if !st.closed && st.ready[0].WriteDone? {
        KeepsWriteDone(st, st.ready[0].ok);
      }
  }

  lemma {:induction false} RunKeepsInv(st: State, es: seq<Event>)
    requires Inv(st) && ValidRun(st, es)
    ensures Inv(Exec(st, es))
    decreases |es|
  {
    hide Inv, Step;
    if es != [] {
      StepKeepsInv(st, es[0]);
      RunKeepsInv(Step(st, es[0]), es[1..]);
    }
  }

  // ---------------------------------------------------------------- laws

  /** While the session is open, the writes started are the first so many send requests, none left out. */
  lemma StartedIsPrefixOfRequests(es: seq<Event>)
    requires ValidRun(INIT, es) && !Exec(INIT, es).closed
    ensures Exec(INIT, es).started <= Exec(INIT, es).requests
  {
    hide SendsIn, DonesIn, Ahead;
    InitInv();
    RunKeepsInv(INIT, es);
    var st := Exec(INIT, es);
    assert st.started <= st.accepted;
    if st.overflowAt.Some? {
      assert st.started <= st.accepted[..st.overflowAt.value];
    }
  }

  lemma InitInv()
    ensures Inv(INIT)
  {}

  /** At most one write is outstanding, the queue is bounded, and it is non-empty exactly while a write is outstanding. */
  lemma QueueDiscipline(es: seq<Event>)
    requires ValidRun(INIT, es) && !Exec(INIT, es).closed
    ensures var st := Exec(INIT, es);
      && |st.queue| <= MAX_SEND_QUEUE_SIZE
      && DonesIn(st.ready) + One(st.inFlight) <= 1
      && (!st.failed ==> (st.queue != [] <==> DonesIn(st.ready) + One(st.inFlight) == 1))
      && (st.failed || st.overflowAt.Some? ==> Close in st.ready)
  {
    hide SendsIn, DonesIn, Ahead;
    InitInv();
    RunKeepsInv(INIT, es);
  }

  /** What was queued after a message had been turned away is never handed to the stream while the session is open. */
  lemma NothingStartsAfterOverflow(es: seq<Event>)
    requires ValidRun(INIT, es) && !Exec(INIT, es).closed && Exec(INIT, es).overflowAt.Some?
    ensures var st := Exec(INIT, es); |st.started| < st.overflowAt.value <= |st.accepted|
  {
    hide SendsIn, DonesIn, Ahead;
    InitInv();
    RunKeepsInv(INIT, es);
  }

  // ---------------------------------------------------------------- the write that outlives a close

  lemma FindsEmptyIff(st: State)
    requires Inv(st) && st.ready != [] && st.ready[0] == WriteDone(true)
    ensures st.queue == [] <==> st.closed
  {
    hide SendsIn, Ahead;
  }

  /** In every run, the handler of a successful write finds the queue empty exactly when the session has been closed. */
  lemma PopsEmptyIff(es: seq<Event>)
    requires ValidRun(INIT, es)
    requires Exec(INIT, es).ready != [] && Exec(INIT, es).ready[0] == WriteDone(true)
    ensures var st := Exec(INIT, es);
      && (st.queue == [] <==> st.closed)
      && (Step(st, RunNext).poppedEmpty <==> st.closed || st.poppedEmpty)
      && (st.poppedEmpty ==> st.closed)
  {
    hide SendsIn, Ahead;
    InitInv();
    RunKeepsInv(INIT, es);
  }

  lemma ExecNext(st: State, e: Event, es: seq<Event>)
    requires Enabled(st, e)
    ensures ValidRun(st, [e] + es) == ValidRun(Step(st, e), es)
    ensures ValidRun(st, [e] + es) ==> Exec(st, [e] + es) == Exec(Step(st, e), es)
  {
    hide Step;
    assert ([e] + es)[1..] == es;
  }

  lemma EmptyRun(st: State)
    ensures ValidRun(st, []) && Exec(st, []) == st
  {}

  /** Such a run exists: a close posted while a write is in flight, which then succeeds. */
  lemma WriteOutlivesClose(msg: Text)
    ensures var es := [PostSend(msg)] + ([RunNext] + ([PostClose] + ([Complete(true)] + ([RunNext] + ([RunNext] + [])))));
      ValidRun(INIT, es) && Exec(INIT, es).poppedEmpty
  {
    hide ValidRun, Exec;
    var e6 := [RunNext] + [];
    var e5 := [RunNext] + e6;
    var e4 := [Complete(true)] + e5;
    var e3 := [PostClose] + e4;
    var e2 := [RunNext] + e3;
    var s1 := Step(INIT, PostSend(msg));
    assert s1.ready == [Send(msg)];
    var s2 := Step(s1, RunNext);
    assert s2.ready == [] && s2.queue == [msg] && s2.inFlight;
    var s3 := Step(s2, PostClose);
    assert s3.ready == [Close];
    var s4 := Step(s3, Complete(true));
    assert s4.ready == [Close, WriteDone(true)];
    var s5 := Step(s4, RunNext);
    assert s5.ready == [WriteDone(true)] && s5.queue == [] && s5.closed;
    var s6 := Step(s5, RunNext);
    assert s6.poppedEmpty;
    hide Step;
    ExecNext(INIT, PostSend(msg), e2);
    ExecNext(s1, RunNext, e3);
    ExecNext(s2, PostClose, e4);
    ExecNext(s3, Complete(true), e5);
    ExecNext(s4, RunNext, e6);
    ExecNext(s5, RunNext, []);
    EmptyRun(s6);
  }

  // ---------------------------------------------------------------- what was asked for

  function SendsOf(es: seq<Event>): seq<Text> {
    if es == [] then [] else (if es[0].PostSend? then [es[0].msg] else []) + SendsOf(es[1..])
  }

  /** The requests are the sends of the run, in order. */
  lemma {:induction false} RequestsAre(st: State, es: seq<Event>)
    requires ValidRun(st, es)
    ensures Exec(st, es).requests == st.requests + SendsOf(es)
    decreases |es|
  {
    hide Step;
    if es != [] {
      StepRequests(st, es[0]);
      RequestsAre(Step(st, es[0]), es[1..]);
    }
  }

  lemma StepRequests(st: State, e: Event)
    requires Enabled(st, e)
    ensures Step(st, e).requests == st.requests + (if e.PostSend? then [e.msg] else [])
  {}
}
