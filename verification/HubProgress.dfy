/**
  What the WebSocket server does get done: accepting goes on, handshakes end in registration,
  closes are neither lost nor made up. The laws of safety alone would hold of a server that
  stood still.
 */
module HubProgress {
  import opened Wrappers
  import opened SessionIds
  import opened Hub
  import opened HubInvariant
  import opened HubLaws

  // ---------------------------------------------------------------- accepting

  lemma {:induction false} AcceptorStays(h: Hub, es: seq<Event>)
    requires h.acceptor == Waiting(true) && h.acceptorOpen && ValidRun(h, es)
    requires AcceptFail !in es && RunStop !in es
    ensures Exec(h, es).acceptor == Waiting(true) && Exec(h, es).acceptorOpen
    decreases |es|
  {
    hide IdOf, Drain;
    if es != [] {
      assert es[0] in es && forall e :: e in es[1..] ==> e in es;
      AcceptorStays(Step(h, es[0]), es[1..]);
    }
  }

  /** Until an accept fails or the server is stopped, the next connection can always be accepted. */
  lemma AcceptingGoesOn(es: seq<Event>)
    requires ValidRun(INIT, es) && AcceptFail !in es && RunStop !in es
    ensures Enabled(Exec(INIT, es), AcceptOk)
  {
    AcceptorStays(INIT, es);
  }

  /** A failed accept ends accepting for good. */
  lemma {:induction false} NoAcceptAfterFailure(h: Hub, es: seq<Event>)
    requires h.acceptor.Idle? && ValidRun(h, es)
    ensures Exec(h, es).acceptor.Idle? && |Exec(h, es).sessions| == |h.sessions|
    decreases |es|
  {
    hide IdOf, Drain;
    if es != [] {
      assert Step(h, es[0]).acceptor.Idle? && |Step(h, es[0]).sessions| == |h.sessions|;
      NoAcceptAfterFailure(Step(h, es[0]), es[1..]);
    }
  }

  lemma FailureStopsAccepting(h: Hub)
    requires Enabled(h, AcceptFail)
    ensures Step(h, AcceptFail) == h.(acceptor := Idle)
  {}

  // ---------------------------------------------------------------- handshakes

  /** Two successes do not register a session, the third does: id, registry, connect handler and end of tracking. */
  lemma ThreeStepsRegister(h: Hub, i: nat)
    requires Inv(h) && i < |h.sessions| < TWO64 && h.sessions[i].io == Some(TlsHandshake)
    ensures var e := IoDone(i, true);
      && Enabled(h, e) && Enabled(Step(h, e), e) && Enabled(Step(Step(h, e), e), e)
      && Step(Step(h, e), e).registry == h.registry && !Step(Step(h, e), e).sessions[i].registered
      && var g := Step(Step(Step(h, e), e), e);
         && |g.sessions| == |h.sessions|
         && g.sessions[i].registered && g.sessions[i].connects == 1 && !g.sessions[i].handshakeActive
         && g.sessions[i].io == Some(MessageRead)
         && g.sessions[i].Id() == IdOf(h.counter + 1) && g.registry == h.registry[IdOf(h.counter + 1) := i]
         && g.activeHandshakes == h.activeHandshakes - 1
  {
    hide IdOf, CountActive, CountIds, NumbersOk, RegistryOk, Inv, Register;
    var e := IoDone(i, true);
    SessionOkAt(h, i);
    var h1 := Step(h, e);
    StepKeepsInv(h, e);
    var h2 := Step(h1, e);
    StepKeepsInv(h1, e);
    assert h2.sessions[i] == h.sessions[i].(io := Some(WsAccept));
    RegisterIs(h2, i);
    FreshIdNotRegistered(h2);
  }

  /** Reading a message changes nothing the server keeps, and the next read is under way. */
  lemma ReadingGoesOn(h: Hub, i: nat)
    requires i < |h.sessions| && h.sessions[i].io == Some(MessageRead)
    ensures Enabled(h, IoDone(i, true)) && Step(h, IoDone(i, true)).sessions == h.sessions
    ensures Step(h, IoDone(i, true)).registry == h.registry && Enabled(Step(h, IoDone(i, true)), IoDone(i, true))
  {}

  // ---------------------------------------------------------------- closes

  /** Every posted close has a cause, and every cause posts one: by how much each event moves their number. */
  lemma PostedAccount(h: Hub, e: Event)
    requires Inv(h) && Enabled(h, e)
    ensures TotalPosted(Step(h, e).sessions) == TotalPosted(h.sessions) +
      match e
      case RequestClose(_) => 1
      case IoDone(_, ok) => if ok then 0 else 1
      case RunClose(_) => -1
      case RunStop => |h.registry|
      case _ => 0
  {
    hide IdOf, Inv, TotalPosted, Drain, NumbersOk, RegistryOk, CountActive, CountIds;
    match e
    case AcceptOk => PostedAppend(h.sessions, NEW_SESSION);
    case RequestClose(i) => PostedUpdate(h.sessions, i, Step(h, e).sessions[i]);
    case IoDone(i, ok) => PostedUpdate(h.sessions, i, Step(h, e).sessions[i]);
      IoTouchesOne(h, i, ok);
    case RunClose(i) => PostedUpdate(h.sessions, i, Step(h, e).sessions[i]);
      CloseTouchesOne(h, i);
    case RunStop => StopPostsOnePerEntry(h);
    case RemoveById(sid) =>
      if sid in h.registry && h.registry[sid] < |h.sessions| {
        PostedUpdate(h.sessions, h.registry[sid], Step(h, e).sessions[h.registry[sid]]);
      }
    case _ =>
  }

  lemma IoTouchesOne(h: Hub, i: nat, ok: bool)
    requires Enabled(h, IoDone(i, ok))
    ensures var s, s' := h.sessions[i], Step(h, IoDone(i, ok)).sessions[i];
      && Step(h, IoDone(i, ok)).sessions == h.sessions[i := s']
      && s'.closesPosted == s.closesPosted + One(!ok) && s'.closed == s.closed
  {
    hide IdOf, CounterAfter;
    var s := h.sessions[i];
    if ok && s.io == Some(WsAccept) {
      RegisterTouchesOne(h, i);
    }
  }

  lemma RegisterTouchesOne(h: Hub, i: nat)
    requires i < |h.sessions|
    ensures var s, s' := h.sessions[i], Register(h, i).sessions[i];
      && Register(h, i).sessions == h.sessions[i := s'] && s'.closesPosted == s.closesPosted && s'.closed == s.closed
  {
    hide IdOf, CounterAfter;
  }

  lemma CloseTouchesOne(h: Hub, i: nat)
    requires Enabled(h, RunClose(i))
    ensures var s, s' := h.sessions[i], Step(h, RunClose(i)).sessions[i];
      && Step(h, RunClose(i)).sessions == h.sessions[i := s']
      && s'.closesPosted == s.closesPosted - 1 && s'.closed
  {
    hide IdOf, CounterAfter;
  }

  /** How one event moves the closes posted for one session, and whether it is closed. */
  lemma SessionMoves(h: Hub, e: Event, i: nat)
    requires Enabled(h, e) && i < |h.sessions|
    ensures i < |Step(h, e).sessions|
    ensures var s, s' := h.sessions[i], Step(h, e).sessions[i];
      && s'.closed == (s.closed || e == RunClose(i))
      && s'.closesPosted == s.closesPosted
         + One(e == RequestClose(i) || e == IoDone(i, false) || (e == RunStop && i in h.registry.Values))
         - One(e == RunClose(i))
  {
    hide IdOf;
    match e
    case IoDone(k, ok) => IoTouchesOne(h, k, ok);
      hide Step;
    case RunClose(k) => CloseTouchesOne(h, k);
      hide Step;
    case _ =>
  }

  lemma PostedAppend(ss: seq<Session>, s: Session)
    ensures TotalPosted(ss + [s]) == TotalPosted(ss) + s.closesPosted
  {
    assert (ss + [s])[..|ss|] == ss;
  }

  lemma {:induction false} PostedUpdate(ss: seq<Session>, i: nat, s: Session)
    requires i < |ss|
    ensures TotalPosted(ss[i := s]) + ss[i].closesPosted == TotalPosted(ss) + s.closesPosted
    decreases |ss|
  {
    var n := |ss| - 1;
    if i == n {
      assert ss[i := s][..n] == ss[..n];
    } else {
      assert ss[i := s][..n] == ss[..n][i := s];
      PostedUpdate(ss[..n], i, s);
    }
  }

  /** Closed, or sure to be. */
  predicate Doomed(s: Session) { s.closed || s.closesPosted > 0 }

  lemma DoomedStays(h: Hub, e: Event, i: nat)
    requires Enabled(h, e) && i < |h.sessions| && Doomed(h.sessions[i])
    ensures i < |Step(h, e).sessions| && Doomed(Step(h, e).sessions[i])
  {
    hide Step;
    SessionMoves(h, e, i);
  }

  /** A close once asked for is never forgotten: from then on the session is closed, or its close can still run and closes it. */
  lemma {:induction false} RequestedCloseHolds(h: Hub, es: seq<Event>, i: nat)
    requires i < |h.sessions| && Doomed(h.sessions[i]) && ValidRun(h, es)
    ensures var g := Exec(h, es);
      && i < |g.sessions| && Doomed(g.sessions[i])
      && (!g.sessions[i].closed ==> Enabled(g, RunClose(i)) && Step(g, RunClose(i)).sessions[i].closed)
    decreases |es|
  {
    hide Step;
    if es == [] {
      if !h.sessions[i].closed { CloseTouchesOne(h, i); }
    } else {
      DoomedStays(h, es[0], i);
      RequestedCloseHolds(Step(h, es[0]), es[1..], i);
    }
  }

  lemma RequestDooms(h: Hub, i: nat)
    requires Enabled(h, RequestClose(i))
    ensures Doomed(Step(h, RequestClose(i)).sessions[i])
  {}

  predicate Cause(e: Event, i: nat) { e == RequestClose(i) || e == IoDone(i, false) || e == RunStop }

  /** No session is closed, or about to be, unless its close was asked for, its reading failed, or the server was stopped. */
  lemma {:induction false} NoCloseWithoutCause(h: Hub, es: seq<Event>, i: nat)
    requires ValidRun(h, es) && (i < |h.sessions| ==> !Doomed(h.sessions[i]))
    requires i < |Exec(h, es).sessions| && Doomed(Exec(h, es).sessions[i])
    ensures exists k :: 0 <= k < |es| && Cause(es[k], i)
    decreases |es|
  {
    hide Step, IdOf;
    if !Cause(es[0], i) {
      OnlyCausesDoom(h, es[0], i);
      NoCloseWithoutCause(Step(h, es[0]), es[1..], i);
      var k :| 0 <= k < |es[1..]| && Cause(es[1..][k], i);
      assert Cause(es[k + 1], i);
    } else {
      assert Cause(es[0], i);
    }
  }

  lemma OnlyCausesDoom(h: Hub, e: Event, i: nat)
    requires Enabled(h, e) && !Cause(e, i) && (i < |h.sessions| ==> !Doomed(h.sessions[i]))
    ensures i < |Step(h, e).sessions| ==> !Doomed(Step(h, e).sessions[i])
  {
    if i < |h.sessions| {
      SessionMoves(h, e, i);
      hide Step;
    } else {
      StepIs(h, e);
      NewcomerIsFine(h, e);
      hide Step;
    }
  }

  lemma NewcomerIsFine(h: Hub, e: Event)
    requires Enabled(h, e)
    ensures |Step(h, e).sessions| > |h.sessions| ==> Step(h, e).sessions == h.sessions + [NEW_SESSION]
  {
    hide IdOf;
    StepIs(h, e);
  }

  // ---------------------------------------------------------------- stops

  function CountOf(es: seq<Event>, e: Event): nat {
    if es == [] then 0 else (if es[0] == e then 1 else 0) + CountOf(es[1..], e)
  }

  /** Every requested stop is posted until it runs. */
  lemma {:induction false} StopsAccount(h: Hub, es: seq<Event>)
    requires ValidRun(h, es)
    ensures Exec(h, es).stopsPosted + CountOf(es, RunStop) == h.stopsPosted + CountOf(es, RequestStop)
    decreases |es|
  {
    hide IdOf, Drain;
    if es != [] {
      assert Step(h, es[0]).stopsPosted
        == h.stopsPosted + (if es[0] == RequestStop then 1 else 0) - (if es[0] == RunStop then 1 else 0);
      StopsAccount(Step(h, es[0]), es[1..]);
    }
  }

  /** Removing by id takes out that entry and no other, calls nobody, and closes nobody. */
  lemma RemovingById(h: Hub, sid: string)
    ensures var g := Step(h, RemoveById(sid));
      && sid !in g.registry && (forall x :: x != sid ==> (x in g.registry <==> x in h.registry))
      && (forall x :: x in g.registry ==> g.registry[x] == h.registry[x])
      && |g.sessions| == |h.sessions|
      && forall i :: 0 <= i < |h.sessions| ==> g.sessions[i].(removed := h.sessions[i].removed) == h.sessions[i]
  {}
}
