/** Laws of whole runs of the WebSocket server, from start-up and across `stop`. */
module HubLaws {
  import opened Wrappers
  import opened SessionIds
  import opened Hub
  import opened HubInvariant

  function TotalConnects(ss: seq<Session>): nat {
    if ss == [] then 0 else TotalConnects(ss[..|ss| - 1]) + ss[|ss| - 1].connects
  }

  function TotalDisconnects(ss: seq<Session>): nat {
    if ss == [] then 0 else TotalDisconnects(ss[..|ss| - 1]) + ss[|ss| - 1].disconnects
  }

  function CountRegistered(ss: seq<Session>): nat {
    if ss == [] then 0 else CountRegistered(ss[..|ss| - 1]) + One(ss[|ss| - 1].registered)
  }

  lemma {:induction false} CallbacksBalance(ss: seq<Session>)
    requires SessionsOk(ss)
    ensures TotalConnects(ss) == TotalDisconnects(ss) + CountRegistered(ss)
    decreases |ss|
  {
    if ss != [] {
      assert SessionOk(ss[|ss| - 1]);
      CallbacksBalance(ss[..|ss| - 1]);
    }
  }

  lemma Reachable(es: seq<Event>)
    requires ValidRun(INIT, es) && |Exec(INIT, es).sessions| < TWO64
    ensures Inv(Exec(INIT, es))
  {
    InitInv();
    RunKeepsInv(INIT, es);
  }

  /** The counter is exact in every reachable state; each start has had exactly one decrement, or is still counted. */
  lemma HandshakesBalance(es: seq<Event>)
    requires ValidRun(INIT, es) && |Exec(INIT, es).sessions| < TWO64
    ensures var h := Exec(INIT, es);
      && h.activeHandshakes == CountActive(h.sessions)
      && forall i :: 0 <= i < |h.sessions| ==> h.sessions[i].finishes + One(h.sessions[i].handshakeActive) == 1
  {
    Reachable(es);
    var h := Exec(INIT, es);
    forall i | 0 <= i < |h.sessions| ensures h.sessions[i].finishes + One(h.sessions[i].handshakeActive) == 1
    {
      SessionOkAt(h, i);
    }
  }

  /** Closed sessions are never in the registry, ids never repeat, and each connect has at most one disconnect. */
  lemma RegistryIsSound(es: seq<Event>)
    requires ValidRun(INIT, es) && |Exec(INIT, es).sessions| < TWO64
    ensures var h := Exec(INIT, es);
      && (forall sid :: sid in h.registry ==> h.registry[sid] < |h.sessions| && !h.sessions[h.registry[sid]].closed)
      && (forall i, k :: 0 <= i < k < |h.sessions| && h.sessions[i].number.Some? && h.sessions[k].number.Some? ==>
            h.sessions[i].Id() != h.sessions[k].Id())
      && (forall i :: 0 <= i < |h.sessions| ==> h.sessions[i].disconnects <= h.sessions[i].connects <= 1)
      && TotalConnects(h.sessions) == TotalDisconnects(h.sessions) + CountRegistered(h.sessions)
      && IdOf(h.counter + 1) !in h.registry
  {
    hide IdOf, CountActive, CountIds, NumbersOk;
    Reachable(es);
    var h := Exec(INIT, es);
    CallbacksBalance(h.sessions);
    FreshIdNotRegistered(h);
    forall i, k | 0 <= i < k < |h.sessions| && h.sessions[i].number.Some? && h.sessions[k].number.Some?
      ensures h.sessions[i].Id() != h.sessions[k].Id()
    {
      DifferentIds(h, i, k);
    }
    forall i | 0 <= i < |h.sessions| ensures h.sessions[i].disconnects <= h.sessions[i].connects <= 1
    {
      SessionOkAt(h, i);
    }
    forall sid | sid in h.registry ensures h.registry[sid] < |h.sessions| && !h.sessions[h.registry[sid]].closed
    {
      assert SessionOk(h.sessions[h.registry[sid]]);
    }
  }

  // ---------------------------------------------------------------- after stop

  /** How a session may differ at a later moment. */
  predicate Later(a: Session, b: Session) {
    && (a.number.Some? ==> b.number == a.number)
    && (a.closed ==> b.closed) && (a.drained ==> b.drained) && (a.removed ==> b.removed)
    && (a.number.None? && a.io.None? ==> b.number.None? && b.io.None?)
  }

  predicate AllLater(a: seq<Session>, b: seq<Session>) {
    |a| <= |b| && forall i :: 0 <= i < |a| ==> Later(a[i], b[i])
  }

  function MayAccept(h: Hub): nat { One(h.acceptor == Waiting(true)) }

  /** With the acceptor closed, one accept at most is still to come. */
  predicate AfterStop(a: Hub, b: Hub) {
    && !b.acceptorOpen
    && AllLater(a.sessions, b.sessions)
    && |b.sessions| + MayAccept(b) <= |a.sessions| + MayAccept(a)
  }

  lemma StepLater(b: Hub, e: Event, i: nat)
    requires Inv(b) && Enabled(b, e) && |b.sessions| < TWO64 && i < |b.sessions|
    ensures i < |Step(b, e).sessions| && Later(b.sessions[i], Step(b, e).sessions[i])
  {
    hide IdOf, CountActive, CountIds, RegistryOk, NumbersOk;
    SessionOkAt(b, i);
    if e == IoDone(i, true) && b.sessions[i].io == Some(WsAccept) { RegisterIs(b, i); }
  }

  lemma StepAcceptor(b: Hub, e: Event)
    requires Enabled(b, e) && !b.acceptorOpen
    ensures var c := Step(b, e); !c.acceptorOpen && |c.sessions| + MayAccept(c) <= |b.sessions| + MayAccept(b)
  {}

  lemma StepAfterStop(a: Hub, b: Hub, e: Event)
    requires Inv(b) && Enabled(b, e) && AfterStop(a, b) && |Step(b, e).sessions| < TWO64
    ensures AfterStop(a, Step(b, e))
  {
    hide Step, Inv;
    StepIs(b, e);
    StepAcceptor(b, e);
    forall i | 0 <= i < |a.sessions| ensures Later(a.sessions[i], Step(b, e).sessions[i]) { StepLater(b, e, i); }
  }

  lemma {:induction false} RunAfterStop(a: Hub, b: Hub, es: seq<Event>)
    requires Inv(b) && ValidRun(b, es) && AfterStop(a, b) && |Exec(b, es).sessions| < TWO64
    ensures AfterStop(a, Exec(b, es)) && Inv(Exec(b, es))
    decreases |es|
  {
    hide Inv, Step, AfterStop;
    if es != [] {
      SessionsGrow(Step(b, es[0]), es[1..]);
      StepAfterStop(a, b, es[0]);
      StepKeepsInv(b, es[0]);
      RunAfterStop(a, Step(b, es[0]), es[1..]);
    }
  }

  predicate MidHandshake(s: Session) { s.number.None? && s.io.Some? }

  lemma StoppedState(h: Hub)
    requires Inv(h) && Enabled(h, RunStop)
    ensures var a := Step(h, RunStop);
      && AfterStop(a, a) && |a.sessions| == |h.sessions|
      && (forall i :: 0 <= i < |h.sessions| ==> !InRegistry(a.sessions[i]) && MidHandshake(a.sessions[i]) == MidHandshake(h.sessions[i]))
      && (forall i :: 0 <= i < |h.sessions| && InRegistry(h.sessions[i]) ==> a.sessions[i].drained)
  {
    hide IdOf, CountActive, CountIds, NumbersOk;
    var a := Step(h, RunStop);
    forall i | 0 <= i < |h.sessions|
      ensures !InRegistry(a.sessions[i]) && MidHandshake(a.sessions[i]) == MidHandshake(h.sessions[i])
      ensures InRegistry(h.sessions[i]) ==> a.sessions[i].drained
    {
      if InRegistry(h.sessions[i]) { assert h.registry[h.sessions[i].Id()] in h.registry.Values; }
    }
  }

  /**
    After `stop` has run in state `h`, whatever happens next: the registry only ever holds sessions that
    were mid-handshake at that moment, or the single one of an accept that was already pending.
   */
  lemma RegistryAfterStop(h: Hub, es: seq<Event>, sid: string)
    requires Inv(h) && Enabled(h, RunStop) && ValidRun(Step(h, RunStop), es)
    requires |Exec(Step(h, RunStop), es).sessions| < TWO64
    requires sid in Exec(Step(h, RunStop), es).registry
    ensures var b := Exec(Step(h, RunStop), es);
      && |b.sessions| <= |h.sessions| + 1
      && (b.registry[sid] < |h.sessions| ==> MidHandshake(h.sessions[b.registry[sid]]))
      && (b.registry[sid] >= |h.sessions| ==> b.registry[sid] == |h.sessions| && h.acceptor == Waiting(true))
  {
    hide IdOf, CountActive, CountIds, NumbersOk, Step, SessionsOk;
    StopKeepsAcceptor(h);
    StepKeepsInvStop(h);
    var a := Step(h, RunStop);
    StoppedState(h);
    RunAfterStop(a, a, es);
    var b := Exec(a, es);
    var i := b.registry[sid];
    assert InRegistry(b.sessions[i]);
    if i < |h.sessions| {
      assert Later(a.sessions[i], b.sessions[i]);
      InRegistryHasNumber(b, i);
      if a.sessions[i].number.Some? { InvNumbered(a, i); }
    }
  }

  lemma StopKeepsAcceptor(h: Hub)
    requires Enabled(h, RunStop)
    ensures Step(h, RunStop).acceptor == h.acceptor && |Step(h, RunStop).sessions| == |h.sessions|
  {}

  lemma StepKeepsInvStop(h: Hub)
    requires Inv(h) && Enabled(h, RunStop)
    ensures Inv(Step(h, RunStop))
  {
    KeepsStop(h);
  }

  lemma InRegistryHasNumber(h: Hub, i: nat)
    requires Inv(h) && i < |h.sessions| && InRegistry(h.sessions[i])
    ensures h.sessions[i].number.Some? && !h.sessions[i].closed
  {
    SessionOkAt(h, i);
  }

  /** A session with an id that is out of the registry was closed, drained or removed. */
  lemma InvNumbered(h: Hub, i: nat)
    requires Inv(h) && i < |h.sessions| && !InRegistry(h.sessions[i]) && h.sessions[i].number.Some?
    ensures h.sessions[i].closed || h.sessions[i].drained || h.sessions[i].removed
  {
    SessionOkAt(h, i);
  }

  /**
    Every session that `stop` drained is reported disconnected exactly once, at the moment it closes,
    although its registry entry is long gone; until then a close stays posted for it.
   */
  lemma DrainedReportedOnce(h: Hub, es: seq<Event>, i: nat)
    requires Inv(h) && Enabled(h, RunStop) && ValidRun(Step(h, RunStop), es)
    requires |Exec(Step(h, RunStop), es).sessions| < TWO64
    requires i < |h.sessions| && InRegistry(h.sessions[i])
    ensures var b := Exec(Step(h, RunStop), es);
      && i < |b.sessions|
      && b.sessions[i].connects == 1
      && b.sessions[i].disconnects == One(b.sessions[i].closed)
      && (!b.sessions[i].closed ==> Enabled(b, RunClose(i)) && Step(b, RunClose(i)).sessions[i].disconnects == 1)
  {
    hide IdOf, CountActive, CountIds, NumbersOk, RegistryOk;
    KeepsStop(h);
    var a := Step(h, RunStop);
    StoppedState(h);
    RunAfterStop(a, a, es);
    var b := Exec(a, es);
    InRegistryHasNumber(h, i);
    assert Later(a.sessions[i], b.sessions[i]);
    SessionOkAt(b, i);
  }

  // ---------------------------------------------------------------- how many closes stop posts

  function TotalPosted(ss: seq<Session>): nat {
    if ss == [] then 0 else TotalPosted(ss[..|ss| - 1]) + ss[|ss| - 1].closesPosted
  }

  function Below(s: set<nat>, n: nat): set<nat> { set i | i in s && i < n }

  /** If one close is posted to the sessions with these indices, so many closes are posted in all. */
  lemma {:induction false} PostedToEach(a: seq<Session>, b: seq<Session>, targets: set<nat>)
    requires |a| == |b|
    requires forall i :: 0 <= i < |a| ==> b[i].closesPosted == a[i].closesPosted + One(i in targets)
    ensures TotalPosted(b) == TotalPosted(a) + |Below(targets, |a|)|
    decreases |a|
  {
    var n := |a| - 1;
    if a == [] {
      assert Below(targets, 0) == {};
    } else {
      PostedToEach(a[..n], b[..n], targets);
      assert Below(targets, n + 1) == if n in targets then Below(targets, n) + {n} else Below(targets, n);
    }
  }

  /** A map that never takes a value twice has as many values as keys. */
  lemma {:induction false} AsManyValues(m: map<string, nat>)
    requires forall x, y :: x in m && y in m && m[x] == m[y] ==> x == y
    ensures |m.Values| == |m|
    decreases |m|
  {
    if m != map[] {
      var x :| x in m;
      var rest := m - {x};
      AsManyValues(rest);
      assert m.Values == rest.Values + {m[x]} by {
        forall v | v in m.Values ensures v in rest.Values + {m[x]} {
          var y :| y in m && m[y] == v;
          if y != x { assert y in rest && rest[y] == v; }
        }
        forall v | v in rest.Values ensures v in m.Values {
          var y :| y in rest && rest[y] == v;
          assert y in m && m[y] == v;
        }
      }
      assert m[x] !in rest.Values;
      assert m.Keys == rest.Keys + {x};
    }
  }

  /** `stop` posts one close for each registry entry, none twice, and none to anybody else. */
  lemma StopPostsOnePerEntry(h: Hub)
    requires Inv(h) && Enabled(h, RunStop)
    ensures TotalPosted(Step(h, RunStop).sessions) == TotalPosted(h.sessions) + |h.registry|
  {
    hide IdOf, CountActive, CountIds, NumbersOk;
    var a, b := h.sessions, Step(h, RunStop).sessions;
    PostedToEach(a, b, h.registry.Values);
    assert Below(h.registry.Values, |a|) == h.registry.Values;
    forall x, y | x in h.registry && y in h.registry && h.registry[x] == h.registry[y] ensures x == y {
      assert a[h.registry[x]].Id() == x && a[h.registry[y]].Id() == y;
    }
    AsManyValues(h.registry);
  }
}
