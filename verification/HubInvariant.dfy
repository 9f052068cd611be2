/** What every step of the WebSocket system keeps, and so what is true in every reachable state. */
module HubInvariant {
  import opened Wrappers
  import opened SessionIds
  import opened Hub

  /** What is true of one session, whatever the others do. */
  predicate SessionOk(s: Session) {
    && s.disconnects == (if s.registered then 0 else s.connects)
    && (if s.number.None? then
          && s.connects == 0 && !s.registered && !s.drained && !s.removed
          && s.handshakeActive == !s.closed && s.finishes == (if s.closed then 1 else 0)
          && s.io != Some(MessageRead)
          && (s.io.Some? ==> !s.closed && s.closesPosted == 0)
        else
          && s.connects == 1 && s.registered == !s.closed && !s.handshakeActive && s.finishes == 1
          && (s.io.Some? ==> s.io == Some(MessageRead)))
    && (s.io.None? || s.drained ==> s.closed || s.closesPosted > 0)
  }

  predicate SessionsOk(ss: seq<Session>) { forall i :: 0 <= i < |ss| ==> SessionOk(ss[i]) }

  function One(b: bool): nat { if b then 1 else 0 }

  /** The number of sessions whose handshake is being tracked. */
  function CountActive(ss: seq<Session>): nat {
    if ss == [] then 0 else CountActive(ss[..|ss| - 1]) + One(ss[|ss| - 1].handshakeActive)
  }

  /** The number of sessions that were given an id. */
  function CountIds(ss: seq<Session>): (n: nat)
    ensures n <= |ss|
  {
    if ss == [] then 0 else CountIds(ss[..|ss| - 1]) + One(ss[|ss| - 1].number.Some?)
  }

  predicate NumbersOk(ss: seq<Session>, counter: nat) {
    && (forall i :: 0 <= i < |ss| && ss[i].number.Some? ==> 1 <= ss[i].number.value <= counter)
    && (forall i, j :: 0 <= i < j < |ss| && ss[i].number.Some? ==> ss[i].number != ss[j].number)
  }

  predicate InRegistry(s: Session) { s.registered && !s.drained && !s.removed }

  /** The registry holds exactly the open sessions that were not drained or removed, each under its own id. */
  predicate RegistryOk(ss: seq<Session>, registry: map<string, nat>) {
    && (forall sid :: sid in registry ==>
          registry[sid] < |ss| && ss[registry[sid]].Id() == sid && InRegistry(ss[registry[sid]]))
    && (forall i :: 0 <= i < |ss| && InRegistry(ss[i]) ==> ss[i].Id() in registry && registry[ss[i].Id()] == i)
  }

  predicate Inv(h: Hub) {
    && SessionsOk(h.sessions)
    && h.activeHandshakes == CountActive(h.sessions)
    && h.counter == CountIds(h.sessions)
    && NumbersOk(h.sessions, h.counter)
    && RegistryOk(h.sessions, h.registry)
  }

  // ---------------------------------------------------------------- counting

  lemma {:induction false} CountUpdate(ss: seq<Session>, i: nat, s: Session)
    requires i < |ss|
    ensures CountActive(ss[i := s]) + One(ss[i].handshakeActive) == CountActive(ss) + One(s.handshakeActive)
    ensures CountIds(ss[i := s]) + One(ss[i].number.Some?) == CountIds(ss) + One(s.number.Some?)
    decreases |ss|
  {
    var n := |ss| - 1;
    if i == n {
      assert ss[i := s][..n] == ss[..n];
    } else {
      assert ss[i := s][..n] == ss[..n][i := s];
      CountUpdate(ss[..n], i, s);
    }
  }

  lemma CountAppend(ss: seq<Session>, s: Session)
    ensures CountActive(ss + [s]) == CountActive(ss) + One(s.handshakeActive)
    ensures CountIds(ss + [s]) == CountIds(ss) + One(s.number.Some?)
  {
    assert (ss + [s])[..|ss|] == ss;
  }

  /** A tracked session is counted, so the guard of `record_handshake_finished` never holds it back. */
  lemma {:induction false} ActiveIsCounted(ss: seq<Session>, i: nat)
    requires i < |ss| && ss[i].handshakeActive
    ensures CountActive(ss) > 0
    decreases |ss|
  {
    if i < |ss| - 1 { ActiveIsCounted(ss[..|ss| - 1], i); }
  }

  lemma {:induction false} MissingIdCounts(ss: seq<Session>, i: nat)
    requires i < |ss| && ss[i].number.None?
    ensures CountIds(ss) < |ss|
    decreases |ss|
  {
    if i < |ss| - 1 { MissingIdCounts(ss[..|ss| - 1], i); }
  }

  lemma {:induction false} CountsAgree(a: seq<Session>, b: seq<Session>)
    requires |a| == |b|
    requires forall i :: 0 <= i < |a| ==> a[i].handshakeActive == b[i].handshakeActive && a[i].number == b[i].number
    ensures CountActive(a) == CountActive(b) && CountIds(a) == CountIds(b)
    decreases |a|
  {
    if a != [] { CountsAgree(a[..|a| - 1], b[..|b| - 1]); }
  }

  lemma {:induction false} ActiveBound(ss: seq<Session>)
    ensures CountActive(ss) <= |ss|
    decreases |ss|
  {
    if ss != [] { ActiveBound(ss[..|ss| - 1]); }
  }

  // ---------------------------------------------------------------- the registry under updates

  lemma RegistryQuiet(ss: seq<Session>, registry: map<string, nat>, i: nat, s: Session)
    requires RegistryOk(ss, registry) && i < |ss| && s.number == ss[i].number && InRegistry(s) == InRegistry(ss[i])
    ensures RegistryOk(ss[i := s], registry)
  {
    assert forall k :: 0 <= k < |ss| ==> ss[i := s][k].Id() == ss[k].Id();
  }

  lemma RegistryInsert(ss: seq<Session>, registry: map<string, nat>, i: nat, s: Session)
    requires RegistryOk(ss, registry) && i < |ss| && InRegistry(s) && !InRegistry(ss[i]) && s.Id() !in registry
    ensures RegistryOk(ss[i := s], registry[s.Id() := i])
  {
    var ss', registry' := ss[i := s], registry[s.Id() := i];
    forall k | 0 <= k < |ss| && InRegistry(ss'[k]) ensures ss'[k].Id() in registry' && registry'[ss'[k].Id()] == k
    {
      if k != i { assert ss'[k] == ss[k]; }
    }
  }

  lemma RegistryErase(ss: seq<Session>, registry: map<string, nat>, i: nat, s: Session, sid: string)
    requires RegistryOk(ss, registry) && i < |ss| && !InRegistry(s)
    requires InRegistry(ss[i]) ==> ss[i].Id() == sid
    requires forall k :: 0 <= k < |ss| && k != i && InRegistry(ss[k]) ==> ss[k].Id() != sid
    ensures RegistryOk(ss[i := s], registry - {sid})
  {
    var ss', registry' := ss[i := s], registry - {sid};
    forall k | 0 <= k < |ss| && InRegistry(ss'[k]) ensures ss'[k].Id() in registry' && registry'[ss'[k].Id()] == k
    {
      assert ss'[k] == ss[k];
    }
    forall x | x in registry' ensures registry'[x] < |ss'| && ss'[registry'[x]].Id() == x && InRegistry(ss'[registry'[x]])
    {
      assert x in registry && registry[x] != i;
    }
  }

  lemma NumbersUpdate(ss: seq<Session>, counter: nat, i: nat, s: Session)
    requires NumbersOk(ss, counter) && i < |ss| && s.number == ss[i].number
    ensures NumbersOk(ss[i := s], counter)
  {}

  lemma NumbersNext(ss: seq<Session>, counter: nat, i: nat, s: Session)
    requires NumbersOk(ss, counter) && i < |ss| && s.number == Some(counter + 1)
    ensures NumbersOk(ss[i := s], counter + 1)
  {}

  // ---------------------------------------------------------------- preservation, step by step

  /** An update that touches neither the counts, nor the id, nor the registry status. */
  lemma QuietUpdate(h: Hub, i: nat, s: Session)
    requires Inv(h) && i < |h.sessions| && SessionOk(s)
    requires var t := h.sessions[i];
      s.handshakeActive == t.handshakeActive && s.number == t.number && InRegistry(s) == InRegistry(t)
    ensures Inv(With(h, i, s))
  {
    hide SessionOk, NumbersOk, RegistryOk, CountActive, CountIds, InRegistry;
    CountUpdate(h.sessions, i, s);
    NumbersUpdate(h.sessions, h.counter, i, s);
    RegistryQuiet(h.sessions, h.registry, i, s);
  }

  lemma KeepsAcceptOk(h: Hub)
    requires Inv(h) && Enabled(h, AcceptOk) && |h.sessions| + 1 < TWO64
    ensures Inv(Step(h, AcceptOk))
  {
    hide CountActive, CountIds, NumbersOk, RegistryOk;
    CountAppend(h.sessions, NEW_SESSION);
    ActiveBound(h.sessions);
    AppendNew(h);
  }

  lemma AppendNew(h: Hub)
    requires NumbersOk(h.sessions, h.counter) && RegistryOk(h.sessions, h.registry)
    ensures NumbersOk(h.sessions + [NEW_SESSION], h.counter) && RegistryOk(h.sessions + [NEW_SESSION], h.registry)
  {}

  /** A fresh id is in nobody's hands, so `emplace` always inserts. */
  lemma FreshIdNotRegistered(h: Hub)
    requires Inv(h)
    ensures IdOf(h.counter + 1) !in h.registry
  {
    hide IdOf, CountActive, CountIds;
    if IdOf(h.counter + 1) in h.registry {
      var s := h.sessions[h.registry[IdOf(h.counter + 1)]];
      assert SessionOk(s);
      IdInjective(s.number.value, h.counter + 1);
      assert false;
    }
  }

  /** What registering does to the one session, once the counter is known not to wrap. */
  lemma RegisterIs(h: Hub, i: nat)
    requires Inv(h) && i < |h.sessions| < TWO64 && h.sessions[i].io == Some(WsAccept)
    ensures var s := h.sessions[i];
      var s' := s.(number := Some(h.counter + 1), registered := true, connects := 1, io := Some(MessageRead),
                   handshakeActive := false, finishes := 1);
      && SessionOk(s') && !InRegistry(s) && InRegistry(s') && s.handshakeActive && s.number.None?
      && Register(h, i) == h.(sessions := h.sessions[i := s'], registry := h.registry[IdOf(h.counter + 1) := i],
                              counter := h.counter + 1, activeHandshakes := Finished(h.activeHandshakes))
      && h.activeHandshakes > 0
  {
    hide IdOf, CountActive, CountIds, NumbersOk, RegistryOk;
    assert SessionOk(h.sessions[i]);
    MissingIdCounts(h.sessions, i);
    ActiveIsCounted(h.sessions, i);
    FreshIdNotRegistered(h);
  }

  lemma KeepsRegister(h: Hub, i: nat)
    requires Inv(h) && i < |h.sessions| < TWO64 && h.sessions[i].io == Some(WsAccept)
    ensures Inv(Register(h, i))
  {
    hide SessionOk, NumbersOk, RegistryOk, CountActive, CountIds, InRegistry, IdOf, Register;
    RegisterIs(h, i);
    var s' := Register(h, i).sessions[i];
    FreshIdNotRegistered(h);
    CountUpdate(h.sessions, i, s');
    NumbersNext(h.sessions, h.counter, i, s');
    RegistryInsert(h.sessions, h.registry, i, s');
  }

  /** Ids are pairwise distinct over the whole run. */
  lemma DifferentIds(h: Hub, i: nat, k: nat)
    requires Inv(h) && i < |h.sessions| && k < |h.sessions| && i != k
    requires h.sessions[i].number.Some? && h.sessions[k].number.Some?
    ensures h.sessions[i].Id() != h.sessions[k].Id()
  {
    hide IdOf, CountActive, CountIds, RegistryOk;
    if h.sessions[i].Id() == h.sessions[k].Id() {
      IdInjective(h.sessions[i].number.value, h.sessions[k].number.value);
    }
  }

  lemma OthersDiffer(h: Hub, i: nat)
    requires Inv(h) && i < |h.sessions| && h.sessions[i].number.Some?
    ensures forall k :: 0 <= k < |h.sessions| && k != i && InRegistry(h.sessions[k]) ==> h.sessions[k].Id() != h.sessions[i].Id()
  {
    hide IdOf, CountActive, CountIds, RegistryOk, NumbersOk;
    forall k | 0 <= k < |h.sessions| && k != i && InRegistry(h.sessions[k]) ensures h.sessions[k].Id() != h.sessions[i].Id()
    {
      assert SessionOk(h.sessions[k]);
      DifferentIds(h, i, k);
    }
  }

  /** Closing an open session: marks it, ends its tracking, erases its own entry only, reports it once. */
  lemma KeepsFirstClose(h: Hub, i: nat)
    requires Inv(h) && i < |h.sessions| && h.sessions[i].closesPosted > 0 && !h.sessions[i].closed
    ensures Inv(PerformClose(h, i))
  {
    hide NumbersOk, RegistryOk, CountActive, CountIds, IdOf;
    var s, s' := h.sessions[i], PerformClose(h, i).sessions[i];
    assert SessionOk(s) && SessionOk(s');
    CountUpdate(h.sessions, i, s');
    NumbersUpdate(h.sessions, h.counter, i, s');
    if s.handshakeActive { ActiveIsCounted(h.sessions, i); }
    if s.registered {
      OthersDiffer(h, i);
      RegistryErase(h.sessions, h.registry, i, s', s.Id());
    } else {
      RegistryQuiet(h.sessions, h.registry, i, s');
    }
  }

  lemma KeepsClose(h: Hub, i: nat)
    requires Inv(h) && i < |h.sessions| && h.sessions[i].closesPosted > 0
    ensures Inv(PerformClose(h, i))
  {
    hide NumbersOk, RegistryOk, CountActive, CountIds, IdOf, Inv;
    if h.sessions[i].closed {
      SessionOkAt(h, i);
      QuietUpdate(h, i, PerformClose(h, i).sessions[i]);
    } else {
      KeepsFirstClose(h, i);
    }
  }

  lemma SessionOkAt(h: Hub, i: nat)
    requires Inv(h) && i < |h.sessions|
    ensures SessionOk(h.sessions[i])
  {}

  lemma DrainKeeps(h: Hub)
    requires Inv(h)
    ensures var ss := Drain(h.sessions, h.registry); SessionsOk(ss) && RegistryOk(ss, map[])
  {
    hide IdOf, CountActive, CountIds, NumbersOk;
    var ss := Drain(h.sessions, h.registry);
    forall i | 0 <= i < |ss| ensures SessionOk(ss[i]) && !InRegistry(ss[i])
    {
      assert SessionOk(h.sessions[i]);
      if InRegistry(h.sessions[i]) { assert h.registry[h.sessions[i].Id()] in h.registry.Values; }
      if i in h.registry.Values {
        var sid :| sid in h.registry && h.registry[sid] == i;
      }
    }
  }

  lemma KeepsStop(h: Hub)
    requires Inv(h) && Enabled(h, RunStop)
    ensures Inv(Step(h, RunStop))
  {
    hide IdOf, CountActive, CountIds, RegistryOk, SessionsOk, NumbersOk, Drain;
    CountsAgree(h.sessions, Drain(h.sessions, h.registry));
    NumbersAgree(h.sessions, Drain(h.sessions, h.registry), h.counter);
    DrainKeeps(h);
  }

  lemma NumbersAgree(a: seq<Session>, b: seq<Session>, counter: nat)
    requires NumbersOk(a, counter) && |a| == |b| && forall i :: 0 <= i < |a| ==> a[i].number == b[i].number
    ensures NumbersOk(b, counter)
  {}

  lemma KeepsRemoveById(h: Hub, sid: string)
    requires Inv(h)
    ensures Inv(Step(h, RemoveById(sid)))
  {
    hide IdOf, CountActive, CountIds, NumbersOk;
    if sid in h.registry {
      var i := h.registry[sid];
      var s' := h.sessions[i].(removed := true);
      assert SessionOk(h.sessions[i]) && SessionOk(s');
      CountUpdate(h.sessions, i, s');
      NumbersUpdate(h.sessions, h.counter, i, s');
      RegistryErase(h.sessions, h.registry, i, s', sid);
    } else {
      assert h.registry - {sid} == h.registry;
    }
  }

  lemma KeepsIo(h: Hub, i: nat, ok: bool)
    requires Inv(h) && Enabled(h, IoDone(i, ok)) && |h.sessions| < TWO64
    ensures Inv(Step(h, IoDone(i, ok)))
  {
    hide Inv, Register;
    var s := h.sessions[i];
    SessionOkAt(h, i);
    if !ok {
      var s' := s.(io := None, closesPosted := s.closesPosted + 1);
      QuietUpdate(h, i, s');
      assert h.sessions[i := s.(io := None)][i := s'] == h.sessions[i := s'];
    } else if s.io == Some(TlsHandshake) {
      QuietUpdate(h, i, s.(io := Some(UpgradeRead)));
    } else if s.io == Some(UpgradeRead) {
      QuietUpdate(h, i, s.(io := Some(WsAccept)));
    } else if s.io == Some(WsAccept) {
      KeepsRegister(h, i);
    }
  }

  lemma StepKeepsInv(h: Hub, e: Event)
    requires Inv(h) && Enabled(h, e) && |Step(h, e).sessions| < TWO64
    ensures Inv(Step(h, e))
  {
    hide Inv, Step;
    StepIs(h, e);
    match e
    case AcceptOk => KeepsAcceptOk(h);
    case AcceptFail => KeepsQuiet(h, e);
    case IoDone(i, ok) => KeepsIo(h, i, ok);
    case RequestClose(i) => KeepsRequestClose(h, i);
    case RunClose(i) => KeepsClose(h, i);
    case RequestStop => KeepsQuiet(h, e);
    case RunStop => KeepsStop(h);
    case RemoveById(sid) => KeepsRemoveById(h, sid);
  }

  lemma StepIs(h: Hub, e: Event)
    requires Enabled(h, e)
    ensures e.AcceptOk? ==> |Step(h, e).sessions| == |h.sessions| + 1
    ensures !e.AcceptOk? ==> |Step(h, e).sessions| == |h.sessions|
    ensures e.RunClose? ==> Step(h, e) == PerformClose(h, e.s)
  {}

  lemma KeepsRequestClose(h: Hub, i: nat)
    requires Inv(h) && Enabled(h, RequestClose(i))
    ensures Inv(Step(h, RequestClose(i)))
  {
    var s := h.sessions[i];
    assert SessionOk(s);
    QuietUpdate(h, i, s.(closesPosted := s.closesPosted + 1));
  }

  lemma KeepsQuiet(h: Hub, e: Event)
    requires Inv(h) && Enabled(h, e) && (e.AcceptFail? || e.RequestStop?)
    ensures Inv(Step(h, e))
  {}

  /** The invariant holds at the end of every run of fewer than 2^64 accepted connections. */
  lemma {:induction false} RunKeepsInv(h: Hub, es: seq<Event>)
    requires Inv(h) && ValidRun(h, es) && |Exec(h, es).sessions| < TWO64
    ensures Inv(Exec(h, es))
    decreases |es|
  {
    hide Inv, Step;
    if es != [] {
      SessionsGrow(Step(h, es[0]), es[1..]);
      StepKeepsInv(h, es[0]);
      RunKeepsInv(Step(h, es[0]), es[1..]);
    }
  }

  lemma {:induction false} SessionsGrow(h: Hub, es: seq<Event>)
    requires ValidRun(h, es)
    ensures |h.sessions| <= |Exec(h, es).sessions|
    decreases |es|
  {
    hide Step;
    if es != [] {
      StepIs(h, es[0]);
      SessionsGrow(Step(h, es[0]), es[1..]);
    }
  }

  lemma InitInv()
    ensures Inv(INIT)
  {}
}
