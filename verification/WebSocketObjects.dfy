/**
  The WebSocket server and session objects: every handler updates fields in place, and each
  step it takes is exactly one step of the two models, `Hub` (registry, counter, callbacks) and
  `SendQueue` (one session's queue), whose states the objects carry as ghosts.
 */
module WebSocketObjects {
  import opened Wrappers
  import opened SessionIds
  import H = Hub
  import I = HubInvariant
  import Q = SendQueue

  function Closes(ready: seq<Q.Task>): nat { multiset(ready)[Q.Close] }

  lemma ClosesAppend(ready: seq<Q.Task>, t: Q.Task)
    ensures Closes(ready + [t]) == Closes(ready) + Q.One(t.Close?)
  {}

  lemma ClosesPop(ready: seq<Q.Task>)
    requires ready != []
    ensures Closes(ready) == Closes(ready[1..]) + Q.One(ready[0].Close?)
  {
    assert ready == [ready[0]] + ready[1..];
  }

  /** The registry holds the objects the model's registry points at. */
  ghost predicate RegistryMatches(sessions: map<string, WebSocketSession>, registry: map<string, nat>, all: seq<WebSocketSession>) {
    && sessions.Keys == registry.Keys
    && forall sid :: sid in sessions ==> registry[sid] < |all| && sessions[sid] == all[registry[sid]]
  }

  /** The connect and disconnect handlers were called as often as the model says, session by session. */
  ghost predicate CallbacksMatch(connectCalls: multiset<WebSocketSession>, disconnectCalls: multiset<WebSocketSession>,
                                 all: seq<WebSocketSession>, ss: seq<H.Session>)
  {
    |all| == |ss| && forall i :: 0 <= i < |all| ==>
      && all[i].index == i
      && connectCalls[all[i]] == ss[i].connects && disconnectCalls[all[i]] == ss[i].disconnects
  }

  lemma RunCloseIs(h: H.Hub, i: nat)
    requires H.Enabled(h, H.RunClose(i))
    ensures var h', s' := H.PerformClose(h, i), H.PerformClose(h, i).sessions[i];
      && H.Step(h, H.RunClose(i)) == h' == h.(sessions := h.sessions[i := s'], registry := h'.registry, activeHandshakes := h'.activeHandshakes)
      && s'.connects == h.sessions[i].connects && s'.disconnects == h.sessions[i].disconnects + I.One(Leaves(h.sessions[i]))
      && h'.registry == if Leaves(h.sessions[i]) then h.registry - {h.sessions[i].Id()} else h.registry
  {}

  lemma RequestCloseIs(h: H.Hub, i: nat)
    requires H.Enabled(h, H.RequestClose(i))
    ensures var s := h.sessions[i];
      H.Step(h, H.RequestClose(i)) == h.(sessions := h.sessions[i := s.(closesPosted := s.closesPosted + 1)])
  {}

  /** The handler at the head of the line ends by posting a close: an overflow, or a failed write. */
  predicate Posts(st: Q.State)
    requires st.ready != []
  {
    match st.ready[0]
    case Send(_) => !st.closed && |st.queue| >= Q.MAX_SEND_QUEUE_SIZE
    case WriteDone(ok) => !ok
    case Close => false
  }

  /** What a finished read-side operation does to the model: one session, and at the end of an upgrade the shared state. */
  lemma IoDoneIs(h: H.Hub, i: nat, ok: bool)
    requires H.Enabled(h, H.IoDone(i, ok)) && I.Inv(h) && |h.sessions| < H.TWO64
    ensures var h', s := H.Step(h, H.IoDone(i, ok)), h.sessions[i];
      if ok && s.io == Some(H.WsAccept) then
        && s.connects == 0 && h' == H.Register(h, i)
        && h' == h.(sessions := h.sessions[i := h'.sessions[i]], counter := h'.counter, registry := h'.registry,
                    activeHandshakes := h'.activeHandshakes)
        && h'.registry == (if IdOf(h'.counter) in h.registry then h.registry else h.registry[IdOf(h'.counter) := i])
        && h'.sessions[i].connects == 1 && h'.sessions[i].disconnects == s.disconnects
      else
        h' == h.(sessions := h.sessions[i :=
          if !ok then s.(io := None, closesPosted := s.closesPosted + 1)
          else if s.io == Some(H.TlsHandshake) then s.(io := Some(H.UpgradeRead))
          else if s.io == Some(H.UpgradeRead) then s.(io := Some(H.WsAccept))
          else s])
  {
    hide IdOf, I.CountActive, I.CountIds, I.NumbersOk, I.RegistryOk;
    assert I.SessionOk(h.sessions[i]);
  }

  lemma RegistryInsert(sessions: map<string, WebSocketSession>, registry: map<string, nat>, all: seq<WebSocketSession>, sid: string, i: nat)
    requires RegistryMatches(sessions, registry, all) && i < |all|
    ensures sid in sessions <==> sid in registry
    ensures RegistryMatches(sessions[sid := all[i]], registry[sid := i], all)
  {}

  lemma RegistryErase(sessions: map<string, WebSocketSession>, registry: map<string, nat>, all: seq<WebSocketSession>, sid: string)
    requires RegistryMatches(sessions, registry, all)
    ensures RegistryMatches(sessions - {sid}, registry - {sid}, all)
  {}

  /** Closing such a session takes it out of the registry and reports it disconnected. */
  predicate Leaves(s: H.Session) { !s.closed && s.registered }

  lemma CallbacksUpdate(cs: multiset<WebSocketSession>, ds: multiset<WebSocketSession>,
                        all: seq<WebSocketSession>, ss: seq<H.Session>, i: nat, s: H.Session, c: bool, d: bool)
    requires CallbacksMatch(cs, ds, all, ss) && i < |all|
    requires s.connects == ss[i].connects + I.One(c) && s.disconnects == ss[i].disconnects + I.One(d)
    ensures CallbacksMatch(if c then cs + multiset{all[i]} else cs, if d then ds + multiset{all[i]} else ds, all, ss[i := s])
  {}

  lemma CallbacksAppend(cs: multiset<WebSocketSession>, ds: multiset<WebSocketSession>,
                        all: seq<WebSocketSession>, ss: seq<H.Session>, session: WebSocketSession)
    requires CallbacksMatch(cs, ds, all, ss) && session.index == |all| && session !in cs && session !in ds
    ensures CallbacksMatch(cs, ds, all + [session], ss + [H.NEW_SESSION])
  {}

  lemma RegistryAppend(sessions: map<string, WebSocketSession>, registry: map<string, nat>, all: seq<WebSocketSession>, session: WebSocketSession)
    requires RegistryMatches(sessions, registry, all)
    ensures RegistryMatches(sessions, registry, all + [session])
  {}

  lemma RunStopIs(h: H.Hub, all: seq<WebSocketSession>)
    requires H.Enabled(h, H.RunStop)
    ensures H.Step(h, H.RunStop)
      == h.(sessions := H.Drain(h.sessions, h.registry), registry := map[], acceptorOpen := false, stopsPosted := h.stopsPosted - 1)
    ensures RegistryMatches(map[], map[], all)
  {}

  /** No session stands in the registry under two ids, and it holds just the objects the model's registry points at. */
  lemma ListedOnce(sessions: map<string, WebSocketSession>, h: H.Hub, all: seq<WebSocketSession>)
    requires I.Inv(h) && RegistryMatches(sessions, h.registry, all) && |all| == |h.sessions|
    requires forall i :: 0 <= i < |all| ==> all[i].index == i
    ensures forall a, b :: a in sessions && b in sessions && sessions[a] == sessions[b] ==> a == b
    ensures forall i :: 0 <= i < |all| ==> (all[i] in sessions.Values <==> i in h.registry.Values)
    ensures forall session :: session in sessions.Values ==> session in all
  {
    hide IdOf, I.SessionsOk, I.NumbersOk, I.CountActive, I.CountIds;
    forall a, b | a in sessions && b in sessions && sessions[a] == sessions[b] ensures a == b
    {
      assert h.registry[a] == sessions[a].index == h.registry[b];
      assert h.sessions[h.registry[a]].Id() == a;
    }
    forall i | 0 <= i < |all| ensures all[i] in sessions.Values <==> i in h.registry.Values
    {
      if i in h.registry.Values {
        var sid :| sid in h.registry && h.registry[sid] == i;
        assert sessions[sid] == all[i];
      }
    }
  }

  lemma DrainQuiet(cs: multiset<WebSocketSession>, ds: multiset<WebSocketSession>, all: seq<WebSocketSession>, h: H.Hub)
    requires CallbacksMatch(cs, ds, all, h.sessions)
    ensures CallbacksMatch(cs, ds, all, H.Drain(h.sessions, h.registry))
  {}

  class WebSocketSession {
    const server: WebSocketServer
    ghost const index: nat
    var sessionId: string
    var closed: bool
    var registered: bool
    var handshakeActive: bool
    var sendQueue: seq<Q.Text>
    // held for the session by the executor: the outstanding read, the outstanding write, the handlers in line
    var pending: Option<H.Io>
    var writing: bool
    var ready: seq<Q.Task>
    // `pop_front` was called on an empty queue
    var poppedEmpty: bool
    ghost var sends: Q.State

    ghost predicate SameFlags(s: H.Session)
      reads this`pending, this`closed, this`registered, this`handshakeActive, this`sessionId
    {
      && pending == s.io && closed == s.closed && registered == s.registered && handshakeActive == s.handshakeActive
      && sessionId == s.Id()
    }

    /** The queue is in the state `sends` of its model; nothing was asked of it before the session was handed out. */
    ghost predicate SameQueue(s: H.Session)
      reads this
    {
      && sends.ready == ready && sends.queue == sendQueue && sends.inFlight == writing && sends.closed == closed
      && sends.poppedEmpty == poppedEmpty
      && Closes(ready) == s.closesPosted
      && (s.connects == 0 ==> !writing && sendQueue == [] && forall t :: t in ready ==> t.Close?)
    }

    /** The object is in the state `s` of the server-wide model, and its queue is in the state `sends`. */
    ghost predicate Mirrors(s: H.Session)
      reads this
    {
      SameFlags(s) && SameQueue(s) && Q.Inv(sends)
    }

    constructor (server: WebSocketServer, ghost index: nat)
      ensures this.server == server && this.index == index
      ensures sessionId == "" && !closed && !registered && !handshakeActive && sendQueue == []
      ensures pending == None && !writing && ready == [] && !poppedEmpty && sends == Q.INIT
    {
      this.server, this.index := server, index;
      sessionId, closed, registered, handshakeActive, sendQueue := "", false, false, false, [];
      pending, writing, ready, poppedEmpty, sends := None, false, [], false, Q.INIT;
    }

    /** `start`, on a new session: track the handshake and wait for TLS. */
    method Start()
      requires sessionId == "" && !closed && !registered && sendQueue == [] && !writing && ready == []
      requires !poppedEmpty && sends == Q.INIT
      modifies this`handshakeActive, this`pending, server`activeHandshakes
      ensures handshakeActive && pending == Some(H.TlsHandshake)
      ensures Mirrors(H.NEW_SESSION) && server.activeHandshakes == (old(server.activeHandshakes) + 1) % H.TWO64
    {
      handshakeActive := true;
      server.activeHandshakes := (server.activeHandshakes + 1) % H.TWO64;
      pending := Some(H.TlsHandshake);
    }

    method FinishHandshakeTracking()
      modifies this`handshakeActive, server`activeHandshakes
      ensures !handshakeActive
      ensures server.activeHandshakes
        == if old(handshakeActive) then H.Finished(old(server.activeHandshakes)) else old(server.activeHandshakes)
    {
      var was := handshakeActive;
      handshakeActive := false;
      if was { server.RecordHandshakeFinished(); }
    }

    /** The handler of a successful upgrade: a new id, the registry entry, the end of tracking, the next read. */
    method OnUpgraded()
      modifies this`sessionId, this`registered, this`handshakeActive, this`pending
      modifies server`idCounter, server`sessions, server`connectCalls, server`activeHandshakes
      ensures sessionId == IdOf(server.idCounter) && server.idCounter == (old(server.idCounter) + 1) % H.TWO64
      ensures registered && !handshakeActive && pending == Some(H.MessageRead)
      ensures server.sessions
        == if sessionId in old(server.sessions) then old(server.sessions) else old(server.sessions)[sessionId := this]
      ensures server.connectCalls == old(server.connectCalls) + multiset{this}
      ensures server.activeHandshakes
        == if old(handshakeActive) then H.Finished(old(server.activeHandshakes)) else old(server.activeHandshakes)
    {
      sessionId := server.GenerateId();
      registered := true;
      server.AddSession(this);
      FinishHandshakeTracking();
      pending := Some(H.MessageRead);
    }

    /** `perform_close`: the first one closes, drops the queue and deregisters; later ones do nothing. */
    method PerformClose()
      modifies this`closed, this`registered, this`handshakeActive, this`sendQueue
      modifies server`sessions, server`disconnectCalls, server`activeHandshakes
      ensures closed && registered == (old(closed) && old(registered)) && handshakeActive == (old(closed) && old(handshakeActive))
      ensures sendQueue == if old(closed) then old(sendQueue) else []
      ensures server.sessions
        == if !old(closed) && old(registered) then old(server.sessions) - {sessionId} else old(server.sessions)
      ensures server.disconnectCalls
        == if !old(closed) && old(registered) then old(server.disconnectCalls) + multiset{this} else old(server.disconnectCalls)
      ensures server.activeHandshakes == if !old(closed) && old(handshakeActive)
        then H.Finished(old(server.activeHandshakes)) else old(server.activeHandshakes)
    {
      if closed { return; }
      closed := true;
      FinishHandshakeTracking();
      sendQueue := [];
      var was := registered;
      registered := false;
      if was { server.RemoveSession(this); }
    }

    // ---------------------------------------------------------------- whole handlers

    /** Put a handler at the end of the session's line. */
    method Post(t: Q.Task, ghost s: H.Session)
      requires t.Send? || t.Close?
      requires Mirrors(s) && (t.Send? ==> s.connects > 0)
      modifies this`ready, this`sends
      ensures Mirrors(if t.Close? then s.(closesPosted := s.closesPosted + 1) else s)
      ensures sends == Q.Step(old(sends), if t.Send? then Q.PostSend(t.msg) else Q.PostClose)
      ensures ready == old(ready) + [t]
    {
      hide Q.Inv, IdOf, Closes;
      ClosesAppend(ready, t);
      ready := ready + [t];
      ghost var e := if t.Send? then Q.PostSend(t.msg) else Q.PostClose;
      Q.StepKeepsInv(sends, e);
      sends := Q.Step(sends, e);
    }

    /** `do_write`: hand the front of the queue to the stream. */
    method DoWrite()
      requires sendQueue != []
      modifies this`writing
      ensures writing
    {
      writing := true;
    }

    /** The stream finished a write; its handler joins the line. */
    method WriteFinished(ok: bool, ghost s: H.Session)
      requires writing && Mirrors(s)
      modifies this`writing, this`ready, this`sends
      ensures Mirrors(s) && sends == Q.Step(old(sends), Q.Complete(ok))
      ensures !writing && ready == old(ready) + [Q.WriteDone(ok)]
    {
      hide Q.Inv, IdOf, Closes;
      ClosesAppend(ready, Q.WriteDone(ok));
      writing := false;
      ready := ready + [Q.WriteDone(ok)];
      Q.StepKeepsInv(sends, Q.Complete(ok));
      sends := Q.Step(sends, Q.Complete(ok));
    }

    /** The handler `send` posts. */
    method OnSend(ghost s: H.Session)
      requires Mirrors(s) && ready != [] && ready[0].Send?
      modifies this`ready, this`sendQueue, this`writing, this`sends
      ensures var full := !closed && |old(sendQueue)| >= Q.MAX_SEND_QUEUE_SIZE;
        Mirrors(if full then s.(closesPosted := s.closesPosted + 1) else s)
      ensures sends == Q.Step(old(sends), Q.RunNext)
      ensures closed ==> sendQueue == old(sendQueue) && writing == old(writing) && ready == old(ready)[1..]
      ensures !closed && |old(sendQueue)| >= 1024 ==>
        sendQueue == old(sendQueue) && writing == old(writing) && ready == old(ready)[1..] + [Q.Close]
      ensures !closed && |old(sendQueue)| < 1024 ==>
        && sendQueue == old(sendQueue) + [old(ready)[0].msg] && ready == old(ready)[1..]
        && writing == (old(writing) || old(sendQueue) == [])
    {
      hide Q.Inv, SameFlags, Closes;
      Q.StepKeepsInv(sends, Q.RunNext);
      FlagsKept(s, s.closesPosted + 1);
      assert s.connects > 0 by { assert ready[0] in ready; }
      ClosesPop(ready);
      ClosesAppend(ready[1..], Q.Close);
      sends := Q.Step(sends, Q.RunNext);
      var msg := ready[0].msg;
      ready := ready[1..];
      if closed { return; }
      if |sendQueue| >= Q.MAX_SEND_QUEUE_SIZE {
        ready := ready + [Q.Close];
        return;
      }
      sendQueue := sendQueue + [msg];
      if |sendQueue| == 1 { DoWrite(); }
    }

    /** The handler of a finished write; it pops the queue whether or not a close has emptied it. */
    method OnWritten(ghost s: H.Session)
      requires Mirrors(s) && ready != [] && ready[0].WriteDone?
      modifies this`ready, this`sendQueue, this`writing, this`poppedEmpty, this`sends
      ensures Mirrors(if !old(ready)[0].ok then s.(closesPosted := s.closesPosted + 1) else s)
      ensures sends == Q.Step(old(sends), Q.RunNext)
      ensures ready == if old(ready)[0].ok then old(ready)[1..] else old(ready)[1..] + [Q.Close]
      ensures sendQueue == if old(ready)[0].ok && old(sendQueue) != [] then old(sendQueue)[1..] else old(sendQueue)
      ensures poppedEmpty == (old(poppedEmpty) || (old(ready)[0].ok && old(sendQueue) == []))
      ensures writing == (old(writing) || (old(ready)[0].ok && sendQueue != []))
    {
      hide Q.Inv, SameFlags, Closes;
      Q.StepKeepsInv(sends, Q.RunNext);
      FlagsKept(s, s.closesPosted + 1);
      assert s.connects > 0 by { assert ready[0] in ready; }
      ClosesPop(ready);
      ClosesAppend(ready[1..], Q.Close);
      sends := Q.Step(sends, Q.RunNext);
      var ok := ready[0].ok;
      ready := ready[1..];
      if !ok {
        ready := ready + [Q.Close];
        return;
      }
      if sendQueue == [] {
        poppedEmpty := true;
        return;
      }
      sendQueue := sendQueue[1..];
      if sendQueue != [] { DoWrite(); }
    }

    ghost predicate Known()
      reads this, server, server.all
    {
      server.Valid() && index < |server.all| && server.all[index] == this
    }

    /** `send`, called from any thread. */
    method Send(msg: Q.Text)
      requires Known() && server.hub.sessions[index].connects > 0
      modifies this`ready, this`sends
      ensures Known() && sends == Q.Step(old(sends), Q.PostSend(msg)) && ready == old(ready) + [Q.Send(msg)]
    {
      hide Mirrors, I.Inv;
      Post(Q.Send(msg), server.hub.sessions[index]);
    }

    /** `close`, called from any thread. */
    method Close()
      requires Known() && server.hub.sessions[index].connects > 0
      modifies this`ready, this`sends, server`hub
      ensures Known() && sends == Q.Step(old(sends), Q.PostClose) && ready == old(ready) + [Q.Close]
      ensures server.hub == H.Step(old(server.hub), H.RequestClose(index))
    {
      hide Mirrors, I.Inv;
      I.StepKeepsInv(server.hub, H.RequestClose(index));
      Post(Q.Close, server.hub.sessions[index]);
      server.hub := H.Step(server.hub, H.RequestClose(index));
    }

    /** The posted `perform_close` reaches the head of the line: what it does to the objects. */
    method OnClose(ghost h: H.Hub)
      requires index < |h.sessions| && Mirrors(h.sessions[index])
      requires h.activeHandshakes == server.activeHandshakes
      requires ready != [] && ready[0] == Q.Close
      modifies this`ready, this`closed, this`registered, this`handshakeActive, this`sendQueue, this`sends
      modifies server`sessions, server`disconnectCalls, server`activeHandshakes
      ensures Mirrors(H.PerformClose(h, index).sessions[index]) && sends == Q.Step(old(sends), Q.RunNext)
      ensures server.activeHandshakes == H.PerformClose(h, index).activeHandshakes
      ensures server.sessions == if Leaves(h.sessions[index])
        then old(server.sessions) - {h.sessions[index].Id()} else old(server.sessions)
      ensures server.disconnectCalls == if Leaves(h.sessions[index])
        then old(server.disconnectCalls) + multiset{this} else old(server.disconnectCalls)
    {
      hide Q.Inv, IdOf, Closes;
      ClosesPop(ready);
      Q.StepKeepsInv(sends, Q.RunNext);
      sends := Q.Step(sends, Q.RunNext);
      ready := ready[1..];
      PerformClose();
    }

    lemma SendSideIsHandedOut(s: H.Session)
      requires Mirrors(s) && ready != [] && !ready[0].Close?
      ensures s.connects > 0
    {
      assert ready[0] in ready;
    }

    /** When a successful write's handler is next, its queue is empty exactly when the session was closed meanwhile. */
    lemma FindsEmptyIff()
      requires Known() && ready != [] && ready[0] == Q.WriteDone(true)
      ensures sendQueue == [] <==> closed
    {
      hide I.Inv, IdOf, Q.Inv;
      assert Mirrors(server.hub.sessions[index]);
      Q.FindsEmptyIff(sends);
    }

    lemma SendsAre(s: H.Session)
      requires Mirrors(s)
      ensures sends.ready == ready && sends.queue == sendQueue && sends.inFlight == writing && sends.closed == closed
    {}

    lemma MarksDoNotShow(s: H.Session, drained: bool, removed: bool)
      requires Mirrors(s)
      ensures Mirrors(s.(drained := drained, removed := removed))
    {
      hide IdOf;
    }

    lemma FlagsKept(s: H.Session, posted: nat)
      requires SameFlags(s)
      ensures SameFlags(s.(closesPosted := posted))
    {
      hide IdOf;
    }

    lemma PendingIs(s: H.Session)
      requires Mirrors(s)
      ensures pending == s.io
    {}

    lemma CloseIsPosted(s: H.Session)
      requires Mirrors(s) && ready != [] && ready[0] == Q.Close
      ensures s.closesPosted > 0
    {
      ClosesPop(ready);
    }

    /** One posted close runs. */
    method RunClose()
      requires Known() && ready != [] && ready[0] == Q.Close
      modifies this, server
      ensures Known() && server.all == old(server.all) && sends == Q.Step(old(sends), Q.RunNext)
      ensures server.hub == H.Step(old(server.hub), H.RunClose(index))
    {
      hide Mirrors, I.Inv, IdOf, CallbacksMatch, RegistryMatches, Leaves, H.Step, H.PerformClose, Q.Step;
      ghost var h := server.hub;
      ghost var s := h.sessions[index];
      CloseIsPosted(s);
      RunCloseIs(h, index);
      ghost var s' := H.PerformClose(h, index).sessions[index];
      I.StepKeepsInv(h, H.RunClose(index));
      CallbacksUpdate(server.connectCalls, server.disconnectCalls, server.all, h.sessions, index, s', false, Leaves(s));
      RegistryErase(server.sessions, h.registry, server.all, s.Id());
      OnClose(h);
      server.hub := H.Step(h, H.RunClose(index));
    }

    /** A posted send, or the handler of a finished write, runs; an overflow or a failed write posts a close. */
    method RunSendSide()
      requires Known() && ready != [] && !ready[0].Close?
      modifies this, server`hub
      ensures Known() && sends == Q.Step(old(sends), Q.RunNext)
      ensures H.Enabled(old(server.hub), H.RequestClose(index))
      ensures server.hub == if Posts(old(sends)) then H.Step(old(server.hub), H.RequestClose(index)) else old(server.hub)
    {
      hide Mirrors, I.Inv, IdOf, CallbacksMatch, Q.Step, H.Step;
      ghost var h := server.hub;
      SendSideIsHandedOut(h.sessions[index]);
      RequestCloseIs(h, index);
      CallbacksUpdate(server.connectCalls, server.disconnectCalls, server.all, h.sessions, index,
        H.Step(h, H.RequestClose(index)).sessions[index], false, false);
      I.StepKeepsInv(h, H.RequestClose(index));
      SendsAre(h.sessions[index]);
      if Posts(sends) { server.hub := H.Step(h, H.RequestClose(index)); }
      if ready[0].Send? { OnSend(h.sessions[index]); } else { OnWritten(h.sessions[index]); }
    }

    /** The stream finished the write in flight. */
    method WriteCompletes(ok: bool)
      requires Known() && writing
      modifies this`writing, this`ready, this`sends
      ensures Known() && sends == Q.Step(old(sends), Q.Complete(ok))
      ensures !writing && ready == old(ready) + [Q.WriteDone(ok)]
    {
      hide Mirrors, I.Inv, Q.Step;
      WriteFinished(ok, server.hub.sessions[index]);
    }

    /** `fail_and_close` after a failed read, upgrade or handshake: nothing more is read. */
    method FailAndClose(ghost s: H.Session)
      requires Mirrors(s)
      modifies this`pending, this`ready, this`sends
      ensures Mirrors(s.(io := None, closesPosted := s.closesPosted + 1)) && sends == Q.Step(old(sends), Q.PostClose)
      ensures pending == None && ready == old(ready) + [Q.Close]
    {
      hide Q.Inv, IdOf;
      pending := None;
      Post(Q.Close, s.(io := None));
    }

    /** Wait for the next step of the handshake. */
    method Await(io: H.Io, ghost s: H.Session)
      requires Mirrors(s)
      modifies this`pending
      ensures Mirrors(s.(io := Some(io))) && pending == Some(io)
    {
      hide Q.Inv, IdOf;
      pending := Some(io);
    }

    method OnAccepted(ghost h: H.Hub)
      requires index < |h.sessions| && Mirrors(h.sessions[index]) && server.idCounter == h.counter
      requires h.sessions[index].connects == 0 && server.activeHandshakes == h.activeHandshakes
      modifies this`sessionId, this`registered, this`handshakeActive, this`pending
      modifies server`idCounter, server`sessions, server`connectCalls, server`activeHandshakes
      ensures Mirrors(H.Register(h, index).sessions[index])
      ensures server.idCounter == H.Register(h, index).counter
      ensures server.activeHandshakes == H.Register(h, index).activeHandshakes
      ensures var id := IdOf(server.idCounter);
        server.sessions == if id in old(server.sessions) then old(server.sessions) else old(server.sessions)[id := this]
      ensures server.connectCalls == old(server.connectCalls) + multiset{this}
      ensures registered && !handshakeActive && pending == Some(H.MessageRead) && sessionId == IdOf(server.idCounter)
    {
      hide Q.Inv, IdOf;
      OnUpgraded();
    }

    /** A read-side operation failed. */
    method Fail()
      requires Known() && pending.Some? && pending == server.hub.sessions[index].io
      modifies this, server`hub
      ensures Known() && sends == Q.Step(old(sends), Q.PostClose)
      ensures server.hub == H.Step(old(server.hub), H.IoDone(index, false))
      ensures pending == None && ready == old(ready) + [Q.Close]
    {
      hide Mirrors, I.Inv, IdOf, CallbacksMatch, RegistryMatches, Q.Step, H.Step, H.Register;
      ghost var h := server.hub;
      IoDoneIs(h, index, false);
      I.StepKeepsInv(h, H.IoDone(index, false));
      server.hub := H.Step(h, H.IoDone(index, false));
      CallbacksUpdate(server.connectCalls, server.disconnectCalls, server.all, h.sessions, index,
        server.hub.sessions[index], false, false);
      FailAndClose(h.sessions[index]);
    }

    /** One stage of the handshake, or the read of one message, succeeded, and the next read-side operation starts. */
    method Advance(next: H.Io)
      requires Known() && pending.Some? && pending == server.hub.sessions[index].io
      requires match pending.value
        case TlsHandshake => next == H.UpgradeRead
        case UpgradeRead => next == H.WsAccept
        case WsAccept => false
        case MessageRead => next == H.MessageRead
      modifies this`pending, server`hub
      ensures Known() && server.hub == H.Step(old(server.hub), H.IoDone(index, true)) && pending == Some(next)
    {
      hide Mirrors, I.Inv, IdOf, CallbacksMatch, RegistryMatches, Q.Step, H.Step, H.Register;
      ghost var h := server.hub;
      IoDoneIs(h, index, true);
      I.StepKeepsInv(h, H.IoDone(index, true));
      server.hub := H.Step(h, H.IoDone(index, true));
      CallbacksUpdate(server.connectCalls, server.disconnectCalls, server.all, h.sessions, index,
        server.hub.sessions[index], false, false);
      Await(next, h.sessions[index]);
    }

    /** The upgrade was accepted: the session is registered. */
    method Accepted()
      requires Known() && pending == Some(H.WsAccept) == server.hub.sessions[index].io
      modifies this, server
      ensures Known() && server.all == old(server.all) && sends == old(sends)
      ensures server.hub == H.Step(old(server.hub), H.IoDone(index, true))
      ensures registered && !handshakeActive && pending == Some(H.MessageRead) && sessionId == IdOf(server.idCounter)
      ensures server.connectCalls == old(server.connectCalls) + multiset{this}
    {
      hide Mirrors, I.Inv, IdOf, CallbacksMatch, RegistryMatches, Q.Step, H.Step, H.Register;
      ghost var h := server.hub;
      IoDoneIs(h, index, true);
      I.StepKeepsInv(h, H.IoDone(index, true));
      ghost var h' := H.Step(h, H.IoDone(index, true));
      CallbacksUpdate(server.connectCalls, server.disconnectCalls, server.all, h.sessions, index, h'.sessions[index], true, false);
      RegistryInsert(server.sessions, h.registry, server.all, IdOf(h'.counter), index);
      OnAccepted(h);
      server.hub := h';
    }

    /** The TLS handshake finished. */
    method OnSslHandshake(ok: bool)
      requires Known() && pending == Some(H.TlsHandshake)
      modifies this, server
      ensures Known() && server.all == old(server.all)
      ensures sends == if ok then old(sends) else Q.Step(old(sends), Q.PostClose)
      ensures H.Enabled(old(server.hub), H.IoDone(index, ok)) && server.hub == H.Step(old(server.hub), H.IoDone(index, ok))
      ensures pending == (if ok then Some(H.UpgradeRead) else None) && (!ok ==> ready == old(ready) + [Q.Close])
    {
      hide Mirrors, I.Inv, IdOf, CallbacksMatch, RegistryMatches, Q.Step, H.Step, H.Register;
      PendingIs(server.hub.sessions[index]);
      if ok { Advance(H.UpgradeRead); } else { Fail(); }
    }

    /** The upgrade request was read. */
    method OnUpgradeRead(ok: bool)
      requires Known() && pending == Some(H.UpgradeRead)
      modifies this, server
      ensures Known() && server.all == old(server.all)
      ensures sends == if ok then old(sends) else Q.Step(old(sends), Q.PostClose)
      ensures H.Enabled(old(server.hub), H.IoDone(index, ok)) && server.hub == H.Step(old(server.hub), H.IoDone(index, ok))
      ensures pending == (if ok then Some(H.WsAccept) else None) && (!ok ==> ready == old(ready) + [Q.Close])
    {
      hide Mirrors, I.Inv, IdOf, CallbacksMatch, RegistryMatches, Q.Step, H.Step, H.Register;
      PendingIs(server.hub.sessions[index]);
      if ok { Advance(H.WsAccept); } else { Fail(); }
    }

    /** The upgrade finished. */
    method OnAccept(ok: bool)
      requires Known() && pending == Some(H.WsAccept)
      modifies this, server
      ensures Known() && server.all == old(server.all)
      ensures sends == if ok then old(sends) else Q.Step(old(sends), Q.PostClose)
      ensures H.Enabled(old(server.hub), H.IoDone(index, ok)) && server.hub == H.Step(old(server.hub), H.IoDone(index, ok))
      ensures pending == (if ok then Some(H.MessageRead) else None) && (!ok ==> ready == old(ready) + [Q.Close])
      ensures ok ==> registered && !handshakeActive && sessionId == IdOf(server.idCounter)
      ensures server.connectCalls == if ok then old(server.connectCalls) + multiset{this} else old(server.connectCalls)
    {
      hide Mirrors, I.Inv, IdOf, CallbacksMatch, RegistryMatches, Q.Step, H.Step, H.Register;
      PendingIs(server.hub.sessions[index]);
      if ok { Accepted(); } else { Fail(); }
    }

    /** A message was read and handed to the message handler. */
    method OnRead(ok: bool)
      requires Known() && pending == Some(H.MessageRead)
      modifies this, server
      ensures Known() && server.all == old(server.all)
      ensures sends == if ok then old(sends) else Q.Step(old(sends), Q.PostClose)
      ensures H.Enabled(old(server.hub), H.IoDone(index, ok)) && server.hub == H.Step(old(server.hub), H.IoDone(index, ok))
      ensures pending == (if ok then Some(H.MessageRead) else None) && (!ok ==> ready == old(ready) + [Q.Close])
    {
      hide Mirrors, I.Inv, IdOf, CallbacksMatch, RegistryMatches, Q.Step, H.Step, H.Register;
      PendingIs(server.hub.sessions[index]);
      if ok { Advance(H.MessageRead); } else { Fail(); }
    }
  }

  class WebSocketServer {
    var sessions: map<string, WebSocketSession>
    var activeHandshakes: nat
    var idCounter: nat
    var connectCalls: multiset<WebSocketSession>
    var disconnectCalls: multiset<WebSocketSession>
    // held for the server by the executor: the outstanding accept and the posted stops
    var acceptor: H.Acceptor
    var acceptorOpen: bool
    var stopsPosted: nat
    ghost var hub: H.Hub
    ghost var all: seq<WebSocketSession>

    ghost predicate SameSessions()
      reads this, all
    {
      |all| == |hub.sessions| && forall i :: 0 <= i < |all| ==>
        all[i].server == this && all[i].index == i && all[i].Mirrors(hub.sessions[i])
    }

    ghost predicate SameCounters()
      reads this
    {
      && activeHandshakes == hub.activeHandshakes && idCounter == hub.counter
      && acceptor == hub.acceptor && acceptorOpen == hub.acceptorOpen && stopsPosted == hub.stopsPosted
    }

    /** The objects are in the model's state `hub`, and that state satisfies the protocol's invariant. */
    ghost predicate Valid()
      reads this, all
    {
      && SameCounters() && SameSessions() && I.Inv(hub) && |all| < H.TWO64
      && RegistryMatches(sessions, hub.registry, all) && CallbacksMatch(connectCalls, disconnectCalls, all, hub.sessions)
    }

    constructor ()
      ensures Valid() && hub == H.INIT && all == []
    {
      sessions, activeHandshakes, idCounter := map[], 0, 0;
      connectCalls, disconnectCalls := multiset{}, multiset{};
      acceptor, acceptorOpen, stopsPosted := H.Waiting(true), true, 0;
      hub, all := H.INIT, [];
      I.InitInv();
    }

    /** The compare-and-swap loop of `record_handshake_finished`; on one thread only spurious failures retry it. */
    method RecordHandshakeFinished()
      modifies this`activeHandshakes
      ensures activeHandshakes == H.Finished(old(activeHandshakes))
    {
      var spurious: nat := *;
      var current, swapped := activeHandshakes, false;
      while current > 0 && !swapped
        invariant swapped ==> activeHandshakes == old(activeHandshakes) - 1
        invariant !swapped ==> current == activeHandshakes == old(activeHandshakes)
        decreases !swapped, spurious
      {
        if spurious > 0 {
          spurious, current := spurious - 1, activeHandshakes;
        } else {
          activeHandshakes, swapped := current - 1, true;
        }
      }
    }

    method GenerateId() returns (id: string)
      modifies this`idCounter
      ensures idCounter == (old(idCounter) + 1) % 0x1_0000_0000_0000_0000 && id == IdOf(idCounter)
    {
      idCounter := (idCounter + 1) % H.TWO64;
      id := IdOf(idCounter);
    }

    method AddSession(session: WebSocketSession)
      modifies this`sessions, this`connectCalls
      ensures sessions == if session.sessionId in old(sessions) then old(sessions)
        else old(sessions)[session.sessionId := session]
      ensures connectCalls == old(connectCalls) + multiset{session}
    {
      if session.sessionId !in sessions { sessions := sessions[session.sessionId := session]; }
      connectCalls := connectCalls + multiset{session};
    }

    method RemoveSession(session: WebSocketSession)
      modifies this`sessions, this`disconnectCalls
      ensures sessions == old(sessions) - {session.sessionId}
      ensures disconnectCalls == old(disconnectCalls) + multiset{session}
    {
      sessions := sessions - {session.sessionId};
      disconnectCalls := disconnectCalls + multiset{session};
    }

    /** The acceptor failed: nothing is accepted any more. */
    method OnAcceptFailed()
      requires Valid() && acceptor.Waiting?
      modifies this`acceptor, this`hub
      ensures Valid() && hub == H.Step(old(hub), H.AcceptFail) && acceptor == H.Idle
    {
      hide WebSocketSession.Mirrors, I.Inv, IdOf;
      I.StepKeepsInv(hub, H.AcceptFail);
      acceptor := H.Idle;
      hub := H.Step(hub, H.AcceptFail);
    }

    /** The acceptor delivered a connection: start its session and accept the next. */
    method OnConnection() returns (session: WebSocketSession)
      requires Valid() && acceptor == H.Waiting(true) && |all| + 1 < H.TWO64
      modifies this
      ensures Valid() && hub == H.Step(old(hub), H.AcceptOk)
      ensures all == old(all) + [session] && fresh(session) && session.sends == Q.INIT
      ensures acceptor == H.Waiting(old(acceptorOpen)) && acceptorOpen == old(acceptorOpen)
      ensures session.handshakeActive && session.pending == Some(H.TlsHandshake)
    {
      hide WebSocketSession.Mirrors, I.Inv, IdOf, RegistryMatches, CallbacksMatch;
      I.StepKeepsInv(hub, H.AcceptOk);
      session := new WebSocketSession(this, |all|);
      CallbacksAppend(connectCalls, disconnectCalls, all, hub.sessions, session);
      RegistryAppend(sessions, hub.registry, all, session);
      session.Start();
      acceptor := H.Waiting(acceptorOpen);
      hub, all := H.Step(hub, H.AcceptOk), all + [session];
    }

    /** `stop`, called from any thread. */
    method Stop()
      requires Valid()
      modifies this`stopsPosted, this`hub
      ensures Valid() && hub == H.Step(old(hub), H.RequestStop) && stopsPosted == old(stopsPosted) + 1
    {
      hide WebSocketSession.Mirrors, I.Inv, IdOf;
      I.StepKeepsInv(hub, H.RequestStop);
      stopsPosted := stopsPosted + 1;
      hub := H.Step(hub, H.RequestStop);
    }

    /** `remove_session` by id. */
    method RemoveSessionById(sid: string)
      requires Valid()
      modifies this`sessions, this`hub
      ensures sessions == old(sessions) - {sid}
      ensures Valid()
      ensures hub == H.Step(old(hub), H.RemoveById(sid))
    {
      hide WebSocketSession.Mirrors, I.Inv, IdOf, RegistryMatches, CallbacksMatch;
      I.StepKeepsInv(hub, H.RemoveById(sid));
      RegistryErase(sessions, hub.registry, all, sid);
      if sid in hub.registry && hub.registry[sid] < |all| {
        ghost var i, s := hub.registry[sid], hub.sessions[hub.registry[sid]];
        CallbacksUpdate(connectCalls, disconnectCalls, all, hub.sessions, i, s.(removed := true), false, false);
        all[i].MarksDoNotShow(s, s.drained, true);
      }
      sessions := sessions - {sid};
      hub := H.Step(hub, H.RemoveById(sid));
    }

    /** Copy the registered sessions out of the registry, in whatever order it yields them. */
    method Listed() returns (list: seq<WebSocketSession>)
      requires forall a, b :: a in sessions && b in sessions && sessions[a] == sessions[b] ==> a == b
      ensures forall session :: session in list <==> session in sessions.Values
      ensures forall j, k :: 0 <= j < k < |list| ==> list[j] != list[k]
    {
      list := [];
      var rest := sessions.Keys;
      while rest != {}
        invariant rest <= sessions.Keys
        invariant forall sid :: sid in rest ==> sessions[sid] !in list
        invariant forall session :: session in list ==> session in sessions.Values
        invariant forall sid :: sid in sessions && sid !in rest ==> sessions[sid] in list
        invariant forall j, k :: 0 <= j < k < |list| ==> list[j] != list[k]
      {
        var sid :| sid in rest;
        list := list + [sessions[sid]];
        rest := rest - {sid};
      }
    }

    /** Ask every session of the list to close. */
    method CloseAll(list: seq<WebSocketSession>)
      requires SameSessions() && (forall session :: session in list ==> session in all)
      requires forall j, k :: 0 <= j < k < |list| ==> list[j] != list[k]
      modifies all
      ensures forall i :: 0 <= i < |all| ==>
        all[i].Mirrors(if all[i] in list then H.Drained(hub.sessions[i]) else hub.sessions[i])
      ensures forall i :: 0 <= i < |all| ==> if all[i] in list
        then all[i].ready == old(all[i].ready) + [Q.Close] && all[i].sends == Q.Step(old(all[i].sends), Q.PostClose)
        else all[i].ready == old(all[i].ready) && all[i].sends == old(all[i].sends)
    {
      hide WebSocketSession.Mirrors, Q.Step;
      for k := 0 to |list|
        invariant forall i :: 0 <= i < |all| ==>
          all[i].Mirrors(if all[i] in list[..k] then H.Drained(hub.sessions[i]) else hub.sessions[i])
        invariant forall i :: 0 <= i < |all| ==> if all[i] in list[..k]
          then all[i].ready == old(all[i].ready) + [Q.Close] && all[i].sends == Q.Step(old(all[i].sends), Q.PostClose)
          else all[i].ready == old(all[i].ready) && all[i].sends == old(all[i].sends)
      {
        assert list[k] in list && list[k] in all;
        ghost var i :| 0 <= i < |all| && all[i] == list[k];
        ghost var s := hub.sessions[i];
        assert list[k] !in list[..k];
        list[k].Post(Q.Close, s);
        list[k].MarksDoNotShow(s.(closesPosted := s.closesPosted + 1), true, s.removed);
        assert list[..k + 1] == list[..k] + [list[k]];
      }
      assert list[..|list|] == list;
    }

    /** Empty the registry and ask every session that was in it to close. */
    method CloseRegistered()
      requires SameSessions() && RegistryMatches(sessions, hub.registry, all) && I.Inv(hub)
      modifies this`sessions, all
      ensures sessions == map[]
      ensures forall i :: 0 <= i < |all| ==>
        all[i].Mirrors(if i in hub.registry.Values then H.Drained(hub.sessions[i]) else hub.sessions[i])
      ensures forall i :: 0 <= i < |all| ==>
        all[i].ready == if i in hub.registry.Values then old(all[i].ready) + [Q.Close] else old(all[i].ready)
      ensures forall i :: 0 <= i < |all| ==>
        all[i].sends == if i in hub.registry.Values then Q.Step(old(all[i].sends), Q.PostClose) else old(all[i].sends)
    {
      hide WebSocketSession.Mirrors, I.Inv, IdOf, Q.Step, RegistryMatches;
      ListedOnce(sessions, hub, all);
      var list := Listed();
      assert forall session :: session in list ==> session in all;
      sessions := map[];
      CloseAll(list);
    }

    /** A posted `stop` runs: the acceptor closes, the registry is emptied, and every session in it is asked to close. */
    method RunStop()
      requires Valid() && stopsPosted > 0
      modifies this, all
      ensures Valid() && all == old(all) && hub == H.Step(old(hub), H.RunStop)
      ensures sessions == map[] && !acceptorOpen && acceptor == old(acceptor) && stopsPosted == old(stopsPosted) - 1
      ensures forall i :: 0 <= i < |all| ==>
        all[i].ready == if i in old(hub).registry.Values then old(all[i].ready) + [Q.Close] else old(all[i].ready)
      ensures forall i :: 0 <= i < |all| ==>
        all[i].sends == if i in old(hub).registry.Values then Q.Step(old(all[i].sends), Q.PostClose) else old(all[i].sends)
    {
      hide WebSocketSession.Mirrors, I.Inv, IdOf, Q.Step, CallbacksMatch, RegistryMatches, H.Step, H.Drain;
      RunStopIs(hub, all);
      I.StepKeepsInv(hub, H.RunStop);
      DrainQuiet(connectCalls, disconnectCalls, all, hub);
      acceptorOpen, stopsPosted := false, stopsPosted - 1;
      CloseRegistered();
      hub := H.Step(hub, H.RunStop);
    }
  }

  /** Between handlers: the registry holds open sessions under their own ids, and no session was reported gone twice. */
  lemma RegisteredObjectsAreOpen(server: WebSocketServer)
    requires server.Valid()
    ensures forall sid :: sid in server.sessions ==>
      server.sessions[sid].sessionId == sid && server.sessions[sid].registered && !server.sessions[sid].closed
    ensures forall session :: session in server.all ==>
      server.disconnectCalls[session] <= server.connectCalls[session] <= 1
  {
    hide IdOf, Q.Inv, I.CountActive, I.CountIds, I.NumbersOk;
    var h := server.hub;
    forall sid | sid in server.sessions
      ensures server.sessions[sid].sessionId == sid && server.sessions[sid].registered && !server.sessions[sid].closed
    {
      var i := h.registry[sid];
      assert I.SessionOk(h.sessions[i]) && server.all[i].Mirrors(h.sessions[i]);
    }
    forall session | session in server.all ensures server.disconnectCalls[session] <= server.connectCalls[session] <= 1
    {
      var i :| 0 <= i < |server.all| && server.all[i] == session;
      assert I.SessionOk(h.sessions[i]);
    }
  }
}
