/**
  The WebSocket server and all its sessions as a step system. One step is one handler on the
  server's single-threaded executor, or one request posted by another thread; which enabled
  handler runs next, and whether an operation succeeded, is left open.
 */
module Hub {
  import opened Wrappers
  import opened SessionIds

  /** The one read-side operation a session waits for. */
  datatype Io = TlsHandshake | UpgradeRead | WsAccept | MessageRead

  datatype Session = Session(
    io: Option<Io>,
    closed: bool,
    registered: bool,
    handshakeActive: bool,
    // the counter value its id renders, once it has an id
    number: Option<nat>,
    closesPosted: nat,
    // history: callbacks made and handshakes reported finished
    connects: nat,
    disconnects: nat,
    finishes: nat,
    // taken out of the registry by `stop`, or by id, rather than by closing
    drained: bool,
    removed: bool)
  {
    function Id(): string { if number.Some? then IdOf(number.value) else "" }
  }

  datatype Acceptor = Idle | Waiting(viable: bool)

  datatype Hub = Hub(
    sessions: seq<Session>,
    registry: map<string, nat>,
    activeHandshakes: nat,
    counter: nat,
    acceptor: Acceptor,
    acceptorOpen: bool,
    stopsPosted: nat)

  const INIT := Hub([], map[], 0, 0, Waiting(true), true, 0)
  const TWO64 := 0x1_0000_0000_0000_0000

  datatype Event =
    | AcceptOk
    | AcceptFail
    | IoDone(s: nat, ok: bool)
    | RequestClose(s: nat)
    | RunClose(s: nat)
    | RequestStop
    | RunStop
    | RemoveById(sid: string)

  // ---------------------------------------------------------------- the pieces of the handlers

  /** `record_handshake_finished`: the guard keeps the counter from wrapping. */
  function Finished(active: nat): nat { if active > 0 then active - 1 else active }

  /** `finish_handshake_tracking` on one session and the shared counter. */
  function FinishTracking(s: Session): Session {
    if s.handshakeActive then s.(handshakeActive := false, finishes := s.finishes + 1) else s
  }

  function CounterAfter(s: Session, active: nat): nat {
    if s.handshakeActive then Finished(active) else active
  }

  const NEW_SESSION := Session(Some(TlsHandshake), false, false, true, None, 0, 0, 0, 0, false, false)

  function With(h: Hub, i: nat, s: Session): Hub
    requires i < |h.sessions|
  {
    h.(sessions := h.sessions[i := s])
  }

  /** The tail of a successful upgrade: id, registry entry, connect callback, end of tracking, next read. */
  function Register(h: Hub, i: nat): Hub
    requires i < |h.sessions|
  {
    var n := (h.counter + 1) % TWO64;
    var s := h.sessions[i];
    var s' := FinishTracking(s.(number := Some(n), registered := true, connects := s.connects + 1, io := Some(MessageRead)));
    With(h, i, s').(
      registry := if IdOf(n) in h.registry then h.registry else h.registry[IdOf(n) := i],
      counter := n,
      activeHandshakes := CounterAfter(s, h.activeHandshakes))
  }

  function CloseSession(s: Session): Session {
    var s' := FinishTracking(s.(closed := true));
    if s.registered then s'.(registered := false, disconnects := s.disconnects + 1) else s'
  }

  /** `perform_close`: only the first of the posted closes does anything. */
  function PerformClose(h: Hub, i: nat): Hub
    requires i < |h.sessions|
  {
    var s := h.sessions[i].(closesPosted := if h.sessions[i].closesPosted > 0 then h.sessions[i].closesPosted - 1 else 0);
    if s.closed then With(h, i, s)
    else With(h, i, CloseSession(s)).(
      registry := if s.registered then h.registry - {s.Id()} else h.registry,
      activeHandshakes := CounterAfter(s, h.activeHandshakes))
  }

  function Drained(s: Session): Session { s.(closesPosted := s.closesPosted + 1, drained := true) }

  /** The drain loop of `stop`: one close posted for every session in the registry. */
  function Drain(sessions: seq<Session>, registry: map<string, nat>): (r: seq<Session>)
    ensures |r| == |sessions|
    ensures forall i :: 0 <= i < |r| ==> (r[i] == if i in registry.Values then Drained(sessions[i]) else sessions[i])
  {
    seq(|sessions|, i requires 0 <= i < |sessions| =>
      if i in registry.Values then Drained(sessions[i]) else sessions[i])
  }

  // ---------------------------------------------------------------- steps

  predicate Enabled(h: Hub, e: Event) {
    match e
    case AcceptOk => h.acceptor == Waiting(true)
    case AcceptFail => h.acceptor.Waiting?
    case IoDone(s, _) => s < |h.sessions| && h.sessions[s].io.Some?
    // handles escape only through the connect and message handlers
    case RequestClose(s) => s < |h.sessions| && h.sessions[s].connects > 0
    case RunClose(s) => s < |h.sessions| && h.sessions[s].closesPosted > 0
    case RequestStop => true
    case RunStop => h.stopsPosted > 0
    case RemoveById(_) => true
  }

  function PostClose(h: Hub, i: nat): Hub
    requires i < |h.sessions|
  {
    With(h, i, h.sessions[i].(closesPosted := h.sessions[i].closesPosted + 1))
  }

  function Step(h: Hub, e: Event): Hub
    requires Enabled(h, e)
  {
    match e
    case AcceptOk =>
      h.(sessions := h.sessions + [NEW_SESSION],
         activeHandshakes := (h.activeHandshakes + 1) % TWO64,
         acceptor := Waiting(h.acceptorOpen))
    case AcceptFail => h.(acceptor := Idle)
    case IoDone(i, ok) =>
      if !ok then PostClose(With(h, i, h.sessions[i].(io := None)), i)
      else (match h.sessions[i].io.value
        case TlsHandshake => With(h, i, h.sessions[i].(io := Some(UpgradeRead)))
        case UpgradeRead => With(h, i, h.sessions[i].(io := Some(WsAccept)))
        case WsAccept => Register(h, i)
        case MessageRead => h)
    case RequestClose(i) => PostClose(h, i)
    case RunClose(i) => PerformClose(h, i)
    case RequestStop => h.(stopsPosted := h.stopsPosted + 1)
    case RunStop =>
      h.(sessions := Drain(h.sessions, h.registry), registry := map[], acceptorOpen := false,
         stopsPosted := h.stopsPosted - 1)
    case RemoveById(sid) =>
      if sid !in h.registry || h.registry[sid] >= |h.sessions| then h.(registry := h.registry - {sid})
      else With(h, h.registry[sid], h.sessions[h.registry[sid]].(removed := true)).(registry := h.registry - {sid})
  }

  predicate ValidRun(h: Hub, es: seq<Event>)
    decreases |es|
  {
    es == [] || (Enabled(h, es[0]) && ValidRun(Step(h, es[0]), es[1..]))
  }

  function Exec(h: Hub, es: seq<Event>): Hub
    requires ValidRun(h, es)
    decreases |es|
  {
    if es == [] then h else Exec(Step(h, es[0]), es[1..])
  }
}
