/**
  The connection pool as a monitor. Every critical section is one step; a caller that has to wait
  gives up the lock and is, until it runs again, either waiting, or woken by a notification, or
  awake for another reason (a spurious wakeup or its deadline). Which thread runs next, whom
  `notify_one` picks, and when deadlines pass, is left open.
 */
module PoolMonitor {
  import opened Wrappers

  type Conn = nat
  type Thread = nat

  /** What one call of the factory does. */
  datatype Made = Fresh(conn: Conn) | Null | Throws

  datatype Pool = Pool(
    size: nat,
    idle: seq<Conn>,
    closed: bool,
    waiting: set<Thread>,
    notified: set<Thread>,
    awake: set<Thread>,
    // history since the last `Close`: what `Init` created and what callers hold; and whether `Init` ever ran
    created: set<Conn>,
    borrowed: set<Conn>,
    started: bool)

  const INIT := Pool(0, [], false, {}, {}, {}, {}, {}, false)

  datatype Event =
    | Init(size: nat, results: seq<Made>)
    | Enter(t: Thread)
    | Rouse(t: Thread)
    | Resume(t: Thread, expired: bool)
    | Release(conn: Conn, woken: Thread)
    | Close

  /** The connections made before the factory first throws. */
  function Supply(results: seq<Made>): seq<Conn> {
    if results == [] || results[0].Throws? then []
    else (if results[0].Fresh? then [results[0].conn] else []) + Supply(results[1..])
  }

  function Elements(s: seq<Conn>): set<Conn> { set c | c in s }

  /** The predicate callers wait for. */
  predicate CanProceed(p: Pool) { p.closed || p.idle != [] }

  /** `GetConnection` once the predicate holds: nothing from a closed pool, else the front of the queue. */
  function Take(p: Pool): Pool
    requires CanProceed(p)
  {
    if p.closed then p
    else p.(idle := p.idle[1..], borrowed := p.borrowed + {p.idle[0]})
  }

  predicate Inside(p: Pool, t: Thread) { t in p.waiting || t in p.notified || t in p.awake }

  predicate IsFull(p: Pool) { |p.idle| >= p.size }

  predicate Possible(p: Pool, e: Event) {
    match e
    case Init(size, results) => |results| == size
    case Enter(t) => !Inside(p, t)
    case Rouse(t) => t in p.waiting
    case Resume(t, _) => t in p.notified || t in p.awake
    case Release(_, woken) => p.waiting != {} ==> woken in p.waiting
    case Close => true
  }

  function Step(p: Pool, e: Event): Pool
    requires Possible(p, e)
  {
    match e
    case Init(size, results) =>
      if p.size > 0 then p
      else p.(size := size, idle := p.idle + Supply(results), closed := false, created := p.created + Elements(Supply(results)), started := true)
    case Enter(t) => if CanProceed(p) then Take(p) else p.(waiting := p.waiting + {t})
    case Rouse(t) => p.(waiting := p.waiting - {t}, awake := p.awake + {t})
    case Resume(t, expired) =>
      var p' := p.(notified := p.notified - {t}, awake := p.awake - {t});
      if CanProceed(p) then Take(p') else if expired then p' else p'.(waiting := p.waiting + {t})
    case Release(conn, woken) =>
      if p.closed || IsFull(p) then p
      else
        var p' := p.(idle := p.idle + [conn], borrowed := p.borrowed - {conn});
        if p.waiting == {} then p' else p'.(waiting := p.waiting - {woken}, notified := p.notified + {woken})
    case Close =>
      p.(size := 0, idle := [], closed := true, waiting := {}, notified := p.notified + p.waiting, created := {}, borrowed := {})
  }

  /** How a caller of `GetConnection` leaves a critical section. */
  datatype Outcome = Waits | Nothing | Given(conn: Conn)

  /** What the model says the caller leaves with. */
  function Leaves(p: Pool, expired: bool): Outcome {
    if p.closed then Nothing
    else if p.idle != [] then Given(p.idle[0])
    else if expired then Nothing
    else Waits
  }

  predicate ValidRun(p: Pool, es: seq<Event>)
    decreases |es|
  {
    es == [] || (Possible(p, es[0]) && ValidRun(Step(p, es[0]), es[1..]))
  }

  function Exec(p: Pool, es: seq<Event>): Pool
    requires ValidRun(p, es)
    decreases |es|
  {
    if es == [] then p else Exec(Step(p, es[0]), es[1..])
  }

  // ---------------------------------------------------------------- no lost wakeup

  /** Where a thread is is never in doubt, and nobody waits at a closed pool. */
  predicate Orderly(p: Pool) {
    && p.waiting !! p.notified && p.waiting !! p.awake && p.notified !! p.awake
    && (p.closed ==> p.idle == [] && p.waiting == {} && p.size == 0)
  }

  /** While anyone waits un-notified, a notified thread is on its way for every idle connection. */
  predicate Covered(p: Pool) { p.waiting != {} ==> |p.idle| <= |p.notified| }

  lemma OrderlyKept(p: Pool, e: Event)
    requires Orderly(p) && Possible(p, e)
    ensures Orderly(Step(p, e))
  {}

  /** A filling `Init` overtakes the waiters: it adds more connections than there are notified threads, and notifies nobody. */
  predicate FillsPastWaiters(p: Pool, e: Event) {
    e.Init? && p.size == 0 && p.waiting != {} && |p.idle + Supply(e.results)| > |p.notified|
  }

  /** A step loses a wakeup exactly when it is such an `Init`. */
  lemma CoverageLostIff(p: Pool, e: Event)
    requires Orderly(p) && Covered(p) && Possible(p, e)
    ensures Covered(Step(p, e)) <==> !FillsPastWaiters(p, e)
  {
    if e.Resume? && e.t in p.notified { assert |p.notified - {e.t}| == |p.notified| - 1; }
    if e.Release? { assert e.woken in p.waiting ==> |p.notified + {e.woken}| == |p.notified| + 1; }
  }

  /** The caller-side rule that rules this out: sizes are positive and nobody asks before the first `Init`. */
  predicate InOrder(p: Pool, e: Event) {
    (e.Init? ==> e.size > 0) && (e.Enter? ==> p.started)
  }

  predicate AllInOrder(p: Pool, es: seq<Event>)
    requires ValidRun(p, es)
    decreases |es|
  {
    es == [] || (InOrder(p, es[0]) && AllInOrder(Step(p, es[0]), es[1..]))
  }

  predicate StartedOk(p: Pool) {
    if p.started then p.size > 0 || p.closed else p.waiting == p.notified == p.awake == {}
  }

  predicate WakeInv(p: Pool) { Orderly(p) && Covered(p) && StartedOk(p) }

  lemma StartedKept(p: Pool, e: Event)
    requires Orderly(p) && StartedOk(p) && Possible(p, e) && InOrder(p, e)
    ensures StartedOk(Step(p, e)) && !FillsPastWaiters(p, e)
  {}

  lemma WakeInvKept(p: Pool, e: Event)
    requires WakeInv(p) && Possible(p, e) && InOrder(p, e)
    ensures WakeInv(Step(p, e))
  {
    hide Step, Possible, InOrder, Orderly, Covered, StartedOk, FillsPastWaiters;
    OrderlyKept(p, e);
    CoverageLostIff(p, e);
    StartedKept(p, e);
  }

  lemma {:induction false} WakeInvAlong(p: Pool, es: seq<Event>)
    requires WakeInv(p) && ValidRun(p, es) && AllInOrder(p, es)
    ensures WakeInv(Exec(p, es))
    decreases |es|
  {
    if es != [] {
      WakeInvKept(p, es[0]);
      WakeInvAlong(Step(p, es[0]), es[1..]);
    }
  }

  /**
    No lost wakeup: whatever the threads, timers and the scheduler do, while a caller waits un-notified every idle
    connection has a notified thread of its own coming for it, and each of those takes a connection when it runs.
   */
  lemma NoLostWakeup(es: seq<Event>, t: Thread, expired: bool)
    requires ValidRun(INIT, es) && AllInOrder(INIT, es)
    ensures var q := Exec(INIT, es);
      && (q.waiting != {} ==> |q.idle| <= |q.notified| && !q.closed)
      && (q.waiting != {} && q.idle != [] && t in q.notified ==>
            Step(q, Resume(t, expired)).borrowed == q.borrowed + {q.idle[0]})
  {
    WakeInvAlong(INIT, es);
  }

  /** Without the rule the wakeup is lost: a caller that came before `Init` sleeps beside an idle connection. */
  lemma EarlyCallerSleeps()
    ensures var es := [Enter(0), Init(1, [Fresh(7)])];
      && ValidRun(INIT, es)
      && Exec(INIT, es).waiting == {0} && Exec(INIT, es).notified == {} && Exec(INIT, es).idle == [7]
  {
    var p := Step(INIT, Enter(0));
    assert Supply([Fresh(7)]) == [7] by { assert Supply([Fresh(7)][1..]) == []; }
    var es := [Enter(0), Init(1, [Fresh(7)])];
    assert es[1..] == [Init(1, [Fresh(7)])] && es[1..][1..] == [];
    assert Step(p, es[1]).idle == [7];
  }

  // ---------------------------------------------------------------- conservation

  predicate Distinct(s: seq<Conn>) { forall i, j :: 0 <= i < j < |s| ==> s[i] != s[j] }

  lemma {:induction false} DistinctCount(s: seq<Conn>)
    requires Distinct(s)
    ensures |Elements(s)| == |s|
    decreases |s|
  {
    if s != [] {
      DistinctCount(s[1..]);
      assert Elements(s) == {s[0]} + Elements(s[1..]);
    }
  }

  lemma {:induction false} SupplyBound(results: seq<Made>)
    ensures |Supply(results)| <= |results|
    decreases |results|
  {
    if results != [] { SupplyBound(results[1..]); }
  }

  /** Idle and borrowed connections are disjoint, and together are what `Init` created: at most the pool's size. */
  predicate Conserved(p: Pool) {
    && Distinct(p.idle) && Elements(p.idle) !! p.borrowed
    && Elements(p.idle) + p.borrowed == p.created
    && |p.created| <= p.size
  }

  /** The factory yields distinct connections; callers give each borrow back at most once and before the next `Close`. */
  predicate Polite(p: Pool, e: Event) {
    (e.Init? ==> Distinct(Supply(e.results))) && (e.Release? ==> e.conn in p.borrowed)
  }

  predicate AllPolite(p: Pool, es: seq<Event>)
    requires ValidRun(p, es)
    decreases |es|
  {
    es == [] || (Polite(p, es[0]) && AllPolite(Step(p, es[0]), es[1..]))
  }

  lemma FrontAndRest(s: seq<Conn>)
    requires s != []
    ensures Elements(s) == {s[0]} + Elements(s[1..])
    ensures Distinct(s) ==> Distinct(s[1..]) && s[0] !in Elements(s[1..])
  {}

  lemma TakeConserves(p: Pool)
    requires Conserved(p) && CanProceed(p)
    ensures Conserved(Take(p))
  {
    hide Elements, Distinct;
    if !p.closed { FrontAndRest(p.idle); }
  }

  /** A connection a caller may give back is neither turned away by a closed pool nor discarded by a full one. */
  lemma NeverFull(p: Pool, conn: Conn)
    requires Orderly(p) && Conserved(p) && conn in p.borrowed
    ensures !p.closed && !IsFull(p)
  {
    DistinctCount(p.idle);
    assert Elements(p.idle) + {conn} <= p.created;
    Within(Elements(p.idle) + {conn}, p.created);
  }

  lemma Within<T>(a: set<T>, b: set<T>)
    requires a <= b
    ensures |a| <= |b|
  {
    assert b == a + (b - a);
  }

  lemma BackAndRest(s: seq<Conn>, c: Conn)
    ensures Elements(s + [c]) == Elements(s) + {c}
    ensures Distinct(s) && c !in Elements(s) ==> Distinct(s + [c])
  {}

  lemma ReleaseConserves(p: Pool, conn: Conn)
    requires Conserved(p) && conn in p.borrowed
    ensures Conserved(p.(idle := p.idle + [conn], borrowed := p.borrowed - {conn}))
  {
    hide Elements, Distinct;
    BackAndRest(p.idle, conn);
  }

  lemma InitConserves(p: Pool, size: nat, results: seq<Made>)
    requires Conserved(p) && p.size == 0 && |results| == size && Distinct(Supply(results))
    ensures Conserved(Step(p, Init(size, results)))
  {
    assert p.created == {};
    assert p.idle == [] by { DistinctCount(p.idle); }
    DistinctCount(Supply(results));
    SupplyBound(results);
    assert p.idle + Supply(results) == Supply(results);
  }

  lemma ConservedKept(p: Pool, e: Event)
    requires Orderly(p) && Conserved(p) && Possible(p, e) && Polite(p, e)
    ensures Conserved(Step(p, e))
  {
    match e
    case Init(size, results) => if p.size == 0 { InitConserves(p, size, results); }
    case Enter(_) => if CanProceed(p) { TakeConserves(p); }
    case Rouse(_) =>
    case Resume(t, _) => if CanProceed(p) { TakeConserves(p.(notified := p.notified - {t}, awake := p.awake - {t})); }
    case Release(conn, _) => ReleaseConserves(p, conn);
    case Close =>
  }

  /** `GetInUsedCount`, in 64 bits. */
  function InUsed(p: Pool): nat { (p.size - |p.idle|) % 0x1_0000_0000_0000_0000 }

  lemma {:induction false} ConservedAlong(p: Pool, es: seq<Event>)
    requires Orderly(p) && Conserved(p) && ValidRun(p, es) && AllPolite(p, es)
    ensures Orderly(Exec(p, es)) && Conserved(Exec(p, es))
    decreases |es|
  {
    if es != [] {
      OrderlyKept(p, es[0]);
      ConservedKept(p, es[0]);
      ConservedAlong(Step(p, es[0]), es[1..]);
    }
  }

  /**
    In every state of every polite run: no connection is both idle and borrowed or borrowed twice, none appears or is
    lost, the pool never holds more than its size, no returned connection is discarded, and the number in use does not
    wrap; it counts the borrows exactly when every factory call of `Init` succeeded.
   */
  lemma PoolConserves(es: seq<Event>)
    requires ValidRun(INIT, es) && AllPolite(INIT, es) && Exec(INIT, es).size < 0x1_0000_0000_0000_0000
    ensures var p := Exec(INIT, es);
      && Conserved(p) && |p.idle| <= p.size
      && InUsed(p) == p.size - |p.idle| >= |p.borrowed|
      && (InUsed(p) == |p.borrowed| <==> |p.created| == p.size)
      && (forall conn :: conn in p.borrowed ==> !p.closed && !IsFull(p))
      && (p.idle != [] ==> p.idle[0] !in p.borrowed)
  {
    hide Step, Possible, Supply;
    assert Conserved(INIT) && Orderly(INIT);
    ConservedAlong(INIT, es);
    var p := Exec(INIT, es);
    DistinctCount(p.idle);
    assert |p.created| == |p.idle| + |p.borrowed|;
    forall conn | conn in p.borrowed ensures !p.closed && !IsFull(p) { NeverFull(p, conn); }
    if p.idle != [] { assert p.idle[0] in Elements(p.idle); }
  }

  lemma SupplyOne(c: Conn)
    ensures Supply([Fresh(c)]) == [c]
  {
    assert Supply([Fresh(c)][1..]) == [];
  }

  lemma ExecNext(p: Pool, e: Event, es: seq<Event>)
    requires Possible(p, e)
    ensures ValidRun(p, [e] + es) == ValidRun(Step(p, e), es)
    ensures ValidRun(p, [e] + es) ==> Exec(p, [e] + es) == Exec(Step(p, e), es)
  {
    hide Step;
    assert ([e] + es)[1..] == es;
  }

  /** A release keeps the pool whole exactly when it is turned away, or returns a connection that is out on loan. */
  lemma ReleaseConservesIff(p: Pool, conn: Conn, woken: Thread)
    requires Orderly(p) && Conserved(p) && Possible(p, Release(conn, woken))
    ensures Conserved(Step(p, Release(conn, woken))) <==> conn in p.borrowed || p.closed || IsFull(p)
  {
    if conn in p.borrowed {
      ReleaseConserves(p, conn);
    } else if !p.closed && !IsFull(p) {
      var idle := p.idle + [conn];
      assert conn in Elements(idle);
      if conn in Elements(p.idle) {
        var i :| 0 <= i < |p.idle| && p.idle[i] == conn;
        assert idle[i] == idle[|p.idle|];
      }
    }
  }

  const OLD_LOAN := Pool(1, [], false, {}, {}, {}, {1}, {1}, true)
  const NEW_LOAN := Pool(1, [], false, {}, {}, {}, {2}, {2}, true)

  lemma FirstLoan()
    ensures Step(INIT, Init(1, [Fresh(1)])) == OLD_LOAN.(idle := [1], borrowed := {})
    ensures Step(OLD_LOAN.(idle := [1], borrowed := {}), Enter(0)) == OLD_LOAN
  {
    SupplyOne(1);
  }

  lemma SecondLoan()
    ensures Step(OLD_LOAN, Close) == CLOSED
    ensures Step(CLOSED, Init(1, [Fresh(2)])) == NEW_LOAN.(idle := [2], borrowed := {})
    ensures Step(NEW_LOAN.(idle := [2], borrowed := {}), Enter(1)) == NEW_LOAN
  {
    SupplyOne(2);
  }

  const CLOSED := Pool(0, [], true, {}, {}, {}, {}, {}, true)

  /** Such a run exists: a borrow given back after `Close` and a new `Init` becomes part of the new pool. */
  lemma LateReleaseIntrudes()
    ensures var es := [Init(1, [Fresh(1)])] + ([Enter(0)] + ([Close] + ([Init(1, [Fresh(2)])] + ([Enter(1)] + ([Release(1, 0)] + [])))));
      && ValidRun(INIT, es) && Exec(INIT, es).created == {2} && Exec(INIT, es).idle == [1]
  {
    hide ValidRun, Exec;
    FirstLoan();
    SecondLoan();
    var p6 := Step(NEW_LOAN, Release(1, 0));
    assert p6 == NEW_LOAN.(idle := [1]);
    hide Step;
    var e6 := [Release(1, 0)] + [];
    var e5 := [Enter(1)] + e6;
    var e4 := [Init(1, [Fresh(2)])] + e5;
    var e3 := [Close] + e4;
    var e2 := [Enter(0)] + e3;
    ExecNext(INIT, Init(1, [Fresh(1)]), e2);
    ExecNext(OLD_LOAN.(idle := [1], borrowed := {}), Enter(0), e3);
    ExecNext(OLD_LOAN, Close, e4);
    ExecNext(CLOSED, Init(1, [Fresh(2)]), e5);
    ExecNext(NEW_LOAN.(idle := [2], borrowed := {}), Enter(1), e6);
    ExecNext(NEW_LOAN, Release(1, 0), []);
    EmptyRun(p6);
  }

  lemma EmptyRun(p: Pool)
    ensures ValidRun(p, []) && Exec(p, []) == p
  {}
}
