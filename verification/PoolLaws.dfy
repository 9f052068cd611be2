/** Laws of the pool's callers: who is inside, who gets which connection, and in what order. */
module PoolLaws {
  import opened PoolMonitor

  // ---------------------------------------------------------------- being inside

  /** A caller that enters is inside afterwards exactly when it has to wait. */
  lemma EnteredIffWaits(p: Pool, t: Thread)
    requires Possible(p, Enter(t))
    ensures Inside(Step(p, Enter(t)), t) <==> Leaves(p, false) == Waits
  {}

  /** A caller that runs again is inside afterwards exactly when it goes on waiting; one that returned is in no set. */
  lemma ResumedIffWaits(p: Pool, t: Thread, expired: bool)
    requires Orderly(p) && Possible(p, Resume(t, expired))
    ensures Inside(Step(p, Resume(t, expired)), t) <==> Leaves(p, expired) == Waits
  {}

  /** Whether the last critical section of this thread ended in waiting; `was` is the answer before the run. */
  predicate LastWaited(p: Pool, es: seq<Event>, t: Thread, was: bool)
    requires ValidRun(p, es)
    decreases |es|
  {
    if es == [] then was
    else
      var now := match es[0]
        case Enter(u) => if u == t then Leaves(p, false) == Waits else was
        case Resume(u, expired) => if u == t then Leaves(p, expired) == Waits else was
        case _ => was;
      LastWaited(Step(p, es[0]), es[1..], t, now)
  }

  lemma OthersStay(p: Pool, e: Event, t: Thread)
    requires Possible(p, e) && e != Enter(t) && (e.Resume? ==> e.t != t)
    ensures Inside(Step(p, e), t) == Inside(p, t)
  {}

  /** Along every run a thread is inside exactly when its last critical section ended in waiting. */
  lemma {:induction false} InsideIff(p: Pool, es: seq<Event>, t: Thread)
    requires Orderly(p) && ValidRun(p, es)
    ensures Inside(Exec(p, es), t) <==> LastWaited(p, es, t, Inside(p, t))
    decreases |es|
  {
    hide Step, Inside, Orderly, Leaves;
    if es != [] {
      var e := es[0];
      OrderlyKept(p, e);
      if e == Enter(t) {
        EnteredIffWaits(p, t);
      } else if e.Resume? && e.t == t {
        ResumedIffWaits(p, t, e.expired);
      } else {
        OthersStay(p, e, t);
      }
      InsideIff(Step(p, e), es[1..], t);
    }
  }

  /** So in every run from the start: nobody is waited for, or notified, who is not still in the call. */
  lemma OnlyCallersAreInside(es: seq<Event>, t: Thread)
    requires ValidRun(INIT, es)
    ensures Inside(Exec(INIT, es), t) <==> LastWaited(INIT, es, t, false)
  {
    InsideIff(INIT, es, t);
  }

  /** A wakeup of any kind lets the caller run, and a close lets all of them run. */
  lemma WokenCanRun(p: Pool, t: Thread, conn: Conn, expired: bool)
    requires t in p.waiting
    ensures Possible(Step(p, Rouse(t)), Resume(t, expired))
    ensures !p.closed && !IsFull(p) ==> Possible(Step(p, Release(conn, t)), Resume(t, expired))
    ensures Possible(Step(p, Close), Resume(t, expired)) && Leaves(Step(p, Close), expired) == Nothing
  {}

  // ---------------------------------------------------------------- first in, first out

  function TakenBy(p: Pool, e: Event): seq<Conn> {
    match e
    case Enter(_) => if p.closed || p.idle == [] then [] else [p.idle[0]]
    case Resume(_, _) => if p.closed || p.idle == [] then [] else [p.idle[0]]
    case _ => []
  }

  function AddedBy(p: Pool, e: Event): seq<Conn> {
    match e
    case Init(_, results) => if p.size > 0 then [] else Supply(results)
    case Release(conn, _) => if p.closed || IsFull(p) then [] else [conn]
    case _ => []
  }

  function TakenAlong(p: Pool, es: seq<Event>): seq<Conn>
    requires ValidRun(p, es)
    decreases |es|
  {
    if es == [] then [] else TakenBy(p, es[0]) + TakenAlong(Step(p, es[0]), es[1..])
  }

  function AddedAlong(p: Pool, es: seq<Event>): seq<Conn>
    requires ValidRun(p, es)
    decreases |es|
  {
    if es == [] then [] else AddedBy(p, es[0]) + AddedAlong(Step(p, es[0]), es[1..])
  }

  lemma StepIsFifo(p: Pool, e: Event)
    requires Possible(p, e) && !e.Close?
    ensures TakenBy(p, e) + Step(p, e).idle == p.idle + AddedBy(p, e)
  {}

  /** Until a close, connections are handed out in the order in which they became idle. */
  lemma {:induction false} FirstInFirstOut(p: Pool, es: seq<Event>)
    requires ValidRun(p, es) && Close !in es
    ensures TakenAlong(p, es) + Exec(p, es).idle == p.idle + AddedAlong(p, es)
    decreases |es|
  {
    hide Step, TakenBy, AddedBy;
    if es != [] {
      var e := es[0];
      assert e in es && forall x :: x in es[1..] ==> x in es;
      StepIsFifo(p, e);
      FirstInFirstOut(Step(p, e), es[1..]);
      var rest, more := TakenAlong(Step(p, e), es[1..]), AddedAlong(Step(p, e), es[1..]);
      assert TakenBy(p, e) + rest + Exec(p, es).idle == TakenBy(p, e) + (Step(p, e).idle + more);
      assert TakenBy(p, e) + (Step(p, e).idle + more) == (p.idle + AddedBy(p, e)) + more;
      assert (p.idle + AddedBy(p, e)) + more == p.idle + (AddedBy(p, e) + more);
    }
  }

  // ---------------------------------------------------------------- what the factory makes

  /** The factory's connections are queued in the order they were made, nulls left out, up to the first throw. */
  lemma {:induction false} SupplyIs(a: seq<Made>, b: seq<Made>)
    requires Throws !in a
    ensures Supply(a + b) == Supply(a) + Supply(b)
    ensures Supply([Throws] + b) == []
    ensures forall c: Conn :: Supply([Fresh(c)]) == [c]
    ensures Supply([Null]) == []
    decreases |a|
  {
    assert [Null][1..] == [] && forall c: Conn :: [Fresh(c)][1..] == [];
    if a == [] {
      assert a + b == b;
    } else {
      assert (a + b)[1..] == a[1..] + b;
      SupplyIs(a[1..], b);
    }
  }
}
