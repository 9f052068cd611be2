/**
  The handshake counter under contention: any number of threads start handshakes and finish them,
  one atomic operation at a time. A session finishes only after it started, and only once, because
  it exchanges its own flag first.
 */
module HandshakeCounter {

  const TWO64 := 0x1_0000_0000_0000_0000

  /** One call of `record_handshake_finished`. */
  datatype Call = Entered | Loaded(current: nat) | Returned(decremented: bool)

  /** `tracked` sessions have their flag set. */
  datatype State = State(active: nat, tracked: nat, calls: seq<Call>)

  const INIT := State(0, 0, [])

  datatype Event = Start | Finish | Advance(i: nat, spurious: bool)

  predicate Enabled(st: State, e: Event) {
    match e
    case Start => st.tracked + |st.calls| + 1 < TWO64
    case Finish => st.tracked > 0
    case Advance(i, _) => i < |st.calls| && !st.calls[i].Returned?
  }

  function Step(st: State, e: Event): State
    requires Enabled(st, e)
  {
    match e
    case Start => st.(active := (st.active + 1) % TWO64, tracked := st.tracked + 1)
    case Finish => st.(tracked := st.tracked - 1, calls := st.calls + [Entered])
    case Advance(i, spurious) =>
      match st.calls[i]
      case Entered => st.(calls := st.calls[i := Loaded(st.active)])
      case Loaded(current) =>
        if current == 0 then st.(calls := st.calls[i := Returned(false)])
        else if st.active == current && !spurious then st.(active := current - 1, calls := st.calls[i := Returned(true)])
        else st.(calls := st.calls[i := Loaded(st.active)])
      case Returned(_) => st
  }

  predicate ValidRun(st: State, es: seq<Event>)
    decreases |es|
  {
    es == [] || (Enabled(st, es[0]) && ValidRun(Step(st, es[0]), es[1..]))
  }

  function Exec(st: State, es: seq<Event>): State
    requires ValidRun(st, es)
    decreases |es|
  {
    if es == [] then st else Exec(Step(st, es[0]), es[1..])
  }

  function One(b: bool): nat { if b then 1 else 0 }

  /** The calls still on their way. */
  function Pending(calls: seq<Call>): nat {
    if calls == [] then 0 else Pending(calls[..|calls| - 1]) + One(!calls[|calls| - 1].Returned?)
  }

  lemma {:induction false} PendingUpdate(calls: seq<Call>, i: nat, c: Call)
    requires i < |calls|
    ensures Pending(calls[i := c]) + One(!calls[i].Returned?) == Pending(calls) + One(!c.Returned?)
    ensures One(!calls[i].Returned?) <= Pending(calls) <= |calls|
    decreases |calls|
  {
    var n := |calls| - 1;
    if i == n {
      assert calls[i := c][..n] == calls[..n];
      if n > 0 { PendingUpdate(calls[..n], 0, c); }
    } else {
      assert calls[i := c][..n] == calls[..n][i := c];
      PendingUpdate(calls[..n], i, c);
    }
  }

  lemma PendingAppend(calls: seq<Call>, c: Call)
    ensures Pending(calls + [c]) == Pending(calls) + One(!c.Returned?)
  {
    assert (calls + [c])[..|calls|] == calls;
  }

  predicate CallOk(c: Call) { c != Returned(false) && c != Loaded(0) }

  predicate Inv(st: State) {
    && st.active == st.tracked + Pending(st.calls) && Pending(st.calls) <= |st.calls|
    && forall i :: 0 <= i < |st.calls| ==> CallOk(st.calls[i])
  }

  lemma StepKeepsInv(st: State, e: Event)
    requires Inv(st) && Enabled(st, e)
    ensures Inv(Step(st, e))
  {
    hide Pending;
    match e
    case Start =>
    case Finish => PendingAppend(st.calls, Entered);
    case Advance(i, spurious) =>
      assert CallOk(st.calls[i]);
      var st' := Step(st, e);
      PendingUpdate(st.calls, i, st'.calls[i]);
      assert st'.calls == st.calls[i := st'.calls[i]];
  }

  lemma {:induction false} InvAlong(st: State, es: seq<Event>)
    requires Inv(st) && ValidRun(st, es)
    ensures Inv(Exec(st, es))
    decreases |es|
  {
    hide Step, Inv;
    if es != [] {
      StepKeepsInv(st, es[0]);
      InvAlong(Step(st, es[0]), es[1..]);
    }
  }

  /**
    However the threads interleave: the counter is the number of tracked sessions and of calls on their way, and every
    call that returned decremented it once. The guard against zero never stopped one.
   */
  lemma EveryFinishDecrements(es: seq<Event>)
    requires ValidRun(INIT, es)
    ensures var st := Exec(INIT, es);
      && st.active == st.tracked + Pending(st.calls)
      && (forall i :: 0 <= i < |st.calls| && st.calls[i].Returned? ==> st.calls[i].decremented)
      && |st.calls| == CountOf(es, Finish) && st.tracked + |st.calls| == CountOf(es, Start)
  {
    hide *;
    FromStart(es);
    InitInv();
    InvAlong(INIT, es);
    InvSays(Exec(INIT, es));
  }

  lemma InitInv()
    ensures Inv(INIT)
  {}

  lemma InvSays(st: State)
    requires Inv(st)
    ensures st.active == st.tracked + Pending(st.calls)
    ensures forall i :: 0 <= i < |st.calls| && st.calls[i].Returned? ==> st.calls[i].decremented
  {
    hide Pending;
    forall i | 0 <= i < |st.calls| && st.calls[i].Returned? ensures st.calls[i].decremented {
      assert CallOk(st.calls[i]);
    }
  }

  function CountOf(es: seq<Event>, e: Event): nat {
    if es == [] then 0 else One(es[0] == e) + CountOf(es[1..], e)
  }

  lemma FromStart(es: seq<Event>)
    requires ValidRun(INIT, es)
    ensures var st := Exec(INIT, es);
      |st.calls| == CountOf(es, Finish) && st.tracked + |st.calls| == CountOf(es, Start)
  {
    hide Step, CountOf, Pending;
    EventsAccount(INIT, es);
  }

  lemma {:induction false} EventsAccount(st: State, es: seq<Event>)
    requires ValidRun(st, es)
    ensures |Exec(st, es).calls| == |st.calls| + CountOf(es, Finish)
    ensures Exec(st, es).tracked + |Exec(st, es).calls| == st.tracked + |st.calls| + CountOf(es, Start)
    decreases |es|
  {
    if es != [] { EventsAccount(Step(st, es[0]), es[1..]); }
  }

  /** Undisturbed, a call returns after two steps, one lower. */
  lemma UndisturbedReturns(st: State, i: nat)
    requires i < |st.calls| && st.calls[i] == Entered && st.active > 0
    ensures var e := Advance(i, false);
      && Enabled(st, e) && Enabled(Step(st, e), e)
      && Step(Step(st, e), e) == st.(active := st.active - 1, calls := st.calls[i := Returned(true)])
  {
    var a := Step(st, Advance(i, false));
    assert a.calls[i] == Loaded(st.active);
    assert st.calls[i := Loaded(st.active)][i := Returned(true)] == st.calls[i := Returned(true)];
  }
}
