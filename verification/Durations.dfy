/**
  The duration statistics of the WebSocket server: a count, a total and a maximum kept in three
  atomics that any number of threads update at once. One step is one atomic operation of one call.
 */
module Durations {

  const TWO64 := 0x1_0000_0000_0000_0000

  datatype Stats = Stats(count: nat, total: nat, max: nat)

  const ZERO := Stats(0, 0, 0)

  /** Negative durations are recorded as zero. */
  function Clamp(duration: int): nat { if duration < 0 then 0 else duration }

  function Larger(a: nat, b: nat): nat { if a < b then b else a }

  /** What one call does when nothing else runs. */
  function Recorded(s: Stats, duration: int): Stats {
    Stats((s.count + 1) % TWO64, (s.total + Clamp(duration)) % TWO64, Larger(s.max, Clamp(duration)))
  }

  function RecordAll(durations: seq<int>): Stats {
    if durations == [] then ZERO
    else Recorded(RecordAll(durations[..|durations| - 1]), durations[|durations| - 1])
  }

  // ---------------------------------------------------------------- concurrent calls

  datatype Pc = Started | Counted | Added | Loaded(current: nat) | Finished(raised: bool)

  datatype Call = Call(duration: int, pc: Pc,
    // genuine failures of its compare-and-swap, and the rises of the maximum before its first load
    failures: nat, risesBefore: nat)

  datatype State = State(stats: Stats, calls: seq<Call>, rises: nat)

  const INIT := State(ZERO, [], 0)

  datatype Event = Begin(duration: int) | Advance(i: nat, spurious: bool)

  predicate Enabled(st: State, e: Event) {
    e.Advance? ==> e.i < |st.calls| && !st.calls[e.i].pc.Finished?
  }

  /** One round of the loop: done, raised, or failed and loaded anew. */
  function CompareAndSwap(st: State, i: nat, spurious: bool): State
    requires i < |st.calls| && st.calls[i].pc.Loaded?
  {
    var c := st.calls[i];
    var value, current := Clamp(c.duration), c.pc.current;
    if value <= current then st.(calls := st.calls[i := c.(pc := Finished(false))])
    else if st.stats.max == current && !spurious then
      st.(stats := st.stats.(max := value), calls := st.calls[i := c.(pc := Finished(true))], rises := st.rises + 1)
    else
      st.(calls := st.calls[i := c.(pc := Loaded(st.stats.max),
                                    failures := if st.stats.max != current then c.failures + 1 else c.failures)])
  }

  function Step(st: State, e: Event): State
    requires Enabled(st, e)
  {
    match e
    case Begin(duration) => st.(calls := st.calls + [Call(duration, Started, 0, 0)])
    case Advance(i, spurious) =>
      var c := st.calls[i];
      (match c.pc
       case Started => st.(stats := st.stats.(count := (st.stats.count + 1) % TWO64), calls := st.calls[i := c.(pc := Counted)])
       case Counted =>
         st.(stats := st.stats.(total := (st.stats.total + Clamp(c.duration)) % TWO64), calls := st.calls[i := c.(pc := Added)])
       case Added => st.(calls := st.calls[i := c.(pc := Loaded(st.stats.max), risesBefore := st.rises)])
       case Loaded(_) => CompareAndSwap(st, i, spurious)
       case Finished(_) => st)
  }

  predicate ValidRun(st: State, es: seq<Event>)
    decreases |es|
  {
    es == [] || (Enabled(st, es[0]) && ValidRun(Step(st, es[0]), es[1..]))
  }

  function Exec(st: State, es: seq<Event>): State
    requires ValidRun(st, es)
    decreases |es|
  {
    if es == [] then st else Exec(Step(st, es[0]), es[1..])
  }

  // ---------------------------------------------------------------- tallies over the calls

  datatype Tally = Tally(counted: nat, added: nat, peak: nat, raised: nat)

  /** What one call has contributed so far. */
  function Share(c: Call): Tally {
    Tally(
      if c.pc.Started? then 0 else 1,
      if c.pc.Started? || c.pc.Counted? then 0 else Clamp(c.duration),
      if c.pc.Finished? then Clamp(c.duration) else 0,
      if c.pc == Finished(true) then 1 else 0)
  }

  function Join(a: Tally, b: Tally): Tally {
    Tally(a.counted + b.counted, a.added + b.added, Larger(a.peak, b.peak), a.raised + b.raised)
  }

  function Total(calls: seq<Call>): Tally {
    if calls == [] then Tally(0, 0, 0, 0) else Join(Total(calls[..|calls| - 1]), Share(calls[|calls| - 1]))
  }

  /** One call moves on: the tallies grow by what it adds. */
  lemma {:induction false} TotalUpdate(calls: seq<Call>, i: nat, c: Call)
    requires i < |calls| && Share(calls[i]).peak <= Share(c).peak
    ensures var was, now := Total(calls), Total(calls[i := c]);
      && now.counted + Share(calls[i]).counted == was.counted + Share(c).counted
      && now.added + Share(calls[i]).added == was.added + Share(c).added
      && now.raised + Share(calls[i]).raised == was.raised + Share(c).raised
      && now.peak == Larger(was.peak, Share(c).peak)
    decreases |calls|
  {
    hide Share;
    var n := |calls| - 1;
    if i == n {
      assert calls[i := c][..n] == calls[..n];
    } else {
      assert calls[i := c][..n] == calls[..n][i := c];
      TotalUpdate(calls[..n], i, c);
    }
  }

  lemma {:induction false} PeakCovers(calls: seq<Call>, i: nat)
    requires i < |calls|
    ensures Share(calls[i]).peak <= Total(calls).peak
    decreases |calls|
  {
    hide Share;
    if i < |calls| - 1 { PeakCovers(calls[..|calls| - 1], i); }
  }

  lemma ShareOfOne(c: Call)
    ensures Share(c).raised <= 1
    ensures c.pc.Finished? ==> Share(c) == Tally(1, Clamp(c.duration), Clamp(c.duration), if c.pc.raised then 1 else 0)
  {}

  lemma {:induction false} RaisedBound(calls: seq<Call>)
    ensures Total(calls).raised <= |calls|
    decreases |calls|
  {
    hide Share;
    if calls != [] {
      RaisedBound(calls[..|calls| - 1]);
      ShareOfOne(calls[|calls| - 1]);
    }
  }

  lemma {:induction false} RaisedByOthers(calls: seq<Call>, i: nat)
    requires i < |calls| && Share(calls[i]).raised == 0
    ensures Total(calls).raised < |calls|
    decreases |calls|
  {
    hide Share;
    var n := |calls| - 1;
    if i == n {
      RaisedBound(calls[..n]);
    } else {
      RaisedByOthers(calls[..n], i);
      ShareOfOne(calls[n]);
    }
  }

  // ---------------------------------------------------------------- the invariant

  predicate CallOk(st: State, c: Call) {
    match c.pc
    case Loaded(current) => current <= st.stats.max && c.failures + c.risesBefore + (if current < st.stats.max then 1 else 0) <= st.rises
    case Finished(raised) => c.failures + c.risesBefore + (if raised then 1 else 0) <= st.rises
    case _ => c.failures == 0
  }

  predicate StatsOk(st: State) {
    var t := Total(st.calls);
    st.stats == Stats(t.counted % TWO64, t.added % TWO64, t.peak) && st.rises == t.raised
  }

  predicate Inv(st: State) {
    StatsOk(st) && forall i :: 0 <= i < |st.calls| ==> CallOk(st, st.calls[i])
  }

  lemma TotalAppend(calls: seq<Call>, c: Call)
    ensures Total(calls + [c]) == Join(Total(calls), Share(c))
  {
    hide Share, Join;
    var longer := calls + [c];
    assert longer[..|longer| - 1] == calls && longer[|longer| - 1] == c;
  }

  lemma BeginKeeps(st: State, duration: int)
    requires Inv(st)
    ensures Inv(Step(st, Begin(duration)))
  {
    hide Total;
    TotalAppend(st.calls, Call(duration, Started, 0, 0));
  }

  lemma ModAdd(a: nat, b: nat)
    ensures (a % TWO64 + b) % TWO64 == (a + b) % TWO64
  {}

  lemma StatsKept(st: State, i: nat, spurious: bool)
    requires Inv(st) && Enabled(st, Advance(i, spurious))
    ensures StatsOk(Step(st, Advance(i, spurious)))
  {
    hide Total;
    var st' := Step(st, Advance(i, spurious));
    assert CallOk(st, st.calls[i]);
    TotalUpdate(st.calls, i, st'.calls[i]);
    assert st'.calls == st.calls[i := st'.calls[i]];
    ModAdd(Total(st.calls).counted, 1);
    ModAdd(Total(st.calls).added, Clamp(st.calls[i].duration));
  }

  lemma CallsKept(st: State, i: nat, spurious: bool)
    requires Inv(st) && Enabled(st, Advance(i, spurious))
    ensures var st' := Step(st, Advance(i, spurious)); forall k :: 0 <= k < |st'.calls| ==> CallOk(st', st'.calls[k])
  {
    hide Total, StatsOk;
    var st' := Step(st, Advance(i, spurious));
    assert CallOk(st, st.calls[i]);
    forall k | 0 <= k < |st'.calls| ensures CallOk(st', st'.calls[k]) { assert CallOk(st, st.calls[k]); }
  }

  lemma {:induction false} InvAlong(st: State, es: seq<Event>)
    requires Inv(st) && ValidRun(st, es)
    ensures Inv(Exec(st, es))
    decreases |es|
  {
    hide Step, StatsOk, CallOk;
    if es != [] {
      match es[0] {
        case Begin(duration) => BeginKeeps(st, duration);
        case Advance(i, spurious) => { StatsKept(st, i, spurious); CallsKept(st, i, spurious); }
      }
      InvAlong(Step(st, es[0]), es[1..]);
    }
  }

  // ---------------------------------------------------------------- laws

  function DurationsOf(calls: seq<Call>): (r: seq<int>)
    ensures |r| == |calls|
  {
    seq(|calls|, i requires 0 <= i < |calls| => calls[i].duration)
  }

  predicate Quiet(calls: seq<Call>) { forall i :: 0 <= i < |calls| ==> calls[i].pc.Finished? }

  lemma RecordedOnTally(t: Tally, duration: int)
    ensures Recorded(Stats(t.counted % TWO64, t.added % TWO64, t.peak), duration)
      == Stats((t.counted + 1) % TWO64, (t.added + Clamp(duration)) % TWO64, Larger(t.peak, Clamp(duration)))
  {
    ModAdd(t.counted, 1);
    ModAdd(t.added, Clamp(duration));
  }

  lemma {:induction false} QuietTotal(calls: seq<Call>)
    requires Quiet(calls)
    ensures var t := Total(calls);
      t.counted == |calls| && RecordAll(DurationsOf(calls)) == Stats(t.counted % TWO64, t.added % TWO64, t.peak)
    decreases |calls|
  {
    hide Recorded, Share, Clamp, Larger;
    if calls != [] {
      var n := |calls| - 1;
      QuietTotal(calls[..n]);
      assert DurationsOf(calls)[..n] == DurationsOf(calls[..n]);
      RecordedOnTally(Total(calls[..n]), calls[n].duration);
      ShareOfOne(calls[n]);
    }
  }

  /**
    Linearisable: however the calls interleaved, once all have finished the three numbers are those of the same calls
    made one after another.
   */
  lemma QuietStateIsSequential(es: seq<Event>)
    requires ValidRun(INIT, es) && Quiet(Exec(INIT, es).calls)
    ensures var st := Exec(INIT, es);
      var durations := DurationsOf(st.calls);
      && st.stats == RecordAll(durations)
      && st.stats.count == |st.calls| % 0x1_0000_0000_0000_0000
      && st.stats.total == SumOf(durations) % 0x1_0000_0000_0000_0000
      && (forall d :: d in durations ==> d <= st.stats.max) && (st.stats.max == 0 || st.stats.max in durations)
  {
    InvAlong(INIT, es);
    QuietTotal(Exec(INIT, es).calls);
    RecordAllIs(DurationsOf(Exec(INIT, es).calls));
  }

  /** The sum of the durations, negative ones taken as zero. */
  function SumOf(durations: seq<int>): nat {
    if durations == [] then 0
    else
      var last := durations[|durations| - 1];
      SumOf(durations[..|durations| - 1]) + (if last < 0 then 0 else last)
  }

  lemma {:induction false} RecordAllIs(durations: seq<int>)
    ensures var s := RecordAll(durations);
      && s.count == |durations| % TWO64 && s.total == SumOf(durations) % TWO64
      && (forall d :: d in durations ==> d <= s.max) && (s.max == 0 || s.max in durations)
    decreases |durations|
  {
    if durations != [] {
      var n := |durations| - 1;
      RecordAllIs(durations[..n]);
      ModAdd(n, 1);
      ModAdd(SumOf(durations[..n]), Clamp(durations[n]));
      assert durations == durations[..n] + [durations[n]];
    }
  }

  /** Undisturbed, a call is done after four steps. */
  lemma UndisturbedFinishes(st: State, i: nat)
    requires i < |st.calls| && st.calls[i].pc == Started
    ensures var e := Advance(i, false);
      && Enabled(st, e) && Enabled(Step(st, e), e) && Enabled(Step(Step(st, e), e), e)
      && Enabled(Step(Step(Step(st, e), e), e), e)
      && var done := Step(Step(Step(Step(st, e), e), e), e);
         && |done.calls| == |st.calls| && done.calls[i].pc.Finished?
         && done.stats == Recorded(st.stats, st.calls[i].duration)
  {
    var e := Advance(i, false);
    var a := Step(st, e);
    assert a.calls[i].pc == Counted;
    var b := Step(a, e);
    assert b.calls[i].pc == Added;
    var c := Step(b, e);
    assert c.calls[i].pc == Loaded(c.stats.max);
  }

  /** At any moment the maximum covers every finished call, and no recorded value is overstated. */
  lemma MaximumCoversFinished(es: seq<Event>, i: nat)
    requires ValidRun(INIT, es) && i < |Exec(INIT, es).calls| && Exec(INIT, es).calls[i].pc.Finished?
    ensures Clamp(Exec(INIT, es).calls[i].duration) <= Exec(INIT, es).stats.max
  {
    InvAlong(INIT, es);
    PeakCovers(Exec(INIT, es).calls, i);
  }

  /** A compare-and-swap fails genuinely only because the maximum rose since the call last looked. */
  lemma FailureMeansRise(es: seq<Event>, i: nat)
    requires ValidRun(INIT, es) && i < |Exec(INIT, es).calls| && Exec(INIT, es).calls[i].pc.Loaded?
    ensures var st := Exec(INIT, es); st.stats.max != st.calls[i].pc.current <==> st.stats.max > st.calls[i].pc.current
  {
    InvAlong(INIT, es);
    assert CallOk(Exec(INIT, es), Exec(INIT, es).calls[i]);
  }

  /**
    So a call, finished or not, has failed genuinely at most as often as other calls raised the maximum since it first
    looked, and that is less often than there are calls.
   */
  lemma RetriesAreBounded(es: seq<Event>, i: nat)
    requires ValidRun(INIT, es) && i < |Exec(INIT, es).calls|
    ensures var st := Exec(INIT, es);
      var c := st.calls[i];
      var own := if c.pc == Finished(true) then 1 else 0;
      && (c.pc.Loaded? || c.pc.Finished? ==> c.failures <= st.rises - c.risesBefore - own)
      && st.rises - own < |st.calls|
      && c.failures < |st.calls|
  {
    hide *;
    InitInv();
    InvAlong(INIT, es);
    FailuresBound(Exec(INIT, es), i);
  }

  lemma InitInv()
    ensures Inv(INIT)
  {}

  lemma FailuresBound(st: State, i: nat)
    requires Inv(st) && i < |st.calls|
    ensures var c := st.calls[i];
      var own := if c.pc == Finished(true) then 1 else 0;
      && (c.pc.Loaded? || c.pc.Finished? ==> c.failures <= st.rises - c.risesBefore - own)
      && st.rises - own < |st.calls|
      && c.failures < |st.calls|
  {
    hide Total;
    assert CallOk(st, st.calls[i]);
    if st.calls[i].pc == Finished(true) {
      RaisedBound(st.calls);
    } else {
      RaisedByOthers(st.calls, i);
    }
  }

  // ---------------------------------------------------------------- the loop itself

  class DurationStats {
    var count: nat
    var totalMs: nat
    var maxMs: nat

    function View(): Stats
      reads this
    {
      Stats(count, totalMs, maxMs)
    }

    constructor ()
      ensures View() == ZERO
    {
      count, totalMs, maxMs := 0, 0, 0;
    }

    /** `record_duration` on one thread: only spurious failures send it round its loop again. */
    method RecordDuration(duration: int)
      modifies this
      ensures View() == Recorded(old(View()), duration)
      ensures count == (old(count) + 1) % 0x1_0000_0000_0000_0000
      ensures totalMs == (old(totalMs) + (if duration < 0 then 0 else duration)) % 0x1_0000_0000_0000_0000
      ensures maxMs == if duration > old(maxMs) then duration else old(maxMs)
    {
      var value := if duration < 0 then 0 else duration;
      count := (count + 1) % TWO64;
      totalMs := (totalMs + value) % TWO64;
      var spurious: nat := *;
      var currentMax, swapped := maxMs, false;
      while value > currentMax && !swapped
        invariant count == Recorded(old(View()), duration).count && totalMs == Recorded(old(View()), duration).total
        invariant if swapped then maxMs == value > old(maxMs) else currentMax == maxMs == old(maxMs)
        decreases !swapped, spurious
      {
        if spurious > 0 {
          spurious, currentMax := spurious - 1, maxMs;
        } else {
          maxMs, swapped := value, true;
        }
      }
    }
  }
}
