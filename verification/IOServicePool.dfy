/** The round-robin pool of I/O contexts, and how evenly its 64-bit counter spreads the calls. */
module RoundRobin {

  const TWO64 := 0x1_0000_0000_0000_0000

  /** The service that the counter value picks, the counter being kept in 64 bits. */
  function Pick(counter: nat, n: nat): (k: nat)
    requires n > 0
    ensures k < n
  {
    counter % TWO64 % n
  }

  /** How many of the `m` calls from counter value `c` on are given service `k`. */
  function Share(c: nat, m: nat, n: nat, k: nat): nat
    requires n > 0
  {
    if m == 0 then 0 else Share(c, m - 1, n, k) + (if Pick(c + m - 1, n) == k then 1 else 0)
  }

  predicate Even(share: nat, m: nat, n: nat)
    requires n > 0
  {
    m / n <= share <= m / n + (if m % n == 0 then 0 else 1)
  }

  // ---------------------------------------------------------------- division by a fixed divisor

  lemma DivIs(a: nat, n: nat, q: nat, r: nat)
    requires n > 0 && a == n * q + r && r < n
    ensures a / n == q && a % n == r
  {
    Whole(a, n);
    Compare(n, a / n, a % n, q);
    Compare(n, q, r, a / n);
  }

  lemma Whole(a: nat, n: nat)
    requires n > 0
    ensures a == n * (a / n) + a % n
  {}

  lemma Compare(n: nat, q: nat, r: nat, s: nat)
    requires r < n
    ensures q < s ==> n * q + r < n * s
  {
    if q < s {
      Distribute(n, q, s - q);
      Distribute(n, 1, s - q - 1);
    }
  }

  lemma Distribute(n: nat, q: nat, s: nat)
    ensures n * (q + s) == n * q + n * s
  {}

  lemma SumOfMultiples(n: nat, q: nat, r: nat, s: nat, t: nat)
    requires r < n && t < n
    ensures (n * q + r + (n * s + t)) / n == q + s + (if r + t >= n then 1 else 0)
  {
    Distribute(n, q, s);
    Distribute(n, q + s, 1);
    if r + t >= n {
      DivIs(n * q + r + (n * s + t), n, q + s + 1, r + t - n);
    } else {
      DivIs(n * q + r + (n * s + t), n, q + s, r + t);
    }
  }

  lemma DivAdd(a: nat, m: nat, n: nat)
    requires n > 0
    ensures (a + m) / n == a / n + m / n + (if a % n + m % n >= n then 1 else 0)
  {
    var q, r, s, t := a / n, a % n, m / n, m % n;
    Whole(a, n);
    Whole(m, n);
    SumOfMultiples(n, q, r, s, t);
    assert n * q + r + (n * s + t) == a + m;
  }

  /** One more than a shifted counter is a multiple exactly when the counter picks `k`. */
  lemma ShiftedMultiple(c: nat, n: nat, k: nat)
    requires k < n
    ensures (c + n - 1 - k) % n == n - 1 <==> c % n == k
  {
    var q, r := c / n, c % n;
    Distribute(n, q, 1);
    if r > k {
      DivIs(c + n - 1 - k, n, q + 1, r - 1 - k);
    } else {
      DivIs(c + n - 1 - k, n, q, r + n - 1 - k);
    }
  }

  // ---------------------------------------------------------------- fairness

  /** The counter never wraps in the window, or wraps without a jump because the pool size divides 2^64. */
  predicate Smooth(c: nat, m: nat, n: nat)
    requires n > 0
  {
    c + m <= TWO64 || TWO64 % n == 0
  }

  lemma PickIsMod(c: nat, n: nat)
    requires n > 0 && (c < TWO64 || TWO64 % n == 0)
    ensures Pick(c, n) == c % n
  {
    if c >= TWO64 {
      var q, d := c / TWO64, TWO64 / n;
      var low := c % TWO64;
      assert c == TWO64 * q + low && TWO64 == n * d;
      assert low == n * (low / n) + low % n;
      assert n * (d * q + low / n) == n * (d * q) + n * (low / n) == (n * d) * q + n * (low / n);
      DivIs(c, n, d * q + low / n, low % n);
    }
  }

  lemma {:induction false} ShareIs(c: nat, m: nat, n: nat, k: nat)
    requires k < n && Smooth(c, m, n)
    ensures Share(c, m, n, k) == (c + m + n - 1 - k) / n - (c + n - 1 - k) / n
    decreases m
  {
    if m > 0 {
      ShareIs(c, m - 1, n, k);
      var a := c + m - 1 + n - 1 - k;
      PickIsMod(c + m - 1, n);
      ShiftedMultiple(c + m - 1, n, k);
      if n > 1 {
        DivIs(1, n, 0, 1);
      } else {
        DivIs(1, 1, 1, 0);
      }
      DivAdd(a, 1, n);
      assert a % n < n;
    }
  }

  /** Any `m` calls in a row give each of the `n` services m/n of them, rounded down or up. */
  lemma WindowIsEven(c: nat, m: nat, n: nat, k: nat)
    requires k < n && Smooth(c, m, n)
    ensures Even(Share(c, m, n, k), m, n)
  {
    ShareIs(c, m, n, k);
    DivAdd(c + n - 1 - k, m, n);
  }

  // ---------------------------------------------------------------- across the wrap of the counter

  lemma {:induction false} ShareCounts(c: nat, m: nat, n: nat, i: nat, j: nat)
    requires n > 0 && i < j < m && Pick(c + i, n) == Pick(c + j, n)
    ensures Share(c, m, n, Pick(c + j, n)) >= 2
    decreases m
  {
    if j < m - 1 {
      ShareCounts(c, m - 1, n, i, j);
    } else {
      ShareCountsOne(c, m - 1, n, i);
    }
  }

  lemma {:induction false} ShareCountsOne(c: nat, m: nat, n: nat, i: nat)
    requires n > 0 && i < m
    ensures Share(c, m, n, Pick(c + i, n)) >= 1
    decreases m
  {
    if i < m - 1 { ShareCountsOne(c, m - 1, n, i); }
  }

  /** When the pool size does not divide 2^64, the window around the wrap gives one service two of `n` calls. */
  lemma WrapIsUneven(n: nat)
    requires 0 < n < TWO64 && TWO64 % n != 0
    ensures var k := Pick(TWO64 - 1, n); Share(TWO64 - 1, n, n, k) >= 2 && !Even(Share(TWO64 - 1, n, n, k), n, n)
  {
    var q, r := TWO64 / n, TWO64 % n;
    assert TWO64 == n * q + r;
    DivIs(TWO64 - 1, n, q, r - 1);
    assert Pick(TWO64 - 1 + 0, n) == r - 1;
    assert (TWO64 - 1 + r) % TWO64 == r - 1;
    DivIs(r - 1, n, 0, r - 1);
    assert Pick(TWO64 - 1 + r, n) == r - 1;
    ShareCounts(TWO64 - 1, n, n, 0, r);
    DivIs(n, n, 1, 0);
  }

  /** Every window is even, wherever the counter starts, exactly when the pool size divides 2^64. */
  lemma EvenForeverIff(n: nat)
    requires 0 < n < TWO64
    ensures (forall c: nat, m: nat, k: nat :: k < n ==> Even(Share(c, m, n, k), m, n)) <==> TWO64 % n == 0
  {
    if TWO64 % n == 0 {
      forall c: nat, m: nat, k: nat | k < n ensures Even(Share(c, m, n, k), m, n) { WindowIsEven(c, m, n, k); }
    } else {
      WrapIsUneven(n);
    }
  }
}

/**
  `GetIOService` and `Stop` on different threads, one access to the shared fields at a time. The
  size is loaded twice, for the test and for the remainder, and the service is looked up after that.
 */
module StopRace {
  import opened RoundRobin

  type Caller = nat

  /** Where a call stands: past the test, or holding an index. */
  datatype Pc = Checked | Drawn(index: nat)

  /** `undefined`: a remainder by zero, or a look-up outside the container. */
  datatype Shared = Shared(size: nat, listed: nat, next: nat, callers: map<Caller, Pc>, undefined: bool)

  datatype Event = Check(c: Caller) | Draw(c: Caller) | LookUp(c: Caller) | StopBegins | StopClears

  function Start(n: nat): Shared { Shared(n, n, 0, map[], false) }

  predicate Enabled(st: Shared, e: Event) {
    match e
    case Check(c) => c !in st.callers
    case Draw(c) => c in st.callers && st.callers[c].Checked?
    case LookUp(c) => c in st.callers && st.callers[c].Drawn?
    case StopBegins => true
    case StopClears => st.size == 0
  }

  function Step(st: Shared, e: Event): Shared
    requires Enabled(st, e)
  {
    match e
    case Check(c) => if st.size == 0 then st else st.(callers := st.callers[c := Checked])
    case Draw(c) =>
      if st.size == 0 then st.(callers := st.callers - {c}, next := (st.next + 1) % TWO64, undefined := true)
      else st.(callers := st.callers[c := Drawn(Pick(st.next, st.size))], next := (st.next + 1) % TWO64)
    case LookUp(c) =>
      st.(callers := st.callers - {c}, undefined := st.undefined || st.callers[c].index >= st.listed)
    case StopBegins => st.(size := 0)
    case StopClears => st.(listed := 0)
  }

  predicate ValidRun(st: Shared, es: seq<Event>)
    decreases |es|
  {
    es == [] || (Enabled(st, es[0]) && ValidRun(Step(st, es[0]), es[1..]))
  }

  function Exec(st: Shared, es: seq<Event>): Shared
    requires ValidRun(st, es)
    decreases |es|
  {
    if es == [] then st else Exec(Step(st, es[0]), es[1..])
  }

  /** How far `Stop` has come is read off the two sizes; an index in hand is in range of the full container. */
  predicate Inv(st: Shared, n: nat) {
    && (st.size == n || st.size == 0) && (st.listed == n || (st.listed == 0 && st.size == 0))
    && (forall c :: c in st.callers && st.callers[c].Drawn? ==> st.callers[c].index < n)
  }

  lemma {:induction false} InvAlong(st: Shared, es: seq<Event>, n: nat)
    requires n > 0 && Inv(st, n) && ValidRun(st, es)
    ensures Inv(Exec(st, es), n)
    ensures StopBegins !in es ==> Exec(st, es).size == st.size
    ensures StopBegins !in es && st.size > 0 && !st.undefined ==> !Exec(st, es).undefined
    ensures StopClears !in es ==> Exec(st, es).listed == st.listed
    decreases |es|
  {
    if es != [] {
      assert es[0] in es && forall e :: e in es[1..] ==> e in es;
      InvAlong(Step(st, es[0]), es[1..], n);
    }
  }

  /**
    In every run, the second load of a call that passed the test divides by zero exactly when `Stop` has begun, and
    the look-up of a call that holds an index fails exactly when `Stop` has cleared the container.
   */
  lemma CallFailsIff(n: nat, es: seq<Event>, c: Caller)
    requires n > 0 && ValidRun(Start(n), es) && !Exec(Start(n), es).undefined
    ensures var st := Exec(Start(n), es);
      && (Enabled(st, Draw(c)) ==> (Step(st, Draw(c)).undefined <==> StopBegins in es))
      && (Enabled(st, LookUp(c)) ==> (Step(st, LookUp(c)).undefined <==> StopClears in es))
      && (Enabled(st, Check(c)) ==> (c in Step(st, Check(c)).callers <==> StopBegins !in es))
  {
    InvAlong(Start(n), es, n);
    StopLeavesZero(Start(n), es);
  }

  function Draws(es: seq<Event>): nat {
    if es == [] then 0 else (if es[0].Draw? then 1 else 0) + Draws(es[1..])
  }

  lemma {:induction false} DrawsAreCounted(st: Shared, es: seq<Event>)
    requires st.next < TWO64 && ValidRun(st, es)
    ensures Exec(st, es).next == (st.next + Draws(es)) % TWO64
    decreases |es|
  {
    if es != [] {
      DrawsAreCounted(Step(st, es[0]), es[1..]);
      assert Step(st, es[0]).next == if es[0].Draw? then (st.next + 1) % TWO64 else st.next;
      Wrap(st.next + 1, Draws(es[1..]));
      hide Step, Draws;
    }
  }

  lemma Wrap(a: nat, b: nat)
    ensures (a % TWO64 + b) % TWO64 == (a + b) % TWO64
  {}

  /** Whatever the threads, the calls draw the indices in turn: each the number of draws before it, modulo the size. */
  lemma DrawnInTurn(n: nat, es: seq<Event>, c: Caller)
    requires n > 0 && ValidRun(Start(n), es) && StopBegins !in es && Enabled(Exec(Start(n), es), Draw(c))
    ensures var st := Step(Exec(Start(n), es), Draw(c));
      c in st.callers && st.callers[c] == Drawn(Draws(es) % 0x1_0000_0000_0000_0000 % n)
  {
    hide Exec, ValidRun, Step, Draws, Pick, Inv;
    StartIs(n);
    InvAlong(Start(n), es, n);
    DrawsAreCounted(Start(n), es);
    var count := Draws(es);
    assert Exec(Start(n), es).next == count % TWO64;
    DrawStep(Exec(Start(n), es), c);
  }

  lemma StartIs(n: nat)
    requires n > 0
    ensures Inv(Start(n), n) && Start(n).next == 0 && Start(n).size == n
  {}

  lemma DrawStep(st: Shared, c: Caller)
    requires Enabled(st, Draw(c)) && st.size > 0 && st.next < TWO64
    ensures c in Step(st, Draw(c)).callers && Step(st, Draw(c)).callers[c] == Drawn(st.next % st.size)
  {}

  lemma {:induction false} StopLeavesZero(st: Shared, es: seq<Event>)
    requires ValidRun(st, es)
    ensures st.size == 0 || StopBegins in es ==> Exec(st, es).size == 0
    ensures st.listed == 0 || StopClears in es ==> Exec(st, es).listed == 0
    decreases |es|
  {
    if es != [] {
      assert es == [es[0]] + es[1..];
      StopLeavesZero(Step(st, es[0]), es[1..]);
    }
  }

  lemma ExecNext(st: Shared, e: Event, es: seq<Event>)
    requires Enabled(st, e)
    ensures ValidRun(st, [e] + es) == ValidRun(Step(st, e), es)
    ensures ValidRun(st, [e] + es) ==> Exec(st, [e] + es) == Exec(Step(st, e), es)
  {
    hide Step;
    assert ([e] + es)[1..] == es;
  }

  lemma EmptyRun(st: Shared)
    ensures ValidRun(st, []) && Exec(st, []) == st
  {}

  /** `Stop` begins between the two loads of a call: the second load is a remainder by zero. */
  lemma StopBetweenTheLoads(n: nat)
    requires n > 0
    ensures var es := [Check(0), StopBegins];
      && ValidRun(Start(n), es) && !Exec(Start(n), es).undefined
      && Enabled(Exec(Start(n), es), Draw(0)) && Step(Exec(Start(n), es), Draw(0)).undefined
  {
    hide ValidRun, Exec;
    var s1 := Step(Start(n), Check(0));
    var s2 := Step(s1, StopBegins);
    assert [Check(0), StopBegins] == [Check(0)] + [StopBegins] && [StopBegins] == [StopBegins] + [];
    ExecNext(Start(n), Check(0), [StopBegins]);
    ExecNext(s1, StopBegins, []);
    EmptyRun(s2);
  }

  /** `Stop` clears the container while a call holds an index: the look-up is out of range. */
  lemma StopBeforeTheLookUp(n: nat)
    requires n > 0
    ensures var es := [Check(0), Draw(0), StopBegins, StopClears];
      && ValidRun(Start(n), es) && !Exec(Start(n), es).undefined
      && Enabled(Exec(Start(n), es), LookUp(0)) && Step(Exec(Start(n), es), LookUp(0)).undefined
  {
    hide ValidRun, Exec;
    var s1 := Step(Start(n), Check(0));
    var s2 := Step(s1, Draw(0));
    var s3 := Step(s2, StopBegins);
    var s4 := Step(s3, StopClears);
    var e4 := [StopClears];
    var e3 := [StopBegins] + e4;
    var e2 := [Draw(0)] + e3;
    assert [Check(0), Draw(0), StopBegins, StopClears] == [Check(0)] + e2 && e4 == e4 + [];
    ExecNext(Start(n), Check(0), e2);
    ExecNext(s1, Draw(0), e3);
    ExecNext(s2, StopBegins, e4);
    ExecNext(s3, StopClears, []);
    EmptyRun(s4);
  }

  /** Without a `Stop` nothing of the kind ever happens. */
  lemma DefinedWithoutStop(n: nat, es: seq<Event>)
    requires n > 0 && ValidRun(Start(n), es) && StopBegins !in es
    ensures !Exec(Start(n), es).undefined
  {
    InvAlong(Start(n), es, n);
  }
}

module IOServicePoolObject {
  import opened Wrappers
  import opened RoundRobin

  /** An `io_context`, kept running by its work guard until it is stopped. */
  class IOService {
    var stopped: bool
    constructor ()
      ensures !stopped
    {
      stopped := false;
    }
  }

  class IOServicePool {
    var ioServices: seq<IOService>
    // the services whose work guard is held, and those a thread runs
    var works: seq<IOService>
    var threads: seq<IOService>
    var nextIOService: nat
    var poolSize: nat

    ghost predicate Valid()
      reads this
    {
      && poolSize == |ioServices|
      && works == ioServices && threads == ioServices
      && forall i, j :: 0 <= i < j < |ioServices| ==> ioServices[i] != ioServices[j]
    }

    /** A size of zero means one service per hardware thread, and at least one. */
    constructor (size: nat, hardwareConcurrency: nat)
      ensures Valid() && nextIOService == 0
      ensures poolSize == if size > 0 then size else if hardwareConcurrency > 0 then hardwareConcurrency else 1
      ensures forall service :: service in ioServices ==> fresh(service) && !service.stopped
    {
      nextIOService, poolSize := 0, size;
      ioServices, works, threads := [], [], [];
      new;
      if poolSize == 0 {
        poolSize := hardwareConcurrency;
        if poolSize == 0 { poolSize := 1; }
      }
      var i := 0;
      while i < poolSize
        invariant nextIOService == 0
        invariant poolSize == if size > 0 then size else if hardwareConcurrency > 0 then hardwareConcurrency else 1
        invariant i == |ioServices| <= poolSize && works == ioServices && threads == ioServices
        invariant forall service :: service in ioServices ==> fresh(service) && !service.stopped
        invariant forall j, k :: 0 <= j < k < |ioServices| ==> ioServices[j] != ioServices[k]
        modifies this
      {
        var service := new IOService();
        ioServices := ioServices + [service];
        works := works + [ioServices[i]];
        threads := threads + [ioServices[i]];
        i := i + 1;
      }
    }

    /** `GetIOService`, with no `Stop` in between its steps: the next service in turn; a stopped pool throws. */
    method GetIOService() returns (service: Option<IOService>)
      requires Valid()
      modifies this`nextIOService
      ensures Valid()
      ensures poolSize == 0 ==> service == None && nextIOService == old(nextIOService)
      ensures poolSize > 0 ==>
        && service == Some(ioServices[Pick(old(nextIOService), poolSize)])
        && (old(nextIOService) < 0x1_0000_0000_0000_0000 ==> service == Some(ioServices[old(nextIOService) % poolSize]))
        && nextIOService == (old(nextIOService) + 1) % 0x1_0000_0000_0000_0000
    {
      if poolSize == 0 { return None; }
      var index := nextIOService % TWO64 % poolSize;
      nextIOService := (nextIOService + 1) % TWO64;
      service := Some(ioServices[index]);
    }

    /** `Stop`: release the guards, stop every service, join its thread; a second call does nothing. */
    method Stop()
      requires Valid()
      modifies this, ioServices
      ensures Valid() && poolSize == 0 && ioServices == []
      ensures forall service :: service in old(ioServices) ==> service.stopped
    {
      var current := poolSize;
      poolSize := 0;
      if current == 0 { return; }
      works := [];
      for i := 0 to |ioServices|
        invariant ioServices == old(ioServices) && works == [] && threads == ioServices && poolSize == 0
        invariant forall k :: 0 <= k < i ==> ioServices[k].stopped
      {
        ioServices[i].stopped := true;
      }
      threads, ioServices := [], [];
    }
  }
}
