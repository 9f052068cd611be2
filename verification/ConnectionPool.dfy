/**
  The connection pool object. Each method is one critical section; the two halves of
  `GetConnection`, before and after its wait, are two methods.
 */
module ConnectionPoolObject {
  import opened Wrappers
  import opened PoolMonitor

  class ConnectionPool {
    var poolSize: nat
    var hasFactory: bool
    var connections: seq<Conn>
    var isClosed: bool
    // the condition variable: who waits, who was notified, who is awake for another reason
    var waiting: set<Thread>
    var notified: set<Thread>
    var awake: set<Thread>
    ghost var created: set<Conn>
    ghost var borrowed: set<Conn>
    ghost var started: bool

    ghost function View(): Pool
      reads this
    {
      Pool(poolSize, connections, isClosed, waiting, notified, awake, created, borrowed, started)
    }

    constructor ()
      ensures View() == INIT && !hasFactory
    {
      poolSize, hasFactory, connections, isClosed := 0, false, [], false;
      waiting, notified, awake := {}, {}, {};
      created, borrowed, started := {}, {}, false;
    }

    /** Fill an empty pool, one factory call after another; a call that throws ends it. */
    method Init(size: nat, results: seq<Made>) returns (threw: bool)
      requires |results| == size
      modifies this
      ensures View() == Step(old(View()), PoolMonitor.Init(size, results))
      ensures threw <==> old(poolSize) == 0 && Throws in results
      ensures old(poolSize) > 0 ==> View() == old(View()) && hasFactory == old(hasFactory)
      ensures old(poolSize) == 0 ==>
        poolSize == size && hasFactory && !isClosed && connections == old(connections) + Supply(results) && waiting == old(waiting)
    {
      threw := false;
      if poolSize > 0 { return; }
      poolSize, hasFactory, isClosed := size, true, false;
      created, started := created + Elements(Supply(results)), true;
      threw := Fill(results);
    }

    /** The fill loop: one factory call for each place, nulls left out, ended by the first that throws. */
    method Fill(results: seq<Made>) returns (threw: bool)
      modifies this`connections
      ensures connections == old(connections) + Supply(results)
      ensures threw <==> Throws in results
    {
      threw := false;
      var i := 0;
      while i < |results| && !threw
        invariant i <= |results|
        invariant threw ==> connections == old(connections) + Supply(results) && Throws in results
        invariant !threw ==>
          old(connections) + Supply(results) == connections + Supply(results[i..]) && Throws !in results[..i]
        decreases |results| - i, !threw
      {
        assert results[i..][1..] == results[i + 1..] && results[..i + 1] == results[..i] + [results[i]];
        match results[i]
        case Fresh(conn) =>
          assert connections + ([conn] + Supply(results[i + 1..])) == (connections + [conn]) + Supply(results[i + 1..]);
          connections := connections + [conn];
          i := i + 1;
        case Null => i := i + 1;
        case Throws => threw := true;
      }
      assert results[..|results|] == results && results[|results|..] == [];
    }

    /**
      The end of `GetConnection`, once its predicate holds. The branch that would make a connection outside the pool
      has no run: the predicate was checked under the same lock.
     */
    method Proceed() returns (conn: Option<Conn>)
      requires CanProceed(View())
      modifies this`connections, this`borrowed
      ensures View() == Take(old(View()))
      ensures conn == if isClosed then None else Some(old(connections)[0])
    {
      if isClosed { return None; }
      assert connections != [];
      conn := Some(connections[0]);
      connections, borrowed := connections[1..], borrowed + {connections[0]};
    }

    /** `GetConnection` up to its wait. */
    method GetConnection(t: Thread) returns (r: Outcome)
      requires Possible(View(), Enter(t))
      modifies this
      ensures View() == Step(old(View()), Enter(t)) && r == Leaves(old(View()), false)
      ensures isClosed == old(isClosed) && (r == Waits <==> !isClosed && old(connections) == [])
      ensures waiting == if r == Waits then old(waiting) + {t} else old(waiting)
      ensures r.Given? ==> !isClosed && old(connections) == [r.conn] + connections
      ensures !r.Given? ==> connections == old(connections)
    {
      if !isClosed && connections == [] {
        waiting := waiting + {t};
        return Waits;
      }
      var conn := Proceed();
      r := if conn.Some? then Given(conn.value) else Nothing;
    }

    /** A caller runs again after a notification, a spurious wakeup or its deadline. */
    method RunAgain(t: Thread, expired: bool) returns (r: Outcome)
      requires Possible(View(), Resume(t, expired))
      modifies this
      ensures View() == Step(old(View()), Resume(t, expired)) && r == Leaves(old(View()), expired)
      ensures isClosed == old(isClosed) && (r == Waits <==> !isClosed && old(connections) == [] && !expired)
      ensures waiting == if r == Waits then old(waiting) + {t} else old(waiting)
      ensures notified == old(notified) - {t} && awake == old(awake) - {t}
      ensures r.Given? ==> !isClosed && old(connections) == [r.conn] + connections
      ensures !r.Given? ==> connections == old(connections)
    {
      notified, awake := notified - {t}, awake - {t};
      if !isClosed && connections == [] {
        if expired { return Nothing; }
        waiting := waiting + {t};
        return Waits;
      }
      var conn := Proceed();
      r := if conn.Some? then Given(conn.value) else Nothing;
    }

    /** Give a connection back: refused when null, when the pool is closed and when it is full; else one waiter is notified. */
    method ReleaseConnection(conn: Option<Conn>, woken: Thread)
      requires waiting != {} ==> woken in waiting
      modifies this
      ensures View() == if conn.None? then old(View()) else Step(old(View()), Release(conn.value, woken))
      ensures var refused := conn.None? || old(isClosed) || |old(connections)| >= old(poolSize);
        && connections == (if refused then old(connections) else old(connections) + [conn.value])
        && notified == (if refused || old(waiting) == {} then old(notified) else old(notified) + {woken})
    {
      if conn.None? || isClosed || |connections| >= poolSize { return; }
      connections, borrowed := connections + [conn.value], borrowed - {conn.value};
      if waiting != {} {
        waiting, notified := waiting - {woken}, notified + {woken};
      }
    }

    /** Drop every idle connection and wake everybody; a later `Init` may start afresh. */
    method Close()
      modifies this
      ensures View() == Step(old(View()), PoolMonitor.Close) && !hasFactory
      ensures isClosed && connections == [] && poolSize == 0 && waiting == {} && notified == old(notified) + old(waiting)
    {
      isClosed := true;
      while connections != []
        modifies this`connections
        decreases |connections|
      {
        connections := connections[1..];
      }
      hasFactory, poolSize := false, 0;
      waiting, notified := {}, notified + waiting;
      created, borrowed := {}, {};
    }

    method GetAvailableCount() returns (n: nat)
      ensures n == |View().idle|
    {
      n := |connections|;
    }

    method GetInUsedCount() returns (n: nat)
      ensures n == InUsed(View())
    {
      n := (poolSize - |connections|) % 0x1_0000_0000_0000_0000;
    }
  }
}
