/**
 * The bookkeeping of a bounded pool of database connections: a FIFO queue
 * of idle connections, a counter of connections the pool has provisioned,
 * and a fixed capacity.  Acquiring polls the queue head, silently discards
 * stale heads (decrementing the counter), and when the queue runs dry either
 * refuses (at capacity) or creates and connects a new connection.  Returning
 * a connection appends it to the queue without checking it.  A periodic
 * sweep drops idle connections that fail a ping, but leaves the counter as
 * it was.
 *
 * The collaborators are oracles: `isFresh` and `ping` are liveness probes,
 * `created` is the connection the configuration would build next, and
 * `connectOk` is the outcome of connecting it.
 */
module ThreadedSql {
  import opened IdleQueue

  /** A pooled connection, compared by identity. */
  datatype Conn = Conn(id: nat)

  /**
   * The outcome of asking the pool for its next free connection: a
   * connection, the null the pool returns at capacity, or the failure
   * raised when a new connection cannot connect.
   */
  datatype Acquired = Handed(conn: Conn) | Exhausted | ConnectFailure

  /** The pool's state as a value: idle queue (head first), counter, capacity. */
  datatype PoolState = PoolState(idle: seq<Conn>, current: int, max: int)

  /** Capacity of a pool built without an explicit limit. */
  const DEFAULT_MAX_CONNECTIONS: int := 10

  /** The invariant the pool can keep: the counter never exceeds the capacity. */
  predicate Bounded(s: PoolState)
  {
    s.current <= s.max
  }

  /** Every connection of `q` fails the freshness check. */
  predicate AllStale(q: seq<Conn>, isFresh: Conn -> bool)
  {
    forall i :: 0 <= i < |q| ==> !isFresh(q[i])
  }

  /** The number of stale connections at the head of `q`, before the first fresh one. */
  function StalePrefix(q: seq<Conn>, isFresh: Conn -> bool): (k: nat)
    ensures k <= |q|
    ensures forall i :: 0 <= i < k ==> !isFresh(q[i])
    ensures k < |q| ==> isFresh(q[k])
  {
    if q == [] || isFresh(q[0]) then 0 else 1 + StalePrefix(q[1..], isFresh)
  }

  /**
   * What one call of nextFree does to the pool, in closed form: the stale
   * head run is discarded and uncounted; then the first fresh connection is
   * handed out, or, with the queue empty, the pool refuses at capacity,
   * fails when the new connection does not connect, or counts and hands out
   * the new connection.
   */
  function Acquire(s: PoolState, isFresh: Conn -> bool, created: Conn, connectOk: bool): (r: (PoolState, Acquired))
    ensures r.0.max == s.max
    // only the head of the queue is consumed: what stays idle is a suffix, in order
    ensures |r.0.idle| <= |s.idle| && r.0.idle == s.idle[|s.idle| - |r.0.idle|..]
    // counter minus idle is the number checked out; it grows by one exactly on a hand-out
    ensures r.0.current - |r.0.idle| == s.current - |s.idle| + (if r.1.Handed? then 1 else 0)
    ensures r.1.Exhausted? <==> AllStale(s.idle, isFresh) && s.current - |s.idle| >= s.max
    ensures r.1.ConnectFailure? <==> AllStale(s.idle, isFresh) && s.current - |s.idle| < s.max && !connectOk
    ensures Bounded(s) ==> Bounded(r.0)
  {
    var k := StalePrefix(s.idle, isFresh);
    var idle := s.idle[k..];
    var current := s.current - k;
    assert AllStale(s.idle, isFresh) <==> k == |s.idle|;
    if idle != [] then
      (PoolState(idle[1..], current, s.max), Handed(idle[0]))
    else if current >= s.max then
      (PoolState([], current, s.max), Exhausted)
    else if !connectOk then
      (PoolState([], current, s.max), ConnectFailure)
    else
      (PoolState([], current + 1, s.max), Handed(created))
  }

  /** A fresh head is handed out; the queue becomes its tail and the counter is unchanged. */
  lemma AcquireFreshHead(s: PoolState, isFresh: Conn -> bool, created: Conn, connectOk: bool)
    requires s.idle != [] && isFresh(s.idle[0])
    ensures Acquire(s, isFresh, created, connectOk) == (PoolState(s.idle[1..], s.current, s.max), Handed(s.idle[0]))
  {
    assert StalePrefix(s.idle, isFresh) == 0;
  }

  /**
   * A stale head is dropped and uncounted, and the pool retries on the
   * shorter queue: the recursion equation of nextFree.
   */
  lemma AcquireStaleHead(s: PoolState, isFresh: Conn -> bool, created: Conn, connectOk: bool)
    requires s.idle != [] && !isFresh(s.idle[0])
    ensures Acquire(s, isFresh, created, connectOk)
         == Acquire(PoolState(s.idle[1..], s.current - 1, s.max), isFresh, created, connectOk)
  {
    var k := StalePrefix(s.idle, isFresh);
    assert k == 1 + StalePrefix(s.idle[1..], isFresh);
    assert s.idle[k..] == s.idle[1..][k - 1..];
  }

  /**
   * The first fresh connection is handed out after the k stale ones ahead of
   * it have each been dropped and uncounted.
   */
  lemma AcquireFirstFresh(s: PoolState, isFresh: Conn -> bool, created: Conn, connectOk: bool, k: nat)
    requires k < |s.idle| && isFresh(s.idle[k])
    requires forall i :: 0 <= i < k ==> !isFresh(s.idle[i])
    ensures Acquire(s, isFresh, created, connectOk)
         == (PoolState(s.idle[k + 1..], s.current - k, s.max), Handed(s.idle[k]))
  {
    assert StalePrefix(s.idle, isFresh) == k;
  }

  /** A queue of stale connections is drained, each one uncounted, before anything else happens. */
  lemma {:induction false} AcquireAllStale(s: PoolState, isFresh: Conn -> bool, created: Conn, connectOk: bool)
    requires AllStale(s.idle, isFresh)
    ensures Acquire(s, isFresh, created, connectOk)
         == Acquire(PoolState([], s.current - |s.idle|, s.max), isFresh, created, connectOk)
    decreases |s.idle|
  {
    if s.idle != [] {
      AcquireStaleHead(s, isFresh, created, connectOk);
      var t := PoolState(s.idle[1..], s.current - 1, s.max);
      assert AllStale(t.idle, isFresh) by {
        forall i | 0 <= i < |t.idle| ensures !isFresh(t.idle[i]) {
          assert t.idle[i] == s.idle[i + 1];
        }
      }
      AcquireAllStale(t, isFresh, created, connectOk);
    }
  }

  /** With nothing idle and the counter at capacity the pool refuses, creating nothing. */
  lemma AcquireExhausted(s: PoolState, isFresh: Conn -> bool, created: Conn, connectOk: bool)
    requires s.idle == [] && s.current >= s.max
    ensures Acquire(s, isFresh, created, connectOk) == (s, Exhausted)
  {
  }

  /** With nothing idle and room left, a connection that connects is counted and handed out. */
  lemma AcquireCreates(s: PoolState, isFresh: Conn -> bool, created: Conn)
    requires s.idle == [] && s.current < s.max
    ensures Acquire(s, isFresh, created, true) == (PoolState([], s.current + 1, s.max), Handed(created))
    ensures s.current + 1 <= s.max
  {
  }

  /** A new connection that fails to connect is an error, and it is not counted. */
  lemma AcquireConnectFailure(s: PoolState, isFresh: Conn -> bool, created: Conn)
    requires s.idle == [] && s.current < s.max
    ensures Acquire(s, isFresh, created, false) == (s, ConnectFailure)
  {
  }

  /**
   * Returning appends at the tail: a connection returned behind a fresh
   * head waits its turn, and stays idle after the next acquire.
   */
  lemma ReturnedGoesLast(s: PoolState, c: Conn, isFresh: Conn -> bool, created: Conn, connectOk: bool)
    requires s.idle != [] && isFresh(s.idle[0])
    ensures Acquire(PoolState(s.idle + [c], s.current, s.max), isFresh, created, connectOk)
         == (PoolState(s.idle[1..] + [c], s.current, s.max), Handed(s.idle[0]))
  {
    var t := PoolState(s.idle + [c], s.current, s.max);
    AcquireFreshHead(t, isFresh, created, connectOk);
    assert t.idle[1..] == s.idle[1..] + [c];
  }

  /**
   * The sweep drops idle connections without touching the counter, so if
   * the counter matched idle plus `out` checked-out connections before a
   * sweep that drops anything, it over-counts afterwards.
   */
  lemma SweepBreaksAccounting(s: PoolState, ping: Conn -> bool, out: int, c: Conn)
    requires s.current == |s.idle| + out
    requires c in s.idle && !ping(c)
    ensures s.current > |Filter(s.idle, ping)| + out
  {
    FilterShrinks(s.idle, ping);
  }

  /**
   * Consequence of that drift: a full pool whose idle connections all fail
   * the ping has no idle connection after the sweep, yet still counts them,
   * so the next acquire is refused, whatever the probes and the
   * configuration do, and leaves the state as it was: acquires keep being
   * refused until a connection is returned.
   */
  lemma SweepLeaksCapacity(s: PoolState, ping: Conn -> bool, isFresh: Conn -> bool, created: Conn, connectOk: bool)
    requires s.current >= s.max
    requires forall i :: 0 <= i < |s.idle| ==> !ping(s.idle[i])
    ensures Filter(s.idle, ping) == []
    ensures Acquire(PoolState(Filter(s.idle, ping), s.current, s.max), isFresh, created, connectOk)
         == (PoolState([], s.current, s.max), Exhausted)
  {
    FilterAllRejected(s.idle, ping);
  }

  /**
   * The pool object.  The three operations are atomic; the sweep may run
   * between any two of them.
   */
  class ConnectionPool {
    /** The idle connections, head first: poll takes from the front, offer appends. */
    var pool: seq<Conn>
    /** Connections this pool has provisioned and not yet discarded. */
    var currentConnections: int
    /** The connection limit, fixed at construction. */
    const maxConnections: int

    function State(): PoolState
      reads this
    {
      PoolState(pool, currentConnections, maxConnections)
    }

    /** The invariant the pool keeps once it holds. */
    predicate Valid()
      reads this
    {
      Bounded(State())
    }

    /** A pool with the given limit; it is consistent exactly when the limit is not negative. */
    constructor (maxConnections: int)
      ensures this.maxConnections == maxConnections
      ensures pool == [] && currentConnections == 0
      ensures Valid() <==> 0 <= maxConnections
    {
      this.maxConnections := maxConnections;
      pool := [];
      currentConnections := 0;
    }

    /** A pool with the default limit. */
    constructor Default()
      ensures maxConnections == DEFAULT_MAX_CONNECTIONS
      ensures pool == [] && currentConnections == 0
      ensures Valid()
    {
      maxConnections := DEFAULT_MAX_CONNECTIONS;
      pool := [];
      currentConnections := 0;
    }

    /**
     * Hands out the next free connection.  Stale heads are discarded in a
     * loop that ends because every round shortens the queue.
     */
    method NextFree(isFresh: Conn -> bool, created: Conn, connectOk: bool) returns (r: Acquired)
      modifies this
      ensures (State(), r) == Acquire(old(State()), isFresh, created, connectOk)
      ensures old(Valid()) ==> Valid()
    {
      ghost var s0 := State();
      while true
        invariant Acquire(State(), isFresh, created, connectOk) == Acquire(s0, isFresh, created, connectOk)
        decreases |pool|
      {
        if pool == [] {
          break;
        }
        ghost var before := State();
        var connection := pool[0];
        pool := pool[1..];
        if isFresh(connection) {
          AcquireFreshHead(before, isFresh, created, connectOk);
          return Handed(connection);
        }
        // a stale head is dropped and no longer counted
        AcquireStaleHead(before, isFresh, created, connectOk);
        currentConnections := currentConnections - 1;
      }
      if currentConnections >= maxConnections {
        return Exhausted;
      }
      if !connectOk {
        return ConnectFailure;
      }
      currentConnections := currentConnections + 1;
      return Handed(created);
    }

    /** Puts a connection back at the tail of the queue, unchecked and uncounted. */
    method ReturnConnection(connection: Conn)
      modifies this
      ensures pool == old(pool) + [connection]
      ensures currentConnections == old(currentConnections)
      ensures old(Valid()) ==> Valid()
    {
      pool := pool + [connection];
    }

    /**
     * The first pass of the sweep: the idle connections whose ping fails,
     * in queue order.
     */
    method StaleIdle(ping: Conn -> bool) returns (remove: seq<Conn>)
      ensures remove == Filter(pool, Stale(ping))
    {
      remove := [];
      for i := 0 to |pool|
        invariant remove == Filter(pool[..i], Stale(ping))
      {
        FilterStep(pool, i, Stale(ping));
        if !ping(pool[i]) {
          remove := remove + [pool[i]];
        }
      }
      assert pool[..|pool|] == pool;
    }

    /**
     * The periodic sweep: collects the idle connections whose ping fails,
     * then removes each of them from the queue by value.  The counter is
     * left as it was.
     */
    method Sweep(ping: Conn -> bool)
      modifies this
      ensures pool == Filter(old(pool), ping)
      ensures currentConnections == old(currentConnections)
      ensures old(Valid()) ==> Valid()
    {
      var remove := StaleIdle(ping);
      ghost var q0 := pool;
      for j := 0 to |remove|
        invariant pool == DropRejected(q0, ping, j)
        invariant currentConnections == old(currentConnections)
      {
        RemoveNextRejected(q0, ping, j);
        pool := RemoveFirst(pool, remove[j]);
      }
      DropAllRejected(q0, ping);
    }
  }

  /** Fail-fast at capacity one: a second request without a release is refused. */
  method FailFastScenario(c1: Conn, c2: Conn)
  {
    var p := new ConnectionPool(1);
    var always := (c: Conn) => true;
    AcquireCreates(PoolState([], 0, 1), always, c1);
    var a1 := p.NextFree(always, c1, true);
    assert a1 == Handed(c1) && p.State() == PoolState([], 1, 1);
    AcquireExhausted(PoolState([], 1, 1), always, c2, true);
    var a2 := p.NextFree(always, c2, true);
    assert a2 == Exhausted && p.State() == PoolState([], 1, 1);
  }

  /**
   * Capacity two: two creations, a refusal, and after a release the
   * returned connection is reused without creating a third.
   */
  lemma ReuseScenario(c1: Conn, c2: Conn, c3: Conn, isFresh: Conn -> bool)
    requires isFresh(c1)
    ensures var (s1, a1) := Acquire(PoolState([], 0, 2), isFresh, c1, true);
            var (s2, a2) := Acquire(s1, isFresh, c2, true);
            var (s3, a3) := Acquire(s2, isFresh, c3, true);
            var (s4, a4) := Acquire(PoolState(s3.idle + [c1], s3.current, s3.max), isFresh, c3, true);
            a1 == Handed(c1) && a2 == Handed(c2) && a3 == Exhausted
            && a4 == Handed(c1) && s4 == PoolState([], 2, 2)
  {
    AcquireCreates(PoolState([], 0, 2), isFresh, c1);
    AcquireCreates(PoolState([], 1, 2), isFresh, c2);
    AcquireExhausted(PoolState([], 2, 2), isFresh, c3, true);
    AcquireFreshHead(PoolState([c1], 2, 2), isFresh, c3, true);
  }
}
