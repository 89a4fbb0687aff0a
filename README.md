# ConnectionPool bookkeeping, modelled in Dafny

This project models the state machine inside `ConnectionPool` of the
threadedsql library. The pool keeps three things: a FIFO queue of idle
database connections (`pool`), a counter of connections it has provisioned
(`currentConnections`), and a fixed limit (`maxConnections`, 10 by default).

- `nextFree` polls the queue head. A stale head is discarded, the counter is
  decremented, and the pool tries again. When the queue is empty the pool
  returns `null` at capacity. Otherwise it creates and connects a new
  connection and counts it, or it throws if the connect fails.
- `returnConnection` appends to the tail of the queue. It does not check the
  connection and does not touch the counter.
- A periodic sweep pings every idle connection, collects the ones that fail
  into a remove list, and then removes each of them from the queue by value.

Layout:

- `IdleQueue.dfy` (module `IdleQueue`) holds generic sequence facts:
  - `Filter`, the survivors of a probe, kept in order;
  - `RemoveFirst`, removal by value as Java's `Collection.remove(Object)` does it;
  - the proof that the sweep's two-pass removal leaves exactly `Filter` of the old queue.
- `ConnectionPool.dfy` (module `ThreadedSql`) holds:
  - the connection, outcome and state datatypes;
  - `Acquire`, a closed form of one `nextFree` call;
  - lemmas for each branch of `nextFree` and for the recursion equation the source retries by;
  - lemmas showing how the sweep lets the counter drift;
  - the class `ConnectionPool`, whose methods are proved equal to these functions;
  - `FailFastScenario`, a client of the class with capacity one;
  - `ReuseScenario`, a walk-through with capacity two.

The collaborators are oracle parameters:

- `isFresh` and `ping` (`Conn -> bool`) stand for `connection.isFresh()` and the
  `SELECT 1` ping, which either succeeds or throws `SQLException`.
- `created` stands for the connection `configuration.newConnection()` returns.
- `connectOk` stands for the result of `connect()`.

`null` and the `RuntimeException` become the `Exhausted` and `ConnectFailure`
outcomes of `Acquired`.

Where an idealised pool and this code differ, the model follows the code:

- The idle collection is a FIFO queue, not an unordered set.
- `nextFree` retries by recursion. The model uses a loop; the lemma
  `AcquireStaleHead` is the recursion equation.
- The sweep does not close the connections it drops and does not decrement
  `currentConnections` (`src/org/nikki/threadedsql/ConnectionPool.java:75-77`).
  So "counter = idle + checked out" is kept by `nextFree` (see the ensures
  of `Acquire`) and by `returnConnection` provided the returned connection
  really was checked out (the counter is unchanged while the queue grows by
  one; a double release or a connection from elsewhere breaks the equation).
  The sweep breaks it too (`SweepBreaksAccounting`). A full pool whose idle
  connections all fail the ping then refuses the next request and keeps its
  state, so requests keep being refused until a connection is returned
  (`SweepLeaksCapacity`).
- The invariant that does hold is `currentConnections <= maxConnections`
  (`Bounded`, `ConnectionPool.Valid`). Every operation preserves it, and the
  constructor establishes it exactly when the limit is not negative.

## Model

| member | source | states |
|---|---|---|
| `ThreadedSql.ConnectionPool.constructor` | src/org/nikki/threadedsql/ConnectionPool.java:32-61 | a new pool has the given limit, an empty queue and a zero counter; it satisfies the bound invariant exactly when the limit is not negative |
| `ThreadedSql.ConnectionPool.Default` | src/org/nikki/threadedsql/ConnectionPool.java:45-47 | the one-argument constructor gives limit 10, an empty queue and a zero counter, and the bound invariant holds |
| `ThreadedSql.ConnectionPool.NextFree` | src/org/nikki/threadedsql/ConnectionPool.java:89-114 | the loop that replaces the recursive retry ends because the queue shrinks each round; outcome and new state equal `Acquire` of the old state; the bound invariant is preserved |
| `ThreadedSql.ConnectionPool.ReturnConnection` | src/org/nikki/threadedsql/ConnectionPool.java:122-124 | the connection is appended at the tail without any check; the counter and the bound invariant are unchanged |
| `ThreadedSql.ConnectionPool.StaleIdle` | src/org/nikki/threadedsql/ConnectionPool.java:67-74 | the sweep's first pass builds the remove list: exactly the idle connections whose ping fails, in queue order; the pool is not changed |
| `ThreadedSql.ConnectionPool.Sweep` | src/org/nikki/threadedsql/ConnectionPool.java:66-78 | after removing each listed connection by value, the queue is the old queue filtered to the connections whose ping succeeds; the counter is unchanged |
| `ThreadedSql.StalePrefix` | src/org/nikki/threadedsql/ConnectionPool.java:92-98 | the number of heads `nextFree` discards: every connection before it is stale, and the one at it, if any, is fresh |
| `ThreadedSql.Acquire` | src/org/nikki/threadedsql/ConnectionPool.java:89-114 | limit unchanged; what stays idle is a suffix of the old queue; counter minus idle grows by one exactly on a hand-out; the result is null iff every idle connection is stale and the counter after discarding them is at or above the limit; it is a connect failure iff they are all stale, the discarded counter is below the limit and connect fails; the bound is kept |
| `ThreadedSql.AcquireFreshHead` | src/org/nikki/threadedsql/ConnectionPool.java:92-99 | a fresh head is returned, the queue becomes its tail, the counter is unchanged |
| `ThreadedSql.AcquireStaleHead` | src/org/nikki/threadedsql/ConnectionPool.java:94-97 | a stale head is dropped and the counter decremented by exactly one, then the call behaves as on the shorter queue |
| `ThreadedSql.AcquireFirstFresh` | src/org/nikki/threadedsql/ConnectionPool.java:92-99 | when the first fresh connection is at position k, it is handed out, the queue becomes what follows it, and the counter drops by k |
| `ThreadedSql.AcquireAllStale` | src/org/nikki/threadedsql/ConnectionPool.java:92-103 | a queue of only stale connections is drained with one decrement each, and the call then behaves as on an empty queue |
| `ThreadedSql.AcquireExhausted` | src/org/nikki/threadedsql/ConnectionPool.java:101-103 | empty queue and counter at or above the limit: null, no connection created, state unchanged |
| `ThreadedSql.AcquireCreates` | src/org/nikki/threadedsql/ConnectionPool.java:101-112 | empty queue with room and a connect that succeeds: the new connection is handed out and counted once, and the counter stays within the limit |
| `ThreadedSql.AcquireConnectFailure` | src/org/nikki/threadedsql/ConnectionPool.java:107-108 | a failed connect is an error outcome and the counter is not incremented |
| `ThreadedSql.ReturnedGoesLast` | src/org/nikki/threadedsql/ConnectionPool.java:122-124 | a returned connection waits behind a fresh head: the next acquire hands out the old head and the returned one stays queued at the tail |
| `ThreadedSql.SweepBreaksAccounting` | src/org/nikki/threadedsql/ConnectionPool.java:75-77 | if the counter equalled idle plus checked-out before a sweep that drops something, it over-counts afterwards |
| `ThreadedSql.SweepLeaksCapacity` | src/org/nikki/threadedsql/ConnectionPool.java:75-77 | a full pool whose idle connections all fail the ping is empty after the sweep; the next acquire returns null and leaves the state as it was, so acquires keep being refused until a connection is returned |
| `ThreadedSql.ReuseScenario` | src/org/nikki/threadedsql/ConnectionPool.java:89-124 | with capacity two and always-successful connects: two new connections, then null; after the first is returned it is handed out again, no third is created and the counter stays at two |
| `IdleQueue.Filter` | src/org/nikki/threadedsql/ConnectionPool.java:66-78 | the survivors of the ping: each one passes, each one comes from the queue, and a queued connection is kept iff it passes |
| `IdleQueue.FilterIsSubsequence` | src/org/nikki/threadedsql/ConnectionPool.java:66-78 | the survivors keep their relative order |
| `IdleQueue.FilterPartition` | src/org/nikki/threadedsql/ConnectionPool.java:67-77 | survivors and the remove list together are exactly the old queue, counted with multiplicity |
| `IdleQueue.FilterShrinks` | src/org/nikki/threadedsql/ConnectionPool.java:75-77 | the sweep shortens the queue iff some idle connection fails the ping |
| `IdleQueue.FilterAllRejected` | src/org/nikki/threadedsql/ConnectionPool.java:66-78 | when every ping fails, nothing survives |
| `IdleQueue.RemoveFirst` | src/org/nikki/threadedsql/ConnectionPool.java:76 | removal by value leaves the queue unchanged when the value is absent and shortens it by one otherwise |
| `IdleQueue.RemoveFirstAt` | src/org/nikki/threadedsql/ConnectionPool.java:76 | what is removed is the first occurrence; everything else keeps its place |
| `IdleQueue.RemoveFirstMultiset` | src/org/nikki/threadedsql/ConnectionPool.java:76 | exactly one copy of the value leaves the queue, if there is one |
| `IdleQueue.RemoveNextRejected` | src/org/nikki/threadedsql/ConnectionPool.java:75-77 | removing the next entry of the remove list by value deletes exactly the next failing position |
| `IdleQueue.DropAllRejected` | src/org/nikki/threadedsql/ConnectionPool.java:75-77 | once every entry of the remove list is removed, exactly the survivors remain |

## Left out

- The `synchronized(pool)` blocks, the unsynchronised `offer` in
  `returnConnection` and the thread-safety of `ConcurrentLinkedQueue`. The
  operations are modelled as atomic, and the sweep may run between any two.
- The scheduler (`Executors.newScheduledThreadPool(1).scheduleAtFixedRate(..., 0, 30000, ...)`).
  Only the body of the scheduled task is modelled, as `Sweep`.
- The JDBC calls: the ping statement, `isFresh()`, `connect()`, `setPool(this)`
  and the `SQLException` handling. They are foreign calls, replaced by the oracle parameters.
  The `configuration` field is not stored: `nextFree` takes the connection it would build as a parameter.
- `DatabaseConfiguration` is an interface with no behaviour. It appears only as the `created` parameter.
- `Example.java` is a console demo and does no pool bookkeeping.
- Java `int` overflow. The increment only runs while the counter is below the limit, so it
  cannot wrap. A decrement could wrap only after more than 2^31 stale discards; the
  counter is an unbounded `int` here.
- Exceptions thrown by `newConnection()` or `setPool` themselves are not modelled.
  Only the failed-connect exception is.
- `Sweep`: within one sweep the ping is a function of the connection. If the same connection
  is queued twice and its two pings disagree, Java removes its first copy, which may be the
  one that passed. The model does not cover that case.
- `NextFree`: within one call `isFresh` is a function of the connection. If the same
  connection is queued twice and its two freshness checks disagree, the model cannot
  express it.
- `ReturnConnection`: there is no null connection in the model, so the
  `NullPointerException` that `ConcurrentLinkedQueue.offer` throws for `returnConnection(null)`
  is not modelled.
- No-duplicate-handout is not stated. `returnConnection` accepts any non-null connection,
  including one already idle, so the source does not guarantee it.
