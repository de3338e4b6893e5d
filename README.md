# CommonsBackedPool: a verified model of the Pelops connection-pool orchestrator

Pelops keeps one keyed pool of Thrift connections per Cassandra node. Its
orchestrator, `CommonsBackedPool`, does the following:

- It keeps a registry that maps each node address to a `PooledNode` health
  record.
- It reconciles that registry with the cluster's node list.
- It runs a maintenance tick that asks a suspension strategy about every node.
- It hands out connections through a deadline-bounded retry loop.
- It counts every connection event, both per node and process-wide.

This project models that logic sequentially and proves what the code promises.
It is split into six modules:

- `Common` (common.dfy): addresses, `Option`, and sequence helpers.
- `PoolPolicy` (policy.dfy): the `Policy` settings and their defaults.
- `NodeSelection` (node_selection.dfy): the least-loaded selection rule. It is
  specified by its unit test, and the test's four scenarios are proved against
  it.
- `BackingPool` (keyed_pool.dfy): the commons-pool `GenericKeyedObjectPool`,
  reduced to what the orchestrator observes of it. That is the per-address
  idle and active counts and whether the pool is closed.
- `Acquisition` (acquisition.dfy): the `getConnectionExcept` loop as a function
  of what the environment answers on each pass. That is the clock reading at
  the loop head and the borrow result. It comes with the timeout, shutdown,
  retry and liveness lemmas.
- `Pool` (pool.dfy): the classes `RunningStatistics`, `PooledNode`,
  `PooledConnection` and `CommonsBackedPool`.
  - The registry is a `map` field that is updated in place.
  - The backing pool is a `KeyedPool` value field.
  - The counters are fields of the node and statistics objects.
  - Each loop of the source is a loop here, proved against a specification
    function. Examples are `EvaluatedAlong`, `ClearedAlong`, `CountSuspending`
    and `Acquire`.

Some inputs are parameters instead of calls into code the model cannot see:

- the cluster's node list;
- the order in which the registry's `HashMap` is iterated;
- what the suspension strategy decides for each node, as a `Verdict` holding
  its answer and the suspension state it leaves on the node;
- the clock;
- the backing pool's borrow results;
- whether `returnObject` throws;
- whether opening a socket succeeds.

Two behaviours of the code are easy to miss:

- A tick clears a node's idle connections and counts a suspension every time
  the strategy answers true (CommonsBackedPool.java:127-132). This includes
  nodes that were already suspended, not only nodes that change to suspended.
- Acquire has a second failure besides `NoConnectionsAvailable`. A closed
  backing pool surfaces as a fatal error (CommonsBackedPool.java:246-247),
  modelled as `PoolShutdown`.

## Model

| member | source | states |
|---|---|---|
| `PoolPolicy.DefaultPolicy` | src/main/java/org/scale7/cassandra/pelops/pool/CommonsBackedPool.java:376-385 | A fresh `Policy` has maxActivePerNode 20, maxTotal -1 (no cap), maxIdlePerNode 10, minIdlePerNode 10, maxWaitForConnection 1000 and a 60000 ms tick, so scheduled tasks are enabled. |
| `BackingPool.KeyedPool.Clear` | src/main/java/org/scale7/cassandra/pelops/pool/CommonsBackedPool.java:196 | `clear(address)` leaves that address with no idle connection. Every other address's idle count, all active counts and the closed flag are unchanged. |
| `BackingPool.KeyedPool.EnsureMinIdle` | src/main/java/org/scale7/cassandra/pelops/pool/CommonsBackedPool.java:186 | `preparePool(address, true)` raises that address's idle count to at least minIdle while the pool is open. A closed pool creates nothing. Nothing else changes. |
| `BackingPool.KeyedPool.PrepareAllIdle` | src/main/java/org/scale7/cassandra/pelops/pool/CommonsBackedPool.java:59-61 | While the pool is open, preparing a list of addresses tops up exactly the listed addresses, whatever the order and repetitions. Once it is closed, no idle count changes. Active counts and the closed flag are kept. |
| `BackingPool.KeyedPool.Borrow` | src/main/java/org/scale7/cassandra/pelops/pool/CommonsBackedPool.java:243 | A successful borrow makes one more connection active on that address. It reuses an idle one if there is one, and no other address moves. |
| `BackingPool.KeyedPool.Return` | src/main/java/org/scale7/cassandra/pelops/pool/CommonsBackedPool.java:280 | A return makes one fewer connection active. The connection goes back to idle only if it validates, because validation on return is on (line 112), and only while the pool is open; otherwise it is destroyed. |
| `BackingPool.KeyedPool.Close` | src/main/java/org/scale7/cassandra/pelops/pool/CommonsBackedPool.java:297 | Closing destroys every idle connection and marks the pool closed. Active counts are kept. |
| `BackingPool.BorrowThenReturnRestores` | src/main/java/org/scale7/cassandra/pelops/pool/CommonsBackedPool.java:243-282 | On an open pool, borrowing an idle connection and returning it valid restores every count. |
| `BackingPool.ReturnAfterCloseKeepsNoIdle` | src/main/java/org/scale7/cassandra/pelops/pool/CommonsBackedPool.java:280-297 | A connection released after `shutdown()` closed the pool is destroyed: its address has no idle connection and one fewer active one. |
| `BackingPool.PrepareAfterCloseKeepsNoIdle` | src/main/java/org/scale7/cassandra/pelops/pool/CommonsBackedPool.java:186 | `preparePool` calls made after `close()` leave the pool closed and create no idle connection for any address. This is what a refresh finds when it runs after `shutdown()`, which does not wait for a running tick (line 292). |
| `BackingPool.BorrowNewThenReturnAddsIdle` | src/main/java/org/scale7/cassandra/pelops/pool/CommonsBackedPool.java:243-282 | On an open pool, borrowing when nothing is idle and returning valid leaves one idle connection and the same active count. |
| `Acquisition.AcquireFrom` | src/main/java/org/scale7/cassandra/pelops/pool/CommonsBackedPool.java:213-269 | The loop pass by pass. The first pass fixes the deadline and skips the check, so a call given at most one pass never times out. No selection, or a borrow that fails, retries. A selection on a closed pool gives `PoolShutdown`. A call that runs out of passes gives `StillWaiting`, and only when every pass it was given retried. |
| `Acquisition.Deadline` | src/main/java/org/scale7/cassandra/pelops/pool/CommonsBackedPool.java:216-221 | The deadline is `now + maxWait`, which is strictly after now, for a positive wait. Otherwise it is `Long.MAX_VALUE`. It is never the "unset" value -1. |
| `Acquisition.NeverTimesOutBeforeDeadline` | src/main/java/org/scale7/cassandra/pelops/pool/CommonsBackedPool.java:213-269 | `NoConnectionsAvailable` comes only from a pass after the first whose clock reading is past the deadline fixed on the first pass. Every earlier pass retried. |
| `Acquisition.TimesOutOncePastDeadline` | src/main/java/org/scale7/cassandra/pelops/pool/CommonsBackedPool.java:215-252 | Conversely, if every pass up to a later one retries and that pass's clock reading is past the deadline, acquire fails with `NoConnectionsAvailable`. Empty selections and failed borrows never surface. |
| `Acquisition.UnboundedWaitNeverTimesOut` | src/main/java/org/scale7/cassandra/pelops/pool/CommonsBackedPool.java:219-222 | With a non-positive max wait and a clock within `long` range, acquire never times out. |
| `Acquisition.AcquiredOnlyFromSelectedNode` | src/main/java/org/scale7/cassandra/pelops/pool/CommonsBackedPool.java:227-243 | A connection is returned only from the node the strategy selected, from an open pool, after some borrow succeeded. |
| `Acquisition.ShutdownIsFatalAndImmediate` | src/main/java/org/scale7/cassandra/pelops/pool/CommonsBackedPool.java:239-247 | The fatal shutdown error surfaces if and only if a node is selected and the backing pool is closed. |
| `Acquisition.UnboundedWaitEventuallyAcquires` | src/main/java/org/scale7/cassandra/pelops/pool/CommonsBackedPool.java:215-252 | With an unbounded wait, a selected node on an open pool and some borrow that eventually succeeds, acquire returns a connection of that node. |
| `Acquisition.NoSelectionNeverAcquires` | src/main/java/org/scale7/cassandra/pelops/pool/CommonsBackedPool.java:227-237 | When no node can be selected, acquire neither returns a connection nor fails fatally. It only keeps backing off until the deadline. |
| `NodeSelection.LeastLoaded` | src/test/java/org/scale7/cassandra/pelops/pool/LeastLoadedNodeSelectionStrategyUnitTest.java:17-149 | It returns none if and only if no candidate is tracked, unsuspended and not the hint. Otherwise it returns the looked-up node of such a candidate with the minimal active count among them. |
| `NodeSelection.LeastLoadedLoadIsOrderIndependent` | src/test/java/org/scale7/cassandra/pelops/pool/LeastLoadedNodeSelectionStrategyUnitTest.java:109-114 | The candidate set's iteration order can change only which of several equally loaded nodes is chosen. It never changes whether a node is chosen or the chosen load. |
| `NodeSelection.AllSuspendedSelectsNone` | src/test/java/org/scale7/cassandra/pelops/pool/LeastLoadedNodeSelectionStrategyUnitTest.java:21-41 | If every candidate is suspended, nothing is selected. |
| `NodeSelection.SoleEligibleIsSelected` | src/test/java/org/scale7/cassandra/pelops/pool/LeastLoadedNodeSelectionStrategyUnitTest.java:46-82 | A single eligible candidate is selected whatever its load. |
| `NodeSelection.UniqueMinimumIsSelected` | src/test/java/org/scale7/cassandra/pelops/pool/LeastLoadedNodeSelectionStrategyUnitTest.java:87-115 | The eligible candidate with strictly the fewest active connections is selected. |
| `NodeSelection.HintIsNeverSelected` | src/test/java/org/scale7/cassandra/pelops/pool/LeastLoadedNodeSelectionStrategyUnitTest.java:120-149 | The hint is never returned, even when it is the least-loaded node. |
| `NodeSelection.ScenarioAllNodesSuspended` | src/test/java/org/scale7/cassandra/pelops/pool/LeastLoadedNodeSelectionStrategyUnitTest.java:22-40 | With node1 to node3 all suspended, the selection is none. |
| `NodeSelection.ScenarioOnlyOneCandidateNode` | src/test/java/org/scale7/cassandra/pelops/pool/LeastLoadedNodeSelectionStrategyUnitTest.java:47-81 | With node1 to node3 suspended and node4 unsuspended with one active connection, node4 is selected. |
| `NodeSelection.ScenarioLeastLoadedNodeSelected` | src/test/java/org/scale7/cassandra/pelops/pool/LeastLoadedNodeSelectionStrategyUnitTest.java:88-114 | With node1 to node5 holding 0 to 4 active connections, node1 is selected. |
| `NodeSelection.ScenarioLeastLoadedNodeSkippedOnHint` | src/test/java/org/scale7/cassandra/pelops/pool/LeastLoadedNodeSelectionStrategyUnitTest.java:121-148 | The same nodes with hint node1 select node2. |
| `Pool.NodeState.Bump` | src/main/java/org/scale7/cassandra/pelops/pool/CommonsBackedPool.java:559-593 | A node-level report raises its own counter by exactly one. Every other counter, the suspension state and the suspension count are unchanged. |
| `Pool.Statistics.Bump` | src/main/java/org/scale7/cassandra/pelops/pool/CommonsBackedPool.java:327-370 | A global report raises its own counter by exactly one. The other event counters, the node gauges and the active gauge are unchanged. |
| `Pool.CountIsSuspendedNodes` | src/main/java/org/scale7/cassandra/pelops/pool/CommonsBackedPool.java:124-134 | Counting suspensions along an iteration order that visits each node once gives the number of nodes the strategy suspended. |
| `Pool.EvaluatedAlongIsEachVerdict` | src/main/java/org/scale7/cassandra/pelops/pool/CommonsBackedPool.java:125-133 | Evaluating along such an order applies each node's verdict exactly once. Nodes not visited are unchanged. |
| `Pool.ClearedAlongIsSuspended` | src/main/java/org/scale7/cassandra/pelops/pool/CommonsBackedPool.java:127-131 | After the loop, exactly the visited addresses that were suspended have no idle connections. Every other idle count, all active counts and the closed flag are unchanged. |
| `Pool.IsPresent` | src/main/java/org/scale7/cassandra/pelops/pool/CommonsBackedPool.java:161-166 | The `isPresent` flag is true if and only if the address is in the current node list. |
| `Pool.ValidateObject` | src/main/java/org/scale7/cassandra/pelops/pool/CommonsBackedPool.java:659-668 | A connection validates if and only if it is not corrupt and is open. |
| `Pool.RunningStatistics.constructor` | src/main/java/org/scale7/cassandra/pelops/pool/CommonsBackedPool.java:694-703 | Every counter starts at zero. |
| `Pool.RunningStatistics.SetNodeCounts` | src/main/java/org/scale7/cassandra/pelops/pool/CommonsBackedPool.java:135-136 | The two node gauges are overwritten. No other counter moves. |
| `Pool.PooledNode.constructor` | src/main/java/org/scale7/cassandra/pelops/pool/CommonsBackedPool.java:516-525 | A new record has the given address, no suspension state, every counter at zero, and is not suspended. |
| `Pool.PooledNode.IsSuspended` | src/main/java/org/scale7/cassandra/pelops/pool/CommonsBackedPool.java:599-601 | A node is suspended if and only if it has a suspension state and that state says suspended. |
| `Pool.PooledNode.SetSuspensionState` | src/main/java/org/scale7/cassandra/pelops/pool/CommonsBackedPool.java:539-541 | Only the suspension state changes. |
| `Pool.PooledNode.ReportSuspension` | src/main/java/org/scale7/cassandra/pelops/pool/CommonsBackedPool.java:543-545 | Only the suspension count changes, by one. |
| `Pool.PooledNode.Evaluate` | src/main/java/org/scale7/cassandra/pelops/pool/CommonsBackedPool.java:127-132 | The node ends with the strategy's new state. Its suspension count goes up by one exactly when the strategy suspends it, and `isSuspended` then reads that new state. |
| `Pool.PooledNode.ReportConnectionCorrupted` | src/main/java/org/scale7/cassandra/pelops/pool/CommonsBackedPool.java:559-561 | The node's corrupted counter goes up by one, and nothing else changes. |
| `Pool.PooledNode.ReportConnectionCreated` | src/main/java/org/scale7/cassandra/pelops/pool/CommonsBackedPool.java:567-569 | The node's created counter goes up by one, and nothing else changes. |
| `Pool.PooledNode.ReportConnectionDestroyed` | src/main/java/org/scale7/cassandra/pelops/pool/CommonsBackedPool.java:575-577 | The node's destroyed counter goes up by one, and nothing else changes. |
| `Pool.PooledNode.ReportConnectionBorrowed` | src/main/java/org/scale7/cassandra/pelops/pool/CommonsBackedPool.java:583-585 | The node's borrowed total goes up by one, and nothing else changes. |
| `Pool.PooledNode.ReportConnectionReleased` | src/main/java/org/scale7/cassandra/pelops/pool/CommonsBackedPool.java:591-593 | The node's released total goes up by one, and nothing else changes. |
| `Pool.PooledConnection.constructor` | src/main/java/org/scale7/cassandra/pelops/pool/CommonsBackedPool.java:604-609 | A new connection is bound to its node's address, is not corrupt, and is not yet open. |
| `Pool.PooledConnection.Corrupted` | src/main/java/org/scale7/cassandra/pelops/pool/CommonsBackedPool.java:617-619 | After `corrupted()`, the connection is corrupt and no longer validates. |
| `Pool.PooledConnection.Open` | src/main/java/org/scale7/cassandra/pelops/pool/CommonsBackedPool.java:639 | The connection is open and its corrupt flag is kept. |
| `Pool.PooledConnection.Close` | src/main/java/org/scale7/cassandra/pelops/pool/CommonsBackedPool.java:653 | The connection is closed and its corrupt flag is kept. |
| `Pool.CommonsBackedPool.constructor` | src/main/java/org/scale7/cassandra/pelops/pool/CommonsBackedPool.java:42-65 | The registry tracks exactly the initial node list, each address with a fresh zeroed record, and every tracked address is prepared to minIdle. The statistics are fresh with nodesActive equal to the registry size. The backing pool is open with nothing active. Scheduled tasks are enabled if and only if the tick interval is positive. |
| `Pool.CommonsBackedPool.GetPooledNode` | src/main/java/org/scale7/cassandra/pelops/pool/CommonsBackedPool.java:323-325 | It returns null if and only if the address is untracked. Otherwise it returns that address's record. |
| `Pool.CommonsBackedPool.AddNode` | src/main/java/org/scale7/cassandra/pelops/pool/CommonsBackedPool.java:174-187 | The address is tracked with a fresh zeroed record that replaces any previous one, and other entries are unchanged. The address is then prepared to minIdle if the pool is open. |
| `Pool.CommonsBackedPool.RemoveNode` | src/main/java/org/scale7/cassandra/pelops/pool/CommonsBackedPool.java:189-202 | The address is no longer tracked and its idle connections are cleared. Other entries are unchanged. |
| `Pool.CommonsBackedPool.AddNodes` | src/main/java/org/scale7/cassandra/pelops/pool/CommonsBackedPool.java:57-61 | Every listed address gets a fresh record and, while the pool is open, is prepared. Unlisted entries and idle counts are unchanged. |
| `Pool.CommonsBackedPool.HandleClusterRefresh` | src/main/java/org/scale7/cassandra/pelops/pool/CommonsBackedPool.java:148-172 | The tracked set becomes exactly the current node list. Surviving nodes keep their very records, so their counters and suspension state survive. New addresses get fresh zeroed records and are prepared unless the pool is closed. Removed addresses are cleared. |
| `Pool.CommonsBackedPool.AddNewNodes` | src/main/java/org/scale7/cassandra/pelops/pool/CommonsBackedPool.java:152-157 | Only listed addresses not yet tracked are added, and they are prepared unless the pool is closed. Existing records are untouched. |
| `Pool.CommonsBackedPool.RemoveDeadNodes` | src/main/java/org/scale7/cassandra/pelops/pool/CommonsBackedPool.java:159-171 | Exactly the tracked addresses missing from the list are removed and cleared. |
| `Pool.CommonsBackedPool.EvaluateNode` | src/main/java/org/scale7/cassandra/pelops/pool/CommonsBackedPool.java:127-132 | One node takes its verdict, and the backing pool is cleared for it exactly when it is suspended. No other node changes. |
| `Pool.CommonsBackedPool.EvaluateAll` | src/main/java/org/scale7/cassandra/pelops/pool/CommonsBackedPool.java:124-134 | The loop's node states, backing pool and count equal the specification functions `EvaluatedAlong`, `ClearedAlong` and `CountSuspending` along the iteration order. |
| `Pool.CommonsBackedPool.EvaluateEach` | src/main/java/org/scale7/cassandra/pelops/pool/CommonsBackedPool.java:124-134 | Every tracked node takes its own verdict once. Exactly the suspended ones lose their idle connections, and the count is the number of suspended nodes. |
| `Pool.CommonsBackedPool.EvaluateSuspensions` | src/main/java/org/scale7/cassandra/pelops/pool/CommonsBackedPool.java:122-136 | It does the same as `EvaluateEach`. In addition, nodesSuspended becomes the number of suspended nodes and nodesActive the registry size minus that number, and no other statistic moves. |
| `Pool.CommonsBackedPool.RunScheduledTasks` | src/main/java/org/scale7/cassandra/pelops/pool/CommonsBackedPool.java:115-146 | A tick is a refresh followed by the suspension pass. The final registry is the current node list. Surviving records are kept and evaluated, and new records are zeroed and then evaluated. The idle counts combine the refresh's preparing (none on a closed pool) and clearing with the suspensions' clearing. The node gauges are set from the suspended count. |
| `Pool.CommonsBackedPool.ReportConnectionCreated` | src/main/java/org/scale7/cassandra/pelops/pool/CommonsBackedPool.java:327-334 | The global created counter goes up by one. The node's counter goes up only if the address is tracked, and no other node changes. |
| `Pool.CommonsBackedPool.ReportConnectionDestroyed` | src/main/java/org/scale7/cassandra/pelops/pool/CommonsBackedPool.java:336-343 | The same, for the destroyed counters. |
| `Pool.CommonsBackedPool.ReportConnectionCorrupted` | src/main/java/org/scale7/cassandra/pelops/pool/CommonsBackedPool.java:345-352 | The same, for the corrupted counters. |
| `Pool.CommonsBackedPool.ReportConnectionBorrowed` | src/main/java/org/scale7/cassandra/pelops/pool/CommonsBackedPool.java:354-361 | The same, for the borrowed totals. |
| `Pool.CommonsBackedPool.ReportConnectionReleased` | src/main/java/org/scale7/cassandra/pelops/pool/CommonsBackedPool.java:363-370 | The same, for the released totals. |
| `Pool.CommonsBackedPool.GetConnectionExcept` | src/main/java/org/scale7/cassandra/pelops/pool/CommonsBackedPool.java:209-275 | The outcome is the specification `Acquire` of the least-loaded selection, the pool's closed flag and the passes. On success, the connection's node is tracked, one connection is borrowed from it, connectionsActive and the borrowed totals go up by one, and nothing else changes. On any other outcome, no state changes. |
| `Pool.CommonsBackedPool.CheckOut` | src/main/java/org/scale7/cassandra/pelops/pool/CommonsBackedPool.java:271-274 | The borrow, one more active connection and the borrow report. |
| `Pool.CommonsBackedPool.GetConnection` | src/main/java/org/scale7/cassandra/pelops/pool/CommonsBackedPool.java:204-207 | It behaves as `getConnectionExcept` with no hint. |
| `Pool.CommonsBackedPool.ReleaseConnection` | src/main/java/org/scale7/cassandra/pelops/pool/CommonsBackedPool.java:277-286 | If the return throws, nothing changes. Otherwise the connection is returned, kept idle only if it validates and the pool is still open, connectionsActive goes down by one, and the release is reported. |
| `Pool.CommonsBackedPool.Shutdown` | src/main/java/org/scale7/cassandra/pelops/pool/CommonsBackedPool.java:288-301 | The backing pool is closed. |
| `Pool.CommonsBackedPool.MakeObject` | src/main/java/org/scale7/cassandra/pelops/pool/CommonsBackedPool.java:632-644 | It returns a connection if and only if opening succeeds. The connection is new, open, not corrupt, bound to the address and reported as created. On failure, no counter moves. |
| `Pool.CommonsBackedPool.DestroyObject` | src/main/java/org/scale7/cassandra/pelops/pool/CommonsBackedPool.java:646-656 | The connection is closed and reported as destroyed. |
| `Pool.CommonsBackedPool.PassivateObject` | src/main/java/org/scale7/cassandra/pelops/pool/CommonsBackedPool.java:674-681 | A corruption is reported if and only if the connection is corrupt. Otherwise no counter moves. |

## Left out

- Threads, the scheduled executor and its thread factory, `scheduledTasksLock`,
  the back-off `Thread.sleep` and `shutdownNow`. Everything here runs
  sequentially, one operation at a time. `configureScheduledTasks` is kept only
  as the `scheduledTasksEnabled` flag.
- The clock. `System.currentTimeMillis` is the `now` field of each `Attempt`,
  read once per pass at the loop head.
- `AtomicInteger` wrap-around. Counters are unbounded integers, and atomicity
  does not arise in a sequential model.
- commons-pool internals. The model leaves out:
  - the 100 ms blocking borrow;
  - LIFO order;
  - `maxActive`, `maxIdle` and `maxTotal`, including the clearing of the oldest
    15 % of connections;
  - `evict` at the end of a tick;
  - which factory callbacks the library invokes, and when.

  The backing pool is the per-address idle and active counts of `KeyedPool`.
  `makeObject`, `destroyObject` and `passivateObject` are modelled as methods of
  their own, but `preparePool`, borrow, return, clear and close do not call
  them. In particular the connections `preparePool` creates are not reported:
  neither the node's nor the global created counter counts them, although
  `addNode` registers the node first so that the program's counters would.
- Thrift and socket I/O. Opening and closing a connection only flip its `open`
  flag. A failed open is the `opens` parameter of `MakeObject`.
- `Pelops.java`. It is a static name-to-pool map that only delegates.
- Logging, `toString`, the Policy getters and setters, and the no-op
  `decommission`.
- The suspension strategy is not part of this model. Its effect on each node is
  the `Verdict` parameter: the answer and the suspension state it leaves
  behind. The least-loaded selector's own source is not part of this model
  either. Selection is the contract its unit test fixes, and ties are broken by
  the candidate order, which is a parameter.
- Pool.CommonsBackedPool.GetConnectionExcept: a loop that runs out of the
  supplied passes returns `StillWaiting`. The real loop would keep running, so
  this outcome stands for "has not returned yet". Unbounded waits are covered
  by the liveness lemma `UnboundedWaitEventuallyAcquires`.
- Pool.CommonsBackedPool.GetConnectionExcept: the selection is computed once,
  from the state at the call. No other thread changes the registry or the loads
  during the call. The successful borrow is applied to the backing pool after
  the loop, which leaves the same final state.
- Pool.CommonsBackedPool.RunScheduledTasks: the iteration order of the
  registry's `HashMap` after the refresh is a parameter. It must list each
  tracked address once. Neither the cluster's node list nor the strategy's
  `evaluate` can fail in the model. In the program an exception from
  `cluster.refresh()` or `getNodes()` (lines 149-150) or from `evaluate`
  (line 127) ends the tick partway: nodes already visited keep their verdict
  and clearing, the gauges of lines 135-136 keep their old values, and the
  scheduler swallows the exception (lines 85-89).
- Pool.CommonsBackedPool.constructor: the created counters stay at zero for
  the connections `preparePool` makes (see the commons-pool line above).
- Pool.CommonsBackedPool.AddNode: the same holds for the connections it
  prepares; the same for Pool.CommonsBackedPool.AddNodes.
- Pool.CommonsBackedPool.HandleClusterRefresh: the same holds for the nodes it
  adds, through AddNewNodes, and so for RunScheduledTasks.
- NodeSelection.LeastLoaded: when the hint is the only eligible candidate,
  nothing is selected, so `getConnectionExcept(hint)` can then only time out.
  The interface documentation (CommonsBackedPool.java:747) says only that the
  strategy should avoid the hint, and no unit test covers this case; the model
  takes the strict reading.
- Pool.CommonsBackedPool.constructor: `preparePool` cannot fail in the model.
  Connection creation failures while preparing are not modelled.
