/**
 * The pool orchestrator `CommonsBackedPool`: the registry of tracked nodes, the
 * maintenance tick, the acquire/release path, the report callbacks, the
 * connection factory's callbacks and the running statistics.
 *
 * Everything runs sequentially. The cluster's node list, the suspension
 * strategy's verdicts, the clock and the backing pool's borrow results are
 * parameters; the selection strategy is the least-loaded rule of NodeSelection.
 */
module Pool {
  import opened Common
  import opened NodeSelection
  import opened PoolPolicy
  import opened BackingPool
  import opened Acquisition

  /** The suspension strategy's per-node state, seen through `INodeSuspensionState.isSuspended()`. */
  datatype SuspensionState = SuspensionState(suspended: bool)

  /** `PooledNode.isSuspended()`: a node with no suspension state is not suspended. */
  predicate Suspended(s: Option<SuspensionState>)
  {
    s.Some? && s.value.suspended
  }

  /** The points at which a connection's life is reported to the pool. */
  datatype Report =
    | ConnectionCreated
    | ConnectionDestroyed
    | ConnectionCorrupted
    | ConnectionBorrowed
    | ConnectionReleased

  /** The observable state of one `PooledNode`. */
  datatype NodeState = NodeState(
    suspensionState: Option<SuspensionState>,
    suspensions: int,
    connectionsCorrupted: int,
    connectionsCreated: int,
    connectionsDestroyed: int,
    connectionsBorrowedTotal: int,
    connectionsReleasedTotal: int)
  {
    function Count(kind: Report): int
    {
      match kind
      case ConnectionCreated => connectionsCreated
      case ConnectionDestroyed => connectionsDestroyed
      case ConnectionCorrupted => connectionsCorrupted
      case ConnectionBorrowed => connectionsBorrowedTotal
      case ConnectionReleased => connectionsReleasedTotal
    }

    /** One report moves its own counter by one and nothing else. */
    function Bump(kind: Report): (s: NodeState)
      ensures s.Count(kind) == Count(kind) + 1
      ensures forall k :: k != kind ==> s.Count(k) == Count(k)
      ensures s.suspensionState == suspensionState && s.suspensions == suspensions
    {
      match kind
      case ConnectionCreated => this.(connectionsCreated := connectionsCreated + 1)
      case ConnectionDestroyed => this.(connectionsDestroyed := connectionsDestroyed + 1)
      case ConnectionCorrupted => this.(connectionsCorrupted := connectionsCorrupted + 1)
      case ConnectionBorrowed => this.(connectionsBorrowedTotal := connectionsBorrowedTotal + 1)
      case ConnectionReleased => this.(connectionsReleasedTotal := connectionsReleasedTotal + 1)
    }
  }

  /** A node as it is created: no suspension state, every counter at zero. */
  const InitialNodeState: NodeState := NodeState(None, 0, 0, 0, 0, 0, 0)

  /** What the suspension strategy's `evaluate` did to one node: its answer and the state it left behind. */
  datatype Verdict = Verdict(suspend: bool, state: Option<SuspensionState>)

  /** A node's state after one evaluation in a maintenance tick. */
  function Evaluated(s: NodeState, v: Verdict): NodeState
  {
    s.(suspensionState := v.state, suspensions := if v.suspend then s.suspensions + 1 else s.suspensions)
  }

  /** The addresses among `keys` that the strategy suspended in this tick. */
  function Suspending(keys: set<Address>, evaluate: Address -> Verdict): set<Address>
  {
    set a | a in keys && evaluate(a).suspend
  }

  lemma SuspendingAddOne(keys: set<Address>, x: Address, evaluate: Address -> Verdict)
    requires x !in keys
    ensures |Suspending(keys + {x}, evaluate)| == |Suspending(keys, evaluate)| + (if evaluate(x).suspend then 1 else 0)
  {
    if evaluate(x).suspend {
      assert Suspending(keys + {x}, evaluate) == Suspending(keys, evaluate) + {x};
    } else {
      assert Suspending(keys + {x}, evaluate) == Suspending(keys, evaluate);
    }
  }

  /** How many of the nodes visited in `order` the strategy suspended, counted as the loop counts them. */
  function CountSuspending(order: seq<Address>, evaluate: Address -> Verdict): nat
  {
    if order == [] then 0
    else CountSuspending(order[..|order| - 1], evaluate) + (if evaluate(order[|order| - 1]).suspend then 1 else 0)
  }

  /** Counting along an iteration order that visits every node once gives the number of suspended nodes. */
  lemma {:induction false} CountIsSuspendedNodes(order: seq<Address>, evaluate: Address -> Verdict)
    requires Distinct(order)
    ensures CountSuspending(order, evaluate) == |Suspending(Elems(order), evaluate)|
    decreases |order|
  {
    if order != [] {
      var init, last := order[..|order| - 1], order[|order| - 1];
      assert Distinct(init);
      CountIsSuspendedNodes(init, evaluate);
      assert last !in Elems(init);
      assert order == init + [last];
      assert Elems(order) == Elems(init) + {last};
      SuspendingAddOne(Elems(init), last, evaluate);
    }
  }

  /** Moving one address from the unvisited part of a set to its visited part keeps the split. */
  lemma MoveOne(done: set<Address>, remaining: set<Address>, keys: set<Address>, x: Address)
    requires done + remaining == keys && done !! remaining && x in remaining
    ensures (done + {x}) + (remaining - {x}) == keys && (done + {x}) !! (remaining - {x})
  {
  }

  /** The node states after the addresses of `order` have been evaluated one after the other. */
  function EvaluatedAlong(states: map<Address, NodeState>, order: seq<Address>, evaluate: Address -> Verdict): map<Address, NodeState>
  {
    if order == [] then states
    else
      var m, x := EvaluatedAlong(states, order[..|order| - 1], evaluate), order[|order| - 1];
      if x in m then m[x := Evaluated(m[x], evaluate(x))] else m
  }

  /** The backing pool after the addresses of `order` have been evaluated: each suspension clears its address. */
  function ClearedAlong(p: KeyedPool, order: seq<Address>, evaluate: Address -> Verdict): KeyedPool
  {
    if order == [] then p
    else
      var q, x := ClearedAlong(p, order[..|order| - 1], evaluate), order[|order| - 1];
      if evaluate(x).suspend then q.Clear(x) else q
  }

  /** One more pass of the suspension loop, as seen by the three quantities it accumulates. */
  lemma EvaluationStep(order: seq<Address>, i: int, states: map<Address, NodeState>, prior: KeyedPool, evaluate: Address -> Verdict)
    requires 0 <= i < |order|
    ensures CountSuspending(order[..i + 1], evaluate)
            == CountSuspending(order[..i], evaluate) + (if evaluate(order[i]).suspend then 1 else 0)
    ensures var m := EvaluatedAlong(states, order[..i], evaluate);
            EvaluatedAlong(states, order[..i + 1], evaluate)
            == if order[i] in m then m[order[i] := Evaluated(m[order[i]], evaluate(order[i]))] else m
    ensures var q := ClearedAlong(prior, order[..i], evaluate);
            ClearedAlong(prior, order[..i + 1], evaluate) == if evaluate(order[i]).suspend then q.Clear(order[i]) else q
  {
    assert order[..i + 1][..i] == order[..i];
  }

  /** Evaluating along an order that visits each address once applies each node's verdict exactly once. */
  lemma {:induction false} EvaluatedAlongIsEachVerdict(states: map<Address, NodeState>, order: seq<Address>, evaluate: Address -> Verdict)
    requires Distinct(order)
    ensures EvaluatedAlong(states, order, evaluate).Keys == states.Keys
    ensures forall a :: a in states ==>
              EvaluatedAlong(states, order, evaluate)[a] == if a in order then Evaluated(states[a], evaluate(a)) else states[a]
    decreases |order|
  {
    if order != [] {
      var init, x := order[..|order| - 1], order[|order| - 1];
      assert Distinct(init);
      EvaluatedAlongIsEachVerdict(states, init, evaluate);
      assert order == init + [x];
      assert x !in init;
    }
  }

  /** Clearing along an order leaves no idle connection at exactly the suspended addresses it visits. */
  lemma {:induction false} ClearedAlongIsSuspended(p: KeyedPool, order: seq<Address>, evaluate: Address -> Verdict)
    ensures forall a :: ClearedAlong(p, order, evaluate).Idle(a) == if a in order && evaluate(a).suspend then 0 else p.Idle(a)
    ensures ClearedAlong(p, order, evaluate).active == p.active && ClearedAlong(p, order, evaluate).closed == p.closed
    decreases |order|
  {
    if order != [] {
      var init, x := order[..|order| - 1], order[|order| - 1];
      ClearedAlongIsSuspended(p, init, evaluate);
      assert order == init + [x];
    }
  }

  /** The process-wide counters of `RunningStatistics`. */
  datatype Statistics = Statistics(
    nodesActive: int,
    nodesSuspended: int,
    connectionsCreated: int,
    connectionsDestroyed: int,
    connectionsCorrupted: int,
    connectionsActive: int,
    connectionsBorrowedTotal: int,
    connectionsReleasedTotal: int)
  {
    function Count(kind: Report): int
    {
      match kind
      case ConnectionCreated => connectionsCreated
      case ConnectionDestroyed => connectionsDestroyed
      case ConnectionCorrupted => connectionsCorrupted
      case ConnectionBorrowed => connectionsBorrowedTotal
      case ConnectionReleased => connectionsReleasedTotal
    }

    /** One report moves its own global counter by one; the node and active counts do not move. */
    function Bump(kind: Report): (s: Statistics)
      ensures s.Count(kind) == Count(kind) + 1
      ensures forall k :: k != kind ==> s.Count(k) == Count(k)
      ensures s.nodesActive == nodesActive && s.nodesSuspended == nodesSuspended
      ensures s.connectionsActive == connectionsActive
    {
      match kind
      case ConnectionCreated => this.(connectionsCreated := connectionsCreated + 1)
      case ConnectionDestroyed => this.(connectionsDestroyed := connectionsDestroyed + 1)
      case ConnectionCorrupted => this.(connectionsCorrupted := connectionsCorrupted + 1)
      case ConnectionBorrowed => this.(connectionsBorrowedTotal := connectionsBorrowedTotal + 1)
      case ConnectionReleased => this.(connectionsReleasedTotal := connectionsReleasedTotal + 1)
    }
  }

  const ZeroStatistics: Statistics := Statistics(0, 0, 0, 0, 0, 0, 0, 0)

  class RunningStatistics {
    var nodesActive: int
    var nodesSuspended: int
    var connectionsCreated: int
    var connectionsDestroyed: int
    var connectionsCorrupted: int
    var connectionsActive: int
    var connectionsBorrowedTotal: int
    var connectionsReleasedTotal: int

    function Snapshot(): Statistics
      reads this
    {
      Statistics(nodesActive, nodesSuspended, connectionsCreated, connectionsDestroyed,
                 connectionsCorrupted, connectionsActive, connectionsBorrowedTotal, connectionsReleasedTotal)
    }

    constructor ()
      ensures Snapshot() == ZeroStatistics
    {
      nodesActive, nodesSuspended := 0, 0;
      connectionsCreated, connectionsDestroyed, connectionsCorrupted := 0, 0, 0;
      connectionsActive, connectionsBorrowedTotal, connectionsReleasedTotal := 0, 0, 0;
    }

    /** The node gauges are overwritten at the end of each maintenance tick. */
    method SetNodeCounts(active: int, suspended: int)
      modifies this
      ensures Snapshot() == old(Snapshot()).(nodesActive := active, nodesSuspended := suspended)
    {
      nodesActive := active;
      nodesSuspended := suspended;
    }
  }

  /** The per-node health record. */
  class PooledNode {
    const address: Address
    var suspensionState: Option<SuspensionState>
    var suspensions: int
    var connectionsCorrupted: int
    var connectionsCreated: int
    var connectionsDestroyed: int
    var connectionsBorrowedTotal: int
    var connectionsReleasedTotal: int

    function State(): NodeState
      reads this
    {
      NodeState(suspensionState, suspensions, connectionsCorrupted, connectionsCreated,
                connectionsDestroyed, connectionsBorrowedTotal, connectionsReleasedTotal)
    }

    constructor (address: Address)
      ensures this.address == address
      ensures State() == InitialNodeState && !IsSuspended()
    {
      this.address := address;
      suspensionState := None;
      suspensions := 0;
      connectionsCorrupted, connectionsCreated, connectionsDestroyed := 0, 0, 0;
      connectionsBorrowedTotal, connectionsReleasedTotal := 0, 0;
    }

    predicate IsSuspended()
      reads this
      ensures IsSuspended() <==> suspensionState != None && suspensionState.value.suspended
    {
      Suspended(suspensionState)
    }

    method SetSuspensionState(s: Option<SuspensionState>)
      modifies this
      ensures State() == old(State()).(suspensionState := s)
    {
      suspensionState := s;
    }

    method ReportSuspension()
      modifies this
      ensures State() == old(State()).(suspensions := old(suspensions) + 1)
    {
      suspensions := suspensions + 1;
    }

    /** The node's part of a suspension evaluation: the strategy's new state, and one more suspension if it suspends. */
    method Evaluate(verdict: Verdict)
      modifies this
      ensures State() == Evaluated(old(State()), verdict)
      ensures IsSuspended() == Suspended(verdict.state)
    {
      SetSuspensionState(verdict.state);
      if verdict.suspend {
        ReportSuspension();
      }
    }

    method ReportConnectionCorrupted()
      modifies this
      ensures State() == old(State()).Bump(ConnectionCorrupted)
    {
      connectionsCorrupted := connectionsCorrupted + 1;
    }

    method ReportConnectionCreated()
      modifies this
      ensures State() == old(State()).Bump(ConnectionCreated)
    {
      connectionsCreated := connectionsCreated + 1;
    }

    method ReportConnectionDestroyed()
      modifies this
      ensures State() == old(State()).Bump(ConnectionDestroyed)
    {
      connectionsDestroyed := connectionsDestroyed + 1;
    }

    method ReportConnectionBorrowed()
      modifies this
      ensures State() == old(State()).Bump(ConnectionBorrowed)
    {
      connectionsBorrowedTotal := connectionsBorrowedTotal + 1;
    }

    method ReportConnectionReleased()
      modifies this
      ensures State() == old(State()).Bump(ConnectionReleased)
    {
      connectionsReleasedTotal := connectionsReleasedTotal + 1;
    }
  }

  /** A pooled connection: bound to one node, with a caller-set corruption flag. */
  class PooledConnection {
    const address: Address
    var corrupt: bool
    var open: bool

    constructor (address: Address)
      ensures this.address == address && !corrupt && !open
    {
      this.address := address;
      corrupt := false;
      open := false;
    }

    /** `corrupted()`: the caller marks the connection unusable after a failed exchange. */
    method Corrupted()
      modifies this
      ensures corrupt && open == old(open)
      ensures !ValidateObject(this)
    {
      corrupt := true;
    }

    /** The socket is opened (the I/O itself is not modelled). */
    method Open()
      modifies this
      ensures open && corrupt == old(corrupt)
    {
      open := true;
    }

    /** The socket is closed (the I/O itself is not modelled). */
    method Close()
      modifies this
      ensures !open && corrupt == old(corrupt)
    {
      open := false;
    }
  }

  /** `ConnectionFactory.validateObject`: a connection may be recycled iff it is not corrupt and still open. */
  function ValidateObject(connection: PooledConnection): (valid: bool)
    reads connection
    ensures valid <==> !connection.corrupt && connection.open
  {
    if connection.corrupt || !connection.open then false else true
  }

  /** The inner loop of a refresh: whether `nodeAddress` is among the cluster's current nodes. */
  method IsPresent(currentNodes: seq<Address>, nodeAddress: Address) returns (isPresent: bool)
    ensures isPresent <==> nodeAddress in currentNodes
  {
    isPresent := false;
    for j := 0 to |currentNodes|
      invariant isPresent <==> nodeAddress in currentNodes[..j]
    {
      assert currentNodes[..j + 1] == currentNodes[..j] + [currentNodes[j]];
      if currentNodes[j] == nodeAddress {
        isPresent := true;
      }
    }
    assert currentNodes[..|currentNodes|] == currentNodes;
  }

  /** Adding the listed addresses and then keeping only listed ones leaves exactly the list. */
  lemma KeptAreCurrent(tracked: set<Address>, current: set<Address>)
    ensures (tracked + current) * current == current
  {
  }

  class CommonsBackedPool {
    const policy: Policy
    const statistics: RunningStatistics
    /** Whether the background maintenance task was scheduled (`executorService != null`). */
    const scheduledTasksEnabled: bool
    /** The registry: tracked address to its health record. */
    var nodes: map<Address, PooledNode>
    /** The backing keyed pool. */
    var backing: KeyedPool

    /** Every registry entry is the record of its own address (so distinct addresses have distinct records). */
    ghost predicate Valid()
      reads this`nodes
    {
      forall a :: a in nodes ==> nodes[a].address == a
    }

    /** The selection strategy's view of the registry. */
    function Views(): (v: map<Address, NodeView>)
      reads this, nodes.Values
      ensures Consistent(v) && v.Keys == nodes.Keys
    {
      map a | a in nodes :: NodeView(a, nodes[a].IsSuspended(), backing.Active(a))
    }

    /** The address the least-loaded strategy picks among `candidates`, avoiding the hint. */
    function Select(candidates: seq<Address>, notNodeHint: Option<Address>): Option<Address>
      reads this, nodes.Values
    {
      var node := LeastLoaded(candidates, Views(), notNodeHint);
      if node.Some? then Some(node.value.address) else None
    }

    /** Every report: the global counter of its kind moves by one, and the node's, if still tracked. */
    twostate predicate Reported(kind: Report, nodeAddress: Address)
      reads this, statistics, nodes.Values
    {
      && statistics.Snapshot() == old(statistics.Snapshot()).Bump(kind)
      && nodes == old(nodes)
      && forall a :: a in nodes ==>
           nodes[a].State() == if a == nodeAddress then old(nodes[a].State()).Bump(kind) else old(nodes[a].State())
    }

    /**
     * A successful acquire from `nodeAddress`: the backing pool lends one connection, the active
     * gauge goes up by one and the borrow is reported.
     */
    twostate predicate CheckedOut(nodeAddress: Address)
      reads this, statistics, nodes.Values
    {
      && backing == old(backing).Borrow(nodeAddress)
      && statistics.Snapshot() == old(statistics.Snapshot()).(connectionsActive := old(statistics.connectionsActive) + 1).Bump(ConnectionBorrowed)
      && nodes == old(nodes)
      && forall a :: a in nodes ==>
           nodes[a].State() == if a == nodeAddress then old(nodes[a].State()).Bump(ConnectionBorrowed) else old(nodes[a].State())
    }

    /**
     * A successful release to `nodeAddress`: the backing pool takes the connection back (keeping it
     * idle only if it validates), the active gauge goes down by one and the release is reported.
     */
    twostate predicate CheckedIn(nodeAddress: Address, valid: bool)
      reads this, statistics, nodes.Values
    {
      && backing == old(backing).Return(nodeAddress, valid)
      && statistics.Snapshot() == old(statistics.Snapshot()).(connectionsActive := old(statistics.connectionsActive) - 1).Bump(ConnectionReleased)
      && nodes == old(nodes)
      && forall a :: a in nodes ==>
           nodes[a].State() == if a == nodeAddress then old(nodes[a].State()).Bump(ConnectionReleased) else old(nodes[a].State())
    }

    /** Nothing the statistics or the nodes hold has moved. */
    twostate predicate CountersUnchanged()
      reads this, statistics, nodes.Values
    {
      && statistics.Snapshot() == old(statistics.Snapshot())
      && nodes == old(nodes)
      && forall a :: a in nodes ==> nodes[a].State() == old(nodes[a].State())
    }

    constructor (policy: Policy, initialNodes: seq<Address>)
      ensures Valid() && this.policy == policy
      ensures scheduledTasksEnabled == ScheduledTasksEnabled(policy)
      ensures nodes.Keys == Elems(initialNodes)
      ensures forall a :: a in nodes ==> fresh(nodes[a]) && nodes[a].State() == InitialNodeState
      ensures fresh(statistics) && statistics.Snapshot() == ZeroStatistics.(nodesActive := |nodes.Keys|)
      ensures !backing.closed
      ensures forall a :: backing.Active(a) == 0
      ensures forall a :: backing.Idle(a) == if a in nodes then Max(0, policy.minIdlePerNode) else 0
    {
      this.policy := policy;
      statistics := new RunningStatistics();
      scheduledTasksEnabled := ScheduledTasksEnabled(policy);
      nodes := map[];
      backing := KeyedPool(map[], map[], false);
      new;
      AddNodes(initialNodes);
      statistics.nodesActive := |nodes.Keys|;
    }

    /** `getPooledNode(address)`: the record of a tracked address, or null. */
    method GetPooledNode(nodeAddress: Address) returns (node: PooledNode?)
      requires Valid()
      ensures node == null <==> nodeAddress !in nodes
      ensures node != null ==> node == nodes[nodeAddress] && node.address == nodeAddress
    {
      node := if nodeAddress in nodes then nodes[nodeAddress] else null;
    }

    /** `addNode`: a new record replaces any previous one, then idle connections are prepared. */
    method AddNode(nodeAddress: Address)
      requires Valid()
      modifies this`nodes, this`backing
      ensures Valid()
      ensures nodes.Keys == old(nodes.Keys) + {nodeAddress}
      ensures forall a :: a in old(nodes) && a != nodeAddress ==> nodes[a] == old(nodes[a])
      ensures fresh(nodes[nodeAddress]) && nodes[nodeAddress].State() == InitialNodeState
      ensures backing == old(backing).EnsureMinIdle(nodeAddress, policy.minIdlePerNode)
    {
      var node := new PooledNode(nodeAddress);
      nodes := nodes[nodeAddress := node];
      backing := backing.EnsureMinIdle(nodeAddress, policy.minIdlePerNode);
    }

    /** `removeNode`: the record is dropped, then the address's idle connections are cleared. */
    method RemoveNode(nodeAddress: Address)
      requires Valid()
      modifies this`nodes, this`backing
      ensures Valid()
      ensures nodes == old(nodes) - {nodeAddress}
      ensures backing == old(backing).Clear(nodeAddress)
    {
      nodes := nodes - {nodeAddress};
      backing := backing.Clear(nodeAddress);
      // `decommission()` on the removed record does nothing.
    }

    /** The constructor's loop: every listed address gets a fresh record and prepared idle connections. */
    method AddNodes(addresses: seq<Address>)
      requires Valid()
      modifies this`nodes, this`backing
      ensures Valid()
      ensures nodes.Keys == old(nodes.Keys) + Elems(addresses)
      ensures forall a :: a in nodes ==>
                if a in addresses then fresh(nodes[a]) && nodes[a].State() == InitialNodeState else nodes[a] == old(nodes[a])
      ensures forall a :: backing.Idle(a) ==
                if a in addresses && !old(backing.closed) then Max(old(backing).Idle(a), policy.minIdlePerNode) else old(backing).Idle(a)
      ensures backing.active == old(backing.active) && backing.closed == old(backing.closed)
    {
      for i := 0 to |addresses|
        invariant Valid()
        invariant nodes.Keys == old(nodes.Keys) + Elems(addresses[..i])
        invariant forall a :: a in nodes ==>
                    if a in Elems(addresses[..i]) then fresh(nodes[a]) && nodes[a].State() == InitialNodeState
                    else nodes[a] == old(nodes[a])
        invariant backing == old(backing).PrepareAll(addresses[..i], policy.minIdlePerNode)
      {
        ElemsGrow(addresses, i);
        assert addresses[..i + 1][..i] == addresses[..i];
        AddNode(addresses[i]);
      }
      assert addresses[..|addresses|] == addresses;
      ElemsAll(addresses);
      old(backing).PrepareAllIdle(addresses, policy.minIdlePerNode);
    }

    /** `handleClusterRefresh`: the registry is reconciled with the cluster's current node list. */
    method HandleClusterRefresh(currentNodes: seq<Address>)
      requires Valid()
      modifies this`nodes, this`backing
      ensures Valid()
      ensures nodes.Keys == Elems(currentNodes)
      ensures forall a :: a in nodes && a in old(nodes) ==> nodes[a] == old(nodes[a])
      ensures forall a :: a in nodes && a !in old(nodes) ==> fresh(nodes[a]) && nodes[a].State() == InitialNodeState
      ensures forall a :: backing.Idle(a) ==
                if a in old(nodes) && a !in currentNodes then 0
                else if a !in old(nodes) && a in currentNodes && !old(backing.closed) then Max(old(backing).Idle(a), policy.minIdlePerNode)
                else old(backing).Idle(a)
      ensures backing.active == old(backing.active) && backing.closed == old(backing.closed)
    {
      AddNewNodes(currentNodes);
      RemoveDeadNodes(currentNodes);
      KeptAreCurrent(old(nodes.Keys), Elems(currentNodes));
    }

    /** The first half of a refresh: every listed address not yet tracked is added. */
    method AddNewNodes(currentNodes: seq<Address>)
      requires Valid()
      modifies this`nodes, this`backing
      ensures Valid()
      ensures nodes.Keys == old(nodes.Keys) + Elems(currentNodes)
      ensures forall a :: a in old(nodes) ==> nodes[a] == old(nodes[a])
      ensures forall a :: a in nodes && a !in old(nodes) ==> fresh(nodes[a]) && nodes[a].State() == InitialNodeState
      ensures forall a :: backing.Idle(a) ==
                if a !in old(nodes) && a in currentNodes && !old(backing.closed) then Max(old(backing).Idle(a), policy.minIdlePerNode)
                else old(backing).Idle(a)
      ensures backing.active == old(backing.active) && backing.closed == old(backing.closed)
    {
      for i := 0 to |currentNodes|
        invariant Valid()
        invariant nodes.Keys == old(nodes.Keys) + Elems(currentNodes[..i])
        invariant forall a :: a in old(nodes) ==> nodes[a] == old(nodes[a])
        invariant forall a :: a in nodes && a !in old(nodes) ==> fresh(nodes[a]) && nodes[a].State() == InitialNodeState
        invariant forall a :: backing.Idle(a) ==
                    if a !in old(nodes) && a in Elems(currentNodes[..i]) && !old(backing.closed) then Max(old(backing).Idle(a), policy.minIdlePerNode)
                    else old(backing).Idle(a)
        invariant backing.active == old(backing.active) && backing.closed == old(backing.closed)
      {
        ElemsGrow(currentNodes, i);
        if currentNodes[i] !in nodes {
          AddNode(currentNodes[i]);
        }
      }
      ElemsAll(currentNodes);
    }

    /** The second half of a refresh: every tracked address missing from the list is removed. */
    method RemoveDeadNodes(currentNodes: seq<Address>)
      requires Valid()
      modifies this`nodes, this`backing
      ensures Valid()
      ensures nodes.Keys == old(nodes.Keys) * Elems(currentNodes)
      ensures forall a :: a in nodes ==> nodes[a] == old(nodes[a])
      ensures forall a :: backing.Idle(a) == if a in old(nodes) && a !in currentNodes then 0 else old(backing).Idle(a)
      ensures backing.active == old(backing.active) && backing.closed == old(backing.closed)
    {
      ghost var done: set<Address> := {};
      var remaining := nodes.Keys;
      while remaining != {}
        invariant Valid()
        invariant done + remaining == old(nodes.Keys) && done !! remaining
        invariant forall a :: a in nodes <==> a in remaining || (a in done && a in currentNodes)
        invariant forall a :: a in nodes ==> nodes[a] == old(nodes[a])
        invariant forall a :: backing.Idle(a) == if a in done && a !in currentNodes then 0 else old(backing).Idle(a)
        invariant backing.active == old(backing.active) && backing.closed == old(backing.closed)
        decreases remaining
      {
        var nodeAddress :| nodeAddress in remaining;
        var isPresent := IsPresent(currentNodes, nodeAddress);
        if !isPresent {
          RemoveNode(nodeAddress);
        }
        MoveOne(done, remaining, old(nodes.Keys), nodeAddress);
        done := done + {nodeAddress};
        remaining := remaining - {nodeAddress};
      }
    }

    /** The state of every tracked node, by address. */
    function NodeStates(): (m: map<Address, NodeState>)
      reads this`nodes, nodes.Values
      ensures m.Keys == nodes.Keys
    {
      map a | a in nodes :: nodes[a].State()
    }

    /** One node's evaluation: its suspension state is replaced, and a suspension clears its idle connections. */
    method EvaluateNode(nodeAddress: Address, verdict: Verdict)
      requires Valid() && nodeAddress in nodes
      modifies this`backing, nodes[nodeAddress]
      ensures NodeStates() == old(NodeStates())[nodeAddress := Evaluated(old(NodeStates())[nodeAddress], verdict)]
      ensures backing == if verdict.suspend then old(backing).Clear(nodeAddress) else old(backing)
    {
      var node := nodes[nodeAddress];
      node.Evaluate(verdict);
      if verdict.suspend {
        // a suspended node keeps no idle connection
        backing := backing.Clear(nodeAddress);
      }
      forall a | a in nodes
        ensures NodeStates()[a] == old(NodeStates())[nodeAddress := Evaluated(old(NodeStates())[nodeAddress], verdict)][a]
      {
        if a != nodeAddress {
          assert nodes[a] != node;
        }
      }
    }

    /**
     * The suspension pass of a tick: every tracked node is evaluated, in the iteration order
     * `order` of the registry; suspended ones lose their idle connections, and the node gauges
     * are set from the count.
     */
    method EvaluateSuspensions(order: seq<Address>, evaluate: Address -> Verdict)
      requires Valid()
      requires Elems(order) == nodes.Keys && Distinct(order)
      modifies this`backing, statistics, nodes.Values
      ensures Valid()
      ensures forall a :: a in nodes ==> nodes[a].State() == Evaluated(old(nodes[a].State()), evaluate(a))
      ensures forall a :: backing.Idle(a) == if a in nodes && evaluate(a).suspend then 0 else old(backing).Idle(a)
      ensures backing.active == old(backing.active) && backing.closed == old(backing.closed)
      ensures statistics.Snapshot() == old(statistics.Snapshot()).(
                nodesSuspended := |Suspending(nodes.Keys, evaluate)|,
                nodesActive := |nodes.Keys| - |Suspending(nodes.Keys, evaluate)|)
    {
      var nodesSuspended := EvaluateEach(order, evaluate);
      statistics.SetNodeCounts(|nodes.Keys| - nodesSuspended, nodesSuspended);
    }

    /**
     * Every tracked node evaluated once: its verdict applied, its idle connections cleared if
     * suspended, and the suspensions counted. This is the loop of `EvaluateAll` restated per node;
     * the two are kept apart from `EvaluateSuspensions` so that each proof stays small.
     */
    method EvaluateEach(order: seq<Address>, evaluate: Address -> Verdict) returns (nodesSuspended: int)
      requires Valid()
      requires Elems(order) == nodes.Keys && Distinct(order)
      modifies this`backing, nodes.Values
      ensures forall a :: a in nodes ==> nodes[a].State() == Evaluated(old(nodes[a].State()), evaluate(a))
      ensures forall a :: backing.Idle(a) == if a in nodes && evaluate(a).suspend then 0 else old(backing).Idle(a)
      ensures backing.active == old(backing.active) && backing.closed == old(backing.closed)
      ensures nodesSuspended == |Suspending(nodes.Keys, evaluate)|
    {
      nodesSuspended := EvaluateAll(order, evaluate);
      EvaluatedAlongIsEachVerdict(old(NodeStates()), order, evaluate);
      ClearedAlongIsSuspended(old(backing), order, evaluate);
      CountIsSuspendedNodes(order, evaluate);
      forall a | a in nodes
        ensures nodes[a].State() == Evaluated(old(nodes[a].State()), evaluate(a))
      {
        assert nodes[a].State() == NodeStates()[a];
        assert old(nodes[a].State()) == old(NodeStates())[a];
      }
    }

    /** The loop of the suspension pass: each tracked node in turn, counting the suspended ones. */
    method EvaluateAll(order: seq<Address>, evaluate: Address -> Verdict) returns (nodesSuspended: int)
      requires Valid()
      requires Elems(order) == nodes.Keys
      modifies this`backing, nodes.Values
      ensures NodeStates() == EvaluatedAlong(old(NodeStates()), order, evaluate)
      ensures backing == ClearedAlong(old(backing), order, evaluate)
      ensures nodesSuspended == CountSuspending(order, evaluate)
    {
      nodesSuspended := 0;
      for i := 0 to |order|
        invariant nodesSuspended == CountSuspending(order[..i], evaluate)
        invariant NodeStates() == EvaluatedAlong(old(NodeStates()), order[..i], evaluate)
        invariant backing == ClearedAlong(old(backing), order[..i], evaluate)
      {
        var nodeAddress := order[i];
        EvaluationStep(order, i, old(NodeStates()), old(backing), evaluate);
        var verdict := evaluate(nodeAddress);
        EvaluateNode(nodeAddress, verdict);
        if verdict.suspend {
          nodesSuspended := nodesSuspended + 1;
        }
      }
      assert order[..|order|] == order;
    }

    /**
     * `runScheduledTasks`: one maintenance tick, given the cluster's node list after its refresh,
     * the order in which the refreshed registry is then iterated, and the suspension strategy's verdicts.
     */
    method RunScheduledTasks(currentNodes: seq<Address>, order: seq<Address>, evaluate: Address -> Verdict)
      requires Valid()
      requires Elems(order) == Elems(currentNodes) && Distinct(order)
      modifies this`nodes, this`backing, statistics, nodes.Values
      ensures Valid()
      ensures nodes.Keys == Elems(currentNodes)
      ensures forall a :: a in nodes && a in old(nodes) ==>
                nodes[a] == old(nodes[a]) && nodes[a].State() == Evaluated(old(nodes[a].State()), evaluate(a))
      ensures forall a :: a in nodes && a !in old(nodes) ==>
                fresh(nodes[a]) && nodes[a].State() == Evaluated(InitialNodeState, evaluate(a))
      ensures statistics.Snapshot() == old(statistics.Snapshot()).(
                nodesSuspended := |Suspending(nodes.Keys, evaluate)|,
                nodesActive := |nodes.Keys| - |Suspending(nodes.Keys, evaluate)|)
      ensures forall a :: backing.Idle(a) ==
                if a in nodes && evaluate(a).suspend then 0
                else if a in old(nodes) && a !in nodes then 0
                else if a !in old(nodes) && a in nodes && !old(backing.closed) then Max(old(backing).Idle(a), policy.minIdlePerNode)
                else old(backing).Idle(a)
      ensures backing.active == old(backing.active) && backing.closed == old(backing.closed)
    {
      // first reconcile the registry with the cluster
      HandleClusterRefresh(currentNodes);
      // then let the strategy judge every tracked node
      EvaluateSuspensions(order, evaluate);
      // Idle eviction by the backing pool is best-effort and not modelled.
    }

    method ReportConnectionCreated(nodeAddress: Address)
      requires Valid()
      modifies statistics, nodes.Values
      ensures Reported(ConnectionCreated, nodeAddress)
    {
      statistics.connectionsCreated := statistics.connectionsCreated + 1;
      var node := GetPooledNode(nodeAddress);
      if node != null {
        node.ReportConnectionCreated();
      }
    }

    method ReportConnectionDestroyed(nodeAddress: Address)
      requires Valid()
      modifies statistics, nodes.Values
      ensures Reported(ConnectionDestroyed, nodeAddress)
    {
      statistics.connectionsDestroyed := statistics.connectionsDestroyed + 1;
      var node := GetPooledNode(nodeAddress);
      if node != null {
        node.ReportConnectionDestroyed();
      }
    }

    method ReportConnectionCorrupted(nodeAddress: Address)
      requires Valid()
      modifies statistics, nodes.Values
      ensures Reported(ConnectionCorrupted, nodeAddress)
    {
      statistics.connectionsCorrupted := statistics.connectionsCorrupted + 1;
      var pooledNode := GetPooledNode(nodeAddress);
      if pooledNode != null {  // the node may have been removed
        pooledNode.ReportConnectionCorrupted();
      }
    }

    method ReportConnectionBorrowed(nodeAddress: Address)
      requires Valid()
      modifies statistics, nodes.Values
      ensures Reported(ConnectionBorrowed, nodeAddress)
    {
      statistics.connectionsBorrowedTotal := statistics.connectionsBorrowedTotal + 1;
      var pooledNode := GetPooledNode(nodeAddress);
      if pooledNode != null {  // the node may have been removed
        pooledNode.ReportConnectionBorrowed();
      }
    }

    method ReportConnectionReleased(nodeAddress: Address)
      requires Valid()
      modifies statistics, nodes.Values
      ensures Reported(ConnectionReleased, nodeAddress)
    {
      statistics.connectionsReleasedTotal := statistics.connectionsReleasedTotal + 1;
      var pooledNode := GetPooledNode(nodeAddress);
      if pooledNode != null {  // the node may have been removed
        pooledNode.ReportConnectionReleased();
      }
    }

    /**
     * `getConnectionExcept`: the acquire loop. `candidates` is the iteration order of the
     * registry's key set; `attempts` gives, pass by pass, the clock reading at the loop head
     * and what the backing pool's borrow did.
     */
    method GetConnectionExcept(notNodeHint: Option<Address>, candidates: seq<Address>, attempts: seq<Attempt>)
      returns (r: AcquireOutcome)
      requires Valid()
      requires Elems(candidates) == nodes.Keys
      modifies this`backing, statistics, nodes.Values
      ensures Valid()
      ensures r == Acquire(old(Select(candidates, notNodeHint)), old(backing.closed), attempts, policy.maxWaitForConnection)
      ensures r.Acquired? ==> r.address in nodes && CheckedOut(r.address)
      ensures !r.Acquired? ==> backing == old(backing) && CountersUnchanged()
    {
      ghost var selected := Select(candidates, notNodeHint);
      var node: Option<NodeView> := None;
      var connection := false;
      var timeout := UNSET_TIMEOUT;
      var i := 0;
      while !connection
        invariant 0 <= i <= |attempts|
        invariant !connection ==>
                    AcquireFrom(selected, backing.closed, attempts[i..], policy.maxWaitForConnection, timeout)
                    == Acquire(selected, backing.closed, attempts, policy.maxWaitForConnection)
        invariant connection ==>
                    && node.Some? && selected == Some(node.value.address) && node.value.address in nodes
                    && Acquire(selected, backing.closed, attempts, policy.maxWaitForConnection) == Acquired(node.value.address)
        decreases |attempts| - i, if connection then 0 else 1
      {
        if i == |attempts| {
          return StillWaiting;
        }
        var now := attempts[i].now;
        if timeout == UNSET_TIMEOUT {
          // the deadline is set from the first attempt, which is never checked against it
          timeout := Deadline(policy.maxWaitForConnection, now);
        } else if timeout < now {
          break;
        }

        node := LeastLoaded(candidates, Views(), notNodeHint);
        // nothing eligible: wait a little and select again
        if node.None? {
          i := i + 1;
          continue;
        }

        // borrowObject on a closed pool throws IllegalStateException: fatal
        if backing.closed {
          return PoolShutdown;
        }
        assert attempts[i..][0] == attempts[i] && attempts[i..][1..] == attempts[i + 1..];
        // NoSuchElementException and any other exception: try again
        connection := attempts[i].borrow == Borrowed;
        i := i + 1;
      }

      if node.None? || !connection {
        return NoConnectionsAvailable;
      }

      CheckOut(node.value.address);
      r := Acquired(node.value.address);
    }

    /**
     * The borrow that ended the loop, then the end of a successful acquire: the active gauge
     * goes up and the borrow is reported.
     */
    method CheckOut(nodeAddress: Address)
      requires Valid() && nodeAddress in nodes
      modifies this`backing, statistics, nodes.Values
      ensures CheckedOut(nodeAddress)
    {
      backing := backing.Borrow(nodeAddress);
      statistics.connectionsActive := statistics.connectionsActive + 1;
      ReportConnectionBorrowed(nodeAddress);
    }

    /** `getConnection()`: acquire with no node to avoid. */
    method GetConnection(candidates: seq<Address>, attempts: seq<Attempt>) returns (r: AcquireOutcome)
      requires Valid()
      requires Elems(candidates) == nodes.Keys
      modifies this`backing, statistics, nodes.Values
      ensures Valid()
      ensures r == Acquire(old(Select(candidates, None)), old(backing.closed), attempts, policy.maxWaitForConnection)
      ensures r.Acquired? ==> r.address in nodes && CheckedOut(r.address)
      ensures !r.Acquired? ==> backing == old(backing) && CountersUnchanged()
    {
      r := GetConnectionExcept(None, candidates, attempts);
    }

    /**
     * `releaseConnection`: the connection goes back to the backing pool; only when that
     * succeeds do the active count drop and the release get reported.
     */
    method ReleaseConnection(connection: PooledConnection, returnFails: bool)
      requires Valid()
      modifies this`backing, statistics, nodes.Values
      ensures Valid()
      ensures returnFails ==> backing == old(backing) && CountersUnchanged()
      ensures !returnFails ==> CheckedIn(connection.address, ValidateObject(connection))
    {
      if returnFails {
        // the exception is swallowed
        return;
      }
      backing := backing.Return(connection.address, ValidateObject(connection));
      statistics.connectionsActive := statistics.connectionsActive - 1;
      ReportConnectionReleased(connection.address);
    }

    /** `shutdown()`: the backing pool is closed, destroying its idle connections. */
    method Shutdown()
      modifies this`backing
      ensures backing == old(backing).Close()
    {
      backing := backing.Close();
    }

    /** `ConnectionFactory.makeObject`: a new, open connection, reported as created; `null` models the exception. */
    method MakeObject(nodeAddress: Address, opens: bool) returns (connection: PooledConnection?)
      requires Valid()
      modifies statistics, nodes.Values
      ensures opens <==> connection != null
      ensures !opens ==> CountersUnchanged()
      ensures opens ==> fresh(connection) && connection.address == nodeAddress && connection.open && !connection.corrupt
      ensures opens ==> Reported(ConnectionCreated, nodeAddress)
    {
      if !opens {
        return null;
      }
      connection := new PooledConnection(nodeAddress);
      connection.Open();
      ReportConnectionCreated(nodeAddress);
    }

    /** `ConnectionFactory.destroyObject`: the connection is closed and reported as destroyed. */
    method DestroyObject(nodeAddress: Address, connection: PooledConnection)
      requires Valid()
      modifies connection, statistics, nodes.Values
      ensures !connection.open && connection.corrupt == old(connection.corrupt)
      ensures Reported(ConnectionDestroyed, nodeAddress)
    {
      connection.Close();
      ReportConnectionDestroyed(nodeAddress);
    }

    /** `ConnectionFactory.passivateObject`: a corrupt connection is reported as corrupted, nothing else is. */
    method PassivateObject(nodeAddress: Address, connection: PooledConnection)
      requires Valid()
      modifies statistics, nodes.Values
      ensures connection.corrupt ==> Reported(ConnectionCorrupted, nodeAddress)
      ensures !connection.corrupt ==> CountersUnchanged()
    {
      if connection.corrupt {
        ReportConnectionCorrupted(nodeAddress);
      }
    }
  }
}
