/**
 * The least-loaded node-selection rule: `select(pool, candidates, notNodeHint)`
 * returns a tracked, non-suspended candidate other than the hint whose number of
 * active connections is minimal, or none when no candidate qualifies.
 *
 * The candidate set is given as a sequence: its order is the iteration order of
 * the Java `Set`, which decides ties and nothing else.
 */
module NodeSelection {
  import opened Common

  /** What selection reads of a `PooledNode`: `getAddress()`, `isSuspended()`, `getNumActive()`. */
  datatype NodeView = NodeView(address: Address, suspended: bool, numActive: int)

  /** `getPooledNode(a)` answers, when it answers, with the node of address `a`. */
  predicate Consistent(nodes: map<Address, NodeView>)
  {
    forall a :: a in nodes ==> nodes[a].address == a
  }

  /** A candidate may be chosen: the pool knows it, it is not suspended and it is not the hint. */
  predicate Eligible(nodes: map<Address, NodeView>, hint: Option<Address>, a: Address)
  {
    a in nodes && !nodes[a].suspended && hint != Some(a)
  }

  function LeastLoaded(candidates: seq<Address>, nodes: map<Address, NodeView>, hint: Option<Address>): (r: Option<NodeView>)
    requires Consistent(nodes)
    ensures r.None? <==> forall a :: a in candidates ==> !Eligible(nodes, hint, a)
    ensures r.Some? ==> r.value.address in candidates && Eligible(nodes, hint, r.value.address)
    ensures r.Some? ==> nodes[r.value.address] == r.value
    ensures r.Some? ==> forall a :: a in candidates && Eligible(nodes, hint, a) ==> r.value.numActive <= nodes[a].numActive
    decreases |candidates|
  {
    if candidates == [] then None
    else
      var rest := LeastLoaded(candidates[1..], nodes, hint);
      var a := candidates[0];
      if !Eligible(nodes, hint, a) then rest
      else if rest.None? || nodes[a].numActive <= rest.value.numActive then Some(nodes[a])
      else rest
  }

  /** The load of the chosen node depends on the candidate set only, not on its order. */
  lemma LeastLoadedLoadIsOrderIndependent(c1: seq<Address>, c2: seq<Address>, nodes: map<Address, NodeView>, hint: Option<Address>)
    requires Consistent(nodes)
    requires Elems(c1) == Elems(c2)
    ensures LeastLoaded(c1, nodes, hint).Some? == LeastLoaded(c2, nodes, hint).Some?
    ensures LeastLoaded(c1, nodes, hint).Some? ==>
              LeastLoaded(c1, nodes, hint).value.numActive == LeastLoaded(c2, nodes, hint).value.numActive
  {
    var r1, r2 := LeastLoaded(c1, nodes, hint), LeastLoaded(c2, nodes, hint);
    if r1.Some? {
      assert r1.value.address in Elems(c2);
    }
    if r2.Some? {
      assert r2.value.address in Elems(c1);
    }
  }

  /** When every candidate is suspended, nothing is selected. */
  lemma AllSuspendedSelectsNone(candidates: seq<Address>, nodes: map<Address, NodeView>, hint: Option<Address>)
    requires Consistent(nodes)
    requires forall a :: a in candidates && a in nodes ==> nodes[a].suspended
    ensures LeastLoaded(candidates, nodes, hint) == None
  {
  }

  /** A single eligible candidate is selected whatever its load. */
  lemma SoleEligibleIsSelected(candidates: seq<Address>, nodes: map<Address, NodeView>, hint: Option<Address>, a: Address)
    requires Consistent(nodes)
    requires a in candidates && Eligible(nodes, hint, a)
    requires forall b :: b in candidates && Eligible(nodes, hint, b) ==> b == a
    ensures LeastLoaded(candidates, nodes, hint) == Some(nodes[a])
  {
  }

  /** The hint is never returned, even when it is the least loaded node. */
  lemma HintIsNeverSelected(candidates: seq<Address>, nodes: map<Address, NodeView>, h: Address)
    requires Consistent(nodes)
    ensures LeastLoaded(candidates, nodes, Some(h)).Some? ==> LeastLoaded(candidates, nodes, Some(h)).value.address != h
  {
  }

  /** A candidate whose load is strictly below every other eligible candidate's is the one selected. */
  lemma UniqueMinimumIsSelected(candidates: seq<Address>, nodes: map<Address, NodeView>, hint: Option<Address>, a: Address)
    requires Consistent(nodes)
    requires a in candidates && Eligible(nodes, hint, a)
    requires forall b :: b in candidates && Eligible(nodes, hint, b) && b != a ==> nodes[a].numActive < nodes[b].numActive
    ensures LeastLoaded(candidates, nodes, hint) == Some(nodes[a])
  {
  }

  // The four scenarios of the unit test, with their own data.

  function Node(a: Address, suspended: bool, numActive: int): NodeView
  {
    NodeView(a, suspended, numActive)
  }

  lemma ScenarioAllNodesSuspended()
    ensures LeastLoaded(["node1", "node2", "node3"],
                        map["node1" := Node("node1", true, 0), "node2" := Node("node2", true, 0),
                            "node3" := Node("node3", true, 0)], None) == None
  {
  }

  lemma ScenarioOnlyOneCandidateNode()
    ensures var nodes := map["node1" := Node("node1", true, 0), "node2" := Node("node2", true, 0),
                             "node3" := Node("node3", true, 0), "node4" := Node("node4", false, 1)];
            LeastLoaded(["node1", "node2", "node3", "node4"], nodes, None) == Some(nodes["node4"])
  {
    var nodes := map["node1" := Node("node1", true, 0), "node2" := Node("node2", true, 0),
                     "node3" := Node("node3", true, 0), "node4" := Node("node4", false, 1)];
    SoleEligibleIsSelected(["node1", "node2", "node3", "node4"], nodes, None, "node4");
  }

  lemma ScenarioLeastLoadedNodeSelected()
    ensures var nodes := map["node1" := Node("node1", false, 0), "node2" := Node("node2", false, 1),
                             "node3" := Node("node3", false, 2), "node4" := Node("node4", false, 3),
                             "node5" := Node("node5", false, 4)];
            LeastLoaded(["node1", "node2", "node3", "node4", "node5"], nodes, None) == Some(nodes["node1"])
  {
    var nodes := map["node1" := Node("node1", false, 0), "node2" := Node("node2", false, 1),
                     "node3" := Node("node3", false, 2), "node4" := Node("node4", false, 3),
                     "node5" := Node("node5", false, 4)];
    UniqueMinimumIsSelected(["node1", "node2", "node3", "node4", "node5"], nodes, None, "node1");
  }

  lemma ScenarioLeastLoadedNodeSkippedOnHint()
    ensures var nodes := map["node1" := Node("node1", false, 0), "node2" := Node("node2", false, 1),
                             "node3" := Node("node3", false, 2), "node4" := Node("node4", false, 3),
                             "node5" := Node("node5", false, 4)];
            LeastLoaded(["node1", "node2", "node3", "node4", "node5"], nodes, Some("node1")) == Some(nodes["node2"])
  {
    var nodes := map["node1" := Node("node1", false, 0), "node2" := Node("node2", false, 1),
                     "node3" := Node("node3", false, 2), "node4" := Node("node4", false, 3),
                     "node5" := Node("node5", false, 4)];
    UniqueMinimumIsSelected(["node1", "node2", "node3", "node4", "node5"], nodes, Some("node1"), "node2");
  }
}
