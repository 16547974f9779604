/** The T-join helpers of prog2/tjoin.cpp: single-source shortest paths by an
    O(n^2) Dijkstra, all-pairs shortest paths by Floyd-Warshall, the parity
    of a node's negative edges, and the collection of the T-join edges from a
    perfect matching of the odd nodes. */
module TJoin {
  import opened Wrappers
  import opened Flags
  import opened MmwcGraph

  /** metric_closure_member: the last edge of a path to a node and the path's length. */
  datatype Entry = Entry(incoming: nat, dist: int)

  /** The conditions under which the T-join code throws or fails an assertion. */
  datatype TJoinError =
    | NegativeCost   // asp: an edge of negative cost
    | WalkTooLong    // collect_used_edges: more than num_nodes steps back
    | BadIncoming    // collect_used_edges: an incoming id that names no edge

  // ---------------------------------------------------------------------
  // Graphs as values

  /** The shape every valid Graph has: edges join two distinct existing
      nodes, incidence lists name edges that touch their node, and every
      edge is on the lists of both its ends. */
  ghost predicate WellFormed(nodes: seq<Node>, edges: seq<Edge>) {
    && (forall e :: 0 <= e < |edges| ==>
          edges[e].from < |nodes| && edges[e].to < |nodes| && edges[e].from != edges[e].to)
    && (forall v, k :: 0 <= v < |nodes| && 0 <= k < |nodes[v].incident| ==>
          nodes[v].incident[k] < |edges| && edges[nodes[v].incident[k]].Touches(v))
    && (forall v, e :: 0 <= v < |nodes| && 0 <= e < |edges| && edges[e].Touches(v) ==>
          e in nodes[v].incident)
  }

  lemma ValidIsWellFormed(g: Graph)
    requires g.Valid()
    ensures WellFormed(g.nodes, g.edges)
  {
    var nodes, edges := g.nodes, g.edges;
    forall v, k | 0 <= v < |nodes| && 0 <= k < |nodes[v].incident|
      ensures nodes[v].incident[k] < |edges| && edges[nodes[v].incident[k]].Touches(v)
    {
      IncidentIdsSpec(edges, v);
      assert nodes[v].incident[k] in IncidentIds(edges, v);
    }
    forall v, e | 0 <= v < |nodes| && 0 <= e < |edges| && edges[e].Touches(v)
      ensures e in nodes[v].incident
    {
      IncidentIdsSpec(edges, v);
    }
  }

  predicate NonNegative(cost: seq<int>) {
    forall e :: 0 <= e < |cost| ==> cost[e] >= 0
  }

  // ---------------------------------------------------------------------
  // Walks

  predicate EdgeIds(edges: seq<Edge>, es: seq<nat>) {
    forall k :: 0 <= k < |es| ==> es[k] < |edges|
  }

  /** The node a walk along the edges es reaches from start. */
  function WalkEnd(edges: seq<Edge>, start: nat, es: seq<nat>): nat
    requires EdgeIds(edges, es)
  {
    if es == [] then start
    else edges[es[|es| - 1]].Other(WalkEnd(edges, start, es[..|es| - 1]))
  }

  /** es is a walk from start: each edge touches the node the walk is at. */
  predicate IsWalk(edges: seq<Edge>, start: nat, es: seq<nat>) {
    EdgeIds(edges, es) &&
    forall k :: 0 <= k < |es| ==> edges[es[k]].Touches(WalkEnd(edges, start, es[..k]))
  }

  function WalkCost(cost: seq<int>, es: seq<nat>): int
    requires forall k :: 0 <= k < |es| ==> es[k] < |cost|
  {
    if es == [] then 0 else WalkCost(cost, es[..|es| - 1]) + cost[es[|es| - 1]]
  }

  /** A walk followed by an edge touching its end is a walk to that edge's
      other end, costing the edge's cost more. */
  lemma WalkExtend(edges: seq<Edge>, cost: seq<int>, start: nat, es: seq<nat>, e: nat)
    requires |cost| == |edges| && IsWalk(edges, start, es)
    requires e < |edges| && edges[e].Touches(WalkEnd(edges, start, es))
    ensures IsWalk(edges, start, es + [e])
    ensures WalkEnd(edges, start, es + [e]) == edges[e].Other(WalkEnd(edges, start, es))
    ensures WalkCost(cost, es + [e]) == WalkCost(cost, es) + cost[e]
  {
    var t := es + [e];
    assert t[..|es|] == es;
    forall k | 0 <= k < |t| ensures edges[t[k]].Touches(WalkEnd(edges, start, t[..k])) {
      if k < |es| {
        assert t[..k] == es[..k];
      }
    }
  }

  /** A walk from an existing node in a well-formed graph stays on existing nodes. */
  lemma {:induction false} WalkEndBound(nodes: seq<Node>, edges: seq<Edge>, start: nat, es: seq<nat>)
    requires WellFormed(nodes, edges) && start < |nodes| && EdgeIds(edges, es)
    ensures WalkEnd(edges, start, es) < |nodes|
    decreases |es|
  {
    if es != [] {
      WalkEndBound(nodes, edges, start, es[..|es| - 1]);
    }
  }

  // ---------------------------------------------------------------------
  // Shortest-path trees

  /** Node i is reached by its incoming edge from that edge's other end, and
      its distance is the other end's plus the edge's cost. */
  ghost predicate TightAt(edges: seq<Edge>, cost: seq<int>, ret: seq<Entry>, i: nat)
    requires |cost| == |edges| && i < |ret|
  {
    var e := ret[i].incoming;
    e < |edges| && edges[e].Touches(i) && edges[e].Other(i) < |ret| &&
    ret[i].dist == ret[edges[e].Other(i)].dist + cost[e]
  }

  /** No edge on u's incidence list gives a shorter path to its other end. */
  ghost predicate RelaxedAt(inc: seq<nat>, edges: seq<Edge>, cost: seq<int>, ret: seq<Entry>, u: nat)
    requires |cost| == |edges| && u < |ret|
  {
    forall k :: 0 <= k < |inc| && inc[k] < |edges| && edges[inc[k]].Other(u) < |ret| ==>
      ret[edges[inc[k]].Other(u)].dist <= ret[u].dist + cost[inc[k]]
  }

  /** Distances lie in [0, max_capacity]; a node at max_capacity has no incoming edge. */
  predicate Bounded(ret: seq<Entry>) {
    && (forall i :: 0 <= i < |ret| ==> 0 <= ret[i].dist <= MAX_CAPACITY)
    && (forall i :: 0 <= i < |ret| && ret[i].dist == MAX_CAPACITY ==> ret[i].incoming == INVALID_EDGE_ID)
  }

  /** A reached node other than the source is reached tightly. */
  ghost predicate ReachedTight(edges: seq<Edge>, cost: seq<int>, ret: seq<Entry>, source: nat, i: nat)
    requires |cost| == |edges| && i < |ret|
  {
    i != source && ret[i].dist < MAX_CAPACITY ==> TightAt(edges, cost, ret, i)
  }

  /** An edge e out of a reached node u gives no shorter path to its other end. */
  ghost predicate RelaxedEdge(edges: seq<Edge>, cost: seq<int>, ret: seq<Entry>, u: nat, e: nat)
    requires |cost| == |edges| && u < |ret| && e < |edges|
  {
    ret[u].dist < MAX_CAPACITY && edges[e].Touches(u) && edges[e].Other(u) < |ret| ==>
      ret[edges[e].Other(u)].dist <= ret[u].dist + cost[e]
  }

  /** Node i, if reached, is the end of a walk from the source whose cost
      is exactly i's distance. */
  ghost predicate RealizedAt(edges: seq<Edge>, cost: seq<int>, ret: seq<Entry>, source: nat, i: nat)
    requires |cost| == |edges| && i < |ret|
  {
    ret[i].dist < MAX_CAPACITY ==>
      exists es :: IsWalk(edges, source, es) && WalkEnd(edges, source, es) == i && WalkCost(cost, es) == ret[i].dist
  }

  ghost predicate Realized(edges: seq<Edge>, cost: seq<int>, ret: seq<Entry>, source: nat)
    requires |cost| == |edges|
  {
    forall i :: 0 <= i < |ret| ==> RealizedAt(edges, cost, ret, source, i)
  }

  /** What compute_shortest_paths returns: one entry per node; the source
      has distance 0 and no incoming edge; distances lie in [0, max_capacity],
      and a node left at max_capacity has no incoming edge; every other
      reached node is reached tightly from its incoming edge's other end;
      every reached node's distance is the cost of some walk from the source;
      no edge out of a reached node gives a shorter path; and following the
      incoming entries back from a reached node leads to the source within
      num_nodes steps, so they hold no cycle. */
  ghost predicate IsShortestPathTree(nodes: seq<Node>, edges: seq<Edge>, cost: seq<int>,
                                     ret: seq<Entry>, source: nat)
    requires |cost| == |edges|
  {
    && |ret| == |nodes| && source < |ret|
    && ret[source] == Entry(INVALID_EDGE_ID, 0)
    && Bounded(ret)
    && (forall i :: 0 <= i < |ret| ==> ReachedTight(edges, cost, ret, source, i))
    && Realized(edges, cost, ret, source)
    && (forall u, e :: 0 <= u < |ret| && 0 <= e < |edges| ==> RelaxedEdge(edges, cost, ret, u, e))
    && EndsBelow(edges, |ret|)
    && (forall i :: 0 <= i < |ret| && ret[i].dist < MAX_CAPACITY ==> BackWalk(edges, ret, source, i, 0, |ret|).Success?)
  }

  /** Optimality: no walk from the source is shorter than the distance the
      tree gives to the walk's end. */
  lemma {:induction false} ShortestPathLowerBound(nodes: seq<Node>, edges: seq<Edge>, cost: seq<int>,
                                                  ret: seq<Entry>, source: nat, es: seq<nat>)
    requires WellFormed(nodes, edges) && |cost| == |edges| && NonNegative(cost)
    requires IsShortestPathTree(nodes, edges, cost, ret, source)
    requires IsWalk(edges, source, es)
    ensures WalkEnd(edges, source, es) < |ret|
    ensures WalkCost(cost, es) >= ret[WalkEnd(edges, source, es)].dist
    decreases |es|
  {
    WalkEndBound(nodes, edges, source, es);
    if es != [] {
      var p := es[..|es| - 1];
      var e := es[|es| - 1];
      assert IsWalk(edges, source, p) by {
        forall k | 0 <= k < |p| ensures edges[p[k]].Touches(WalkEnd(edges, source, p[..k])) {
          assert p[..k] == es[..k];
        }
      }
      ShortestPathLowerBound(nodes, edges, cost, ret, source, p);
      var u := WalkEnd(edges, source, p);
      assert es[..|es| - 1] == p;
      assert edges[e].Touches(u);
      WalkEndBound(nodes, edges, source, p);
      assert RelaxedEdge(edges, cost, ret, u, e);
    }
  }

  /** The tree's distances are the cheapest walk costs: a node has a finite
      distance exactly when some walk from the source reaches it for less
      than max_capacity, and then one such walk costs exactly that distance
      while none costs less. */
  lemma ShortestPathExact(nodes: seq<Node>, edges: seq<Edge>, cost: seq<int>,
                          ret: seq<Entry>, source: nat, i: nat)
    requires WellFormed(nodes, edges) && |cost| == |edges| && NonNegative(cost)
    requires IsShortestPathTree(nodes, edges, cost, ret, source) && i < |ret|
    ensures ret[i].dist < MAX_CAPACITY <==>
      exists es :: IsWalk(edges, source, es) && WalkEnd(edges, source, es) == i && WalkCost(cost, es) < MAX_CAPACITY
    ensures ret[i].dist < MAX_CAPACITY ==>
      exists es :: IsWalk(edges, source, es) && WalkEnd(edges, source, es) == i && WalkCost(cost, es) == ret[i].dist
    ensures forall es :: IsWalk(edges, source, es) && WalkEnd(edges, source, es) == i ==> ret[i].dist <= WalkCost(cost, es)
  {
    assert RealizedAt(edges, cost, ret, source, i);
    forall es | IsWalk(edges, source, es) && WalkEnd(edges, source, es) == i
      ensures ret[i].dist <= WalkCost(cost, es)
    {
      ShortestPathLowerBound(nodes, edges, cost, ret, source, es);
    }
  }

  lemma {:induction false} WalkCostPrepend(cost: seq<int>, e: nat, es: seq<nat>)
    requires e < |cost| && forall k :: 0 <= k < |es| ==> es[k] < |cost|
    ensures WalkCost(cost, [e] + es) == cost[e] + WalkCost(cost, es)
    decreases |es|
  {
    if es != [] {
      assert ([e] + es)[..|es|] == [e] + es[..|es| - 1];
      WalkCostPrepend(cost, e, es[..|es| - 1]);
    }
  }

  /** Along tight entries the walk back from a reached node costs its distance. */
  lemma {:induction false} BackWalkCost(nodes: seq<Node>, edges: seq<Edge>, cost: seq<int>, ret: seq<Entry>,
                                        source: nat, j: nat, steps: nat)
    requires |cost| == |edges| && NonNegative(cost)
    requires IsShortestPathTree(nodes, edges, cost, ret, source) && j < |ret| && ret[j].dist < MAX_CAPACITY
    requires BackWalk(edges, ret, source, j, steps, |ret|).Success?
    ensures EdgeIds(edges, BackWalk(edges, ret, source, j, steps, |ret|).value)
    ensures WalkCost(cost, BackWalk(edges, ret, source, j, steps, |ret|).value) == ret[j].dist
    decreases |ret| - steps
  {
    if j != source {
      assert ReachedTight(edges, cost, ret, source, j);
      var e := ret[j].incoming;
      var p := edges[e].Other(j);
      BackWalkCost(nodes, edges, cost, ret, source, p, steps + 1);
      var rest := BackWalk(edges, ret, source, p, steps + 1, |ret|).value;
      WalkCostPrepend(cost, e, rest);
    }
  }

  /** An example: with a single edge between nodes 1 and 2 and the source 0,
      nothing reaches 1 or 2, so every shortest-path tree leaves both at
      max_capacity, whatever a zero-cost edge between them would allow. */
  lemma UnreachedStayAtMax(ret: seq<Entry>)
    requires IsShortestPathTree([Node([]), Node([0]), Node([0])], [Edge(1, 2, 0)], [0], ret, 0)
    ensures ret[1].dist == MAX_CAPACITY && ret[2].dist == MAX_CAPACITY
  {
    var edges, cost := [Edge(1, 2, 0)], [0];
    forall i | 1 <= i <= 2
      ensures ret[i].dist == MAX_CAPACITY
    {
      assert RealizedAt(edges, cost, ret, 0, i);
      if ret[i].dist < MAX_CAPACITY {
        var es :| IsWalk(edges, 0, es) && WalkEnd(edges, 0, es) == i && WalkCost(cost, es) == ret[i].dist;
        if es != [] {
          WalkLeavesStart(edges, 0, es);
        }
      }
    }
  }

  /** A walk that is not empty begins with an edge touching its start. */
  lemma WalkLeavesStart(edges: seq<Edge>, start: nat, es: seq<nat>)
    requires IsWalk(edges, start, es) && es != []
    ensures edges[es[0]].Touches(start)
  {
    assert es[..0] == [];
  }

  /** The tree's path to a reached node, which collect_used_edges follows
      back, is a shortest path: a walk from the node to the source whose
      cost is exactly the node's distance. */
  lemma TreeWalkBack(nodes: seq<Node>, edges: seq<Edge>, cost: seq<int>, ret: seq<Entry>, source: nat, i: nat)
    requires |cost| == |edges| <= INVALID_EDGE_ID && NonNegative(cost)
    requires IsShortestPathTree(nodes, edges, cost, ret, source) && i < |ret| && ret[i].dist < MAX_CAPACITY
    ensures BackWalk(edges, ret, source, i, 0, |ret|).Success?
    ensures var w := BackWalk(edges, ret, source, i, 0, |ret|).value;
      |w| <= |ret| && IsWalk(edges, i, w) && WalkEnd(edges, i, w) == source && WalkCost(cost, w) == ret[i].dist
  {
    TreePointsIn(nodes, edges, cost, ret, source);
    BackWalkIsWalk(edges, ret, source, i, 0, |ret|);
    BackWalkCost(nodes, edges, cost, ret, source, i, 0);
  }

  /** Row k is a shortest-path tree from node k of the list. */
  ghost predicate TreeAt(nodes: seq<Node>, edges: seq<Edge>, cost: seq<int>,
                         rows: seq<seq<Entry>>, sources: seq<nat>, k: nat)
    requires |cost| == |edges| && k < |rows| && k < |sources|
  {
    IsShortestPathTree(nodes, edges, cost, rows[k], sources[k])
  }

  /** Each row is the shortest-path tree from the node at the same position. */
  ghost predicate TreesFor(nodes: seq<Node>, edges: seq<Edge>, cost: seq<int>,
                           rows: seq<seq<Entry>>, sources: seq<nat>)
    requires |cost| == |edges|
  {
    |rows| == |sources| && forall k :: 0 <= k < |rows| ==> TreeAt(nodes, edges, cost, rows, sources, k)
  }

  /** Appending the tree from v to the rows, and v to the sources, keeps
      each row the tree of its source. */
  lemma TreesForAppend(nodes: seq<Node>, edges: seq<Edge>, cost: seq<int>,
                       rows: seq<seq<Entry>>, sources: seq<nat>, tree: seq<Entry>, v: nat)
    requires |cost| == |edges| && TreesFor(nodes, edges, cost, rows, sources)
    requires IsShortestPathTree(nodes, edges, cost, tree, v)
    ensures TreesFor(nodes, edges, cost, rows + [tree], sources + [v])
  {
    forall k | 0 <= k < |rows| + 1
      ensures TreeAt(nodes, edges, cost, rows + [tree], sources + [v], k)
    {
      if k < |rows| {
        assert TreeAt(nodes, edges, cost, rows, sources, k);
      }
    }
  }

  // ---------------------------------------------------------------------
  // The state of compute_shortest_paths between two steps

  /** Node i, if reached and not the source, hangs tightly off a visited node. */
  ghost predicate TightFrom(edges: seq<Edge>, cost: seq<int>, visited: seq<bool>, ret: seq<Entry>, source: nat, i: nat)
    requires |cost| == |edges| && |visited| == |ret| && i < |ret|
  {
    i != source && ret[i].dist < MAX_CAPACITY ==>
      TightAt(edges, cost, ret, i) && visited[edges[ret[i].incoming].Other(i)]
  }

  ghost predicate TightTree(edges: seq<Edge>, cost: seq<int>, visited: seq<bool>, ret: seq<Entry>, source: nat)
    requires |cost| == |edges| && |visited| == |ret|
  {
    forall i :: 0 <= i < |ret| ==> TightFrom(edges, cost, visited, ret, source, i)
  }

  /** Node u, if visited and not pending, has been relaxed. */
  ghost predicate RelaxedIf(nodes: seq<Node>, edges: seq<Edge>, cost: seq<int>,
                            visited: seq<bool>, ret: seq<Entry>, pending: nat, u: nat)
    requires |cost| == |edges| && |visited| == |ret| == |nodes| && u < |ret|
  {
    visited[u] && u != pending ==> RelaxedAt(nodes[u].incident, edges, cost, ret, u)
  }

  ghost predicate RelaxedVisited(nodes: seq<Node>, edges: seq<Edge>, cost: seq<int>,
                                 visited: seq<bool>, ret: seq<Entry>, pending: nat)
    requires |cost| == |edges| && |visited| == |ret| == |nodes|
  {
    forall u :: 0 <= u < |ret| ==> RelaxedIf(nodes, edges, cost, visited, ret, pending, u)
  }

  /** Visited nodes are no farther than dist, unvisited ones no nearer. */
  predicate Layered(visited: seq<bool>, ret: seq<Entry>, dist: int)
    requires |visited| == |ret|
  {
    forall i :: 0 <= i < |ret| ==> if visited[i] then ret[i].dist <= dist else ret[i].dist >= dist
  }

  /** The walk back from node i, begun at step steps, reaches the source. */
  ghost predicate RootedFrom(edges: seq<Edge>, ret: seq<Entry>, source: nat, i: nat, steps: int)
    requires EndsBelow(edges, |ret|) && i < |ret|
  {
    0 <= steps <= |ret| && BackWalk(edges, ret, source, i, steps, |ret|).Success?
  }

  /** Node i, if reached, walks back to the source in no more steps than
      there are visited nodes, one fewer if it is visited itself. */
  ghost predicate RootedAt(edges: seq<Edge>, visited: seq<bool>, ret: seq<Entry>, source: nat, i: nat)
    requires |visited| == |ret| && EndsBelow(edges, |ret|) && i < |ret|
  {
    ret[i].dist < MAX_CAPACITY ==>
      RootedFrom(edges, ret, source, i, |ret| - CountTrue(visited) + if visited[i] then 1 else 0)
  }

  /** Every reached node is rooted: the incoming entries only point to
      nodes visited earlier. */
  ghost predicate RootedTree(edges: seq<Edge>, visited: seq<bool>, ret: seq<Entry>, source: nat)
    requires |visited| == |ret| && EndsBelow(edges, |ret|)
  {
    forall i :: 0 <= i < |ret| ==> RootedAt(edges, visited, ret, source, i)
  }

  ghost predicate Frontier(nodes: seq<Node>, edges: seq<Edge>, cost: seq<int>, visited: seq<bool>,
                           ret: seq<Entry>, source: nat, dist: int, pending: nat)
  {
    && |cost| == |edges| && |visited| == |ret| == |nodes| && source < |ret|
    && EndsBelow(edges, |ret|) && RootedTree(edges, visited, ret, source)
    && ret[source] == Entry(INVALID_EDGE_ID, 0) && 0 <= dist
    && Bounded(ret)
    && TightTree(edges, cost, visited, ret, source)
    && Realized(edges, cost, ret, source)
    && RelaxedVisited(nodes, edges, cost, visited, ret, pending)
    && Layered(visited, ret, dist)
  }

  /** Once no unvisited node is reached, the state is a shortest-path tree. */
  lemma FrontierIsTree(nodes: seq<Node>, edges: seq<Edge>, cost: seq<int>, visited: seq<bool>,
                       ret: seq<Entry>, source: nat, dist: int)
    requires WellFormed(nodes, edges)
    requires Frontier(nodes, edges, cost, visited, ret, source, dist, INVALID_NODE_ID)
    requires |nodes| < INVALID_NODE_ID
    requires forall i :: 0 <= i < |ret| && !visited[i] ==> ret[i].dist == MAX_CAPACITY
    ensures IsShortestPathTree(nodes, edges, cost, ret, source)
  {
    forall i | 0 <= i < |ret|
      ensures ReachedTight(edges, cost, ret, source, i)
    {
      assert TightFrom(edges, cost, visited, ret, source, i);
    }
    forall i | 0 <= i < |ret| && ret[i].dist < MAX_CAPACITY
      ensures BackWalk(edges, ret, source, i, 0, |ret|).Success?
    {
      var steps := |ret| - CountTrue(visited) + if visited[i] then 1 else 0;
      assert RootedAt(edges, visited, ret, source, i);
      BackWalkEarlier(edges, ret, source, i, steps, 0, |ret|);
    }
    forall u, e | 0 <= u < |ret| && 0 <= e < |edges|
      ensures RelaxedEdge(edges, cost, ret, u, e)
    {
      if ret[u].dist < MAX_CAPACITY && edges[e].Touches(u) {
        var inc := nodes[u].incident;
        assert e in inc;
        var k :| 0 <= k < |inc| && inc[k] == e;
        assert RelaxedIf(nodes, edges, cost, visited, ret, INVALID_NODE_ID, u);
        assert RelaxedAt(inc, edges, cost, ret, u);
      }
    }
  }

  /** Before the first step only the source is reached, and nothing is visited. */
  lemma InitialFrontier(nodes: seq<Node>, edges: seq<Edge>, cost: seq<int>, visited: seq<bool>,
                        ret: seq<Entry>, source: nat)
    requires |cost| == |edges| && |visited| == |ret| == |nodes| && source < |ret| && EndsBelow(edges, |ret|)
    requires forall i :: 0 <= i < |visited| ==> !visited[i]
    requires forall i :: 0 <= i < |ret| ==>
      ret[i] == if i == source then Entry(INVALID_EDGE_ID, 0) else Entry(INVALID_NODE_ID, MAX_CAPACITY)
    ensures Frontier(nodes, edges, cost, visited, ret, source, 0, INVALID_NODE_ID)
  {
    forall i | 0 <= i < |ret| ensures TightFrom(edges, cost, visited, ret, source, i) {
    }
    forall i | 0 <= i < |ret| ensures RealizedAt(edges, cost, ret, source, i) {
      if i == source {
        assert IsWalk(edges, source, []) && WalkEnd(edges, source, []) == source && WalkCost(cost, []) == 0;
      }
    }
    forall u | 0 <= u < |ret| ensures RelaxedIf(nodes, edges, cost, visited, ret, INVALID_NODE_ID, u) {
    }
    forall i | 0 <= i < |ret| ensures RootedAt(edges, visited, ret, source, i) {
    }
  }

  /** Visiting the current node keeps the frontier, with its list pending. */
  lemma Visit(nodes: seq<Node>, edges: seq<Edge>, cost: seq<int>, visited: seq<bool>,
              ret: seq<Entry>, source: nat, dist: int, cur: nat)
    requires Frontier(nodes, edges, cost, visited, ret, source, dist, INVALID_NODE_ID)
    requires |ret| < INVALID_NODE_ID && cur < |ret| && ret[cur].dist == dist
    ensures Frontier(nodes, edges, cost, visited[cur := true], ret, source, dist, cur)
  {
    var v := visited[cur := true];
    forall i | 0 <= i < |ret| ensures TightFrom(edges, cost, v, ret, source, i) {
      assert TightFrom(edges, cost, visited, ret, source, i);
    }
    forall u | 0 <= u < |ret| ensures RelaxedIf(nodes, edges, cost, v, ret, cur, u) {
      assert RelaxedIf(nodes, edges, cost, visited, ret, INVALID_NODE_ID, u);
    }
    if !visited[cur] {
      VisitKeepsRooted(edges, visited, ret, source, cur);
    } else {
      assert v == visited;
    }
  }

  /** Visiting a node uses up one step of every other reached node's budget. */
  lemma VisitKeepsRooted(edges: seq<Edge>, visited: seq<bool>, ret: seq<Entry>, source: nat, cur: nat)
    requires |visited| == |ret| && EndsBelow(edges, |ret|) && RootedTree(edges, visited, ret, source)
    requires cur < |ret| && !visited[cur]
    ensures RootedTree(edges, visited[cur := true], ret, source)
  {
    var v := visited[cur := true];
    CountTrueSet(visited, cur);
    forall i | 0 <= i < |ret| ensures RootedAt(edges, v, ret, source, i) {
      var s := |ret| - CountTrue(visited) + if visited[i] then 1 else 0;
      assert RootedAt(edges, visited, ret, source, i);
      if i != cur && ret[i].dist < MAX_CAPACITY {
        BackWalkEarlier(edges, ret, source, i, s, s - 1, |ret|);
      }
    }
  }

  /** One relaxation of an edge e of cur: the other end is unvisited, and
      lowering its entry to the path through cur keeps the frontier. */
  lemma RelaxStep(nodes: seq<Node>, edges: seq<Edge>, cost: seq<int>, visited: seq<bool>,
                  ret: seq<Entry>, source: nat, dist: int, cur: nat, e: nat)
    requires WellFormed(nodes, edges) && NonNegative(cost)
    requires Frontier(nodes, edges, cost, visited, ret, source, dist, cur)
    requires cur < |ret| && visited[cur] && ret[cur].dist == dist
    requires e < |edges| && edges[e].Touches(cur)
    requires dist + cost[e] < ret[edges[e].Other(cur)].dist
    ensures edges[e].Other(cur) < |ret| && !visited[edges[e].Other(cur)]
    ensures Frontier(nodes, edges, cost, visited, ret[edges[e].Other(cur) := Entry(e, dist + cost[e])],
                     source, dist, cur)
  {
    var other := edges[e].Other(cur);
    OtherSwapsEnds(edges[e], cur);
    assert Layered(visited, ret, dist);
    assert !visited[other];
    RelaxKeepsTight(nodes, edges, cost, visited, ret, source, dist, cur, e);
    RelaxKeepsRealized(nodes, edges, cost, visited, ret, source, dist, cur, e);
    RelaxKeepsRelaxed(nodes, edges, cost, visited, ret, source, dist, cur, e);
    RelaxKeepsRooted(nodes, edges, cost, visited, ret, source, dist, cur, e);
  }

  /** Relaxing e from cur keeps every reached node tightly hung off a visited one. */
  lemma RelaxKeepsTight(nodes: seq<Node>, edges: seq<Edge>, cost: seq<int>, visited: seq<bool>,
                        ret: seq<Entry>, source: nat, dist: int, cur: nat, e: nat)
    requires WellFormed(nodes, edges) && NonNegative(cost)
    requires Frontier(nodes, edges, cost, visited, ret, source, dist, cur)
    requires cur < |ret| && visited[cur] && ret[cur].dist == dist
    requires e < |edges| && edges[e].Touches(cur)
    requires dist + cost[e] < ret[edges[e].Other(cur)].dist
    ensures edges[e].Other(cur) < |ret|
    ensures TightTree(edges, cost, visited, ret[edges[e].Other(cur) := Entry(e, dist + cost[e])], source)
  {
    var other := edges[e].Other(cur);
    OtherSwapsEnds(edges[e], cur);
    var r := ret[other := Entry(e, dist + cost[e])];
    assert Layered(visited, ret, dist);
    assert !visited[other];
    assert other != source;
    forall i | 0 <= i < |r|
      ensures TightFrom(edges, cost, visited, r, source, i)
    {
      if i != other {
        assert TightFrom(edges, cost, visited, ret, source, i);
        if i != source && r[i].dist < MAX_CAPACITY {
          assert TightAt(edges, cost, ret, i);
        }
      }
    }
  }

  /** Relaxing e from cur keeps every reached node's distance the cost of a walk. */
  lemma RelaxKeepsRealized(nodes: seq<Node>, edges: seq<Edge>, cost: seq<int>, visited: seq<bool>,
                           ret: seq<Entry>, source: nat, dist: int, cur: nat, e: nat)
    requires WellFormed(nodes, edges) && NonNegative(cost)
    requires Frontier(nodes, edges, cost, visited, ret, source, dist, cur)
    requires cur < |ret| && visited[cur] && ret[cur].dist == dist
    requires e < |edges| && edges[e].Touches(cur)
    requires dist + cost[e] < ret[edges[e].Other(cur)].dist
    ensures edges[e].Other(cur) < |ret|
    ensures Realized(edges, cost, ret[edges[e].Other(cur) := Entry(e, dist + cost[e])], source)
  {
    var other := edges[e].Other(cur);
    OtherSwapsEnds(edges[e], cur);
    var r := ret[other := Entry(e, dist + cost[e])];
    forall i | 0 <= i < |r|
      ensures RealizedAt(edges, cost, r, source, i)
    {
      if i == other {
        assert RealizedAt(edges, cost, ret, source, cur);
        var es :| IsWalk(edges, source, es) && WalkEnd(edges, source, es) == cur && WalkCost(cost, es) == dist;
        WalkExtend(edges, cost, source, es, e);
      } else {
        assert RealizedAt(edges, cost, ret, source, i);
      }
    }
  }

  /** Relaxing e from cur lowers only an unvisited node, so every visited node
      other than cur stays relaxed. */
  lemma RelaxKeepsRelaxed(nodes: seq<Node>, edges: seq<Edge>, cost: seq<int>, visited: seq<bool>,
                          ret: seq<Entry>, source: nat, dist: int, cur: nat, e: nat)
    requires WellFormed(nodes, edges) && NonNegative(cost)
    requires Frontier(nodes, edges, cost, visited, ret, source, dist, cur)
    requires cur < |ret| && visited[cur] && ret[cur].dist == dist
    requires e < |edges| && edges[e].Touches(cur)
    requires dist + cost[e] < ret[edges[e].Other(cur)].dist
    ensures edges[e].Other(cur) < |ret|
    ensures RelaxedVisited(nodes, edges, cost, visited, ret[edges[e].Other(cur) := Entry(e, dist + cost[e])], cur)
  {
    var other := edges[e].Other(cur);
    OtherSwapsEnds(edges[e], cur);
    var r := ret[other := Entry(e, dist + cost[e])];
    assert Layered(visited, ret, dist);
    assert !visited[other];
    forall u | 0 <= u < |r|
      ensures RelaxedIf(nodes, edges, cost, visited, r, cur, u)
    {
      assert RelaxedIf(nodes, edges, cost, visited, ret, cur, u);
      if visited[u] && u != cur {
        assert RelaxedAt(nodes[u].incident, edges, cost, ret, u);
      }
    }
  }

  /** Node v, if it is not the source and is visited or reached, has an
      incoming edge whose other end is visited. */
  ghost predicate HangsAt(edges: seq<Edge>, visited: seq<bool>, ret: seq<Entry>, source: nat, v: nat)
    requires |visited| == |ret| && EndsBelow(edges, |ret|) && v < |ret|
  {
    v != source && (visited[v] || ret[v].dist < MAX_CAPACITY) ==>
      ret[v].incoming < |edges| && visited[edges[ret[v].incoming].Other(v)]
  }

  ghost predicate HangsOffVisited(edges: seq<Edge>, visited: seq<bool>, ret: seq<Entry>, source: nat)
    requires |visited| == |ret| && EndsBelow(edges, |ret|)
  {
    forall v :: 0 <= v < |ret| ==> HangsAt(edges, visited, ret, source, v)
  }

  lemma FrontierHangs(nodes: seq<Node>, edges: seq<Edge>, cost: seq<int>, visited: seq<bool>,
                      ret: seq<Entry>, source: nat, dist: int, pending: nat)
    requires Frontier(nodes, edges, cost, visited, ret, source, dist, pending) && dist < MAX_CAPACITY
    ensures HangsOffVisited(edges, visited, ret, source)
  {
    forall v | 0 <= v < |ret| ensures HangsAt(edges, visited, ret, source, v) {
      assert Layered(visited, ret, dist);
      assert TightFrom(edges, cost, visited, ret, source, v);
    }
  }

  /** The walk back from node i after other's entry is pointed at the
      visited node cur along e: other's goes through cur, and any other
      reached node's is unchanged. */
  lemma RelaxKeepsRootedAt(edges: seq<Edge>, visited: seq<bool>, ret: seq<Entry>, source: nat,
                           cur: nat, e: nat, d: int, i: nat)
    requires |visited| == |ret| && EndsBelow(edges, |ret|) && source < |ret|
    requires RootedTree(edges, visited, ret, source) && HangsOffVisited(edges, visited, ret, source)
    requires cur < |ret| && visited[cur] && e < |edges| && edges[e].Touches(cur) && edges[e].from != edges[e].to
    requires edges[e].Other(cur) != source && !visited[edges[e].Other(cur)]
    requires ret[cur].dist < MAX_CAPACITY && i < |ret|
    ensures RootedAt(edges, visited, ret[edges[e].Other(cur) := Entry(e, d)], source, i)
  {
    var other := edges[e].Other(cur);
    OtherSwapsEnds(edges[e], cur);
    var r := ret[other := Entry(e, d)];
    var n := |ret|;
    var c := CountTrue(visited);
    CountTruePositive(visited, cur);
    assert forall v :: 0 <= v < n && visited[v] ==> r[v] == ret[v];
    if i == other {
      assert RootedAt(edges, visited, ret, source, cur) && HangsAt(edges, visited, ret, source, cur);
      BackWalkFrame(edges, visited, ret, r, source, cur, n - c + 1, n);
      assert BackWalk(edges, r, source, other, n - c, n)
          == PrependAll([e], BackWalk(edges, r, source, cur, n - c + 1, n));
    } else if r[i].dist < MAX_CAPACITY {
      var s := n - c + if visited[i] then 1 else 0;
      assert RootedAt(edges, visited, ret, source, i) && HangsAt(edges, visited, ret, source, i);
      BackWalkFrame(edges, visited, ret, r, source, i, s, n);
    }
  }

  /** Lowering the entry of an unvisited node to a path through cur keeps the walks back. */
  lemma RelaxKeepsRooted(nodes: seq<Node>, edges: seq<Edge>, cost: seq<int>, visited: seq<bool>,
                         ret: seq<Entry>, source: nat, dist: int, cur: nat, e: nat)
    requires Frontier(nodes, edges, cost, visited, ret, source, dist, cur) && dist < MAX_CAPACITY
    requires cur < |ret| && visited[cur] && e < |edges| && edges[e].Touches(cur) && edges[e].from != edges[e].to
    requires edges[e].Other(cur) != source && !visited[edges[e].Other(cur)]
    ensures RootedTree(edges, visited, ret[edges[e].Other(cur) := Entry(e, dist + cost[e])], source)
  {
    FrontierHangs(nodes, edges, cost, visited, ret, source, dist, cur);
    assert Layered(visited, ret, dist);
    var r := ret[edges[e].Other(cur) := Entry(e, dist + cost[e])];
    forall i | 0 <= i < |ret| ensures RootedAt(edges, visited, r, source, i) {
      RelaxKeepsRootedAt(edges, visited, ret, source, cur, e, dist + cost[e], i);
    }
  }

  /** Entries only go down, and those of visited nodes stay as they were. */
  predicate Lowered(e0: seq<Entry>, ret: seq<Entry>, visited: seq<bool>) {
    && |e0| == |ret| == |visited|
    && forall i :: 0 <= i < |ret| ==> ret[i].dist <= e0[i].dist && (visited[i] ==> ret[i] == e0[i])
  }

  /** The first k edges of cur's list give no path shorter than dist plus
      their cost to their other ends. */
  ghost predicate RelaxedPrefix(inc: seq<nat>, edges: seq<Edge>, cost: seq<int>, ret: seq<Entry>,
                                cur: nat, dist: int, k: nat)
    requires |cost| == |edges|
  {
    forall j :: 0 <= j < k && j < |inc| && inc[j] < |edges| && edges[inc[j]].Other(cur) < |ret| ==>
      ret[edges[inc[j]].Other(cur)].dist <= dist + cost[inc[j]]
  }

  /** Relaxing edge k of cur's list, lowering its other end when the path
      through cur is shorter, extends the relaxed prefix and only lowers
      unvisited entries. */
  lemma RelaxNext(inc: seq<nat>, edges: seq<Edge>, cost: seq<int>, visited: seq<bool>,
                  e0: seq<Entry>, ret: seq<Entry>, cur: nat, dist: int, k: nat)
    requires |cost| == |edges| && k < |inc| && inc[k] < |edges| && edges[inc[k]].Other(cur) < |ret|
    requires RelaxedPrefix(inc, edges, cost, ret, cur, dist, k) && Lowered(e0, ret, visited)
    requires var o := edges[inc[k]].Other(cur); dist + cost[inc[k]] < ret[o].dist ==> !visited[o]
    ensures var e := inc[k];
      var o := edges[e].Other(cur);
      var r := if dist + cost[e] < ret[o].dist then ret[o := Entry(e, dist + cost[e])] else ret;
      RelaxedPrefix(inc, edges, cost, r, cur, dist, k + 1) && Lowered(e0, r, visited)
  {
    var e := inc[k];
    var o := edges[e].Other(cur);
    var r := if dist + cost[e] < ret[o].dist then ret[o := Entry(e, dist + cost[e])] else ret;
    forall j | 0 <= j < k + 1 && j < |inc| && inc[j] < |edges| && edges[inc[j]].Other(cur) < |r|
      ensures r[edges[inc[j]].Other(cur)].dist <= dist + cost[inc[j]]
    {
      var t := edges[inc[j]].Other(cur);
      assert r[t].dist <= ret[t].dist;
    }
  }

  /** One step of the relaxation loop: the entry of the other end of e is
      lowered to the path through cur when that is shorter. */
  function RelaxOne(edges: seq<Edge>, cost: seq<int>, ret: seq<Entry>, cur: nat, dist: int, e: nat): (r: seq<Entry>)
    requires |cost| == |edges| && e < |edges|
    ensures |r| == |ret|
  {
    var o := edges[e].Other(cur);
    if o < |ret| && dist + cost[e] < ret[o].dist then ret[o := Entry(e, dist + cost[e])] else ret
  }

  /** Relaxing the next edge of cur's list keeps the frontier, extends the
      relaxed prefix and only lowers unvisited entries. */
  lemma RelaxIter(nodes: seq<Node>, edges: seq<Edge>, cost: seq<int>, visited: seq<bool>, e0: seq<Entry>,
                  ret: seq<Entry>, source: nat, dist: int, cur: nat, k: nat)
    requires WellFormed(nodes, edges) && NonNegative(cost)
    requires Frontier(nodes, edges, cost, visited, ret, source, dist, cur)
    requires Lowered(e0, ret, visited) && cur < |ret| && visited[cur] && e0[cur].dist == dist
    requires k < |nodes[cur].incident| && RelaxedPrefix(nodes[cur].incident, edges, cost, ret, cur, dist, k)
    ensures var r := RelaxOne(edges, cost, ret, cur, dist, nodes[cur].incident[k]);
      && Frontier(nodes, edges, cost, visited, r, source, dist, cur)
      && Lowered(e0, r, visited) && RelaxedPrefix(nodes[cur].incident, edges, cost, r, cur, dist, k + 1)
  {
    var inc := nodes[cur].incident;
    var e := inc[k];
    OtherSwapsEnds(edges[e], cur);
    var o := edges[e].Other(cur);
    assert ret[cur] == e0[cur];
    RelaxNext(inc, edges, cost, visited, e0, ret, cur, dist, k);
    if dist + cost[e] < ret[o].dist {
      RelaxStep(nodes, edges, cost, visited, ret, source, dist, cur, e);
      assert RelaxOne(edges, cost, ret, cur, dist, e) == ret[o := Entry(e, dist + cost[e])];
    } else {
      assert RelaxOne(edges, cost, ret, cur, dist, e) == ret;
    }
  }

  lemma RelaxedPrefixAll(inc: seq<nat>, edges: seq<Edge>, cost: seq<int>, ret: seq<Entry>, cur: nat, dist: int)
    requires |cost| == |edges| && cur < |ret| && ret[cur].dist == dist
    requires RelaxedPrefix(inc, edges, cost, ret, cur, dist, |inc|)
    ensures RelaxedAt(inc, edges, cost, ret, cur)
  {
  }

  /** Once cur's list is relaxed, every visited node is. */
  lemma RelaxDone(nodes: seq<Node>, edges: seq<Edge>, cost: seq<int>, visited: seq<bool>,
                  ret: seq<Entry>, source: nat, dist: int, cur: nat)
    requires Frontier(nodes, edges, cost, visited, ret, source, dist, cur)
    requires cur < |ret| && RelaxedAt(nodes[cur].incident, edges, cost, ret, cur)
    ensures Frontier(nodes, edges, cost, visited, ret, source, dist, INVALID_NODE_ID)
  {
    forall u | 0 <= u < |ret|
      ensures RelaxedIf(nodes, edges, cost, visited, ret, INVALID_NODE_ID, u)
    {
      assert RelaxedIf(nodes, edges, cost, visited, ret, cur, u);
    }
  }

  /** Moving on to an unvisited node of smallest distance keeps the layers. */
  lemma Advance(nodes: seq<Node>, edges: seq<Edge>, cost: seq<int>, visited: seq<bool>,
                ret: seq<Entry>, source: nat, dist: int, next: nat)
    requires Frontier(nodes, edges, cost, visited, ret, source, dist, INVALID_NODE_ID)
    requires next < |ret| && !visited[next]
    requires forall i :: 0 <= i < |ret| && !visited[i] ==> ret[i].dist >= ret[next].dist
    ensures Frontier(nodes, edges, cost, visited, ret, source, ret[next].dist, INVALID_NODE_ID)
  {
    assert Layered(visited, ret, dist);
  }

  /** An unvisited node with a finite distance has a real incoming edge. */
  lemma ReachedHasIncoming(nodes: seq<Node>, edges: seq<Edge>, cost: seq<int>, visited: seq<bool>,
                           ret: seq<Entry>, source: nat, dist: int)
    requires Frontier(nodes, edges, cost, visited, ret, source, dist, INVALID_NODE_ID)
    requires visited[source]
    ensures forall i :: 0 <= i < |ret| && !visited[i] && ret[i].dist < MAX_CAPACITY ==> ret[i].incoming < |edges|
  {
    forall i | 0 <= i < |ret| && !visited[i] && ret[i].dist < MAX_CAPACITY
      ensures ret[i].incoming < |edges|
    {
      assert TightFrom(edges, cost, visited, ret, source, i);
    }
  }

  // ---------------------------------------------------------------------
  // Negative degree and the set T

  /** The number of edges of negative capacity among the ids (an id that
      names no edge counts for nothing). */
  function NegCount(edges: seq<Edge>, ids: seq<nat>): nat {
    if ids == [] then 0
    else
      var x := ids[|ids| - 1];
      NegCount(edges, ids[..|ids| - 1]) + if x < |edges| && edges[x].cap < 0 then 1 else 0
  }

  /** The negative degree of v: the number of edges of negative capacity with v as an end. */
  function NegDegree(edges: seq<Edge>, v: nat): nat {
    if edges == [] then 0
    else NegDegree(edges[..|edges| - 1], v) + if edges[|edges| - 1].Touches(v) && edges[|edges| - 1].cap < 0 then 1 else 0
  }

  /** The nodes below k of odd negative degree, in increasing order. */
  function OddNodes(edges: seq<Edge>, k: nat): seq<nat> {
    if k == 0 then []
    else OddNodes(edges, k - 1) + if NegDegree(edges, k - 1) % 2 == 1 then [k - 1] else []
  }

  /** In an increasing list no entry occurs before its own position. */
  lemma IncreasingNotBefore(l: seq<nat>, k: nat)
    requires Increasing(l) && k < |l|
    ensures !SeenBefore(l, k)
  {
    forall i | 0 <= i < k
      ensures l[..k][i] != l[k]
    {
      assert l[i] < l[k];
    }
  }

  /** The row the last loop of asp moves out of the closure for position k
      of l: empty when an earlier position already moved it. */
  function MovedRow(mc: array2<Entry>, l: seq<nat>, k: nat): (r: seq<Entry>)
    requires k < |l| && l[k] < mc.Length0
    reads mc
  {
    if SeenBefore(l, k) then [] else Row(mc, l[k])
  }

  /** The array holds the matrix m, cell by cell. */
  ghost predicate MatrixIs(mc: array2<Entry>, m: seq<seq<Entry>>)
    reads mc
  {
    Square(m, mc.Length0) && mc.Length1 == mc.Length0 &&
    forall a, b {:trigger mc[a, b]} :: 0 <= a < mc.Length0 && 0 <= b < mc.Length1 ==> mc[a, b] == m[a][b]
  }

  /** An array whose every cell is improved through pivot p from m holds
      PivotMatrix(m, p). */
  lemma PivotedIs(mc: array2<Entry>, m: seq<seq<Entry>>, p: nat)
    requires Square(m, mc.Length0) && mc.Length1 == mc.Length0 && p < mc.Length0
    requires forall a, b :: 0 <= a < mc.Length0 && 0 <= b < mc.Length1 ==> mc[a, b] == Improve(m[a][b], m[a][p], m[p][b])
    ensures MatrixIs(mc, PivotMatrix(m, p))
  {
  }

  /** A row moved out of an array holding m is m's row, or empty when it
      was moved already. */
  lemma MovedRowIs(mc: array2<Entry>, m: seq<seq<Entry>>, l: seq<nat>, k: nat)
    requires MatrixIs(mc, m) && k < |l| && l[k] < mc.Length0
    ensures MovedRow(mc, l, k) == if SeenBefore(l, k) then [] else m[l[k]]
  {
    if !SeenBefore(l, k) {
      assert Row(mc, l[k]) == m[l[k]];
    }
  }

  /** moved holds exactly the entries of l before position k. */
  ghost predicate MovedBy(moved: set<nat>, l: seq<nat>, k: nat)
    requires k <= |l|
  {
    forall v :: v in moved <==> v in l[..k]
  }

  /** Moving entry k: it was moved already exactly when it is seen before,
      and afterwards the set covers position k too. */
  lemma MovedByStep(moved: set<nat>, l: seq<nat>, k: nat)
    requires k < |l| && MovedBy(moved, l, k)
    ensures l[k] in moved <==> SeenBefore(l, k)
    ensures MovedBy(moved + {l[k]}, l, k + 1)
  {
    assert l[..k + 1] == l[..k] + [l[k]];
  }

  /** Entry k of l already occurs at an earlier position. */
  predicate SeenBefore(l: seq<nat>, k: nat)
    requires k < |l|
  {
    l[k] in l[..k]
  }

  /** T is listed in increasing order, each node once, all below k, and a
      node is listed exactly when its negative degree is odd. */
  lemma {:induction false} OddNodesSpec(edges: seq<Edge>, k: nat)
    ensures Increasing(OddNodes(edges, k))
    ensures forall v: nat :: v in OddNodes(edges, k) <==> v < k && NegDegree(edges, v) % 2 == 1
    decreases k
  {
    if k > 0 {
      OddNodesSpec(edges, k - 1);
      var prev := OddNodes(edges, k - 1);
      var r := OddNodes(edges, k);
      forall i, j | 0 <= i < j < |r| ensures r[i] < r[j] {
        assert r[i] == prev[i] && prev[i] in prev;
        if j < |prev| {
          assert r[j] == prev[j];
        }
      }
    }
  }

  /** Counting negative edges along an incidence list gives the negative degree. */
  lemma {:induction false} NegCountIncident(edges: seq<Edge>, v: nat)
    ensures NegCount(edges, IncidentIds(edges, v)) == NegDegree(edges, v)
    decreases |edges|
  {
    if edges != [] {
      var k := |edges| - 1;
      var init, e := edges[..k], edges[k];
      var ids0 := IncidentIds(init, v);
      NegCountIncident(init, v);
      IncidentIdsBelow(init, v);
      assert init + [e] == edges;
      NegCountAppend(init, ids0, e);
      if e.Touches(v) {
        NegCountConcat(edges, ids0, k);
      } else {
        assert IncidentIds(edges, v) == ids0 + [] == ids0;
      }
    }
  }

  lemma IncidentIdsBelow(edges: seq<Edge>, v: nat)
    ensures forall k :: 0 <= k < |IncidentIds(edges, v)| ==> IncidentIds(edges, v)[k] < |edges|
  {
    IncidentIdsSpec(edges, v);
    var ids := IncidentIds(edges, v);
    forall k | 0 <= k < |ids| ensures ids[k] < |edges| {
      assert ids[k] in ids;
    }
  }

  lemma {:induction false} NegCountAppend(edges: seq<Edge>, ids: seq<nat>, e: Edge)
    requires forall k :: 0 <= k < |ids| ==> ids[k] < |edges|
    ensures NegCount(edges + [e], ids) == NegCount(edges, ids)
    decreases |ids|
  {
    if ids != [] {
      NegCountAppend(edges, ids[..|ids| - 1], e);
    }
  }

  lemma NegCountConcat(edges: seq<Edge>, ids: seq<nat>, x: nat)
    ensures NegCount(edges, ids + [x]) == NegCount(edges, ids) + if x < |edges| && edges[x].cap < 0 then 1 else 0
  {
    assert (ids + [x])[..|ids|] == ids;
  }

  /** The sum of the negative degrees of the nodes below k. */
  function DegreeSum(edges: seq<Edge>, k: nat): nat {
    if k == 0 then 0 else DegreeSum(edges, k - 1) + NegDegree(edges, k - 1)
  }

  /** The number of edges of negative capacity. */
  function NegEdges(edges: seq<Edge>): nat {
    if edges == [] then 0 else NegEdges(edges[..|edges| - 1]) + if edges[|edges| - 1].cap < 0 then 1 else 0
  }

  /** How many of the nodes below k a new edge adds to the negative degree of. */
  function EdgeShare(e: Edge, k: nat): nat {
    if k == 0 then 0 else EdgeShare(e, k - 1) + if e.Touches(k - 1) && e.cap < 0 then 1 else 0
  }

  /** A new edge adds one to the negative degree of each end, if negative. */
  lemma NegDegreeAppend(edges: seq<Edge>, e: Edge, v: nat)
    ensures NegDegree(edges + [e], v) == NegDegree(edges, v) + if e.Touches(v) && e.cap < 0 then 1 else 0
  {
    assert (edges + [e])[..|edges|] == edges;
  }

  lemma {:induction false} DegreeSumAppend(edges: seq<Edge>, e: Edge, k: nat)
    ensures DegreeSum(edges + [e], k) == DegreeSum(edges, k) + EdgeShare(e, k)
    decreases k
  {
    if k > 0 {
      DegreeSumAppend(edges, e, k - 1);
      NegDegreeAppend(edges, e, k - 1);
    }
  }

  /** An edge between two distinct nodes below k is shared by exactly two of them. */
  lemma {:induction false} EdgeShareOfEnds(e: Edge, k: nat)
    requires e.from != e.to
    ensures EdgeShare(e, k) == (if e.cap < 0 then 1 else 0) * ((if e.from < k then 1 else 0) + (if e.to < k then 1 else 0))
    decreases k
  {
    if k > 0 {
      EdgeShareOfEnds(e, k - 1);
    }
  }

  /** Handshaking: the negative degrees of all nodes add up to twice the
      number of negative edges. */
  lemma {:induction false} Handshake(edges: seq<Edge>, k: nat)
    requires forall e :: 0 <= e < |edges| ==> edges[e].from < k && edges[e].to < k && edges[e].from != edges[e].to
    ensures DegreeSum(edges, k) == 2 * NegEdges(edges)
    decreases |edges|
  {
    if edges == [] {
      ZeroDegreeSum(edges, k);
    } else {
      var init := edges[..|edges| - 1];
      var e := edges[|edges| - 1];
      Handshake(init, k);
      assert init + [e] == edges;
      DegreeSumAppend(init, e, k);
      EdgeShareOfEnds(e, k);
    }
  }

  lemma {:induction false} ZeroDegreeSum(edges: seq<Edge>, k: nat)
    requires edges == []
    ensures DegreeSum(edges, k) == 0
    decreases k
  {
    if k > 0 {
      ZeroDegreeSum(edges, k - 1);
    }
  }

  lemma {:induction false} OddNodesParity(edges: seq<Edge>, k: nat)
    ensures |OddNodes(edges, k)| % 2 == DegreeSum(edges, k) % 2
    decreases k
  {
    if k > 0 {
      OddNodesParity(edges, k - 1);
    }
  }

  /** The set T of nodes of odd negative degree has even size, so a perfect
      matching of T can exist. */
  lemma OddNodesEven(g: Graph)
    requires g.Valid()
    ensures |OddNodes(g.edges, |g.nodes|)| % 2 == 0
  {
    Handshake(g.edges, |g.nodes|);
    OddNodesParity(g.edges, |g.nodes|);
  }

  // ---------------------------------------------------------------------
  // The metric closure of asp

  /** Edge e joins a and b, in either direction. */
  predicate Joins(e: Edge, a: nat, b: nat) {
    (e.from == a && e.to == b) || (e.to == a && e.from == b)
  }

  /** The closure entry at (a, b) once the first k edges are seeded: the last
      of them that joins a and b, at its cost, or no edge at max_capacity. */
  function SeedEntry(edges: seq<Edge>, cost: seq<int>, k: nat, a: nat, b: nat): Entry
    requires k <= |edges| && |cost| == |edges|
  {
    if k == 0 then Entry(INVALID_EDGE_ID, MAX_CAPACITY)
    else if Joins(edges[k - 1], a, b) then Entry(k - 1, cost[k - 1])
    else SeedEntry(edges, cost, k - 1, a, b)
  }

  /** The seed names the last edge joining a and b and carries its cost; it
      names no edge only when none joins them. */
  lemma {:induction false} SeedEntrySpec(edges: seq<Edge>, cost: seq<int>, k: nat, a: nat, b: nat)
    requires k <= |edges| < INVALID_EDGE_ID && |cost| == |edges|
    ensures var s := SeedEntry(edges, cost, k, a, b);
      if s.incoming < k then
        Joins(edges[s.incoming], a, b) && s.dist == cost[s.incoming] &&
        forall f :: s.incoming < f < k ==> !Joins(edges[f], a, b)
      else
        s == Entry(INVALID_EDGE_ID, MAX_CAPACITY) && forall f :: 0 <= f < k ==> !Joins(edges[f], a, b)
    decreases k
  {
    if k > 0 {
      SeedEntrySpec(edges, cost, k - 1, a, b);
    }
  }

  /** What every closure entry satisfies: a distance in [0, max_capacity],
      no larger than the seed; a finite one names an edge, and a named edge
      has b as an end. */
  ghost predicate CellOk(edges: seq<Edge>, cost: seq<int>, a: nat, b: nat, x: Entry)
    requires |cost| == |edges|
  {
    && 0 <= x.dist <= MAX_CAPACITY
    && (x.dist < MAX_CAPACITY ==> x.incoming < |edges|)
    && (x.incoming < |edges| ==> edges[x.incoming].Touches(b))
    && x.dist <= SeedEntry(edges, cost, |edges|, a, b).dist
  }

  ghost predicate ClosureOk(edges: seq<Edge>, cost: seq<int>, n: nat, mc: array2<Entry>)
    reads mc
  {
    |cost| == |edges| && mc.Length0 == n && mc.Length1 == n &&
    forall a, b :: 0 <= a < n && 0 <= b < n ==> CellOk(edges, cost, a, b, mc[a, b])
  }

  /** One Floyd-Warshall update of x = [m][l] through the pivot: when both
      legs [m][n] and [n][l] are finite and their sum is strictly smaller,
      x takes the sum and the second leg's incoming edge. */
  function Improve(x: Entry, left: Entry, right: Entry): (r: Entry)
    ensures r.dist <= x.dist
    ensures left.dist < MAX_CAPACITY && right.dist < MAX_CAPACITY ==> r.dist <= left.dist + right.dist
  {
    if left.dist < MAX_CAPACITY && right.dist < MAX_CAPACITY && x.dist > left.dist + right.dist
    then Entry(right.incoming, left.dist + right.dist)
    else x
  }

  /** A cell of the pivot's row or column is its own leg and does not move. */
  lemma ImproveOwnLeg(x: Entry, y: Entry)
    requires y.dist >= 0
    ensures Improve(x, x, y) == x && Improve(x, y, x) == x
  {
  }

  /** Improving a valid cell through valid legs gives a valid cell. */
  lemma ImproveOk(edges: seq<Edge>, cost: seq<int>, a: nat, p: nat, b: nat, x: Entry, left: Entry, right: Entry)
    requires |cost| == |edges|
    requires CellOk(edges, cost, a, b, x) && CellOk(edges, cost, a, p, left) && CellOk(edges, cost, p, b, right)
    ensures CellOk(edges, cost, a, b, Improve(x, left, right))
  {
  }

  /** The rows asp appends: one entry per node, each a valid closure entry from a. */
  ghost predicate ClosureRow(edges: seq<Edge>, cost: seq<int>, n: nat, row: seq<Entry>, a: nat)
    requires |cost| == |edges|
  {
    |row| == n && forall b :: 0 <= b < n ==> CellOk(edges, cost, a, b, row[b])
  }

  function Row(mc: array2<Entry>, a: nat): (r: seq<Entry>)
    requires a < mc.Length0
    reads mc
    ensures |r| == mc.Length1 && forall b :: 0 <= b < mc.Length1 ==> r[b] == mc[a, b]
  {
    seq(mc.Length1, b requires 0 <= b < mc.Length1 reads mc => mc[a, b])
  }

  /** m is an n by n matrix. */
  predicate Square(m: seq<seq<Entry>>, n: nat) {
    |m| == n && forall a :: 0 <= a < n ==> |m[a]| == n
  }

  /** The metric closure after asp's seeding loop: every cell holds its seed. */
  function SeedMatrix(edges: seq<Edge>, cost: seq<int>, n: nat): (m: seq<seq<Entry>>)
    requires |cost| == |edges|
    ensures Square(m, n)
    ensures forall a, b :: 0 <= a < n && 0 <= b < n ==> m[a][b] == SeedEntry(edges, cost, |edges|, a, b)
  {
    seq(n, a requires 0 <= a < n => seq(n, b requires 0 <= b < n => SeedEntry(edges, cost, |edges|, a, b)))
  }

  /** One round of asp's pivot loop on a matrix: every cell [a][b] is
      improved through [a][p] and [p][b], all read before the round. */
  function PivotMatrix(m: seq<seq<Entry>>, p: nat): (r: seq<seq<Entry>>)
    requires Square(m, |m|) && p < |m|
    ensures Square(r, |m|)
    ensures forall a, b :: 0 <= a < |m| && 0 <= b < |m| ==> r[a][b] == Improve(m[a][b], m[a][p], m[p][b])
  {
    seq(|m|, a requires 0 <= a < |m| => seq(|m|, b requires 0 <= b < |m| => Improve(m[a][b], m[a][p], m[p][b])))
  }

  /** The metric closure once the nodes below p have served as pivots. */
  function ClosureAfter(edges: seq<Edge>, cost: seq<int>, n: nat, p: nat): (m: seq<seq<Entry>>)
    requires |cost| == |edges| && p <= n
    ensures Square(m, n)
    decreases p
  {
    if p == 0 then SeedMatrix(edges, cost, n)
    else PivotMatrix(ClosureAfter(edges, cost, n, p - 1), p - 1)
  }

  /** The metric closure asp computes: every node has served as pivot. */
  function Closure(edges: seq<Edge>, cost: seq<int>, n: nat): (m: seq<seq<Entry>>)
    requires |cost| == |edges|
    ensures Square(m, n)
  {
    ClosureAfter(edges, cost, n, n)
  }

  /** With non-negative costs, every cell of the closure after any number
      of pivots is a valid closure entry. */
  lemma {:induction false} ClosureAfterOk(edges: seq<Edge>, cost: seq<Capacity>, n: nat, p: nat)
    requires |cost| == |edges| < INVALID_EDGE_ID && NonNegative(cost) && p <= n
    ensures forall a, b :: 0 <= a < n && 0 <= b < n ==> CellOk(edges, cost, a, b, ClosureAfter(edges, cost, n, p)[a][b])
    decreases p
  {
    if p == 0 {
      SeedMatrixOk(edges, cost, n);
    } else {
      ClosureAfterOk(edges, cost, n, p - 1);
      PivotMatrixOk(edges, cost, ClosureAfter(edges, cost, n, p - 1), p - 1);
    }
  }

  /** Every seeded cell is a valid closure entry. */
  lemma SeedMatrixOk(edges: seq<Edge>, cost: seq<Capacity>, n: nat)
    requires |cost| == |edges| < INVALID_EDGE_ID && NonNegative(cost)
    ensures forall a, b :: 0 <= a < n && 0 <= b < n ==> CellOk(edges, cost, a, b, SeedMatrix(edges, cost, n)[a][b])
  {
    forall a, b | 0 <= a < n && 0 <= b < n
      ensures CellOk(edges, cost, a, b, SeedMatrix(edges, cost, n)[a][b])
    {
      SeedEntrySpec(edges, cost, |edges|, a, b);
    }
  }

  /** A pivot round keeps every cell a valid closure entry. */
  lemma PivotMatrixOk(edges: seq<Edge>, cost: seq<int>, m: seq<seq<Entry>>, p: nat)
    requires |cost| == |edges| && Square(m, |m|) && p < |m|
    requires forall a, b :: 0 <= a < |m| && 0 <= b < |m| ==> CellOk(edges, cost, a, b, m[a][b])
    ensures forall a, b :: 0 <= a < |m| && 0 <= b < |m| ==> CellOk(edges, cost, a, b, PivotMatrix(m, p)[a][b])
  {
    forall a, b | 0 <= a < |m| && 0 <= b < |m|
      ensures CellOk(edges, cost, a, b, PivotMatrix(m, p)[a][b])
    {
      ImproveOk(edges, cost, a, p, b, m[a][b], m[a][p], m[p][b]);
    }
  }

  /** The rows of the closure are closure rows. */
  lemma ClosureRows(edges: seq<Edge>, cost: seq<Capacity>, n: nat)
    requires |cost| == |edges| < INVALID_EDGE_ID && NonNegative(cost)
    ensures forall a :: 0 <= a < n ==> ClosureRow(edges, cost, n, Closure(edges, cost, n)[a], a)
  {
    ClosureAfterOk(edges, cost, n, n);
  }

  /** Once p has served as pivot, no finite pair of legs through p is
      shorter than the cell they join: the pivot's own row and column do
      not move during its round, and every other cell is at most their sum. */
  lemma ClosureThroughPivot(edges: seq<Edge>, cost: seq<Capacity>, n: nat, p: nat, a: nat, b: nat)
    requires |cost| == |edges| < INVALID_EDGE_ID && NonNegative(cost) && p < n && a < n && b < n
    ensures var m := ClosureAfter(edges, cost, n, p + 1);
      m[a][p].dist < MAX_CAPACITY && m[p][b].dist < MAX_CAPACITY ==> m[a][b].dist <= m[a][p].dist + m[p][b].dist
  {
    var prev := ClosureAfter(edges, cost, n, p);
    ClosureAfterOk(edges, cost, n, p);
    assert CellOk(edges, cost, p, p, prev[p][p]);
    ImproveOwnLeg(prev[a][p], prev[p][p]);
    ImproveOwnLeg(prev[p][b], prev[p][p]);
  }

  // ---------------------------------------------------------------------
  // The T-join of collect_used_edges

  predicate EndsBelow(edges: seq<Edge>, n: nat) {
    forall e :: 0 <= e < |edges| ==> edges[e].from < n && edges[e].to < n
  }

  /** A row whose entries only name edges into their own node: what both a
      shortest-path tree and a closure row are. */
  predicate PointsIn(edges: seq<Edge>, row: seq<Entry>) {
    forall b :: 0 <= b < |row| && row[b].incoming < |edges| ==> edges[row[b].incoming].Touches(b)
  }

  /** A shortest-path tree points in: each named incoming edge has its node
      as an end. */
  lemma TreePointsIn(nodes: seq<Node>, edges: seq<Edge>, cost: seq<int>, ret: seq<Entry>, source: nat)
    requires |cost| == |edges| <= INVALID_EDGE_ID
    requires IsShortestPathTree(nodes, edges, cost, ret, source)
    ensures PointsIn(edges, ret)
  {
    forall b | 0 <= b < |ret| && ret[b].incoming < |edges|
      ensures edges[ret[b].incoming].Touches(b)
    {
      assert ReachedTight(edges, cost, ret, source, b);
    }
  }

  /** So does every row of the closure asp builds. */
  lemma ClosureRowPointsIn(edges: seq<Edge>, cost: seq<int>, n: nat, row: seq<Entry>, a: nat)
    requires |cost| == |edges| && ClosureRow(edges, cost, n, row, a)
    ensures PointsIn(edges, row)
  {
    forall b | 0 <= b < |row| && row[b].incoming < |edges|
      ensures edges[row[b].incoming].Touches(b)
    {
      assert CellOk(edges, cost, a, b, row[b]);
    }
  }

  function PrependAll(pre: seq<nat>, r: Result<seq<nat>, TJoinError>): Result<seq<nat>, TJoinError> {
    if r.Success? then Success(pre + r.value) else r
  }

  /** The edges collect_used_edges follows from j back to target along the
      incoming entries of row, steps steps into the walk: it fails when a
      step would be the (n+1)-th, or when an entry names no edge. */
  function BackWalk(edges: seq<Edge>, row: seq<Entry>, target: nat, j: nat, steps: nat, n: nat)
    : Result<seq<nat>, TJoinError>
    requires j < |row| && EndsBelow(edges, |row|)
    decreases if steps <= n then n - steps else 0
  {
    if j == target then Success([])
    else if steps >= n then Failure(WalkTooLong)
    else
      var e := row[j].incoming;
      if e >= |edges| then Failure(BadIncoming)
      else PrependAll([e], BackWalk(edges, row, target, edges[e].Other(j), steps + 1, n))
  }

  /** Starting a walk back that succeeds earlier only gives it more room. */
  lemma {:induction false} BackWalkEarlier(edges: seq<Edge>, row: seq<Entry>, target: nat, j: nat,
                                           s1: nat, s2: nat, n: nat)
    requires j < |row| && EndsBelow(edges, |row|) && s2 <= s1
    requires BackWalk(edges, row, target, j, s1, n).Success?
    ensures BackWalk(edges, row, target, j, s2, n) == BackWalk(edges, row, target, j, s1, n)
    decreases n - s2
  {
    if j != target {
      BackWalkEarlier(edges, row, target, edges[row[j].incoming].Other(j), s1 + 1, s2 + 1, n);
    }
  }

  /** Changing only entries of unvisited nodes leaves the walk back from a
      visited node, or from a node whose entry points at one, as it was,
      when every visited node's entry points at a visited node. */
  lemma {:induction false} BackWalkFrame(edges: seq<Edge>, visited: seq<bool>, ret: seq<Entry>, r: seq<Entry>,
                                         source: nat, j: nat, steps: nat, n: nat)
    requires n == |ret| == |r| == |visited| && EndsBelow(edges, n) && j < n
    requires forall v :: 0 <= v < n && visited[v] ==> r[v] == ret[v]
    requires HangsOffVisited(edges, visited, ret, source)
    requires j != source ==> r[j] == ret[j] && ret[j].incoming < |edges| && visited[edges[ret[j].incoming].Other(j)]
    ensures BackWalk(edges, r, source, j, steps, n) == BackWalk(edges, ret, source, j, steps, n)
    decreases if steps <= n then n - steps else 0
  {
    if j != source && steps < n {
      var p := edges[ret[j].incoming].Other(j);
      assert HangsAt(edges, visited, ret, source, p);
      BackWalkFrame(edges, visited, ret, r, source, p, steps + 1, n);
    }
  }

  lemma WalkEndPrepend(edges: seq<Edge>, start: nat, e: nat, es: seq<nat>)
    requires e < |edges| && EdgeIds(edges, es)
    ensures EdgeIds(edges, [e] + es)
    ensures WalkEnd(edges, start, [e] + es) == WalkEnd(edges, edges[e].Other(start), es)
    decreases |es|
  {
    if es != [] {
      assert ([e] + es)[..|es|] == [e] + es[..|es| - 1];
      WalkEndPrepend(edges, start, e, es[..|es| - 1]);
    }
  }

  /** A successful walk back is a walk in the graph from j that ends at
      target, of at most n - steps edges. */
  lemma {:induction false} BackWalkIsWalk(edges: seq<Edge>, row: seq<Entry>, target: nat, j: nat, steps: nat, n: nat)
    requires j < |row| && EndsBelow(edges, |row|) && PointsIn(edges, row) && steps <= n
    requires BackWalk(edges, row, target, j, steps, n).Success?
    ensures var w := BackWalk(edges, row, target, j, steps, n).value;
      steps + |w| <= n && IsWalk(edges, j, w) && WalkEnd(edges, j, w) == target
    decreases n - steps
  {
    if j != target {
      var e := row[j].incoming;
      var next := edges[e].Other(j);
      BackWalkIsWalk(edges, row, target, next, steps + 1, n);
      var rest := BackWalk(edges, row, target, next, steps + 1, n).value;
      var w := [e] + rest;
      WalkEndPrepend(edges, j, e, rest);
      forall k | 0 <= k < |w| ensures edges[w[k]].Touches(WalkEnd(edges, j, w[..k])) {
        if k > 0 {
          assert w[..k] == [e] + rest[..k - 1];
          WalkEndPrepend(edges, j, e, rest[..k - 1]);
          assert w[k] == rest[k - 1];
        }
      }
    }
  }

  lemma PrependNothing(r: Result<seq<nat>, TJoinError>)
    ensures PrependAll([], r) == r
  {
    if r.Success? {
      assert [] + r.value == r.value;
    }
  }

  /** One step back from cur, which is not the target, along an incoming
      entry that names an edge: the walk so far grows by that edge. */
  lemma BackWalkStep(edges: seq<Edge>, row: seq<Entry>, target: nat, cur: nat, steps: nat, n: nat, walk: seq<nat>)
    requires cur < |row| && EndsBelow(edges, |row|) && cur != target && steps < n
    requires row[cur].incoming < |edges|
    ensures var e := row[cur].incoming;
      PrependAll(walk, BackWalk(edges, row, target, cur, steps, n))
        == PrependAll(walk + [e], BackWalk(edges, row, target, edges[e].Other(cur), steps + 1, n))
  {
    var e := row[cur].incoming;
    var rest := BackWalk(edges, row, target, edges[e].Other(cur), steps + 1, n);
    if rest.Success? {
      assert walk + ([e] + rest.value) == (walk + [e]) + rest.value;
    }
  }

  /** The inputs collect_used_edges indexes: mate is a matching of the
      positions of oddNodes, and each of those positions has a full row. */
  predicate MatchInput(oddNodes: seq<nat>, mate: seq<nat>, rows: seq<seq<Entry>>, n: nat) {
    && |mate| == |oddNodes| <= |rows|
    && (forall k :: 0 <= k < |mate| ==> mate[k] < |oddNodes|)
    && (forall k :: 0 <= k < |oddNodes| ==> oddNodes[k] < n && |rows[k]| == n)
  }

  /** The edges collect_used_edges walks for the first i positions, in
      order: position k is skipped when its node is larger than its mate's,
      and otherwise walks from the mate's node back to its own along row k. */
  function PairWalks(edges: seq<Edge>, oddNodes: seq<nat>, mate: seq<nat>, rows: seq<seq<Entry>>, n: nat, i: nat)
    : Result<seq<nat>, TJoinError>
    requires MatchInput(oddNodes, mate, rows, n) && EndsBelow(edges, n) && i <= |oddNodes|
  {
    if i == 0 then Success([])
    else
      var prev := PairWalks(edges, oddNodes, mate, rows, n, i - 1);
      var j := oddNodes[mate[i - 1]];
      if prev.Failure? || oddNodes[i - 1] > j then prev
      else PrependAll(prev.value, BackWalk(edges, rows[i - 1], oddNodes[i - 1], j, 0, n))
  }

  /** When each position's row is the shortest-path tree from its node and
      reaches its mate's node, none of the walks of collect_used_edges fails. */
  lemma PairWalksSucceed(nodes: seq<Node>, edges: seq<Edge>, cost: seq<int>, oddNodes: seq<nat>,
                         mate: seq<nat>, rows: seq<seq<Entry>>, i: nat)
    requires |cost| == |edges| && MatchInput(oddNodes, mate, rows, |nodes|) && EndsBelow(edges, |nodes|)
    requires i <= |oddNodes|
    requires forall k :: 0 <= k < |oddNodes| ==> TreeAt(nodes, edges, cost, rows, oddNodes, k)
    requires forall k :: 0 <= k < |oddNodes| ==> rows[k][oddNodes[mate[k]]].dist < MAX_CAPACITY
    ensures PairWalks(edges, oddNodes, mate, rows, |nodes|, i).Success?
  {
    forall k | 0 <= k < |oddNodes|
      ensures PairWalkSucceeds(edges, oddNodes, mate, rows, |nodes|, k)
    {
      TreeAtWalksBack(nodes, edges, cost, rows, oddNodes, k, oddNodes[mate[k]]);
    }
    PairWalksFrom(edges, oddNodes, mate, rows, |nodes|, i);
  }

  /** The walk of position k, from its mate's node back to its own, succeeds. */
  predicate PairWalkSucceeds(edges: seq<Edge>, oddNodes: seq<nat>, mate: seq<nat>, rows: seq<seq<Entry>>,
                             n: nat, k: nat)
    requires MatchInput(oddNodes, mate, rows, n) && EndsBelow(edges, n) && k < |oddNodes|
  {
    BackWalk(edges, rows[k], oddNodes[k], oddNodes[mate[k]], 0, n).Success?
  }

  /** When the walk of every position succeeds, so does collect_used_edges. */
  lemma {:induction false} PairWalksFrom(edges: seq<Edge>, oddNodes: seq<nat>, mate: seq<nat>, rows: seq<seq<Entry>>,
                                         n: nat, i: nat)
    requires MatchInput(oddNodes, mate, rows, n) && EndsBelow(edges, n) && i <= |oddNodes|
    requires forall k :: 0 <= k < |oddNodes| ==> PairWalkSucceeds(edges, oddNodes, mate, rows, n, k)
    ensures PairWalks(edges, oddNodes, mate, rows, n, i).Success?
    decreases i
  {
    if i > 0 {
      PairWalksFrom(edges, oddNodes, mate, rows, n, i - 1);
      assert PairWalkSucceeds(edges, oddNodes, mate, rows, n, i - 1);
    }
  }

  /** A node the tree of row k reaches walks back to that row's source. */
  lemma TreeAtWalksBack(nodes: seq<Node>, edges: seq<Edge>, cost: seq<int>, rows: seq<seq<Entry>>,
                        sources: seq<nat>, k: nat, j: nat)
    requires |cost| == |edges| && k < |rows| && k < |sources|
    requires TreeAt(nodes, edges, cost, rows, sources, k)
    requires j < |rows[k]| && rows[k][j].dist < MAX_CAPACITY
    ensures BackWalk(edges, rows[k], sources[k], j, 0, |rows[k]|).Success?
  {
  }

  /** Once a walk fails, collect_used_edges stops with that failure. */
  lemma {:induction false} PairWalksFailed(edges: seq<Edge>, oddNodes: seq<nat>, mate: seq<nat>, rows: seq<seq<Entry>>,
                                           n: nat, i: nat, k: nat)
    requires MatchInput(oddNodes, mate, rows, n) && EndsBelow(edges, n) && i <= k <= |oddNodes|
    requires PairWalks(edges, oddNodes, mate, rows, n, i).Failure?
    ensures PairWalks(edges, oddNodes, mate, rows, n, k) == PairWalks(edges, oddNodes, mate, rows, n, i)
    decreases k
  {
    if i < k {
      PairWalksFailed(edges, oddNodes, mate, rows, n, i, k - 1);
    }
  }

  /** Each walked id flips its flag. */
  function Toggle(flags: seq<bool>, es: seq<nat>): (r: seq<bool>)
    requires forall k :: 0 <= k < |es| ==> es[k] < |flags|
    ensures |r| == |flags|
  {
    if es == [] then flags
    else
      var f := Toggle(flags, es[..|es| - 1]);
      f[es[|es| - 1] := !f[es[|es| - 1]]]
  }

  lemma {:induction false} ToggleConcat(flags: seq<bool>, a: seq<nat>, b: seq<nat>)
    requires forall k :: 0 <= k < |a| ==> a[k] < |flags|
    requires forall k :: 0 <= k < |b| ==> b[k] < |flags|
    ensures forall k :: 0 <= k < |a + b| ==> (a + b)[k] < |flags|
    ensures Toggle(flags, a + b) == Toggle(Toggle(flags, a), b)
    decreases |b|
  {
    if b != [] {
      var p := b[..|b| - 1];
      ToggleConcat(flags, a, p);
      var x := b[|b| - 1];
      assert (a + b)[..|a + b| - 1] == a + p;
      assert (a + b)[|a + b| - 1] == x;
      var f := Toggle(flags, a + p);
      assert Toggle(flags, a + b) == f[x := !f[x]];
    } else {
      assert a + b == a;
    }
  }

  lemma ToggleStep(flags: seq<bool>, es: seq<nat>, x: nat)
    requires forall k :: 0 <= k < |es| ==> es[k] < |flags|
    requires x < |flags|
    ensures forall k :: 0 <= k < |es + [x]| ==> (es + [x])[k] < |flags|
    ensures Toggle(flags, es + [x]) == Toggle(flags, es)[x := !Toggle(flags, es)[x]]
  {
    assert (es + [x])[..|es|] == es;
  }

  /** A flag ends up flipped exactly when its id was walked an odd number of times. */
  lemma {:induction false} ToggleParity(flags: seq<bool>, es: seq<nat>, x: nat)
    requires forall k :: 0 <= k < |es| ==> es[k] < |flags|
    requires x < |flags|
    ensures Toggle(flags, es)[x] == (flags[x] != (multiset(es)[x] % 2 == 1))
    decreases |es|
  {
    if es != [] {
      var p: seq<nat>, y: nat := es[..|es| - 1], es[|es| - 1];
      ToggleParity(flags, p, x);
      var f := Toggle(flags, p);
      assert Toggle(flags, es) == f[y := !f[y]];
      assert es == p + [y];
      assert multiset(es) == multiset(p) + multiset{y};
      if y == x {
        assert multiset(es)[x] == multiset(p)[x] + 1;
      } else {
        assert multiset(es)[x] == multiset(p)[x];
      }
    }
  }

  /** The ids below k whose flag differs from the sign of their capacity,
      in increasing order. */
  function Differing(flags: seq<bool>, edges: seq<Edge>, k: nat): seq<nat>
    requires k <= |flags| && k <= |edges|
  {
    if k == 0 then []
    else Differing(flags, edges, k - 1) + if flags[k - 1] != (edges[k - 1].cap < 0) then [k - 1] else []
  }

  lemma {:induction false} DifferingSpec(flags: seq<bool>, edges: seq<Edge>, k: nat)
    requires k <= |flags| && k <= |edges|
    ensures Increasing(Differing(flags, edges, k))
    ensures forall x: nat :: x in Differing(flags, edges, k) <==> x < k && flags[x] != (edges[x].cap < 0)
    decreases k
  {
    if k > 0 {
      DifferingSpec(flags, edges, k - 1);
      var prev := Differing(flags, edges, k - 1);
      var r := Differing(flags, edges, k);
      forall i, j | 0 <= i < j < |r| ensures r[i] < r[j] {
        assert r[i] == prev[i] && prev[i] in prev;
        if j < |prev| {
          assert r[j] == prev[j];
        }
      }
    }
  }

  /** The T-join: an edge is used exactly when it was walked an odd number
      of times or has negative capacity, but not both. */
  lemma UsedEdgesSpec(edges: seq<Edge>, walked: seq<nat>, x: nat)
    requires forall k :: 0 <= k < |walked| ==> walked[k] < |edges|
    ensures x in Differing(Toggle(seq(|edges|, _ => false), walked), edges, |edges|) <==>
      x < |edges| && (multiset(walked)[x] % 2 == 1) != (edges[x].cap < 0)
  {
    var flags := Toggle(seq(|edges|, _ => false), walked);
    DifferingSpec(flags, edges, |edges|);
    if x < |edges| {
      ToggleParity(seq(|edges|, _ => false), walked, x);
    }
  }

  class TJoin {
    /** _g: the graph whose T-join is sought. */
    const g: Graph
    /** get_cap(e): the cost of each edge, by edge id. */
    const cost: seq<Capacity>
    /** _odd_nodes: the nodes of odd negative degree, the set T. */
    var oddNodes: seq<nat>
    /** _shortest_paths: one row per entry of oddNodes. */
    var shortestPaths: seq<seq<Entry>>
    /** _used_edges: the edges of the T-join. */
    var usedEdges: seq<nat>

    /** The graph is valid, each edge has a cost, and ids stay below the sentinels. */
    ghost predicate GraphOk()
      reads this, g
    {
      && g.Valid() && |cost| == |g.edges|
      && |g.nodes| < INVALID_NODE_ID && |g.edges| < INVALID_EDGE_ID
    }

    /** The graph is fine and oddNodes names nodes of it. */
    ghost predicate Valid()
      reads this, g
    {
      GraphOk() && forall k :: 0 <= k < |oddNodes| ==> oddNodes[k] < |g.nodes|
    }

    constructor(graph: Graph, costs: seq<Capacity>)
      requires graph.Valid() && |costs| == |graph.edges|
      requires |graph.nodes| < INVALID_NODE_ID && |graph.edges| < INVALID_EDGE_ID
      ensures Valid() && g == graph && cost == costs
      ensures oddNodes == [] && shortestPaths == [] && usedEdges == []
    {
      g := graph;
      cost := costs;
      oddNodes := [];
      shortestPaths := [];
      usedEdges := [];
    }

    /** odd_neg_deg(v): whether v has an odd number of incident edges of
        negative capacity. */
    method OddNegDeg(v: nat) returns (b: bool)
      requires GraphOk() && v < |g.nodes|
      ensures b <==> NegDegree(g.edges, v) % 2 == 1
    {
      var inc := g.nodes[v].incident;
      IncidentIdsSpec(g.edges, v);
      var numNeg := 0;
      for k := 0 to |inc|
        invariant numNeg == NegCount(g.edges, inc[..k])
      {
        assert inc[..k + 1] == inc[..k] + [inc[k]];
        NegCountConcat(g.edges, inc[..k], inc[k]);
        assert inc[k] in inc;
        if g.edges[inc[k]].cap < 0 {
          numNeg := numNeg + 1;
        }
      }
      assert inc[..|inc|] == inc;
      NegCountIncident(g.edges, v);
      return numNeg % 2 == 1;
    }

    /** all_pairs_shortest_paths: for each node of odd negative degree, in
        increasing order, appends it to oddNodes and its shortest-path tree
        to shortestPaths. */
    method AllPairsShortestPaths()
      requires Valid() && NonNegative(cost)
      modifies this
      ensures WellFormed(g.nodes, g.edges)
      ensures oddNodes == old(oddNodes) + OddNodes(g.edges, |g.nodes|)
      ensures |shortestPaths| == |old(shortestPaths)| + |OddNodes(g.edges, |g.nodes|)|
      ensures shortestPaths[..|old(shortestPaths)|] == old(shortestPaths)
      ensures TreesFor(g.nodes, g.edges, cost, shortestPaths[|old(shortestPaths)|..], OddNodes(g.edges, |g.nodes|))
      ensures usedEdges == old(usedEdges) && Valid()
    {
      ValidIsWellFormed(g);
      var n := |g.nodes|;
      ghost var nodes, edges := g.nodes, g.edges;
      ghost var trees: seq<seq<Entry>> := [];
      for v := 0 to n
        invariant oddNodes == old(oddNodes) + OddNodes(edges, v)
        invariant shortestPaths == old(shortestPaths) + trees
        invariant TreesFor(nodes, edges, cost, trees, OddNodes(edges, v))
        invariant usedEdges == old(usedEdges) && Valid()
      {
        var odd := PushIfOdd(v);
        assert OddNodes(edges, v + 1) == OddNodes(edges, v) + if odd then [v] else [];
        if odd {
          var tree := AppendTree(v);
          TreesForAppend(nodes, edges, cost, trees, OddNodes(edges, v), tree, v);
          trees := trees + [tree];
        } else {
          assert OddNodes(edges, v) + [] == OddNodes(edges, v);
        }
      }
      assert shortestPaths[|old(shortestPaths)|..] == trees;
    }

    /** The body of all_pairs_shortest_paths for an odd node: appends the
        shortest-path tree from v. */
    method AppendTree(v: nat) returns (tree: seq<Entry>)
      requires Valid() && NonNegative(cost) && v < |g.nodes|
      modifies this
      ensures IsShortestPathTree(g.nodes, g.edges, cost, tree, v)
      ensures shortestPaths == old(shortestPaths) + [tree]
      ensures oddNodes == old(oddNodes) && usedEdges == old(usedEdges) && Valid()
    {
      tree := ComputeShortestPaths(v);
      shortestPaths := shortestPaths + [tree];
    }

    /** asp: seeds the metric closure from the edges, throwing on a
        negative cost; runs Floyd-Warshall over every node as pivot,
        appending the nodes of odd negative degree to oddNodes on the way;
        then moves the closure row of every node in oddNodes into
        shortestPaths, so a node listed twice gets an empty row the
        second time. */
    method Asp() returns (out: Outcome<TJoinError>)
      requires Valid()
      modifies this
      ensures usedEdges == old(usedEdges) && Valid()
      ensures out.Fail? <==> !NonNegative(cost)
      ensures out.Fail? ==> out.error == NegativeCost && oddNodes == old(oddNodes) && shortestPaths == old(shortestPaths)
      ensures out.Pass? ==> oddNodes == old(oddNodes) + OddNodes(g.edges, |g.nodes|)
      ensures out.Pass? ==>
        |shortestPaths| == |old(shortestPaths)| + |oddNodes| && shortestPaths[..|old(shortestPaths)|] == old(shortestPaths)
      ensures out.Pass? ==> forall k :: 0 <= k < |oddNodes| ==>
        shortestPaths[|old(shortestPaths)| + k] ==
          if SeenBefore(oddNodes, k) then [] else Closure(g.edges, cost, |g.nodes|)[oddNodes[k]]
      ensures out.Pass? ==> forall k :: 0 <= k < |oddNodes| && !SeenBefore(oddNodes, k) ==>
        ClosureRow(g.edges, cost, |g.nodes|, shortestPaths[|old(shortestPaths)| + k], oddNodes[k])
      ensures out.Pass? && old(oddNodes) == [] ==> forall k :: 0 <= k < |oddNodes| ==>
        shortestPaths[|old(shortestPaths)| + k] == Closure(g.edges, cost, |g.nodes|)[oddNodes[k]]
    {
      var n := |g.nodes|;
      ghost var edges := g.edges;
      var mc := new Entry[n, n]((_, _) => Entry(INVALID_EDGE_ID, MAX_CAPACITY));
      var seeded := SeedClosure(mc);
      if !seeded {
        return Fail(NegativeCost);
      }
      ghost var pre, sp, ue := oddNodes, shortestPaths, usedEdges;
      RoundsStart(mc);
      PivotRounds(mc, pre, sp, ue);
      RoundsEnd(mc, pre, sp, ue);
      ghost var closure := Closure(edges, cost, n);
      ClosureRows(edges, cost, n);
      AppendRows(mc, closure);
      if old(oddNodes) == [] {
        OddNodesSpec(edges, n);
        forall k | 0 <= k < |oddNodes|
          ensures !SeenBefore(oddNodes, k)
        {
          IncreasingNotBefore(oddNodes, k);
        }
      }
      return Pass;
    }

    /** The pivot loop of asp: every node in turn is tested for odd negative
        degree and then serves as pivot, so after the last round the closure
        has had every node as pivot (RoundsEnd turns that into Closure). */
    method PivotRounds(mc: array2<Entry>, ghost pre: seq<nat>, ghost sp: seq<seq<Entry>>, ghost ue: seq<nat>)
      requires RoundsDone(mc, 0, pre, sp, ue)
      modifies this, mc
      ensures RoundsDone(mc, |g.nodes|, pre, sp, ue)
    {
      for p := 0 to |g.nodes|
        invariant RoundsDone(mc, p, pre, sp, ue)
      {
        PivotRound(mc, p, pre, sp, ue);
      }
    }

    /** Before the first round: no pivot yet, so the closure is the seed,
        and nothing has joined oddNodes. */
    lemma RoundsStart(mc: array2<Entry>)
      requires Valid() && NonNegative(cost) && MatrixIs(mc, SeedMatrix(g.edges, cost, |g.nodes|))
      ensures RoundsDone(mc, 0, oddNodes, shortestPaths, usedEdges)
    {
      assert ClosureAfter(g.edges, cost, |g.nodes|, 0) == SeedMatrix(g.edges, cost, |g.nodes|);
      assert oddNodes == oddNodes + OddNodes(g.edges, 0);
    }

    /** After the last round every node has been a pivot, so the closure is
        Closure, and every node has been tested. */
    lemma RoundsEnd(mc: array2<Entry>, pre: seq<nat>, sp: seq<seq<Entry>>, ue: seq<nat>)
      requires RoundsDone(mc, |g.nodes|, pre, sp, ue)
      ensures MatrixIs(mc, Closure(g.edges, cost, |g.nodes|))
      ensures oddNodes == pre + OddNodes(g.edges, |g.nodes|)
      ensures shortestPaths == sp && usedEdges == ue && Valid()
    {
    }

    /** After p rounds of asp's pivot loop: the closure has had the nodes
        below p as pivots, and those of them with odd negative degree follow
        the prefix pre in oddNodes; shortestPaths and usedEdges are still
        sp and ue. */
    ghost predicate RoundsDone(mc: array2<Entry>, p: nat, pre: seq<nat>, sp: seq<seq<Entry>>, ue: seq<nat>)
      reads this, g, mc
    {
      && Valid() && NonNegative(cost) && p <= |g.nodes| && shortestPaths == sp && usedEdges == ue
      && MatrixIs(mc, ClosureAfter(g.edges, cost, |g.nodes|, p))
      && oddNodes == pre + OddNodes(g.edges, p)
    }

    /** One round of asp's pivot loop: p joins oddNodes when its negative
        degree is odd, then serves as pivot, taking the closure from p
        pivots to p + 1. */
    method PivotRound(mc: array2<Entry>, p: nat, ghost pre: seq<nat>, ghost sp: seq<seq<Entry>>, ghost ue: seq<nat>)
      requires RoundsDone(mc, p, pre, sp, ue) && p < |g.nodes|
      modifies this, mc
      ensures RoundsDone(mc, p + 1, pre, sp, ue)
    {
      PushOddRound(p, pre);
      PivotTo(mc, p);
    }

    /** The test that opens a round of asp's pivot loop, on oddNodes. */
    method PushOddRound(p: nat, ghost pre: seq<nat>)
      requires Valid() && p < |g.nodes| && oddNodes == pre + OddNodes(g.edges, p)
      modifies this
      ensures oddNodes == pre + OddNodes(g.edges, p + 1)
      ensures shortestPaths == old(shortestPaths) && usedEdges == old(usedEdges) && Valid()
    {
      var odd := PushIfOdd(p);
      if odd {
        assert OddNodes(g.edges, p + 1) == OddNodes(g.edges, p) + [p];
      } else {
        assert OddNodes(g.edges, p + 1) == OddNodes(g.edges, p) + [];
      }
    }

    /** The pivot of a round of asp's pivot loop: the closure goes from p
        pivots to p + 1. */
    method PivotTo(mc: array2<Entry>, p: nat)
      requires GraphOk() && NonNegative(cost) && p < |g.nodes|
      requires MatrixIs(mc, ClosureAfter(g.edges, cost, |g.nodes|, p))
      modifies mc
      ensures MatrixIs(mc, ClosureAfter(g.edges, cost, |g.nodes|, p + 1))
    {
      ghost var m := ClosureAfter(g.edges, cost, |g.nodes|, p);
      ClosureAfterOk(g.edges, cost, |g.nodes|, p);
      Pivot(mc, p);
      PivotedIs(mc, m, p);
    }

    /** The test that opens each round of asp and of
        all_pairs_shortest_paths: v joins oddNodes when its negative degree is odd. */
    method PushIfOdd(v: nat) returns (odd: bool)
      requires Valid() && v < |g.nodes|
      modifies this
      ensures odd <==> NegDegree(g.edges, v) % 2 == 1
      ensures oddNodes == old(oddNodes) + if odd then [v] else []
      ensures shortestPaths == old(shortestPaths) && usedEdges == old(usedEdges) && Valid()
    {
      odd := OddNegDeg(v);
      if odd {
        oddNodes := oddNodes + [v];
      }
    }

    /** The last loop of asp: the closure row of every node of oddNodes is
        moved into shortestPaths, in order. Moving a row leaves it empty in
        the closure, so a node met again gets an empty row. */
    method AppendRows(mc: array2<Entry>, ghost m: seq<seq<Entry>>)
      requires Valid() && mc.Length0 == |g.nodes| && MatrixIs(mc, m)
      modifies this
      ensures oddNodes == old(oddNodes) && usedEdges == old(usedEdges) && Valid()
      ensures |shortestPaths| == |old(shortestPaths)| + |oddNodes|
      ensures shortestPaths[..|old(shortestPaths)|] == old(shortestPaths)
      ensures forall k :: 0 <= k < |oddNodes| ==> shortestPaths[|old(shortestPaths)| + k] == MovedRow(mc, oddNodes, k)
      ensures forall k :: 0 <= k < |oddNodes| ==>
        shortestPaths[|old(shortestPaths)| + k] == if SeenBefore(oddNodes, k) then [] else m[oddNodes[k]]
    {
      ghost var base := |shortestPaths|;
      var moved: set<nat> := {};
      for k := 0 to |oddNodes|
        invariant oddNodes == old(oddNodes) && usedEdges == old(usedEdges)
        invariant |shortestPaths| == base + k && shortestPaths[..base] == old(shortestPaths)
        invariant MovedBy(moved, oddNodes, k)
        invariant forall j :: 0 <= j < k ==> shortestPaths[base + j] == MovedRow(mc, oddNodes, j)
      {
        var v := oddNodes[k];
        MovedByStep(moved, oddNodes, k);
        var row := if v in moved then [] else Row(mc, v);
        shortestPaths := shortestPaths + [row];
        moved := moved + {v};
      }
      forall k | 0 <= k < |oddNodes|
        ensures MovedRow(mc, oddNodes, k) == if SeenBefore(oddNodes, k) then [] else m[oddNodes[k]]
      {
        MovedRowIs(mc, m, oddNodes, k);
      }
    }

    /** The seeding loop of asp: each edge, in id order, sets both [from][to]
        and [to][from]; a negative cost stops it. */
    method SeedClosure(mc: array2<Entry>) returns (ok: bool)
      requires GraphOk() && mc.Length0 == |g.nodes| && mc.Length1 == |g.nodes|
      requires forall a, b :: 0 <= a < mc.Length0 && 0 <= b < mc.Length1 ==> mc[a, b] == Entry(INVALID_EDGE_ID, MAX_CAPACITY)
      modifies mc
      ensures ok <==> NonNegative(cost)
      ensures ok ==> forall a, b :: 0 <= a < mc.Length0 && 0 <= b < mc.Length1 ==>
        mc[a, b] == SeedEntry(g.edges, cost, |g.edges|, a, b)
      ensures ok ==> ClosureOk(g.edges, cost, |g.nodes|, mc)
      ensures ok ==> MatrixIs(mc, SeedMatrix(g.edges, cost, |g.nodes|))
    {
      for e := 0 to |g.edges|
        invariant forall f :: 0 <= f < e ==> cost[f] >= 0
        invariant forall a, b :: 0 <= a < mc.Length0 && 0 <= b < mc.Length1 ==>
          mc[a, b] == SeedEntry(g.edges, cost, e, a, b)
      {
        var ed := g.edges[e];
        var dist := cost[e];
        if dist < 0 {
          return false;
        }
        mc[ed.from, ed.to] := Entry(e, dist);
        mc[ed.to, ed.from] := Entry(e, dist);
      }
      forall a, b | 0 <= a < mc.Length0 && 0 <= b < mc.Length1
        ensures CellOk(g.edges, cost, a, b, mc[a, b])
      {
        SeedEntrySpec(g.edges, cost, |g.edges|, a, b);
      }
      return true;
    }

    /** One pivot of Floyd-Warshall: every cell [m][l] is improved through
        [m][p] and [p][l]; row and column p never move, so every cell is
        improved from the values before the pivot. A negative entry never
        occurs, so the check that would throw never fires. */
    method Pivot(mc: array2<Entry>, p: nat)
      requires GraphOk() && ClosureOk(g.edges, cost, |g.nodes|, mc) && p < |g.nodes|
      modifies mc
      ensures ClosureOk(g.edges, cost, |g.nodes|, mc)
      ensures forall a, b :: 0 <= a < mc.Length0 && 0 <= b < mc.Length1 ==>
        mc[a, b] == Improve(old(mc[a, b]), old(mc[a, p]), old(mc[p, b]))
    {
      var n := |g.nodes|;
      ghost var edges := g.edges;
      for m := 0 to n
        invariant ClosureOk(edges, cost, n, mc)
        invariant forall a, b :: 0 <= a < n && 0 <= b < n ==>
          mc[a, b] == if a < m then Improve(old(mc[a, b]), old(mc[a, p]), old(mc[p, b])) else old(mc[a, b])
      {
        for l := 0 to n
          invariant ClosureOk(edges, cost, n, mc)
          invariant forall a, b :: 0 <= a < n && 0 <= b < n ==>
            mc[a, b] == if a < m || (a == m && b < l) then Improve(old(mc[a, b]), old(mc[a, p]), old(mc[p, b]))
                        else old(mc[a, b])
        {
          assert CellOk(edges, cost, p, p, old(mc[p, p]));
          ImproveOwnLeg(old(mc[m, p]), old(mc[p, p]));
          ImproveOwnLeg(old(mc[p, l]), old(mc[p, p]));
          assert mc[m, p] == old(mc[m, p]) && mc[p, l] == old(mc[p, l]) && mc[m, l] == old(mc[m, l]);
          PivotCell(mc, edges, n, p, m, l);
        }
      }
    }

    /** The body of the pivot's inner loop: cell [m][l] goes through p. */
    method PivotCell(mc: array2<Entry>, ghost edges: seq<Edge>, n: nat, p: nat, m: nat, l: nat)
      requires ClosureOk(edges, cost, n, mc) && p < n && m < n && l < n
      modifies mc
      ensures ClosureOk(edges, cost, n, mc)
      ensures mc[m, l] == Improve(old(mc[m, l]), old(mc[m, p]), old(mc[p, l]))
      ensures forall a, b :: 0 <= a < n && 0 <= b < n && (a != m || b != l) ==> mc[a, b] == old(mc[a, b])
    {
      assert CellOk(edges, cost, m, l, mc[m, l]);
      assert CellOk(edges, cost, m, p, mc[m, p]) && CellOk(edges, cost, p, l, mc[p, l]);
      if mc[m, p].dist < MAX_CAPACITY && mc[p, l].dist < MAX_CAPACITY &&
         mc[m, l].dist > mc[m, p].dist + mc[p, l].dist
      {
        if mc[m, l].dist < 0 {
          assert false;
        }
        ImproveOk(edges, cost, m, p, l, mc[m, l], mc[m, p], mc[p, l]);
        mc[m, l] := Entry(mc[p, l].incoming, mc[m, p].dist + mc[p, l].dist);
      }
    }

    /** collect_used_edges(pm), with mate[i] for pm.GetMatch(i): walks each
        matched pair once, from the larger node back to the smaller along
        the smaller one's row, flipping a flag per edge walked; then appends
        in id order every edge whose flag differs from the sign of its
        capacity. A walk that fails leaves usedEdges as it was. */
    method CollectUsedEdges(mate: seq<nat>) returns (out: Outcome<TJoinError>)
      requires Valid() && MatchInput(oddNodes, mate, shortestPaths, |g.nodes|)
      modifies this
      ensures oddNodes == old(oddNodes) && shortestPaths == old(shortestPaths) && Valid()
      ensures EndsBelow(g.edges, |g.nodes|)
      ensures var walks := PairWalks(g.edges, oddNodes, mate, shortestPaths, |g.nodes|, |oddNodes|);
        && (out.Fail? <==> walks.Failure?)
        && (out.Fail? ==> out.error == walks.error && usedEdges == old(usedEdges))
        && (out.Pass? ==> forall k :: 0 <= k < |walks.value| ==> walks.value[k] < |g.edges|)
        && (out.Pass? ==>
              usedEdges == old(usedEdges) + Differing(Toggle(seq(|g.edges|, _ => false), walks.value), g.edges, |g.edges|))
    {
      assert EndsBelow(g.edges, |g.nodes|);
      var flags := new bool[|g.edges|](_ => false);
      assert flags[..] == seq(|g.edges|, _ => false);
      var r, walked := WalkPairs(flags, mate);
      if r.Fail? {
        return r;
      }
      AppendDiffering(flags);
      return Pass;
    }

    /** The first loop of collect_used_edges: the walk of every position
        whose node is not larger than its mate's, flipping flags as it goes;
        the first walk that fails stops it. */
    method WalkPairs(flags: array<bool>, mate: seq<nat>) returns (out: Outcome<TJoinError>, ghost walked: seq<nat>)
      requires GraphOk() && MatchInput(oddNodes, mate, shortestPaths, |g.nodes|)
      requires EndsBelow(g.edges, |g.nodes|) && flags.Length == |g.edges|
      modifies flags
      ensures var walks := PairWalks(g.edges, oddNodes, mate, shortestPaths, |g.nodes|, |oddNodes|);
        && (out.Fail? <==> walks.Failure?)
        && (out.Fail? ==> out.error == walks.error)
        && (out.Pass? ==> walks == Success(walked) && EdgeIds(g.edges, walked)
                          && flags[..] == Toggle(old(flags[..]), walked))
    {
      var n := |g.nodes|;
      ghost var edges, zero := g.edges, flags[..];
      walked := [];
      for i := 0 to |oddNodes|
        invariant PairWalks(edges, oddNodes, mate, shortestPaths, n, i) == Success(walked)
        invariant EdgeIds(edges, walked)
        invariant flags[..] == Toggle(zero, walked)
      {
        var j := oddNodes[mate[i]];
        if oddNodes[i] > j {
          assert PairWalks(edges, oddNodes, mate, shortestPaths, n, i + 1) == Success(walked);
          continue;
        }
        var r, w := WalkBack(flags, shortestPaths[i], oddNodes[i], j);
        if r.Fail? {
          assert PairWalks(edges, oddNodes, mate, shortestPaths, n, i + 1).Failure?;
          PairWalksFailed(edges, oddNodes, mate, shortestPaths, n, i + 1, |oddNodes|);
          return r, walked;
        }
        assert PairWalks(edges, oddNodes, mate, shortestPaths, n, i + 1) == Success(walked + w);
        ToggleConcat(zero, walked, w);
        walked := walked + w;
      }
      return Pass, walked;
    }

    /** The last loop of collect_used_edges: every edge, in id order, whose
        flag differs from the sign of its capacity. */
    method AppendDiffering(flags: array<bool>)
      requires flags.Length == |g.edges|
      modifies this
      ensures usedEdges == old(usedEdges) + Differing(flags[..], g.edges, |g.edges|)
      ensures oddNodes == old(oddNodes) && shortestPaths == old(shortestPaths)
    {
      for e := 0 to |g.edges|
        invariant usedEdges == old(usedEdges) + Differing(flags[..], g.edges, e)
        invariant oddNodes == old(oddNodes) && shortestPaths == old(shortestPaths)
      {
        if flags[e] != (g.edges[e].cap < 0) {
          usedEdges := usedEdges + [e];
        }
      }
    }

    /** The inner loop of collect_used_edges: from j back to target, at most
        num_nodes steps, flipping the flag of each incoming edge. */
    method WalkBack(flags: array<bool>, row: seq<Entry>, target: nat, j: nat)
      returns (out: Outcome<TJoinError>, ghost walk: seq<nat>)
      requires GraphOk() && flags.Length == |g.edges| && |row| == |g.nodes| && j < |row|
      requires EndsBelow(g.edges, |row|)
      modifies flags
      ensures var expected := BackWalk(g.edges, row, target, j, 0, |g.nodes|);
        && (out.Fail? <==> expected.Failure?)
        && (out.Fail? ==> out.error == expected.error)
        && (forall k :: 0 <= k < |walk| ==> walk[k] < |g.edges|)
        && (out.Pass? ==> expected == Success(walk) && flags[..] == Toggle(old(flags[..]), walk))
    {
      var n := |g.nodes|;
      ghost var edges := g.edges;
      var vis: nat := 0;
      var cur: nat := j;
      walk := [];
      PrependNothing(BackWalk(edges, row, target, j, 0, n));
      while cur != target
        invariant cur < |row| && vis <= n
        invariant BackWalk(edges, row, target, j, 0, n) == PrependAll(walk, BackWalk(edges, row, target, cur, vis, n))
        invariant EdgeIds(edges, walk)
        invariant flags[..] == Toggle(old(flags[..]), walk)
        decreases n - vis
      {
        if vis >= n {
          return Fail(WalkTooLong), walk;
        }
        var e := row[cur].incoming;
        if e >= |g.edges| {
          return Fail(BadIncoming), walk;
        }
        BackWalkStep(edges, row, target, cur, vis, n, walk);
        ToggleStep(old(flags[..]), walk, e);
        ghost var before := flags[..];
        flags[e] := !flags[e];
        assert flags[..] == before[e := !before[e]];
        vis := vis + 1;
        walk := walk + [e];
        cur := g.edges[e].Other(cur);
      }
      assert walk + [] == walk;
      return Pass, walk;
    }

    /** compute_shortest_paths(source): Dijkstra from source, choosing the
        nearest unvisited node by a linear scan. */
    method ComputeShortestPaths(source: nat) returns (ret: seq<Entry>)
      requires GraphOk() && source < |g.nodes| && NonNegative(cost)
      ensures WellFormed(g.nodes, g.edges)
      ensures IsShortestPathTree(g.nodes, g.edges, cost, ret, source)
    {
      ValidIsWellFormed(g);
      var n := |g.nodes|;
      var visited := new bool[n](_ => false);
      var entries := new Entry[n](_ => Entry(INVALID_NODE_ID, MAX_CAPACITY));
      entries[source] := Entry(INVALID_EDGE_ID, 0);
      InitialFrontier(g.nodes, g.edges, cost, visited[..], entries[..], source);
      var cur: nat, dist := source, 0;
      while true
        invariant cur < n && !visited[cur] && entries[cur].dist == dist < MAX_CAPACITY
        invariant cur == source || visited[source]
        invariant Frontier(g.nodes, g.edges, cost, visited[..], entries[..], source, dist, INVALID_NODE_ID)
        decreases n - CountTrue(visited[..])
      {
        CountTrueSet(visited[..], cur);
        var next, best := Step(visited, entries, source, cur, dist);
        if next == INVALID_NODE_ID {
          return entries[..];
        }
        cur, dist := next, best;
      }
    }

    /** One turn of the do-while loop: visit cur, relax its list, and pick
        the next node; when there is none, the entries form the tree. */
    method Step(visited: array<bool>, entries: array<Entry>, source: nat, cur: nat, dist: int)
      returns (next: nat, best: int)
      requires GraphOk() && WellFormed(g.nodes, g.edges) && NonNegative(cost)
      requires visited.Length == entries.Length == |g.nodes|
      requires cur < entries.Length && !visited[cur] && entries[cur].dist == dist < MAX_CAPACITY
      requires source < entries.Length && (cur == source || visited[source])
      requires Frontier(g.nodes, g.edges, cost, visited[..], entries[..], source, dist, INVALID_NODE_ID)
      modifies visited, entries
      ensures visited[..] == old(visited[..])[cur := true]
      ensures next == INVALID_NODE_ID ==> IsShortestPathTree(g.nodes, g.edges, cost, entries[..], source)
      ensures next != INVALID_NODE_ID ==>
        && next < entries.Length && !visited[next] && entries[next].dist == best < MAX_CAPACITY
        && Frontier(g.nodes, g.edges, cost, visited[..], entries[..], source, best, INVALID_NODE_ID)
    {
      Visit(g.nodes, g.edges, cost, visited[..], entries[..], source, dist, cur);
      visited[cur] := true;
      Relax(visited, entries, cur, dist, source);
      ReachedHasIncoming(g.nodes, g.edges, cost, visited[..], entries[..], source, dist);
      next, best := SelectNext(visited, entries);
      if next == INVALID_NODE_ID {
        FrontierIsTree(g.nodes, g.edges, cost, visited[..], entries[..], source, dist);
      } else {
        Advance(g.nodes, g.edges, cost, visited[..], entries[..], source, dist, next);
      }
    }

    /** The relaxation of cur's incidence list: a shorter path through cur
        replaces the entry of the other end, which is never a visited node. */
    method Relax(visited: array<bool>, entries: array<Entry>, cur: nat, dist: int, source: nat)
      requires GraphOk() && WellFormed(g.nodes, g.edges) && NonNegative(cost)
      requires visited.Length == entries.Length == |g.nodes|
      requires cur < entries.Length && visited[cur] && entries[cur].dist == dist
      requires Frontier(g.nodes, g.edges, cost, visited[..], entries[..], source, dist, cur)
      modifies entries
      ensures Frontier(g.nodes, g.edges, cost, visited[..], entries[..], source, dist, INVALID_NODE_ID)
      ensures forall i :: 0 <= i < entries.Length ==>
        entries[i].dist <= old(entries[i].dist) && (visited[i] ==> entries[i] == old(entries[i]))
    {
      var inc := g.nodes[cur].incident;
      ghost var nodes, edges, vis, e0 := g.nodes, g.edges, visited[..], entries[..];
      ghost var ent := e0;
      for k := 0 to |inc|
        invariant entries[..] == ent
        invariant Lowered(e0, ent, vis)
        invariant Frontier(nodes, edges, cost, vis, ent, source, dist, cur)
        invariant RelaxedPrefix(inc, edges, cost, ent, cur, dist, k)
      {
        var e := inc[k];
        var other := g.edges[e].Other(cur);
        OtherSwapsEnds(edges[e], cur);
        RelaxIter(nodes, edges, cost, vis, e0, ent, source, dist, cur, k);
        if dist + cost[e] < entries[other].dist {
          entries[other] := Entry(e, dist + cost[e]);
        }
        ent := RelaxOne(edges, cost, ent, cur, dist, e);
      }
      assert ent[cur] == e0[cur];
      RelaxedPrefixAll(inc, edges, cost, ent, cur, dist);
      RelaxDone(nodes, edges, cost, vis, ent, source, dist, cur);
    }

    /** The scan for the next node: the lowest-index unvisited node of
        strictly smallest distance below max_capacity, or invalid_node_id. */
    method SelectNext(visited: array<bool>, entries: array<Entry>) returns (next: nat, best: int)
      requires GraphOk() && visited.Length == entries.Length == |g.nodes|
      requires forall i :: 0 <= i < entries.Length && !visited[i] && entries[i].dist < MAX_CAPACITY ==>
        entries[i].incoming < |g.edges|
      ensures next == INVALID_NODE_ID ==>
        best == MAX_CAPACITY && forall i :: 0 <= i < entries.Length && !visited[i] ==> entries[i].dist >= MAX_CAPACITY
      ensures next != INVALID_NODE_ID ==>
        && next < entries.Length && !visited[next] && entries[next].dist == best < MAX_CAPACITY
        && (forall i :: 0 <= i < entries.Length && !visited[i] ==> entries[i].dist >= best)
        && (forall i :: 0 <= i < next && !visited[i] ==> entries[i].dist > best)
    {
      next, best := INVALID_NODE_ID, MAX_CAPACITY;
      for i := 0 to entries.Length
        invariant next == INVALID_NODE_ID ==>
          best == MAX_CAPACITY && forall j :: 0 <= j < i && !visited[j] ==> entries[j].dist >= MAX_CAPACITY
        invariant next != INVALID_NODE_ID ==>
          && next < i && !visited[next] && entries[next].dist == best < MAX_CAPACITY
          && (forall j :: 0 <= j < i && !visited[j] ==> entries[j].dist >= best)
          && (forall j :: 0 <= j < next && !visited[j] ==> entries[j].dist > best)
      {
        if !visited[i] && best > entries[i].dist {
          assert entries[i].incoming != INVALID_EDGE_ID;
          next, best := i, entries[i].dist;
        }
      }
    }
  }
}
