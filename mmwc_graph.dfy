/** The graph store of prog2/graph.hpp and prog2/graph.cpp: undirected
    multigraphs without loops, whose nodes keep the ids of their incident
    edges, plus the conversions between 0-based node ids and the 1-based ids
    of the DIMACS format. */
module MmwcGraph {
  import opened Wrappers

  /** The largest size_t, which the invalid_* sentinels equal. */
  const SIZE_MAX: nat := 0xFFFF_FFFF_FFFF_FFFF
  const INVALID_NODE_ID: nat := SIZE_MAX
  const INVALID_DIMACS_ID: nat := SIZE_MAX
  const INVALID_EDGE_ID: nat := SIZE_MAX

  /** The range of capacity, a 32-bit int. */
  const MIN_CAPACITY: int := -0x8000_0000
  const MAX_CAPACITY: int := 0x7FFF_FFFF

  type SizeT = x: nat | x <= SIZE_MAX
  type Capacity = c: int | MIN_CAPACITY <= c <= MAX_CAPACITY

  /** The conditions under which the graph code throws. */
  datatype GraphError =
    | LoopEdge        // add_edge with equal endpoints
    | NodeOutOfRange  // _nodes.at(id) with id >= num_nodes
    | EdgeOutOfRange  // _edges.at(id) with id >= num_edges
    | ZeroDimacsId    // from_dimacs_id(0)
    | MaxNodeId       // to_dimacs_id(max)

  // ---------------------------------------------------------------------
  // DIMACS ids

  /** from_dimacs_id: subtracts one, throws on zero. */
  function FromDimacsId(id: SizeT): (r: Result<SizeT, GraphError>)
    ensures r.Failure? <==> id == 0
    ensures r.Success? ==> r.value < id && r.value != INVALID_NODE_ID
  {
    if id == 0 then Failure(ZeroDimacsId) else Success(id - 1)
  }

  /** to_dimacs_id: adds one, throws where that would overflow. */
  function ToDimacsId(id: SizeT): (r: Result<SizeT, GraphError>)
    ensures r.Failure? <==> id == INVALID_NODE_ID
    ensures r.Success? ==> r.value > id && r.value != 0
  {
    if id == SIZE_MAX then Failure(MaxNodeId) else Success(id + 1)
  }

  /** Every node id below the maximum survives the trip to DIMACS and back. */
  lemma DimacsRoundTrip(id: SizeT)
    requires id < SIZE_MAX
    ensures ToDimacsId(id).Success? && FromDimacsId(ToDimacsId(id).value) == Success(id)
  {
  }

  /** Every non-zero DIMACS id survives the trip to a node id and back. */
  lemma NodeIdRoundTrip(id: SizeT)
    requires id != 0
    ensures FromDimacsId(id).Success? && ToDimacsId(FromDimacsId(id).value) == Success(id)
  {
  }

  // ---------------------------------------------------------------------
  // Edges and nodes

  datatype Edge = Edge(from: SizeT, to: SizeT, cap: Capacity) {
    /** Edge::other: the end that is not node, read as from unless node is from. */
    function Other(node: nat): (r: SizeT)
      ensures r == from || r == to
      ensures node == from ==> r == to
      ensures node != from ==> r == from
    {
      if node == from then to else from
    }

    predicate Touches(v: nat) {
      from == v || to == v
    }
  }

  /** On an edge that is not a loop, other maps each end to the other one. */
  lemma OtherSwapsEnds(e: Edge, v: nat)
    requires e.from != e.to && e.Touches(v)
    ensures e.Other(v) != v && e.Touches(e.Other(v)) && e.Other(e.Other(v)) == v
  {
  }

  datatype Node = Node(incident: seq<nat>) {
    /** Node::degree */
    function Degree(): nat {
      |incident|
    }

    /** Node::add_neighbor: appends an edge id, repeats allowed. */
    function AddNeighbor(id: nat): (r: Node)
      ensures r.Degree() == Degree() + 1 && r.incident[..Degree()] == incident && r.incident[Degree()] == id
    {
      Node(incident + [id])
    }
  }

  /** The ids of the edges that have v as an end, in increasing order: the
      incidence list add_edge builds for v. */
  function IncidentIds(edges: seq<Edge>, v: nat): seq<nat>
    decreases |edges|
  {
    if edges == [] then []
    else
      var k := |edges| - 1;
      IncidentIds(edges[..k], v) + if edges[k].Touches(v) then [k] else []
  }

  predicate Increasing(l: seq<nat>) {
    forall i, j :: 0 <= i < j < |l| ==> l[i] < l[j]
  }

  /** An id is on v's incidence list exactly when it names an edge with v as
      an end; the list is strictly increasing. */
  lemma {:induction false} IncidentIdsSpec(edges: seq<Edge>, v: nat)
    ensures forall x :: x in IncidentIds(edges, v) <==> 0 <= x < |edges| && edges[x].Touches(v)
    ensures Increasing(IncidentIds(edges, v))
    decreases |edges|
  {
    if edges != [] {
      var k := |edges| - 1;
      var init := edges[..k];
      IncidentIdsSpec(init, v);
      var l0 := IncidentIds(init, v);
      var l := IncidentIds(edges, v);
      assert l == l0 + if edges[k].Touches(v) then [k] else [];
      forall x ensures x in l <==> 0 <= x < |edges| && edges[x].Touches(v) {
        if 0 <= x < k {
          assert init[x] == edges[x];
        }
      }
      forall i, j | 0 <= i < j < |l| ensures l[i] < l[j] {
        assert l[i] == l0[i] && l0[i] in l0;
        if j >= |l0| {
          assert l[j] == k;
          assert l0[i] < |init| == k;
        } else {
          assert l[j] == l0[j];
          assert l0[i] < l0[j];
        }
      }
    }
  }

  // ---------------------------------------------------------------------
  // The graph

  class Graph {
    /** _nodes: one entry per node, holding its incident edge ids. */
    var nodes: seq<Node>
    /** _edges: the edges in the order they were added; an edge's id is its index. */
    var edges: seq<Edge>

    /** Every edge joins two distinct existing nodes, and every node's list
        holds exactly the ids of its edges, in increasing order. */
    ghost predicate Valid()
      reads this
    {
      && (forall e :: 0 <= e < |edges| ==>
            edges[e].from < |nodes| && edges[e].to < |nodes| && edges[e].from != edges[e].to)
      && (forall v :: 0 <= v < |nodes| ==> nodes[v].incident == IncidentIds(edges, v))
    }

    /** Graph(n): n isolated nodes and no edges. */
    constructor(numNodes: nat)
      ensures Valid() && nodes == seq(numNodes, _ => Node([])) && edges == []
    {
      nodes := seq(numNodes, _ => Node([]));
      edges := [];
    }

    function NumNodes(): nat
      reads this
    {
      |nodes|
    }

    function NumEdges(): nat
      reads this
    {
      |edges|
    }

    /** node(id), bounds-checked. */
    function NodeAt(id: nat): (r: Result<Node, GraphError>)
      reads this
      ensures r.Failure? <==> id >= |nodes|
      ensures r.Failure? ==> r.error == NodeOutOfRange
    {
      if id < |nodes| then Success(nodes[id]) else Failure(NodeOutOfRange)
    }

    /** get_capacity(e), bounds-checked. */
    function GetCapacity(e: nat): (r: Result<Capacity, GraphError>)
      reads this
      ensures r.Failure? <==> e >= |edges|
      ensures r.Failure? ==> r.error == EdgeOutOfRange
    {
      if e < |edges| then Success(edges[e].cap) else Failure(EdgeOutOfRange)
    }

    /** get_other_node(e, v): edges[e].other(v), bounds-checked on e. */
    function GetOtherNode(e: nat, v: nat): (r: Result<nat, GraphError>)
      reads this
      ensures r.Failure? <==> e >= |edges|
      ensures r.Failure? ==> r.error == EdgeOutOfRange
    {
      if e < |edges| then Success(edges[e].Other(v)) else Failure(EdgeOutOfRange)
    }

    /** add_edge(a, b, cap): rejects a loop and leaves the graph unchanged;
        otherwise appends the edge, and then appends its id to a's list and
        to b's list, each bounds-checked after the edge is already stored. */
    method AddEdge(a: SizeT, b: SizeT, cap: Capacity) returns (out: Outcome<GraphError>)
      modifies this
      ensures a == b ==> out == Fail(LoopEdge) && nodes == old(nodes) && edges == old(edges)
      ensures a != b ==> edges == old(edges) + [Edge(a, b, cap)]
      ensures a != b && a >= |old(nodes)| ==> out == Fail(NodeOutOfRange) && nodes == old(nodes)
      ensures a != b && a < |old(nodes)| && b >= |old(nodes)| ==>
        out == Fail(NodeOutOfRange) && nodes == old(nodes)[a := old(nodes)[a].AddNeighbor(|old(edges)|)]
      ensures out.Pass? <==> a != b && a < |old(nodes)| && b < |old(nodes)|
      ensures out.Pass? ==>
        nodes == old(nodes)[a := old(nodes)[a].AddNeighbor(|old(edges)|)]
                           [b := old(nodes)[b].AddNeighbor(|old(edges)|)]
      ensures out.Pass? && old(Valid()) ==> Valid()
    {
      if a == b {
        return Fail(LoopEdge);
      }
      edges := edges + [Edge(a, b, cap)];
      var id := |edges| - 1;
      if a >= |nodes| {
        return Fail(NodeOutOfRange);
      }
      nodes := nodes[a := nodes[a].AddNeighbor(id)];
      if b >= |nodes| {
        return Fail(NodeOutOfRange);
      }
      nodes := nodes[b := nodes[b].AddNeighbor(id)];
      if old(Valid()) {
        forall v | 0 <= v < |nodes|
          ensures nodes[v].incident == IncidentIds(edges, v)
        {
          assert edges[..id] == old(edges);
        }
      }
      return Pass;
    }
  }

  /** What add_edge leaves at each node of a valid graph: the new id is
      appended to the lists of its two ends and to no other. */
  lemma AddEdgeIncidence(edges: seq<Edge>, e: Edge, v: nat)
    ensures IncidentIds(edges + [e], v) == IncidentIds(edges, v) + if e.Touches(v) then [|edges|] else []
  {
    assert (edges + [e])[..|edges|] == edges;
  }
}
