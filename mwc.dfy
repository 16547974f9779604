/** The minimum-mean-weight-cycle helper of prog2/mwc.hpp and prog2/mwc.cpp:
    the capacity adjustment computed by the constructor, the adjusted
    capacities, and the cycle test has_circle with its depth-first search. */
module Mwc {
  import opened Wrappers
  import opened MmwcGraph

  function Min(a: int, b: int): int {
    if a <= b then a else b
  }

  // ---------------------------------------------------------------------
  // The adjustment

  /** acc folded with std::min over the capacities of the first k edges. */
  function MinFold(acc: Capacity, edges: seq<Edge>, k: nat): (r: Capacity)
    requires k <= |edges|
    ensures r <= acc
    ensures forall e :: 0 <= e < k ==> r <= edges[e].cap
    decreases k
  {
    if k == 0 then acc else Min(MinFold(acc, edges, k - 1), edges[k - 1].cap)
  }

  /** A start value no larger than any capacity is what the fold returns. */
  lemma {:induction false} MinFoldKeepsLowerBound(acc: Capacity, edges: seq<Edge>, k: nat)
    requires k <= |edges|
    requires forall e :: 0 <= e < k ==> acc <= edges[e].cap
    ensures MinFold(acc, edges, k) == acc
    decreases k
  {
    if k > 0 {
      MinFoldKeepsLowerBound(acc, edges, k - 1);
    }
  }

  /** Folding from min_capacity, as the constructor does, always yields
      min_capacity, whatever the capacities are. */
  lemma MinFoldFromMinimum(edges: seq<Edge>)
    ensures MinFold(MIN_CAPACITY, edges, |edges|) == MIN_CAPACITY
  {
    MinFoldKeepsLowerBound(MIN_CAPACITY, edges, |edges|);
  }

  // ---------------------------------------------------------------------
  // One step of the depth-first search

  /** The node at the other end of each incident edge of cur, in list order. */
  function Neighbors(edges: seq<Edge>, inc: seq<nat>, cur: nat): (r: seq<nat>)
    requires forall k :: 0 <= k < |inc| ==> inc[k] < |edges|
    ensures |r| == |inc|
    ensures forall k :: 0 <= k < |inc| ==> r[k] == edges[inc[k]].Other(cur)
    decreases |inc|
  {
    if inc == [] then [] else [edges[inc[0]].Other(cur)] + Neighbors(edges, inc[1..], cur)
  }

  /** What scanning a popped node leaves: whether a node already reached was
      met, the parent vector at that point, and the nodes pushed. */
  datatype Expansion = Expansion(found: bool, parent: seq<nat>, pushed: seq<nat>)

  /** The scan of cur's neighbours: the one equal to cur's parent is skipped;
      one that already has a parent stops the scan with found set; any other
      gets cur as its parent and is pushed. */
  function Expand(parent: seq<nat>, cur: nat, curParent: nat, others: seq<nat>): (r: Expansion)
    requires forall k :: 0 <= k < |others| ==> others[k] < |parent|
    ensures |r.parent| == |parent|
    decreases |others|
  {
    if others == [] then Expansion(false, parent, [])
    else
      var o := others[0];
      if o == curParent then Expand(parent, cur, curParent, others[1..])
      else if parent[o] != INVALID_NODE_ID then Expansion(true, parent, [])
      else
        var r := Expand(parent[o := cur], cur, curParent, others[1..]);
        Expansion(r.found, r.parent, [o] + r.pushed)
  }

  /** The scan after some nodes were already pushed. */
  function Shift(pre: seq<nat>, r: Expansion): Expansion {
    Expansion(r.found, r.parent, pre + r.pushed)
  }

  /** Neighbour k is a clash: it is not cur's parent and it either had a
      parent before the scan or occurs earlier in the list. */
  predicate Clash(parent: seq<nat>, curParent: nat, others: seq<nat>, k: nat)
    requires k < |others| && others[k] < |parent|
  {
    others[k] != curParent && (parent[others[k]] != INVALID_NODE_ID || others[k] in others[..k])
  }

  /** The scan changes only entries that had no parent, and sets them to cur. */
  lemma {:induction false} ExpandFrame(parent: seq<nat>, cur: nat, curParent: nat, others: seq<nat>)
    requires forall k :: 0 <= k < |others| ==> others[k] < |parent|
    ensures var r := Expand(parent, cur, curParent, others);
      forall v :: 0 <= v < |parent| && r.parent[v] != parent[v] ==>
        parent[v] == INVALID_NODE_ID && r.parent[v] == cur
    decreases |others|
  {
    if others != [] {
      var o := others[0];
      if o == curParent {
        ExpandFrame(parent, cur, curParent, others[1..]);
      } else if parent[o] == INVALID_NODE_ID {
        var p := parent[o := cur];
        var r := Expand(p, cur, curParent, others[1..]);
        ExpandFrame(p, cur, curParent, others[1..]);
        forall v | 0 <= v < |parent| && r.parent[v] != parent[v]
          ensures parent[v] == INVALID_NODE_ID && r.parent[v] == cur
        {
          if v != o {
            assert p[v] == parent[v];
          }
        }
      }
    }
  }

  /** The scan finds a node already reached exactly when some neighbour is a
      clash. */
  lemma {:induction false} ExpandFound(parent: seq<nat>, cur: nat, curParent: nat, others: seq<nat>)
    requires forall k :: 0 <= k < |others| ==> others[k] < |parent|
    requires cur != INVALID_NODE_ID
    ensures Expand(parent, cur, curParent, others).found <==>
      exists k :: 0 <= k < |others| && Clash(parent, curParent, others, k)
    decreases |others|
  {
    if others != [] {
      var o := others[0];
      var rest := others[1..];
      if o == curParent {
        ExpandFound(parent, cur, curParent, rest);
        if exists k :: 0 <= k < |others| && Clash(parent, curParent, others, k) {
          var k :| 0 <= k < |others| && Clash(parent, curParent, others, k);
          assert k > 0 && others[..k] == [o] + rest[..k - 1];
          assert Clash(parent, curParent, rest, k - 1);
        }
        if exists j :: 0 <= j < |rest| && Clash(parent, curParent, rest, j) {
          var j :| 0 <= j < |rest| && Clash(parent, curParent, rest, j);
          assert others[..j + 1] == [o] + rest[..j];
          assert Clash(parent, curParent, others, j + 1);
        }
      } else if parent[o] != INVALID_NODE_ID {
        assert Clash(parent, curParent, others, 0);
      } else {
        var p := parent[o := cur];
        ExpandFound(p, cur, curParent, rest);
        if exists k :: 0 <= k < |others| && Clash(parent, curParent, others, k) {
          var k :| 0 <= k < |others| && Clash(parent, curParent, others, k);
          assert k > 0;
          assert others[..k] == [o] + rest[..k - 1];
          assert Clash(p, curParent, rest, k - 1);
        }
        if exists j :: 0 <= j < |rest| && Clash(p, curParent, rest, j) {
          var j :| 0 <= j < |rest| && Clash(p, curParent, rest, j);
          assert others[..j + 1] == [o] + rest[..j];
          assert Clash(parent, curParent, others, j + 1);
        }
      }
    }
  }

  /** The number of entries that have no parent. */
  function CountUnset(s: seq<nat>): (c: nat)
    ensures c <= |s|
  {
    if s == [] then 0 else CountUnset(s[..|s| - 1]) + if s[|s| - 1] == INVALID_NODE_ID then 1 else 0
  }

  /** Giving an entry without a parent a parent lowers the count by one. */
  lemma {:induction false} CountUnsetSet(s: seq<nat>, i: nat, x: nat)
    requires i < |s| && s[i] == INVALID_NODE_ID && x != INVALID_NODE_ID
    ensures CountUnset(s[i := x]) + 1 == CountUnset(s)
    decreases |s|
  {
    var t := s[i := x];
    if i < |s| - 1 {
      assert t[..|t| - 1] == s[..|s| - 1][i := x];
      CountUnsetSet(s[..|s| - 1], i, x);
    } else {
      assert t[..|t| - 1] == s[..|s| - 1];
    }
  }

  /** A scan that finds nothing pushes neighbours only, each given cur as
      its parent, and every push uses up one entry that had no parent. */
  lemma {:induction false} ExpandPushes(parent: seq<nat>, cur: nat, curParent: nat, others: seq<nat>)
    requires forall k :: 0 <= k < |others| ==> others[k] < |parent|
    requires cur != INVALID_NODE_ID
    ensures var r := Expand(parent, cur, curParent, others);
      !r.found ==>
        && CountUnset(r.parent) + |r.pushed| == CountUnset(parent)
        && forall k :: 0 <= k < |r.pushed| ==>
             r.pushed[k] in others && r.pushed[k] != curParent && r.parent[r.pushed[k]] == cur
    decreases |others|
  {
    if others != [] {
      var o := others[0];
      var rest := others[1..];
      assert others == [o] + rest;
      if o == curParent {
        ExpandPushes(parent, cur, curParent, rest);
        assert Expand(parent, cur, curParent, others) == Expand(parent, cur, curParent, rest);
      } else if parent[o] == INVALID_NODE_ID {
        var p := parent[o := cur];
        var r := Expand(p, cur, curParent, rest);
        ExpandPushes(p, cur, curParent, rest);
        ExpandFrame(p, cur, curParent, rest);
        CountUnsetSet(parent, o, cur);
        if !r.found {
          assert r.parent[o] == cur;
          var pushed := [o] + r.pushed;
          forall k | 0 <= k < |pushed|
            ensures pushed[k] in others && pushed[k] != curParent && r.parent[pushed[k]] == cur
          {
            if k > 0 {
              assert pushed[k] == r.pushed[k - 1] && r.pushed[k - 1] in rest;
            }
          }
        }
      }
    }
  }

  /** Pushing o moves it from the scan still to come to the pushed prefix. */
  lemma ShiftPush(parent: seq<nat>, cur: nat, curParent: nat, o: nat, rest: seq<nat>, pushed: seq<nat>)
    requires forall k :: 0 <= k < |rest| ==> rest[k] < |parent|
    requires o < |parent| && o != curParent && parent[o] == INVALID_NODE_ID
    ensures Shift(pushed, Expand(parent, cur, curParent, [o] + rest))
      == Shift(pushed + [o], Expand(parent[o := cur], cur, curParent, rest))
  {
    assert ([o] + rest)[1..] == rest;
    var r := Expand(parent[o := cur], cur, curParent, rest);
    assert pushed + ([o] + r.pushed) == (pushed + [o]) + r.pushed;
  }

  /** Every incident id of cur names an edge, and the node at its other end
      exists. */
  ghost predicate NeighborsOk(edges: seq<Edge>, nodes: seq<Node>, cur: nat)
    requires cur < |nodes|
  {
    && (forall k :: 0 <= k < |nodes[cur].incident| ==> nodes[cur].incident[k] < |edges|)
    && forall k :: 0 <= k < |nodes[cur].incident| ==>
         edges[nodes[cur].incident[k]].Other(cur) < |nodes|
  }

  lemma NeighborsInRange(g: Graph, cur: nat)
    requires g.Valid() && cur < |g.nodes|
    ensures NeighborsOk(g.edges, g.nodes, cur)
  {
    var inc := g.nodes[cur].incident;
    IncidentIdsSpec(g.edges, cur);
    forall k | 0 <= k < |inc|
      ensures inc[k] < |g.edges| && g.edges[inc[k]].Other(cur) < |g.nodes|
    {
      assert inc[k] in inc;
    }
  }

  // ---------------------------------------------------------------------
  // The parent vector of the search

  /** Entries change only from invalid_node_id, and only to node ids. */
  ghost predicate SetOnce(p: seq<nat>, q: seq<nat>, n: nat) {
    |p| == |q| && forall v :: 0 <= v < |p| && q[v] != p[v] ==> p[v] == INVALID_NODE_ID && q[v] < n
  }

  predicate HasParent(q: seq<nat>, v: nat) {
    v < |q| && q[v] != INVALID_NODE_ID
  }

  /** Every entry the search set names a node that itself has a parent. */
  ghost predicate Hung(p: seq<nat>, q: seq<nat>)
    requires |p| == |q|
  {
    forall v :: 0 <= v < |p| && q[v] != p[v] ==> HasParent(q, q[v])
  }

  class MinMeanWeightCycle {
    /** _g */
    const g: Graph
    /** _adjustment */
    var adjustment: Capacity

    /** No capacity lies below the adjustment. */
    ghost predicate Valid()
      reads this, g
    {
      forall e :: 0 <= e < |g.edges| ==> adjustment <= g.edges[e].cap
    }

    /** The constructor: the adjustment starts at min_capacity and is folded
        with std::min over all capacities, so it stays min_capacity. */
    constructor(graph: Graph)
      ensures g == graph
      ensures adjustment == MinFold(MIN_CAPACITY, graph.edges, |graph.edges|)
      ensures adjustment == MIN_CAPACITY && Valid()
    {
      g := graph;
      adjustment := MIN_CAPACITY;
      new;
      for e := 0 to |g.edges|
        invariant adjustment == MinFold(MIN_CAPACITY, g.edges, e)
      {
        var c := g.GetCapacity(e);
        adjustment := Min(adjustment, c.value);
      }
      MinFoldFromMinimum(g.edges);
    }

    /** adjusted_cap(e): get_capacity(e) minus the adjustment, throwing on an
        edge id out of range. The difference is never negative; once the
        adjustment is min_capacity, any capacity that is not negative gives
        a difference beyond max_capacity, a value the capacity type cannot
        hold. */
    function AdjustedCap(e: nat): (r: Result<int, GraphError>)
      reads this, g
      ensures r.Failure? <==> e >= |g.edges|
      ensures r.Failure? ==> r.error == EdgeOutOfRange
      ensures r.Success? && Valid() ==> r.value >= 0
      ensures r.Success? && adjustment == MIN_CAPACITY && g.edges[e].cap >= 0 ==> r.value > MAX_CAPACITY
    {
      match g.GetCapacity(e)
      case Failure(err) => Failure(err)
      case Success(c) => Success(c - adjustment)
    }

    /** Adjusting preserves the order of capacities. */
    lemma AdjustedCapMonotone(e1: nat, e2: nat)
      requires e1 < |g.edges| && e2 < |g.edges|
      ensures AdjustedCap(e1).Success? && AdjustedCap(e2).Success?
      ensures g.edges[e1].cap <= g.edges[e2].cap <==> AdjustedCap(e1).value <= AdjustedCap(e2).value
    {
    }

    /** has_circle: every parent starts as invalid_node_id and the scan skips
        a node whose parent is invalid_node_id, so no search is ever started
        and the answer is always false. The search it never reaches pops a
        stack of nodes and scans each popped node's edges; that scan, with
        the nodes it would push, is ExpandNode below. */
    method HasCircle() returns (found: bool)
      ensures !found
    {
      var parent := new nat[|g.nodes|](_ => INVALID_NODE_ID);
      for v := 0 to |g.nodes|
        invariant forall u :: 0 <= u < parent.Length ==> parent[u] == INVALID_NODE_ID
      {
        if parent[v] == INVALID_NODE_ID {
          continue;
        }
        assert false;
      }
      return false;
    }

    /** The inner loop of the search: scans the incident edges of cur. */
    method ExpandNode(parent: array<nat>, cur: nat) returns (found: bool, pushed: seq<nat>)
      requires g.Valid() && cur < |g.nodes| && parent.Length == |g.nodes|
      modifies parent
      ensures NeighborsOk(g.edges, g.nodes, cur)
      ensures var r := Expand(old(parent[..]), cur, old(parent[cur]), Neighbors(g.edges, g.nodes[cur].incident, cur));
        found == r.found && parent[..] == r.parent && (!found ==> pushed == r.pushed)
    {
      var inc := g.nodes[cur].incident;
      NeighborsInRange(g, cur);
      ghost var others := Neighbors(g.edges, inc, cur);
      ghost var p0 := parent[..];
      var curParent := parent[cur];
      pushed := [];
      for k := 0 to |inc|
        invariant Expand(p0, cur, curParent, others)
          == Shift(pushed, Expand(parent[..], cur, curParent, others[k..]))
      {
        var res := g.GetOtherNode(inc[k], cur);
        var o := res.value;
        assert others[k..] == [o] + others[k + 1..];
        if o == curParent {
          continue;
        }
        if parent[o] != INVALID_NODE_ID {
          return true, pushed;
        }
        ShiftPush(parent[..], cur, curParent, o, others[k + 1..], pushed);
        parent[o] := cur;
        pushed := pushed + [o];
      }
      assert others[|inc|..] == [];
      assert pushed + [] == pushed;
      return false, pushed;
    }

    /** The search from a node that has a parent: pops a node, scans it, and
        stops as soon as a scan finds a node already reached. The parent
        vector only gains entries, and every entry set names a node that has
        a parent itself. */
    method Dfs(parent: array<nat>, root: nat) returns (found: bool)
      requires g.Valid() && |g.nodes| < INVALID_NODE_ID
      requires parent.Length == |g.nodes| && root < |g.nodes| && parent[root] != INVALID_NODE_ID
      modifies parent
      ensures SetOnce(old(parent[..]), parent[..], |g.nodes|)
      ensures Hung(old(parent[..]), parent[..])
    {
      ghost var p0 := parent[..];
      var stack: seq<nat> := [root];
      while stack != []
        invariant forall k :: 0 <= k < |stack| ==> stack[k] < |g.nodes| && HasParent(parent[..], stack[k])
        invariant SetOnce(p0, parent[..], |g.nodes|)
        invariant Hung(p0, parent[..])
        decreases CountUnset(parent[..]), |stack|
      {
        var cur := stack[|stack| - 1];
        assert HasParent(parent[..], cur);
        stack := stack[..|stack| - 1];
        ghost var before := parent[..];
        var pushed;
        found, pushed := ExpandNode(parent, cur);
        ghost var others := Neighbors(g.edges, g.nodes[cur].incident, cur);
        ExpandFrame(before, cur, before[cur], others);
        ExpandPushes(before, cur, before[cur], others);
        Step(p0, before, parent[..], cur, |g.nodes|);
        if found {
          return;
        }
        forall k | 0 <= k < |pushed|
          ensures pushed[k] < |g.nodes| && HasParent(parent[..], pushed[k])
        {
          assert pushed[k] in others;
        }
        stack := stack + pushed;
      }
      found := false;
    }
  }

  /** One scan keeps the parent vector set once and hung: what it changes
      went from no parent to cur, and cur has a parent. */
  lemma Step(p0: seq<nat>, before: seq<nat>, after: seq<nat>, cur: nat, n: nat)
    requires n < INVALID_NODE_ID && |before| == |after| && cur < n && HasParent(before, cur)
    requires SetOnce(p0, before, n) && Hung(p0, before)
    requires forall v :: 0 <= v < |before| && after[v] != before[v] ==>
      before[v] == INVALID_NODE_ID && after[v] == cur
    ensures SetOnce(p0, after, n) && Hung(p0, after)
  {
    forall v | 0 <= v < |p0| && after[v] != p0[v]
      ensures p0[v] == INVALID_NODE_ID && after[v] < n && HasParent(after, after[v])
    {
      if before[v] != p0[v] {
        assert HasParent(before, before[v]);
      }
    }
  }
}
