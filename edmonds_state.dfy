/** The state of the blossom matcher of prog1/edmonds.cpp, seen as values:
    the node-indexed vectors mu (match partner), phi (forest attachment) and
    rho (blossom base) as sequences, and the pure operations over them.
    The class in edmonds.dfy keeps the same vectors in arrays and is
    specified through the functions of this module. */
module EdmondsState {
  import opened Wrappers

  /** The kind of a node in the alternating forest (NodeType). */
  datatype NodeType = Outer | Inner | OutOfForest

  /** The conditions under which the matcher throws or an assert aborts. */
  datatype EdError =
    | PathTooLong    // get_path: the path grew beyond num_nodes
    | NotOuter       // get_path: assert(get_type(v) == outer)
    | NoBlossomBase  // shrink: assert(root != invalid_node_id)
    | CheckFailed    // shrink and scan_node: assert(check())
    | NotAMatching   // get_matching: a node of the result has degree > 1
    | OutOfFuel      // run: more augmentations than the caller allowed

  /** A vector of n node ids, each below n. */
  predicate IsNodeMap(s: seq<nat>, n: nat) {
    |s| == n && forall i :: 0 <= i < n ==> s[i] < n
  }

  predicate AllBelow(p: seq<nat>, n: nat) {
    forall k :: 0 <= k < |p| ==> p[k] < n
  }

  /** The neighbour lists of an n-node graph. */
  predicate IsAdjacency(adj: seq<seq<nat>>, n: nat) {
    |adj| == n && forall v :: 0 <= v < n ==> AllBelow(adj[v], n)
  }

  function Identity(n: nat): (s: seq<nat>)
    ensures IsNodeMap(s, n)
    ensures forall i :: 0 <= i < n ==> s[i] == i
  {
    seq(n, i => i)
  }

  // ---------------------------------------------------------------------
  // Classification and the read-only queries

  /** get_type: outer when unmatched or when the partner has been attached
      to the forest; otherwise out of the forest while unattached, else inner. */
  function Classify(mu: seq<nat>, phi: seq<nat>, v: nat): NodeType
    requires IsNodeMap(mu, |mu|) && |phi| == |mu| && v < |mu|
  {
    var m := mu[v];
    if m == v || phi[m] != m then Outer
    else if phi[v] == v then OutOfForest
    else Inner
  }

  /** forest_edge */
  predicate ForestEdge(mu: seq<nat>, phi: seq<nat>, v: nat, u: nat)
    requires v < |mu| && u < |mu| && |phi| == |mu|
  {
    u == mu[v] || v == mu[u] || u == phi[v]
  }

  /** matching_edge: as written it tests the attachment, not the partner. */
  predicate MatchingEdge(phi: seq<nat>, v: nat, u: nat)
    requires v < |phi|
  {
    u == phi[v]
  }

  /** check(): no matched node is attached to its own partner. */
  predicate CheckHolds(mu: seq<nat>, phi: seq<nat>)
    requires |phi| == |mu|
  {
    forall i :: 0 <= i < |mu| ==> !(phi[i] == mu[i] && mu[i] != i)
  }

  /** mu is a matching: the partner of the partner is the node itself. */
  predicate IsMatching(mu: seq<nat>)
    requires IsNodeMap(mu, |mu|)
  {
    forall v :: 0 <= v < |mu| ==> mu[mu[v]] == v
  }

  /** Every base is its own base. */
  predicate BasesCanonical(rho: seq<nat>)
    requires IsNodeMap(rho, |rho|)
  {
    forall v :: 0 <= v < |rho| ==> rho[rho[v]] == rho[v]
  }

  /** Every node attached in phi is still attached in phi2. */
  predicate AttachmentsKept(phi: seq<nat>, phi2: seq<nat>)
    requires |phi2| == |phi|
  {
    forall w :: 0 <= w < |phi| && phi[w] != w ==> phi2[w] != w
  }

  lemma InitialNodesAreOuter(n: nat, v: nat)
    requires v < n
    ensures Classify(Identity(n), Identity(n), v) == Outer
  {
  }

  lemma MatchingEdgeIsForestEdge(mu: seq<nat>, phi: seq<nat>, v: nat, u: nat)
    requires v < |mu| && u < |mu| && |phi| == |mu|
    ensures MatchingEdge(phi, v, u) ==> ForestEdge(mu, phi, v, u)
  {
  }

  /** While mu is unchanged, attaching more nodes never demotes an outer node. */
  lemma OuterIsStable(mu: seq<nat>, phi: seq<nat>, phi2: seq<nat>, v: nat)
    requires IsNodeMap(mu, |mu|) && |phi| == |mu| && |phi2| == |mu| && v < |mu|
    requires AttachmentsKept(phi, phi2)
    ensures Classify(mu, phi, v) == Outer ==> Classify(mu, phi2, v) == Outer
  {
  }

  /** The grow step of scan_node, attaching an out-of-forest neighbour y to an
      outer node x, makes y inner and its partner outer, keeps x outer, and
      keeps check() when mu is a matching. */
  lemma GrowEffect(mu: seq<nat>, phi: seq<nat>, x: nat, y: nat)
    requires IsNodeMap(mu, |mu|) && IsNodeMap(phi, |mu|) && x < |mu| && y < |mu|
    requires IsMatching(mu) && CheckHolds(mu, phi)
    requires Classify(mu, phi, x) == Outer && Classify(mu, phi, y) == OutOfForest
    ensures Classify(mu, phi[y := x], y) == Inner
    ensures Classify(mu, phi[y := x], mu[y]) == Outer
    ensures Classify(mu, phi[y := x], x) == Outer
    ensures CheckHolds(mu, phi[y := x])
  {
    var phi2 := phi[y := x];
    assert mu[mu[y]] == y;
    forall i | 0 <= i < |mu|
      ensures !(phi2[i] == mu[i] && mu[i] != i)
    {
      if i == y {
        assert phi2[i] == x;
      }
    }
  }

  // ---------------------------------------------------------------------
  // get_path

  /** The node that follows, at position i of a traced path, the node there:
      its partner at even positions and its attachment at odd ones. */
  function Next(mu: seq<nat>, phi: seq<nat>, node: nat, i: nat): nat
    requires node < |mu| && node < |phi|
  {
    if i % 2 == 0 then mu[node] else phi[node]
  }

  /** Position i of p is followed, as a path traced from offset o, by Next of
      the node there. */
  predicate FollowsAt(mu: seq<nat>, phi: seq<nat>, p: seq<nat>, o: nat, i: nat) {
    && i + 1 < |p| && p[i] < |mu| && p[i] < |phi|
    && p[i + 1] == Next(mu, phi, p[i], o + i)
  }

  /** As FollowsAt, and the step leaves the node. */
  predicate MovesAt(mu: seq<nat>, phi: seq<nat>, p: seq<nat>, o: nat, i: nat) {
    FollowsAt(mu, phi, p, o, i) && p[i + 1] != p[i]
  }

  /** The nodes get_path pushes from cur on, at most budget of them, when the
      first step follows mu (useMu) or phi; it stops after a node whose step
      stays in place. */
  function Walk(mu: seq<nat>, phi: seq<nat>, cur: nat, useMu: bool, budget: nat): (p: seq<nat>)
    requires IsNodeMap(mu, |mu|) && IsNodeMap(phi, |mu|) && cur < |mu|
    ensures |p| <= budget && AllBelow(p, |mu|)
    decreases budget
  {
    if budget == 0 then []
    else
      var next := if useMu then mu[cur] else phi[cur];
      if next == cur then [cur] else [cur] + Walk(mu, phi, next, !useMu, budget - 1)
  }

  /** get_path(v): aborts unless v is outer, throws once the path holds more
      than num_nodes nodes. */
  function TracePath(mu: seq<nat>, phi: seq<nat>, v: nat): Result<seq<nat>, EdError>
    requires IsNodeMap(mu, |mu|) && IsNodeMap(phi, |mu|) && v < |mu|
  {
    if Classify(mu, phi, v) != Outer then Failure(NotOuter)
    else
      var p := Walk(mu, phi, v, true, |mu| + 1);
      if |p| > |mu| then Failure(PathTooLong) else Success(p)
  }

  /** p starts at v, each next node is Next of the one before and differs
      from it, and the step from the last node stays in place. */
  predicate IsTrace(mu: seq<nat>, phi: seq<nat>, v: nat, p: seq<nat>)
    requires |phi| == |mu|
  {
    && |p| >= 1 && p[0] == v && AllBelow(p, |mu|)
    && (forall i :: 0 <= i < |p| - 1 ==> MovesAt(mu, phi, p, 0, i))
    && Next(mu, phi, p[|p| - 1], |p| - 1) == p[|p| - 1]
  }

  /** The shape of a walk that starts at position o of a path. */
  lemma {:induction false} WalkShape(mu: seq<nat>, phi: seq<nat>, cur: nat, o: nat, budget: nat)
    requires IsNodeMap(mu, |mu|) && IsNodeMap(phi, |mu|) && cur < |mu| && budget > 0
    ensures var p := Walk(mu, phi, cur, o % 2 == 0, budget);
      && |p| >= 1 && p[0] == cur
      && (forall i :: 0 <= i < |p| - 1 ==> MovesAt(mu, phi, p, o, i))
      && (|p| < budget ==> Next(mu, phi, p[|p| - 1], o + |p| - 1) == p[|p| - 1])
    decreases budget
  {
    var useMu := o % 2 == 0;
    var p := Walk(mu, phi, cur, useMu, budget);
    var next := if useMu then mu[cur] else phi[cur];
    assert next == Next(mu, phi, cur, o);
    if next != cur && budget > 1 {
      var q := Walk(mu, phi, next, (o + 1) % 2 == 0, budget - 1);
      assert !useMu == ((o + 1) % 2 == 0);
      assert p == [cur] + q;
      WalkShape(mu, phi, next, o + 1, budget - 1);
      MovesCons(mu, phi, cur, q, o, o + 1);
    }
  }

  /** Putting cur in front of a path that starts at Next of cur, one
      position further on, gives a path from cur. */
  lemma MovesCons(mu: seq<nat>, phi: seq<nat>, cur: nat, q: seq<nat>, o: nat, o1: nat)
    requires o1 == o + 1 && |q| >= 1 && cur < |mu| && cur < |phi|
    requires q[0] == Next(mu, phi, cur, o) && q[0] != cur
    requires forall i :: 0 <= i < |q| - 1 ==> MovesAt(mu, phi, q, o1, i)
    ensures forall i :: 0 <= i < |q| ==> MovesAt(mu, phi, [cur] + q, o, i)
  {
    var p := [cur] + q;
    forall i | 0 <= i < |q| ensures MovesAt(mu, phi, p, o, i) {
      if i > 0 {
        assert MovesAt(mu, phi, q, o1, i - 1);
        assert p[i] == q[i - 1] && p[i + 1] == q[i];
      }
    }
  }

  /** Dropping the first node of a path gives a path one position further on. */
  lemma MovesTail(mu: seq<nat>, phi: seq<nat>, q: seq<nat>, o: nat, o1: nat)
    requires o1 == o + 1 && |q| >= 1
    requires forall i :: 0 <= i < |q| - 1 ==> MovesAt(mu, phi, q, o, i)
    ensures forall i :: 0 <= i < |q| - 2 ==> MovesAt(mu, phi, q[1..], o1, i)
  {
    var r := q[1..];
    forall i | 0 <= i < |r| - 1 ensures MovesAt(mu, phi, r, o1, i) {
      assert MovesAt(mu, phi, q, o, i + 1);
      assert r[i] == q[i + 1] && r[i + 1] == q[i + 2];
    }
  }

  /** A sequence of the shape of a walk is that walk. */
  lemma {:induction false} WalkOfShape(mu: seq<nat>, phi: seq<nat>, q: seq<nat>, o: nat, budget: nat)
    requires IsNodeMap(mu, |mu|) && IsNodeMap(phi, |mu|)
    requires 1 <= |q| <= budget && AllBelow(q, |mu|)
    requires forall i :: 0 <= i < |q| - 1 ==> MovesAt(mu, phi, q, o, i)
    requires Next(mu, phi, q[|q| - 1], o + |q| - 1) == q[|q| - 1]
    ensures Walk(mu, phi, q[0], o % 2 == 0, budget) == q
    decreases |q|
  {
    var useMu := o % 2 == 0;
    var next := if useMu then mu[q[0]] else phi[q[0]];
    assert next == Next(mu, phi, q[0], o);
    if |q| > 1 {
      var r := q[1..];
      assert MovesAt(mu, phi, q, o, 0);
      assert r[0] == next;
      MovesTail(mu, phi, q, o, o + 1);
      assert r[|r| - 1] == q[|q| - 1] && o + 1 + |r| - 1 == o + |q| - 1;
      WalkOfShape(mu, phi, r, o + 1, budget - 1);
      assert !useMu == ((o + 1) % 2 == 0);
      assert Walk(mu, phi, q[0], useMu, budget) == [q[0]] + Walk(mu, phi, next, !useMu, budget - 1);
      assert q == [q[0]] + r;
    } else {
      assert next == q[0];
    }
  }

  /** What get_path returns is the alternating trace from v, of at most
      num_nodes nodes; it throws exactly when no such trace exists. */
  lemma TracePathIsTrace(mu: seq<nat>, phi: seq<nat>, v: nat)
    requires IsNodeMap(mu, |mu|) && IsNodeMap(phi, |mu|) && v < |mu|
    ensures TracePath(mu, phi, v).Success? ==>
      IsTrace(mu, phi, v, TracePath(mu, phi, v).value) && |TracePath(mu, phi, v).value| <= |mu|
    ensures TracePath(mu, phi, v) == Failure(NotOuter) <==> Classify(mu, phi, v) != Outer
    ensures TracePath(mu, phi, v) == Failure(PathTooLong) ==>
      forall p :: IsTrace(mu, phi, v, p) ==> |p| > |mu|
  {
    if Classify(mu, phi, v) == Outer {
      var w := Walk(mu, phi, v, true, |mu| + 1);
      if |w| > |mu| {
        NoShortTrace(mu, phi, v);
      } else {
        WalkShape(mu, phi, v, 0, |mu| + 1);
        assert TracePath(mu, phi, v) == Success(w);
      }
    }
  }

  lemma NoShortTrace(mu: seq<nat>, phi: seq<nat>, v: nat)
    requires IsNodeMap(mu, |mu|) && IsNodeMap(phi, |mu|) && v < |mu|
    requires |Walk(mu, phi, v, true, |mu| + 1)| > |mu|
    ensures forall p :: IsTrace(mu, phi, v, p) ==> |p| > |mu|
  {
    forall p | IsTrace(mu, phi, v, p)
      ensures |p| > |mu|
    {
      if |p| <= |mu| {
        WalkOfShape(mu, phi, p, 0, |mu| + 1);
      }
    }
  }

  /** Conversely every alternating trace from an outer node that fits in
      num_nodes nodes is what get_path returns. */
  lemma TraceIsTracePath(mu: seq<nat>, phi: seq<nat>, v: nat, p: seq<nat>)
    requires IsNodeMap(mu, |mu|) && IsNodeMap(phi, |mu|) && v < |mu|
    requires Classify(mu, phi, v) == Outer && IsTrace(mu, phi, v, p) && |p| <= |mu|
    ensures TracePath(mu, phi, v) == Success(p)
  {
    WalkOfShape(mu, phi, p, 0, |mu| + 1);
  }

  // ---------------------------------------------------------------------
  // augment

  /** One loop of augment over a path: at every odd position, with nd the
      node there, mu[phi[nd]] := nd and then mu[nd] := phi[nd]. */
  function FlipOdd(mu: seq<nat>, phi: seq<nat>, path: seq<nat>, i: nat): (r: seq<nat>)
    requires IsNodeMap(mu, |mu|) && IsNodeMap(phi, |mu|) && AllBelow(path, |mu|) && i <= |path|
    ensures IsNodeMap(r, |mu|)
    decreases |path| - i
  {
    if i == |path| then mu
    else if i % 2 == 0 then FlipOdd(mu, phi, path, i + 1)
    else
      var nd := path[i];
      FlipOdd(mu[phi[nd] := nd][nd := phi[nd]], phi, path, i + 1)
  }

  /** The partner vector augment leaves: both paths flipped, then x and y
      matched to each other. */
  function AugmentMu(mu: seq<nat>, phi: seq<nat>, xPath: seq<nat>, yPath: seq<nat>, x: nat, y: nat): (r: seq<nat>)
    requires IsNodeMap(mu, |mu|) && IsNodeMap(phi, |mu|)
    requires AllBelow(xPath, |mu|) && AllBelow(yPath, |mu|) && x < |mu| && y < |mu|
    ensures IsNodeMap(r, |mu|)
  {
    FlipOdd(FlipOdd(mu, phi, xPath, 0), phi, yPath, 0)[x := y][y := x]
  }

  /** p runs from p[0] along the matching and the forest to an unmatched node
      at an even position, and visits no node twice. */
  predicate IsAlternatingToRoot(mu: seq<nat>, phi: seq<nat>, p: seq<nat>)
    requires |phi| == |mu|
  {
    && AllBelow(p, |mu|) && |p| % 2 == 1
    && (forall i :: 0 <= i < |p| - 1 ==> FollowsAt(mu, phi, p, 0, i))
    && mu[p[|p| - 1]] == p[|p| - 1]
    && Distinct(p)
  }

  predicate Distinct(p: seq<nat>) {
    forall a, b :: 0 <= a < b < |p| ==> p[a] != p[b]
  }

  /** In a path without repeats, the node at position i is not in the part
      from position k > i on. */
  lemma NotInTail(p: seq<nat>, i: nat, k: nat)
    requires Distinct(p) && i < k <= |p|
    ensures p[i] !in p[k..]
  {
    forall t | k <= t < |p| ensures p[t] != p[i] {
      assert p[i] != p[t];
    }
    assert forall t :: 0 <= t < |p[k..]| ==> p[k..][t] == p[k + t];
  }

  /** What flipping needs of a path: no repeats, odd length, and at every
      odd position the next node is the attachment of the node there. */
  predicate FlipPath(phi: seq<nat>, p: seq<nat>, n: nat)
    requires |phi| == n
  {
    && AllBelow(p, n) && |p| % 2 == 1 && Distinct(p)
    && forall k {:trigger phi[p[k]]} :: 0 <= k < |p| - 1 && k % 2 == 1 ==> phi[p[k]] == p[k + 1]
  }

  lemma AlternatingIsFlipPath(mu: seq<nat>, phi: seq<nat>, p: seq<nat>)
    requires |phi| == |mu| && IsAlternatingToRoot(mu, phi, p)
    ensures FlipPath(phi, p, |mu|)
  {
    forall k | 0 <= k < |p| - 1 && k % 2 == 1 ensures phi[p[k]] == p[k + 1] {
      assert FollowsAt(mu, phi, p, 0, k);
    }
  }

  /** r matches the nodes at positions j and j + 1 of p with each other. */
  predicate SwappedAt(r: seq<nat>, p: seq<nat>, j: nat)
    requires AllBelow(p, |r|) && j + 1 < |p|
  {
    r[p[j]] == p[j + 1] && r[p[j + 1]] == p[j]
  }

  /** One step of the flipping loop from an odd position i: p[i] and p[i + 1]
      are matched to each other and the loop goes on from i + 2. */
  lemma FlipOddStep(m: seq<nat>, phi: seq<nat>, p: seq<nat>, i: nat)
    requires IsNodeMap(m, |m|) && IsNodeMap(phi, |m|) && FlipPath(phi, p, |m|)
    requires i < |p| && i % 2 == 1
    ensures i + 2 <= |p|
    ensures FlipOdd(m, phi, p, i) == FlipOdd(m[p[i + 1] := p[i]][p[i] := p[i + 1]], phi, p, i + 2)
  {
    var m2 := m[p[i + 1] := p[i]][p[i] := p[i + 1]];
    assert phi[p[i]] == p[i + 1];
    assert FlipOdd(m, phi, p, i) == FlipOdd(m2, phi, p, i + 1);
  }

  /** Flipping from an odd position i on matches p[j] with p[j + 1] at every
      odd position j from i on. */
  lemma {:induction false} FlipOddSwaps(m: seq<nat>, phi: seq<nat>, p: seq<nat>, i: nat)
    requires IsNodeMap(m, |m|) && IsNodeMap(phi, |m|) && FlipPath(phi, p, |m|)
    requires i <= |p| && i % 2 == 1
    ensures forall j :: i <= j < |p| - 1 && j % 2 == 1 ==> SwappedAt(FlipOdd(m, phi, p, i), p, j)
    decreases |p| - i
  {
    if i < |p| {
      FlipOddStep(m, phi, p, i);
      var m2 := m[p[i + 1] := p[i]][p[i] := p[i + 1]];
      FlipOddSwaps(m2, phi, p, i + 2);
      FlipOddKeeps(m2, phi, p, i + 2);
      assert p[i] !in p[i + 2..] && p[i + 1] !in p[i + 2..] by {
        NotInTail(p, i, i + 2);
        NotInTail(p, i + 1, i + 2);
      }
      assert SwappedAt(FlipOdd(m2, phi, p, i + 2), p, i);
    }
  }

  /** Flipping from an odd position i on leaves the partner of every node off
      p[i..] unchanged. */
  lemma {:induction false} FlipOddKeeps(m: seq<nat>, phi: seq<nat>, p: seq<nat>, i: nat)
    requires IsNodeMap(m, |m|) && IsNodeMap(phi, |m|) && FlipPath(phi, p, |m|)
    requires i <= |p| && i % 2 == 1
    ensures var r := FlipOdd(m, phi, p, i); forall w :: 0 <= w < |m| && w !in p[i..] ==> r[w] == m[w]
    decreases |p| - i
  {
    if i < |p| {
      FlipOddStep(m, phi, p, i);
      var m2 := m[p[i + 1] := p[i]][p[i] := p[i + 1]];
      FlipOddKeeps(m2, phi, p, i + 2);
      var r := FlipOdd(m2, phi, p, i + 2);
      assert p[i..] == [p[i], p[i + 1]] + p[i + 2..];
      forall w | 0 <= w < |m| && w !in p[i..]
        ensures r[w] == m[w]
      {
        assert w != p[i] && w != p[i + 1] && w !in p[i + 2..];
      }
    }
  }

  /** Flipping from an odd position i on rewrites exactly the nodes of p from
      position i on: each is matched to its neighbour on p across its pair. */
  lemma FlipOddEffect(m: seq<nat>, phi: seq<nat>, p: seq<nat>, i: nat)
    requires IsNodeMap(m, |m|) && IsNodeMap(phi, |m|) && FlipPath(phi, p, |m|)
    requires i <= |p| && i % 2 == 1
    ensures var r := FlipOdd(m, phi, p, i);
      && (forall j :: i <= j < |p| - 1 && j % 2 == 1 ==> SwappedAt(r, p, j))
      && (forall w :: 0 <= w < |m| && w !in p[i..] ==> r[w] == m[w])
  {
    FlipOddSwaps(m, phi, p, i);
    FlipOddKeeps(m, phi, p, i);
  }

  /** The two flips of augment, before x and y are matched: every pair of
      either path is matched across, and every node on neither path keeps its
      partner. */
  lemma FlipBothEffect(mu: seq<nat>, phi: seq<nat>, xPath: seq<nat>, yPath: seq<nat>)
    requires IsNodeMap(mu, |mu|) && IsNodeMap(phi, |mu|)
    requires IsAlternatingToRoot(mu, phi, xPath) && IsAlternatingToRoot(mu, phi, yPath)
    requires forall a, b :: 0 <= a < |xPath| && 0 <= b < |yPath| ==> xPath[a] != yPath[b]
    ensures var f := FlipOdd(FlipOdd(mu, phi, xPath, 0), phi, yPath, 0);
      && (forall j :: 1 <= j < |xPath| - 1 && j % 2 == 1 ==> f[xPath[j]] == xPath[j + 1] && f[xPath[j + 1]] == xPath[j])
      && (forall j :: 1 <= j < |yPath| - 1 && j % 2 == 1 ==> f[yPath[j]] == yPath[j + 1] && f[yPath[j + 1]] == yPath[j])
      && (forall w :: 0 <= w < |mu| && w !in xPath[1..] && w !in yPath[1..] ==> f[w] == mu[w])
  {
    var f1 := FlipOdd(mu, phi, xPath, 0);
    var f2 := FlipOdd(f1, phi, yPath, 0);
    assert f1 == FlipOdd(mu, phi, xPath, 1);
    assert f2 == FlipOdd(f1, phi, yPath, 1);
    AlternatingIsFlipPath(mu, phi, xPath);
    AlternatingIsFlipPath(mu, phi, yPath);
    FlipOddEffect(mu, phi, xPath, 1);
    FlipOddEffect(f1, phi, yPath, 1);
    forall j | 1 <= j < |yPath| - 1 && j % 2 == 1
      ensures f2[yPath[j]] == yPath[j + 1] && f2[yPath[j + 1]] == yPath[j]
    {
      assert SwappedAt(f2, yPath, j);
    }
    forall j | 1 <= j < |xPath| - 1 && j % 2 == 1
      ensures f2[xPath[j]] == xPath[j + 1] && f2[xPath[j + 1]] == xPath[j]
    {
      assert SwappedAt(f1, xPath, j);
      var u, v := xPath[j], xPath[j + 1];
      assert u !in yPath[1..] && v !in yPath[1..] by {
        forall k | 0 <= k < |yPath| - 1 ensures yPath[1..][k] != u && yPath[1..][k] != v {
          assert yPath[1..][k] == yPath[k + 1];
        }
      }
    }
  }

  /** Matching x with y leaves the pairs of a path alone when neither lies on
      the path past its first node. */
  lemma PairsSurviveRoots(f: seq<nat>, p: seq<nat>, x: nat, y: nat)
    requires AllBelow(p, |f|) && |p| >= 1 && x < |f| && y < |f| && x !in p[1..] && y !in p[1..]
    requires forall j :: 1 <= j < |p| - 1 && j % 2 == 1 ==> f[p[j]] == p[j + 1] && f[p[j + 1]] == p[j]
    ensures var r := f[x := y][y := x];
      forall j :: 1 <= j < |p| - 1 && j % 2 == 1 ==> r[p[j]] == p[j + 1] && r[p[j + 1]] == p[j]
  {
    forall j | 1 <= j < |p| - 1 && j % 2 == 1
      ensures f[x := y][y := x][p[j]] == p[j + 1] && f[x := y][y := x][p[j + 1]] == p[j]
    {
      assert p[j] == p[1..][j - 1] && p[j + 1] == p[1..][j];
    }
  }

  /** Where augment sends each node, for two disjoint alternating paths to
      unmatched roots: x and y to each other, the two nodes of every pair
      (odd position, next position) of either path to each other, and every
      other node to its old partner. */
  lemma AugmentMuAt(mu: seq<nat>, phi: seq<nat>, xPath: seq<nat>, yPath: seq<nat>)
    requires IsNodeMap(mu, |mu|) && IsNodeMap(phi, |mu|)
    requires IsAlternatingToRoot(mu, phi, xPath) && IsAlternatingToRoot(mu, phi, yPath)
    requires forall a, b :: 0 <= a < |xPath| && 0 <= b < |yPath| ==> xPath[a] != yPath[b]
    ensures var r := AugmentMu(mu, phi, xPath, yPath, xPath[0], yPath[0]);
      && r[xPath[0]] == yPath[0] && r[yPath[0]] == xPath[0]
      && (forall j :: 1 <= j < |xPath| - 1 && j % 2 == 1 ==> r[xPath[j]] == xPath[j + 1] && r[xPath[j + 1]] == xPath[j])
      && (forall j :: 1 <= j < |yPath| - 1 && j % 2 == 1 ==> r[yPath[j]] == yPath[j + 1] && r[yPath[j + 1]] == yPath[j])
      && (forall w :: 0 <= w < |mu| && w !in xPath && w !in yPath ==> r[w] == mu[w])
  {
    var x, y := xPath[0], yPath[0];
    var f2 := FlipOdd(FlipOdd(mu, phi, xPath, 0), phi, yPath, 0);
    FlipBothEffect(mu, phi, xPath, yPath);
    var r := AugmentMu(mu, phi, xPath, yPath, x, y);
    assert r == f2[x := y][y := x];
    assert x != y;
    assert x !in xPath[1..] && y !in xPath[1..] by {
      forall k | 0 <= k < |xPath| - 1 ensures xPath[1..][k] != x && xPath[1..][k] != y {
        assert xPath[1..][k] == xPath[k + 1];
      }
    }
    assert x !in yPath[1..] && y !in yPath[1..] by {
      forall k | 0 <= k < |yPath| - 1 ensures yPath[1..][k] != x && yPath[1..][k] != y {
        assert yPath[1..][k] == yPath[k + 1];
      }
    }
    PairsSurviveRoots(f2, xPath, x, y);
    PairsSurviveRoots(f2, yPath, x, y);
    forall w | 0 <= w < |mu| && w !in xPath && w !in yPath
      ensures r[w] == mu[w]
    {
      assert w !in xPath[1..] && w !in yPath[1..];
    }
  }

  /** The partner of a node on an alternating path lies on that path. */
  lemma PartnerOnPath(mu: seq<nat>, phi: seq<nat>, p: seq<nat>, w: nat)
    requires IsNodeMap(mu, |mu|) && IsNodeMap(phi, |mu|) && IsMatching(mu)
    requires IsAlternatingToRoot(mu, phi, p) && w < |mu| && mu[w] in p
    ensures w in p
  {
    var j :| 0 <= j < |p| && p[j] == mu[w];
    assert mu[mu[w]] == w;
    if j == |p| - 1 {
      assert w == p[j];
    } else if j % 2 == 0 {
      assert FollowsAt(mu, phi, p, 0, j);
      assert w == p[j + 1];
    } else {
      assert FollowsAt(mu, phi, p, 0, j - 1);
      assert w == p[j - 1];
    }
  }

  /** Augmenting along two disjoint alternating paths to unmatched roots keeps
      mu a matching, matches x with y, and matches exactly the nodes matched
      before plus the two roots. */
  lemma AugmentKeepsMatching(mu: seq<nat>, phi: seq<nat>, xPath: seq<nat>, yPath: seq<nat>)
    requires IsNodeMap(mu, |mu|) && IsNodeMap(phi, |mu|) && IsMatching(mu)
    requires IsAlternatingToRoot(mu, phi, xPath) && IsAlternatingToRoot(mu, phi, yPath)
    requires forall a, b :: 0 <= a < |xPath| && 0 <= b < |yPath| ==> xPath[a] != yPath[b]
    ensures var r := AugmentMu(mu, phi, xPath, yPath, xPath[0], yPath[0]);
      && IsMatching(r) && r[xPath[0]] == yPath[0]
      && forall w :: 0 <= w < |mu| ==>
           (r[w] != w <==> mu[w] != w || w == xPath[|xPath| - 1] || w == yPath[|yPath| - 1])
  {
    var x, y := xPath[0], yPath[0];
    var r := AugmentMu(mu, phi, xPath, yPath, x, y);
    AugmentMuAt(mu, phi, xPath, yPath);
    forall w | 0 <= w < |mu| && w in xPath
      ensures r[r[w]] == w
      ensures r[w] != w <==> mu[w] != w || w == xPath[|xPath| - 1] || w == yPath[|yPath| - 1]
    {
      assert w != yPath[|yPath| - 1];
      PathNodeAfterFlip(mu, phi, xPath, yPath[0], r, w);
    }
    forall w | 0 <= w < |mu| && w in yPath
      ensures r[r[w]] == w
      ensures r[w] != w <==> mu[w] != w || w == xPath[|xPath| - 1] || w == yPath[|yPath| - 1]
    {
      assert w != xPath[|xPath| - 1];
      PathNodeAfterFlip(mu, phi, yPath, xPath[0], r, w);
    }
    forall w | 0 <= w < |mu| && w !in xPath && w !in yPath
      ensures r[r[w]] == w
      ensures r[w] != w <==> mu[w] != w || w == xPath[|xPath| - 1] || w == yPath[|yPath| - 1]
    {
      assert r[w] == mu[w];
      if mu[w] in xPath {
        PartnerOnPath(mu, phi, xPath, w);
      }
      if mu[w] in yPath {
        PartnerOnPath(mu, phi, yPath, w);
      }
      assert r[mu[w]] == mu[mu[w]];
    }
  }

  /** A node of an alternating path p to a root, once p is flipped and p[0]
      matched to another node z whose partner is p[0]: its new partner is
      matched back to it, and it is matched exactly when it was or it is the
      root. */
  lemma PathNodeAfterFlip(mu: seq<nat>, phi: seq<nat>, p: seq<nat>, z: nat, r: seq<nat>, w: nat)
    requires IsNodeMap(mu, |mu|) && IsNodeMap(phi, |mu|) && IsMatching(mu)
    requires IsAlternatingToRoot(mu, phi, p) && IsNodeMap(r, |mu|) && z < |mu|
    requires z !in p && r[p[0]] == z && r[z] == p[0]
    requires forall j :: 1 <= j < |p| - 1 && j % 2 == 1 ==> r[p[j]] == p[j + 1] && r[p[j + 1]] == p[j]
    requires w in p
    ensures r[r[w]] == w
    ensures r[w] != w <==> mu[w] != w || w == p[|p| - 1]
  {
    var j :| 0 <= j < |p| && p[j] == w;
    PathNodeFacts(mu, phi, p, j);
    if j > 0 {
      PathPairs(mu, phi, p, j);
      var k := if j % 2 == 1 then j else j - 1;
      assert r[p[k]] == p[k + 1] && r[p[k + 1]] == p[k];
      assert p[k] != p[k + 1];
    }
  }

  /** Every position after the first of an odd-length path is either an odd
      position followed by another one, or an even one after an odd one. */
  lemma PathPairs(mu: seq<nat>, phi: seq<nat>, p: seq<nat>, j: nat)
    requires |phi| == |mu| && IsAlternatingToRoot(mu, phi, p) && 1 <= j < |p|
    ensures j % 2 == 1 ==> j < |p| - 1
    ensures j % 2 == 0 ==> 1 <= j - 1 && (j - 1) % 2 == 1
  {
  }

  /** A node strictly inside an alternating path to a root is matched, and its
      neighbours on the path differ from it. */
  lemma PathNodeFacts(mu: seq<nat>, phi: seq<nat>, p: seq<nat>, j: nat)
    requires IsNodeMap(mu, |mu|) && IsNodeMap(phi, |mu|) && IsMatching(mu)
    requires IsAlternatingToRoot(mu, phi, p) && j < |p|
    ensures j < |p| - 1 ==> mu[p[j]] != p[j]
    ensures j == 0 && |p| > 1 ==> mu[p[0]] == p[1]
  {
    if j < |p| - 1 {
      assert p[j + 1] != p[j];
      if j % 2 == 0 {
        assert FollowsAt(mu, phi, p, 0, j);
      } else {
        assert FollowsAt(mu, phi, p, 0, j - 1);
        assert p[j - 1] != p[j];
        assert mu[mu[p[j - 1]]] == p[j - 1];
      }
    }
    if j == 0 && |p| > 1 {
      assert FollowsAt(mu, phi, p, 0, 0);
    }
  }

  // ---------------------------------------------------------------------
  // shrink

  /** The first node of path that is its own base: shrink's root. */
  function FirstBase(path: seq<nat>, rho: seq<nat>): (r: Option<nat>)
    requires AllBelow(path, |rho|)
    ensures r.None? <==> forall k :: 0 <= k < |path| ==> rho[path[k]] != path[k]
    ensures r.Some? ==> exists k :: 0 <= k < |path| && path[k] == r.value && rho[r.value] == r.value
                          && forall j :: 0 <= j < k ==> rho[path[j]] != path[j]
  {
    if |path| == 0 then None
    else if rho[path[0]] == path[0] then Some(path[0])
    else
      var r := FirstBase(path[1..], rho);
      if r.Some? then
        var k :| 0 <= k < |path| - 1 && path[1..][k] == r.value && rho[r.value] == r.value
                 && forall j :: 0 <= j < k ==> rho[path[1..][j]] != path[1..][j];
        assert path[k + 1] == r.value;
        assert forall j :: 0 <= j < k + 1 ==> rho[path[j]] != path[j] by {
          forall j | 0 <= j < k + 1 ensures rho[path[j]] != path[j] {
            if j > 0 { assert path[j] == path[1..][j - 1]; }
          }
        }
        r
      else
        assert forall k :: 0 <= k < |path| ==> rho[path[k]] != path[k] by {
          forall k | 0 <= k < |path| ensures rho[path[k]] != path[k] {
            if k > 0 { assert path[k] == path[1..][k - 1]; }
          }
        }
        r
  }

  /** The root shrink settles on: the first base on the path traced from the
      intersection, or the abort that prevents it. */
  function ShrinkRoot(mu: seq<nat>, phi: seq<nat>, rho: seq<nat>, m: nat): Result<nat, EdError>
    requires IsNodeMap(mu, |mu|) && IsNodeMap(phi, |mu|) && |rho| == |mu| && m < |mu|
  {
    match TracePath(mu, phi, m)
    case Failure(e) => Failure(e)
    case Success(p) =>
      match FirstBase(p, rho)
      case None => Failure(NoBlossomBase)
      case Some(r) => Success(r)
  }

  /** The prefix of p up to and including the first occurrence of r (all of p
      when r does not occur): what shrink marks as on_path. */
  function UpTo(p: seq<nat>, r: nat): seq<nat> {
    if p == [] then []
    else if p[0] == r then [r]
    else [p[0]] + UpTo(p[1..], r)
  }

  /** UpTo is a prefix of p; it ends at the first r when r occurs in p, and
      is all of p otherwise. */
  lemma {:induction false} UpToSpec(p: seq<nat>, r: nat)
    ensures |UpTo(p, r)| <= |p| && UpTo(p, r) == p[..|UpTo(p, r)|]
    ensures r in p ==> |UpTo(p, r)| >= 1 && UpTo(p, r)[|UpTo(p, r)| - 1] == r && r !in UpTo(p, r)[..|UpTo(p, r)| - 1]
    ensures r !in p ==> UpTo(p, r) == p
    decreases |p|
  {
    if p != [] && p[0] != r {
      var t := p[1..];
      UpToSpec(t, r);
      var q := UpTo(t, r);
      assert p == [p[0]] + t;
      assert UpTo(p, r) == [p[0]] + q;
      if q != [] {
        assert UpTo(p, r)[..|UpTo(p, r)| - 1] == [p[0]] + q[..|q| - 1];
      }
    }
  }

  /** Marking up to r runs through a prefix that does not hold r. */
  lemma {:induction false} UpToAppend(a: seq<nat>, b: seq<nat>, r: nat)
    requires r !in a
    ensures UpTo(a + b, r) == a + UpTo(b, r)
    decreases |a|
  {
    if a == [] {
      assert a + b == b;
    } else {
      var c := a + b;
      assert c[0] == a[0] && c[1..] == a[1..] + b;
      UpToAppend(a[1..], b, r);
      assert a == [a[0]] + a[1..];
    }
  }

  lemma UpToSplit(p: seq<nat>, r: nat, i: nat)
    requires i < |p| && r !in p[..i]
    ensures UpTo(p, r) == p[..i] + UpTo(p[i..], r)
  {
    assert p == p[..i] + p[i..];
    UpToAppend(p[..i], p[i..], r);
  }

  /** One re-pointing loop of shrink, as written: the position i, not the
      node at that position, serves as node id; the loop ends at the first
      position equal to root; every odd position with rho[phi[i]] != root
      sets phi[phi[i]] := i. */
  function Repoint(phi: seq<nat>, rho: seq<nat>, root: nat, len: nat, i: nat): (r: seq<nat>)
    requires IsNodeMap(phi, |phi|) && |rho| == |phi| && len <= |phi| && i <= len
    ensures IsNodeMap(r, |phi|)
    decreases len - i
  {
    if i == len || i == root then phi
    else if i % 2 == 0 || rho[phi[i]] == root then Repoint(phi, rho, root, len, i + 1)
    else Repoint(phi[phi[i] := i], rho, root, len, i + 1)
  }

  /** The attachment vector shrink leaves. */
  function ShrinkPhi(phi: seq<nat>, rho: seq<nat>, root: nat, x: nat, y: nat, xLen: nat, yLen: nat): (r: seq<nat>)
    requires IsNodeMap(phi, |phi|) && |rho| == |phi| && xLen <= |phi| && yLen <= |phi|
    requires x < |phi| && y < |phi|
    ensures IsNodeMap(r, |phi|)
  {
    var p1 := Repoint(phi, rho, root, xLen, 0);
    var p2 := Repoint(p1, rho, root, yLen, 0);
    var p3 := if rho[x] != root then p2[x := y] else p2;
    if rho[y] != root then p3[y := x] else p3
  }

  /** The base vector shrink leaves: every node whose base is marked gets
      root as base, every other node keeps its base. */
  function Rebase(rho: seq<nat>, marked: seq<nat>, root: nat): (r: seq<nat>)
    requires IsNodeMap(rho, |rho|) && root < |rho|
    ensures IsNodeMap(r, |rho|)
  {
    seq(|rho|, v requires 0 <= v < |rho| => if rho[v] in marked then root else rho[v])
  }

  /** The re-pointing loop never detaches a node. */
  lemma {:induction false} RepointKeepsAttachments(phi: seq<nat>, rho: seq<nat>, root: nat, len: nat, i: nat)
    requires IsNodeMap(phi, |phi|) && |rho| == |phi| && len <= |phi| && i <= len
    ensures AttachmentsKept(phi, Repoint(phi, rho, root, len, i))
    decreases len - i
  {
    if i == len || i == root {
    } else if i % 2 == 0 || rho[phi[i]] == root {
      RepointKeepsAttachments(phi, rho, root, len, i + 1);
    } else {
      var phi2 := phi[phi[i] := i];
      assert AttachmentsKept(phi, phi2);
      RepointKeepsAttachments(phi2, rho, root, len, i + 1);
    }
  }

  /** shrink never detaches a node, so no outer node stops being outer. */
  lemma ShrinkKeepsAttachments(phi: seq<nat>, rho: seq<nat>, root: nat, x: nat, y: nat, xLen: nat, yLen: nat)
    requires IsNodeMap(phi, |phi|) && |rho| == |phi| && xLen <= |phi| && yLen <= |phi|
    requires x < |phi| && y < |phi| && x != y
    ensures AttachmentsKept(phi, ShrinkPhi(phi, rho, root, x, y, xLen, yLen))
  {
    var p1 := Repoint(phi, rho, root, xLen, 0);
    RepointKeepsAttachments(phi, rho, root, xLen, 0);
    RepointKeepsAttachments(p1, rho, root, yLen, 0);
  }

  /** Re-basing onto a root that is its own base keeps every base canonical. */
  lemma RebaseKeepsBasesCanonical(rho: seq<nat>, marked: seq<nat>, root: nat)
    requires IsNodeMap(rho, |rho|) && root < |rho| && BasesCanonical(rho) && rho[root] == root
    ensures BasesCanonical(Rebase(rho, marked, root))
  {
  }

  // ---------------------------------------------------------------------
  // populate and get_matching

  /** The number of edges of the result that have v as an end. */
  function Degree(edges: seq<(nat, nat)>, v: nat): nat {
    if edges == [] then 0
    else
      var e := edges[|edges| - 1];
      Degree(edges[..|edges| - 1], v) + if e.0 == v || e.1 == v then 1 else 0
  }

  /** edges is what populate emits for mu: pairs (v, mu[v]) with mu[v] < v,
      all of them, in increasing order of v. */
  predicate PopulatedFrom(mu: seq<nat>, edges: seq<(nat, nat)>)
    requires IsNodeMap(mu, |mu|)
  {
    && (forall k :: 0 <= k < |edges| ==> edges[k].0 < |mu| && edges[k].1 == mu[edges[k].0] && edges[k].1 < edges[k].0)
    && (forall v :: 0 <= v < |mu| && mu[v] < v ==> (v, mu[v]) in edges)
    && (forall j, k :: 0 <= j < k < |edges| ==> edges[j].0 < edges[k].0)
  }

  /** The pairs populate emits for the nodes below v: (u, mu[u]) for each u
      whose partner is smaller, in increasing order of u. */
  function PopulatedBelow(mu: seq<nat>, v: nat): seq<(nat, nat)>
    requires v <= |mu|
  {
    if v == 0 then []
    else PopulatedBelow(mu, v - 1) + if mu[v - 1] < v - 1 then [(v - 1, mu[v - 1])] else []
  }

  /** The graph populate builds from the partner vector mu. */
  function Populated(mu: seq<nat>): seq<(nat, nat)> {
    PopulatedBelow(mu, |mu|)
  }

  /** Every pair of r is (u, mu[u]) for some u below v with a smaller
      partner, and the pairs come in increasing order of u. */
  predicate PairsBelow(mu: seq<nat>, r: seq<(nat, nat)>, v: nat)
    requires v <= |mu|
  {
    && (forall k :: 0 <= k < |r| ==> r[k].0 < v && r[k].1 == mu[r[k].0] && r[k].1 < r[k].0)
    && (forall j, k :: 0 <= j < k < |r| ==> r[j].0 < r[k].0)
  }

  /** The pairs emitted below v are PairsBelow v. */
  lemma {:induction false} PopulatedBelowPairs(mu: seq<nat>, v: nat)
    requires v <= |mu|
    ensures PairsBelow(mu, PopulatedBelow(mu, v), v)
    decreases v
  {
    if v > 0 {
      PopulatedBelowPairs(mu, v - 1);
      var p := PopulatedBelow(mu, v - 1);
      var r := PopulatedBelow(mu, v);
      if mu[v - 1] < v - 1 {
        assert r == p + [(v - 1, mu[v - 1])];
        assert forall k :: 0 <= k < |p| ==> r[k] == p[k];
      } else {
        assert r == p;
      }
    }
  }

  /** Every u below v with a smaller partner has its pair emitted. */
  lemma {:induction false} PopulatedBelowCovers(mu: seq<nat>, v: nat)
    requires v <= |mu|
    ensures forall u :: 0 <= u < v && mu[u] < u ==> (u, mu[u]) in PopulatedBelow(mu, v)
    decreases v
  {
    if v > 0 {
      PopulatedBelowCovers(mu, v - 1);
      var p := PopulatedBelow(mu, v - 1);
      var r := PopulatedBelow(mu, v);
      forall u | 0 <= u < v && mu[u] < u
        ensures (u, mu[u]) in r
      {
        if u < v - 1 {
          assert (u, mu[u]) in p;
        } else {
          assert r == p + [(u, mu[u])];
        }
      }
    }
  }

  /** populate's graph is PopulatedFrom its partner vector. */
  lemma PopulatedIsPopulatedFrom(mu: seq<nat>)
    requires IsNodeMap(mu, |mu|)
    ensures PopulatedFrom(mu, Populated(mu))
  {
    PopulatedBelowPairs(mu, |mu|);
    PopulatedBelowCovers(mu, |mu|);
  }

  lemma {:induction false} DegreeZero(edges: seq<(nat, nat)>, v: nat)
    requires forall k :: 0 <= k < |edges| ==> edges[k].0 != v && edges[k].1 != v
    ensures Degree(edges, v) == 0
    decreases |edges|
  {
    if edges != [] {
      DegreeZero(edges[..|edges| - 1], v);
    }
  }

  lemma {:induction false} DegreeOne(edges: seq<(nat, nat)>, v: nat, k0: nat)
    requires k0 < |edges| && (edges[k0].0 == v || edges[k0].1 == v)
    requires forall k :: 0 <= k < |edges| && k != k0 ==> edges[k].0 != v && edges[k].1 != v
    ensures Degree(edges, v) == 1
    decreases |edges|
  {
    var init := edges[..|edges| - 1];
    if k0 == |edges| - 1 {
      DegreeZero(init, v);
    } else {
      DegreeOne(init, v, k0);
    }
  }

  /** When mu is a matching, populate emits every matched pair once and no
      node of the result has degree above one, so get_matching's check passes. */
  lemma PopulatedMatchingDegrees(mu: seq<nat>, edges: seq<(nat, nat)>)
    requires IsNodeMap(mu, |mu|) && IsMatching(mu) && PopulatedFrom(mu, edges)
    ensures forall v :: 0 <= v < |mu| ==> Degree(edges, v) == if mu[v] != v then 1 else 0
  {
    forall v | 0 <= v < |mu|
      ensures Degree(edges, v) == if mu[v] != v then 1 else 0
    {
      assert mu[mu[v]] == v;
      if mu[v] == v {
        DegreeZero(edges, v);
      } else {
        var a := if mu[v] < v then v else mu[v];
        assert mu[a] < a;
        assert (a, mu[a]) in edges;
        var k0 :| 0 <= k0 < |edges| && edges[k0] == (a, mu[a]);
        forall k | 0 <= k < |edges| && k != k0
          ensures edges[k].0 != v && edges[k].1 != v
        {
          var b := edges[k].0;
          assert mu[mu[b]] == b;
        }
        DegreeOne(edges, v, k0);
      }
    }
  }
}
