/** The blossom matcher of prog1/edmonds.cpp as a class over arrays: the
    node-indexed vectors _mu, _phi, _rho and scanned are array fields that
    the scan, grow, augment and shrink steps update in place. Every method is
    specified through the functions of EdmondsState applied to snapshots of
    the arrays. */
module Edmonds {
  import opened Wrappers
  import opened EdmondsState
  import opened Flags
  import opened EdmondsSearch

  /** One step of a walk that goes on. */
  lemma StepWalk(mu: seq<nat>, phi: seq<nat>, cur: nat, useMu: bool, budget: nat)
    requires IsNodeMap(mu, |mu|) && IsNodeMap(phi, |mu|) && cur < |mu| && budget > 1
    requires (if useMu then mu[cur] else phi[cur]) != cur
    ensures Walk(mu, phi, cur, useMu, budget)
         == [cur] + Walk(mu, phi, if useMu then mu[cur] else phi[cur], !useMu, budget - 1)
  {
  }

  lemma AppendStep(prefix: seq<nat>, last: nat, tail: seq<nat>, whole: seq<nat>)
    requires prefix + ([last] + tail) == whole
    ensures (prefix + [last]) + tail == whole
  {
  }

  class EdmondsMatching {
    const n: nat
    /** The neighbour lists of the input graph. */
    const adj: seq<seq<nat>>
    /** _mu: the match partner, a node itself when unmatched. */
    const mu: array<nat>
    /** _phi: the forest attachment, a node itself when unattached. */
    const phi: array<nat>
    /** _rho: the base of the blossom a node belongs to. */
    const rho: array<nat>
    const scanned: array<bool>

    ghost predicate Valid()
      reads mu, phi, rho
    {
      && IsAdjacency(adj, n)
      && mu != phi && mu != rho && phi != rho
      && scanned.Length == n
      && IsNodeMap(mu[..], n) && IsNodeMap(phi[..], n) && IsNodeMap(rho[..], n)
    }

    /** The four vectors as a value. */
    function State(): Forest
      reads mu, phi, rho, scanned
    {
      Forest(mu[..], phi[..], rho[..], scanned[..])
    }

    /** Sizes the four vectors to the number of nodes, makes every node its
        own partner, attachment and base, and clears every scanned flag. */
    constructor(g: seq<seq<nat>>)
      requires IsAdjacency(g, |g|)
      ensures Valid() && n == |g| && adj == g
      ensures mu[..] == Identity(n) && phi[..] == Identity(n) && rho[..] == Identity(n)
      ensures forall v :: 0 <= v < n ==> !scanned[v]
      ensures fresh(mu) && fresh(phi) && fresh(rho) && fresh(scanned)
    {
      n := |g|;
      adj := g;
      phi := new nat[|g|];
      mu := new nat[|g|];
      rho := new nat[|g|];
      scanned := new bool[|g|](_ => false);
      new;
      var v := 0;
      while v < n
        invariant v <= n
        invariant forall i :: 0 <= i < v ==> phi[i] == i && mu[i] == i && rho[i] == i
        invariant forall i :: 0 <= i < n ==> !scanned[i]
      {
        phi[v] := v;
        mu[v] := v;
        rho[v] := v;
        v := v + 1;
      }
    }

    /** check(): no node is attached to its own partner. */
    method Check() returns (ok: bool)
      requires Valid()
      ensures ok <==> CheckHolds(mu[..], phi[..])
    {
      var i := 0;
      while i < n
        invariant i <= n
        invariant forall k :: 0 <= k < i ==> !(phi[k] == mu[k] && mu[k] != k)
      {
        if phi[i] == mu[i] && mu[i] != i {
          return false;
        }
        i := i + 1;
      }
      return true;
    }

    /** get_path(v): from v along mu, then phi, alternately, until a step
        stays in place. */
    method GetPath(v: nat) returns (r: Result<seq<nat>, EdError>)
      requires Valid() && v < n
      ensures r == TracePath(mu[..], phi[..], v)
    {
      if Classify(mu[..], phi[..], v) != Outer {
        return Failure(NotOuter);
      }
      ghost var m0, p0 := mu[..], phi[..];
      ghost var whole := Walk(m0, p0, v, true, n + 1);
      var path: seq<nat> := [];
      var cur: nat := v;
      var useMu := true;
      while true
        invariant cur < n && |path| <= n
        invariant path + Walk(m0, p0, cur, useMu, n + 1 - |path|) == whole
        decreases n + 1 - |path|
      {
        ghost var budget := n + 1 - |path|;
        ghost var prefix := path;
        ghost var rest := Walk(m0, p0, cur, useMu, budget);
        var last: nat := cur;
        path := path + [cur];
        if useMu {
          cur := mu[last];
        } else {
          cur := phi[last];
        }
        useMu := !useMu;
        if |path| > n {
          assert rest == [last];
          return Failure(PathTooLong);
        }
        if cur == last {
          assert rest == [last];
          break;
        }
        StepWalk(m0, p0, last, !useMu, budget);
        AppendStep(prefix, last, Walk(m0, p0, cur, useMu, budget - 1), whole);
      }
      return Success(path);
    }

    /** get_intersection: the first node of yPath that also lies on xPath,
        or none when the paths are disjoint. */
    method GetIntersection(xPath: seq<nat>, yPath: seq<nat>) returns (r: Option<nat>)
      requires Valid() && AllBelow(xPath, n) && AllBelow(yPath, n)
      ensures r == FirstCommon(xPath, yPath)
      ensures r.None? <==> forall k :: 0 <= k < |yPath| ==> yPath[k] !in xPath
      ensures r.Some? ==> exists k :: 0 <= k < |yPath| && yPath[k] == r.value && r.value in xPath
                            && forall j :: 0 <= j < k ==> yPath[j] !in xPath
    {
      var visited := new bool[n](_ => false);
      var i := 0;
      while i < |xPath|
        invariant i <= |xPath|
        invariant forall k :: 0 <= k < n ==> (visited[k] <==> k in xPath[..i])
      {
        visited[xPath[i]] := true;
        assert xPath[..i + 1] == xPath[..i] + [xPath[i]];
        i := i + 1;
      }
      assert xPath[..i] == xPath;
      var j := 0;
      while j < |yPath|
        invariant j <= |yPath|
        invariant forall k :: 0 <= k < j ==> yPath[k] !in xPath
        invariant FirstCommon(xPath, yPath[j..]) == FirstCommon(xPath, yPath)
      {
        assert yPath[j..][1..] == yPath[j + 1..];
        if visited[yPath[j]] {
          return Some(yPath[j]);
        }
        j := j + 1;
      }
      return None;
    }

    /** augment: flips both paths at their odd positions, matches x with y,
        and resets the forest, the bases and the scanned flags. */
    method Augment(x: nat, y: nat, xPath: seq<nat>, yPath: seq<nat>)
      requires Valid() && x < n && y < n && AllBelow(xPath, n) && AllBelow(yPath, n)
      modifies mu, phi, rho, scanned
      ensures Valid()
      ensures mu[..] == AugmentMu(old(mu[..]), old(phi[..]), xPath, yPath, x, y)
      ensures phi[..] == Identity(n) && rho[..] == Identity(n) && scanned[..] == Unscanned(n)
    {
      ghost var target1 := FlipOdd(mu[..], phi[..], xPath, 0);
      FlipPathInPlace(xPath);
      assert mu[..] == target1;
      ghost var target2 := FlipOdd(mu[..], phi[..], yPath, 0);
      FlipPathInPlace(yPath);
      assert mu[..] == target2;
      mu[x] := y;
      mu[y] := x;
      var v := 0;
      while v < n
        invariant v <= n && Valid()
        invariant mu[..] == AugmentMu(old(mu[..]), old(phi[..]), xPath, yPath, x, y)
        invariant forall i :: 0 <= i < v ==> phi[i] == i && rho[i] == i && !scanned[i]
        invariant forall i :: v <= i < n ==> phi[i] == old(phi[i]) && rho[i] == old(rho[i])
      {
        phi[v] := v;
        rho[v] := v;
        scanned[v] := false;
        v := v + 1;
      }
      assert scanned[..] == Unscanned(n);
    }

    /** One flipping loop of augment over a path. */
    method FlipPathInPlace(path: seq<nat>)
      requires Valid() && AllBelow(path, n)
      modifies mu
      ensures Valid()
      ensures mu[..] == FlipOdd(old(mu[..]), phi[..], path, 0)
    {
      var i := 0;
      while i < |path|
        invariant i <= |path| && Valid()
        invariant FlipOdd(mu[..], phi[..], path, i) == FlipOdd(old(mu[..]), phi[..], path, 0)
      {
        if i % 2 == 1 {
          var nd := path[i];
          ghost var before: seq<nat> := mu[..];
          mu[phi[nd]] := nd;
          mu[nd] := phi[nd];
          assert mu[..] == before[phi[nd] := nd][nd := phi[nd]];
        }
        i := i + 1;
      }
    }

    /** The first node on path that is its own base, as shrink searches it. */
    method FindBase(path: seq<nat>) returns (r: Option<nat>)
      requires Valid() && AllBelow(path, n)
      ensures r == FirstBase(path, rho[..])
    {
      var k := 0;
      while k < |path|
        invariant k <= |path|
        invariant forall j :: 0 <= j < k ==> rho[path[j]] != path[j]
      {
        if rho[path[k]] == path[k] {
          var f := FirstBase(path, rho[..]);
          assert f.Some? && f.value == path[k] by {
            var k' :| 0 <= k' < |path| && path[k'] == f.value && rho[f.value] == f.value
                      && forall j :: 0 <= j < k' ==> rho[path[j]] != path[j];
            assert k' == k;
          }
          return Some(path[k]);
        }
        k := k + 1;
      }
      return None;
    }

    /** One re-pointing loop of shrink: positions of the path, used as node
        ids, up to the first one equal to root. */
    method RepointInPlace(root: nat, len: nat)
      requires Valid() && len <= n
      modifies phi
      ensures Valid()
      ensures phi[..] == Repoint(old(phi[..]), rho[..], root, len, 0)
    {
      var i := 0;
      while i < len && i != root
        invariant i <= len && Valid()
        invariant i == root ==> Repoint(phi[..], rho[..], root, len, i) == phi[..]
        invariant Repoint(phi[..], rho[..], root, len, i) == Repoint(old(phi[..]), rho[..], root, len, 0)
      {
        if !(i % 2 == 0 || rho[phi[i]] == root) {
          ghost var before: seq<nat> := phi[..];
          phi[phi[i]] := i;
          assert phi[..] == before[before[i] := i];
        }
        i := i + 1;
      }
    }

    /** One on_path marking loop of shrink: the nodes of path up to and
        including root are marked, all of them when root is not on it. */
    method MarkUpTo(onPath: array<bool>, path: seq<nat>, root: nat)
      requires Valid() && onPath.Length == n && AllBelow(path, n)
      modifies onPath
      ensures forall k :: 0 <= k < n ==> (onPath[k] <==> old(onPath[k]) || k in UpTo(path, root))
    {
      var i := 0;
      while i < |path|
        invariant i <= |path| && root !in path[..i]
        invariant forall k :: 0 <= k < n ==> (onPath[k] <==> old(onPath[k]) || k in path[..i])
      {
        onPath[path[i]] := true;
        assert path[..i + 1] == path[..i] + [path[i]];
        if path[i] == root {
          UpToSplit(path, root, i);
          assert UpTo(path[i..], root) == [root];
          return;
        }
        i := i + 1;
      }
      assert path[..i] == path && path + [] == path;
      UpToAppend(path, [], root);
    }

    /** The root shrink works with: the first node that is its own base on
        the path traced from the intersection m. */
    method FindRoot(m: nat) returns (r: Result<nat, EdError>)
      requires Valid() && m < n
      ensures r == ShrinkRoot(mu[..], phi[..], rho[..], m)
      ensures r.Success? ==> r.value < n && rho[r.value] == r.value
    {
      var p := GetPath(m);
      if p.Failure? {
        return Failure(p.error);
      }
      TracePathIsTrace(mu[..], phi[..], m);
      var base := FindBase(p.value);
      if base.None? {
        return Failure(NoBlossomBase);
      }
      return Success(base.value);
    }

    /** The attachment updates of shrink: both re-pointing loops, then x
        linked to y and y to x unless their base is already root. */
    method Relink(x: nat, y: nat, root: nat, xLen: nat, yLen: nat)
      requires Valid() && x < n && y < n && xLen <= n && yLen <= n
      modifies phi
      ensures Valid()
      ensures phi[..] == ShrinkPhi(old(phi[..]), rho[..], root, x, y, xLen, yLen)
    {
      RepointInPlace(root, xLen);
      RepointInPlace(root, yLen);
      if rho[x] != root {
        phi[x] := y;
      }
      if rho[y] != root {
        phi[y] := x;
      }
    }

    /** The base updates of shrink: mark the nodes of both paths up to root,
        then move every node whose base is marked into root's blossom. */
    method Rebase(root: nat, xPath: seq<nat>, yPath: seq<nat>)
      requires Valid() && root < n && AllBelow(xPath, n) && AllBelow(yPath, n)
      modifies rho
      ensures Valid()
      ensures rho[..] == EdmondsState.Rebase(old(rho[..]), UpTo(xPath, root) + UpTo(yPath, root), root)
    {
      var onPath := new bool[n](_ => false);
      MarkUpTo(onPath, xPath, root);
      MarkUpTo(onPath, yPath, root);
      ghost var marked := UpTo(xPath, root) + UpTo(yPath, root);
      assert forall k :: 0 <= k < n ==> (onPath[k] <==> k in marked);
      var i := 0;
      while i < n
        modifies rho
        invariant i <= n && Valid()
        invariant forall v :: 0 <= v < i ==> rho[v] == if old(rho[v]) in marked then root else old(rho[v])
        invariant forall v :: i <= v < n ==> rho[v] == old(rho[v])
      {
        assert rho[i] == old(rho[i]) && rho[i] < n;
        if onPath[rho[i]] {
          rho[i] := root;
        }
        i := i + 1;
      }
    }

    /** shrink: finds the root on the path from the intersection m,
        re-points the attachments, links x and y, aborts unless check()
        holds, and re-bases every node whose base was marked. */
    method Shrink(x: nat, y: nat, m: nat, xPath: seq<nat>, yPath: seq<nat>) returns (out: Outcome<EdError>)
      requires Valid() && x < n && y < n && m < n
      requires AllBelow(xPath, n) && AllBelow(yPath, n) && |xPath| <= n && |yPath| <= n
      modifies phi, rho
      ensures Valid()
      ensures Step(out, false, State()) == ShrinkStep(old(State()), x, y, m, xPath, yPath)
      ensures ShrinkRoot(old(mu[..]), old(phi[..]), old(rho[..]), m).Failure? ==>
        out == Fail(ShrinkRoot(old(mu[..]), old(phi[..]), old(rho[..]), m).error)
        && phi[..] == old(phi[..]) && rho[..] == old(rho[..])
      ensures ShrinkRoot(old(mu[..]), old(phi[..]), old(rho[..]), m).Success? ==>
        var root := ShrinkRoot(old(mu[..]), old(phi[..]), old(rho[..]), m).value;
        && root < n && old(rho[root]) == root
        && phi[..] == ShrinkPhi(old(phi[..]), old(rho[..]), root, x, y, |xPath|, |yPath|)
        && (out.Pass? <==> CheckHolds(mu[..], phi[..]))
        && (out.Fail? ==> out.error == CheckFailed && rho[..] == old(rho[..]))
        && (out.Pass? ==> rho[..] == EdmondsState.Rebase(old(rho[..]), UpTo(xPath, root) + UpTo(yPath, root), root))
    {
      var found := FindRoot(m);
      if found.Failure? {
        return Fail(found.error);
      }
      var root := found.value;
      Relink(x, y, root, |xPath|, |yPath|);
      var ok := Check();
      if !ok {
        return Fail(CheckFailed);
      }
      Rebase(root, xPath, yPath);
      ok := Check();
      assert ok;
      return Pass;
    }


    /** The body of scan_node's loop for the neighbour nb of x: grow at a
        neighbour out of the forest; nothing at an inner one or one in x's
        blossom; otherwise trace both paths and augment when they are
        disjoint, shrink when they meet. */
    method ExamineNeighbor(x: nat, nb: nat) returns (out: Outcome<EdError>, augmented: bool)
      requires Valid() && x < n && nb < n
      modifies mu, phi, rho, scanned
      ensures Valid()
      ensures Step(out, augmented, State()) == Examine(old(State()), x, nb)
    {
      var t := Classify(mu[..], phi[..], nb);
      if t == OutOfForest {
        phi[nb] := x;
        return Pass, false;
      }
      if !(t == Outer && rho[x] != rho[nb]) {
        return Pass, false;
      }
      var xp := GetPath(x);
      if xp.Failure? {
        return Fail(xp.error), false;
      }
      var yp := GetPath(nb);
      if yp.Failure? {
        return Fail(yp.error), false;
      }
      TracePathIsTrace(mu[..], phi[..], x);
      TracePathIsTrace(mu[..], phi[..], nb);
      var inter := GetIntersection(xp.value, yp.value);
      if inter.None? {
        Augment(x, nb, xp.value, yp.value);
        return Pass, true;
      }
      out := Shrink(x, nb, inter.value, xp.value, yp.value);
      return out, false;
    }

    /** scan_node: asserts check(), visits the neighbours of x in order,
        stops at the first augmentation (leaving x unscanned) or abort, and
        marks x scanned after a full pass. */
    method ScanNode(x: nat) returns (out: Outcome<EdError>, augmented: bool)
      requires Valid() && x < n
      modifies mu, phi, rho, scanned
      ensures Valid()
      ensures Step(out, augmented, State()) == Scan(old(State()), adj[x], x)
    {
      var ok := Check();
      if !ok {
        return Fail(CheckFailed), false;
      }
      ghost var s0 := State();
      var idx := 0;
      while idx < |adj[x]|
        invariant idx <= |adj[x]| && Valid()
        invariant ScanFrom(State(), adj[x], x, idx) == Scan(s0, adj[x], x)
      {
        out, augmented := ExamineNeighbor(x, adj[x][idx]);
        if augmented || out.Fail? {
          return;
        }
        idx := idx + 1;
      }
      ghost var before := scanned[..];
      scanned[x] := true;
      assert scanned[..] == before[x := true];
      return Pass, false;
    }

    /** The lowest-numbered node that is outer and not yet scanned. */
    method FirstUnscannedOuter() returns (r: Option<nat>)
      requires Valid()
      ensures r == NextToScan(State(), 0)
    {
      var i := 0;
      while i < n
        invariant i <= n
        invariant NextToScan(State(), i) == NextToScan(State(), 0)
      {
        if Classify(mu[..], phi[..], i) == Outer && !scanned[i] {
          return Some(i);
        }
        i := i + 1;
      }
      return None;
    }

    /** The reset at the start of run: every node becomes its own partner,
        attachment and base; the scanned flags are kept. */
    method Reset()
      requires Valid()
      modifies mu, phi, rho
      ensures Valid()
      ensures State() == Forest(Identity(n), Identity(n), Identity(n), old(scanned[..]))
    {
      var i := 0;
      while i < n
        invariant i <= n && Valid()
        invariant forall k :: 0 <= k < i ==> mu[k] == k && phi[k] == k && rho[k] == k
      {
        mu[i] := i;
        phi[i] := i;
        rho[i] := i;
        i := i + 1;
      }
      assert mu[..] == Identity(n) && phi[..] == Identity(n) && rho[..] == Identity(n);
    }

    /** One turn of run's loop: pick the lowest unscanned outer node and
        scan it; done when there is none, when the scan aborts, or when an
        augmentation exceeds the budget. */
    method RunTurn(budget: nat) returns (done: bool, out: Outcome<EdError>, budget': nat)
      requires Valid()
      modifies mu, phi, rho, scanned
      ensures Valid()
      ensures done ==> (out, State()) == RunLoop(old(State()), adj, budget)
      ensures !done ==> RunLoop(State(), adj, budget') == RunLoop(old(State()), adj, budget)
      ensures !done ==> budget' < budget || (budget' == budget && CountTrue(scanned[..]) == CountTrue(old(scanned[..])) + 1)
    {
      ghost var before := State();
      var next := FirstUnscannedOuter();
      if next.None? {
        RunLoopDone(before, adj, budget);
        return true, Pass, budget;
      }
      var x := next.value;
      var augmented;
      out, augmented := ScanNode(x);
      var t := Turn(out, augmented, budget);
      RunLoopTurn(before, adj, budget, x, Step(out, augmented, State()), t);
      done, out, budget' := t.0, t.1, t.2;
    }

    /** run: resets partners, attachments and bases, then scans the lowest
        unscanned outer node until there is none. At most fuel augmentations
        are allowed. */
    method Run(fuel: nat) returns (out: Outcome<EdError>)
      requires Valid()
      modifies mu, phi, rho, scanned
      ensures Valid()
      ensures (out, State()) == RunLoop(Forest(Identity(n), Identity(n), Identity(n), old(scanned[..])), adj, fuel)
      ensures out.Pass? ==> forall v :: 0 <= v < n ==> Classify(mu[..], phi[..], v) == Outer ==> scanned[v]
      ensures BasesCanonical(rho[..])
    {
      Reset();
      ghost var s0 := State();
      RunLoopKeeps(s0, adj, fuel);
      var budget := fuel;
      while true
        invariant Valid() && RunLoop(State(), adj, budget) == RunLoop(s0, adj, fuel)
        decreases budget, n - CountTrue(scanned[..])
      {
        var done;
        done, out, budget := RunTurn(budget);
        if done {
          return;
        }
      }
    }

    /** populate: the pair (v, mu[v]) for every node v whose partner is
        smaller, in increasing order of v. */
    method Populate() returns (edges: seq<(nat, nat)>)
      requires Valid()
      ensures edges == Populated(mu[..])
      ensures PopulatedFrom(mu[..], edges)
    {
      edges := [];
      var v := 0;
      while v < n
        invariant v <= n
        invariant edges == PopulatedBelow(mu[..], v)
      {
        var other := mu[v];
        if other < v {
          edges := edges + [(v, other)];
        }
        v := v + 1;
      }
      PopulatedIsPopulatedFrom(mu[..]);
    }
  }

  /** get_matching: runs the matcher on an n-node graph and returns the edges
      (v, mu[v]) of the final partner vector; fails when the run aborts or a
      node of the result has degree above one, which cannot happen when the
      final partner vector is a matching. */
  method GetMatching(g: seq<seq<nat>>) returns (r: Result<seq<(nat, nat)>, EdError>)
    requires IsAdjacency(g, |g|)
    ensures Search(g).0.Fail? ==> r == Failure(Search(g).0.error)
    ensures Search(g).0.Pass? && IsMatching(Search(g).1.mu) ==> r.Success?
    ensures r.Success? ==> Search(g).0.Pass? && PopulatedFrom(Search(g).1.mu, r.value)
    ensures r.Success? ==> forall v :: 0 <= v < |g| ==> Degree(r.value, v) <= 1
    ensures Search(g).0.Pass? ==>
      (r.Success? <==> forall v :: 0 <= v < |g| ==> Degree(Populated(Search(g).1.mu), v) <= 1)
    ensures Search(g).0.Pass? && r.Success? ==> r.value == Populated(Search(g).1.mu)
    ensures Search(g).0.Pass? && r.Failure? ==> r.error == NotAMatching
  {
    var matcher := new EdmondsMatching(g);
    ghost var res := Search(g);
    assert matcher.scanned[..] == Unscanned(|g|);
    assert Forest(Identity(|g|), Identity(|g|), Identity(|g|), matcher.scanned[..]) == Initial(|g|);
    var out := matcher.Run(|g|);
    assert (out, matcher.State()) == res;
    if out.Fail? {
      return Failure(out.error);
    }
    var edges := matcher.Populate();
    if IsMatching(matcher.mu[..]) {
      PopulatedMatchingDegrees(matcher.mu[..], edges);
    }
    var ok := DegreesAtMostOne(edges, |g|);
    if !ok {
      return Failure(NotAMatching);
    }
    return Success(edges);
  }

  /** The check get_matching runs on the populated graph: true exactly when
      no node below n has degree above one. */
  method DegreesAtMostOne(edges: seq<(nat, nat)>, n: nat) returns (ok: bool)
    ensures ok <==> forall v :: 0 <= v < n ==> Degree(edges, v) <= 1
  {
    for i := 0 to n
      invariant forall v :: 0 <= v < i ==> Degree(edges, v) <= 1
    {
      if Degree(edges, i) > 1 {
        assert exists v :: 0 <= v < n && Degree(edges, v) > 1;
        return false;
      }
    }
    return true;
  }
}
