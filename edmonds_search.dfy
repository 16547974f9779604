/** The search of prog1/edmonds.cpp as a state machine over snapshots of the
    four node-indexed vectors: one examination of a neighbour (grow, nothing,
    augment or shrink), the scan of one outer node over its neighbour list,
    and the run loop that scans the lowest unscanned outer node until there
    is none. The class in edmonds.dfy is proved to follow these functions
    step by step; the lemmas here state what each step preserves. */
module EdmondsSearch {
  import opened Wrappers
  import opened EdmondsState
  import opened Flags

  /** The vectors _mu, _phi, _rho and scanned of EdmondsMatching. */
  datatype Forest = Forest(mu: seq<nat>, phi: seq<nat>, rho: seq<nat>, scanned: seq<bool>)

  /** What a step reports (an abort, and whether it augmented) and leaves. */
  datatype Step = Step(out: Outcome<EdError>, augmented: bool, state: Forest)

  /** All four vectors have one entry per node, and the three maps name nodes. */
  predicate WellFormed(s: Forest) {
    && IsNodeMap(s.mu, |s.mu|) && IsNodeMap(s.phi, |s.mu|) && IsNodeMap(s.rho, |s.mu|)
    && |s.scanned| == |s.mu|
  }

  function Unscanned(n: nat): (r: seq<bool>)
    ensures |r| == n && forall v :: 0 <= v < n ==> !r[v]
  {
    seq(n, _ => false)
  }

  /** The state the constructor and run's reset leave: every node its own
      partner, attachment and base, and nothing scanned. */
  function Initial(n: nat): (s: Forest)
    ensures WellFormed(s) && |s.mu| == n
  {
    Forest(Identity(n), Identity(n), Identity(n), Unscanned(n))
  }

  /** get_intersection: the first node of yPath that also lies on xPath. */
  function FirstCommon(xPath: seq<nat>, yPath: seq<nat>): (r: Option<nat>)
    ensures r.None? <==> forall k :: 0 <= k < |yPath| ==> yPath[k] !in xPath
    ensures r.Some? ==> exists k :: 0 <= k < |yPath| && yPath[k] == r.value && r.value in xPath
                          && forall j :: 0 <= j < k ==> yPath[j] !in xPath
  {
    if yPath == [] then None
    else if yPath[0] in xPath then Some(yPath[0])
    else
      var r := FirstCommon(xPath, yPath[1..]);
      if r.Some? then
        var k :| 0 <= k < |yPath| - 1 && yPath[1..][k] == r.value && r.value in xPath
                 && forall j :: 0 <= j < k ==> yPath[1..][j] !in xPath;
        assert yPath[k + 1] == r.value;
        assert forall j :: 0 <= j < k + 1 ==> yPath[j] !in xPath by {
          forall j | 0 <= j < k + 1 ensures yPath[j] !in xPath {
            if j > 0 { assert yPath[j] == yPath[1..][j - 1]; }
          }
        }
        r
      else
        assert forall k :: 0 <= k < |yPath| ==> yPath[k] !in xPath by {
          forall k | 0 <= k < |yPath| ensures yPath[k] !in xPath {
            if k > 0 { assert yPath[k] == yPath[1..][k - 1]; }
          }
        }
        r
  }

  /** shrink succeeds only with a root that is a node and its own base. */
  lemma ShrinkRootIsBase(mu: seq<nat>, phi: seq<nat>, rho: seq<nat>, m: nat)
    requires IsNodeMap(mu, |mu|) && IsNodeMap(phi, |mu|) && |rho| == |mu| && m < |mu|
    ensures ShrinkRoot(mu, phi, rho, m).Success? ==>
      ShrinkRoot(mu, phi, rho, m).value < |mu| && rho[ShrinkRoot(mu, phi, rho, m).value] == ShrinkRoot(mu, phi, rho, m).value
  {
    TracePathIsTrace(mu, phi, m);
  }

  /** shrink(x, y, m, xPath, yPath) on a snapshot: no root means an abort
      with nothing changed; otherwise the attachments are relinked, check()
      decides between an abort and re-basing the marked blossoms onto root. */
  function ShrinkStep(s: Forest, x: nat, y: nat, m: nat, xPath: seq<nat>, yPath: seq<nat>): (r: Step)
    requires WellFormed(s) && x < |s.mu| && y < |s.mu| && m < |s.mu|
    requires |xPath| <= |s.mu| && |yPath| <= |s.mu|
    ensures WellFormed(r.state) && |r.state.mu| == |s.mu|
  {
    ShrinkRootIsBase(s.mu, s.phi, s.rho, m);
    match ShrinkRoot(s.mu, s.phi, s.rho, m)
    case Failure(e) => Step(Fail(e), false, s)
    case Success(root) =>
      var phi2 := ShrinkPhi(s.phi, s.rho, root, x, y, |xPath|, |yPath|);
      if !CheckHolds(s.mu, phi2) then Step(Fail(CheckFailed), false, s.(phi := phi2))
      else Step(Pass, false, s.(phi := phi2, rho := Rebase(s.rho, UpTo(xPath, root) + UpTo(yPath, root), root)))
  }

  /** One turn of scan_node's loop: the node x looks at its neighbour nb. */
  function Examine(s: Forest, x: nat, nb: nat): (r: Step)
    requires WellFormed(s) && x < |s.mu| && nb < |s.mu|
    ensures WellFormed(r.state) && |r.state.mu| == |s.mu|
  {
    var n := |s.mu|;
    var t := Classify(s.mu, s.phi, nb);
    if t == OutOfForest then Step(Pass, false, s.(phi := s.phi[nb := x]))
    else if !(t == Outer && s.rho[x] != s.rho[nb]) then Step(Pass, false, s)
    else
      var xp := TracePath(s.mu, s.phi, x);
      var yp := TracePath(s.mu, s.phi, nb);
      if xp.Failure? then Step(Fail(xp.error), false, s)
      else if yp.Failure? then Step(Fail(yp.error), false, s)
      else
        TracePathIsTrace(s.mu, s.phi, x);
        TracePathIsTrace(s.mu, s.phi, nb);
        match FirstCommon(xp.value, yp.value)
        case None =>
          Step(Pass, true, Forest(AugmentMu(s.mu, s.phi, xp.value, yp.value, x, nb), Identity(n), Identity(n), Unscanned(n)))
        case Some(m) => ShrinkStep(s, x, nb, m, xp.value, yp.value)
  }

  /** scan_node's loop from position idx of the neighbour list on: it stops
      at an augmentation or an abort, and marks x scanned after a full pass. */
  function ScanFrom(s: Forest, nbs: seq<nat>, x: nat, idx: nat): (r: Step)
    requires WellFormed(s) && x < |s.mu| && AllBelow(nbs, |s.mu|) && idx <= |nbs|
    ensures WellFormed(r.state) && |r.state.mu| == |s.mu|
    decreases |nbs| - idx
  {
    if idx == |nbs| then Step(Pass, false, s.(scanned := s.scanned[x := true]))
    else
      var r := Examine(s, x, nbs[idx]);
      if r.augmented || r.out.Fail? then r else ScanFrom(r.state, nbs, x, idx + 1)
  }

  /** scan_node(x): asserts check(), then runs the loop over x's neighbours. */
  function Scan(s: Forest, nbs: seq<nat>, x: nat): (r: Step)
    requires WellFormed(s) && x < |s.mu| && AllBelow(nbs, |s.mu|)
    ensures WellFormed(r.state) && |r.state.mu| == |s.mu|
  {
    if !CheckHolds(s.mu, s.phi) then Step(Fail(CheckFailed), false, s) else ScanFrom(s, nbs, x, 0)
  }

  /** The lowest node from `from` on that is outer and not scanned. */
  function NextToScan(s: Forest, from: nat): (r: Option<nat>)
    requires WellFormed(s) && from <= |s.mu|
    ensures r.Some? ==> from <= r.value < |s.mu| && Classify(s.mu, s.phi, r.value) == Outer && !s.scanned[r.value]
    ensures r.Some? ==> forall v :: from <= v < r.value ==> Classify(s.mu, s.phi, v) != Outer || s.scanned[v]
    ensures r.None? <==> forall v :: from <= v < |s.mu| ==> Classify(s.mu, s.phi, v) != Outer || s.scanned[v]
    decreases |s.mu| - from
  {
    if from == |s.mu| then None
    else if Classify(s.mu, s.phi, from) == Outer && !s.scanned[from] then Some(from)
    else NextToScan(s, from + 1)
  }

  /** A scan that neither augments nor aborts marks x scanned and changes
      no partner. */
  lemma {:induction false} ScanFromMarks(s: Forest, nbs: seq<nat>, x: nat, idx: nat)
    requires WellFormed(s) && x < |s.mu| && AllBelow(nbs, |s.mu|) && idx <= |nbs|
    ensures var r := ScanFrom(s, nbs, x, idx);
      !r.augmented ==>
        && r.state.mu == s.mu
        && r.state.scanned == if r.out.Pass? then s.scanned[x := true] else s.scanned
    decreases |nbs| - idx
  {
    if idx < |nbs| {
      var r := Examine(s, x, nbs[idx]);
      if !(r.augmented || r.out.Fail?) {
        ScanFromMarks(r.state, nbs, x, idx + 1);
      }
    }
  }

  /** How a turn of run's loop goes on after scanning: whether the run is
      over, its outcome, and the budget left. */
  function Turn(out: Outcome<EdError>, augmented: bool, budget: nat): (bool, Outcome<EdError>, nat) {
    if out.Fail? then (true, out, budget)
    else if augmented then
      if budget == 0 then (true, Fail(OutOfFuel), budget) else (false, out, budget - 1)
    else (false, out, budget)
  }

  /** run's loop, with at most budget augmentations: the lowest unscanned
      outer node is scanned until there is none. */
  function RunLoop(s: Forest, adj: seq<seq<nat>>, budget: nat): (r: (Outcome<EdError>, Forest))
    requires WellFormed(s) && IsAdjacency(adj, |s.mu|)
    ensures WellFormed(r.1) && |r.1.mu| == |s.mu|
    decreases budget, |s.mu| - CountTrue(s.scanned)
  {
    match NextToScan(s, 0)
    case None => (Pass, s)
    case Some(x) =>
      var r := Scan(s, adj[x], x);
      var t := Turn(r.out, r.augmented, budget);
      if t.0 then (t.1, r.state)
      else
        ScanFromMarks(s, adj[x], x, 0);
        CountTrueSet(s.scanned, x);
        RunLoop(r.state, adj, t.2)
  }

  /** With no unscanned outer node, run's loop stops at once and passes. */
  lemma RunLoopDone(s: Forest, adj: seq<seq<nat>>, budget: nat)
    requires WellFormed(s) && IsAdjacency(adj, |s.mu|) && NextToScan(s, 0).None?
    ensures RunLoop(s, adj, budget) == (Pass, s)
  {
  }

  /** A turn that scans x either ends the run with RunLoop's result or
      leaves a state from which RunLoop, with the budget left, gives the same
      result; it then has used up one augmentation or scanned one more node. */
  lemma RunLoopTurn(s: Forest, adj: seq<seq<nat>>, budget: nat, x: nat, r: Step, t: (bool, Outcome<EdError>, nat))
    requires WellFormed(s) && IsAdjacency(adj, |s.mu|) && NextToScan(s, 0) == Some(x)
    requires r == Scan(s, adj[x], x) && t == Turn(r.out, r.augmented, budget)
    ensures t.0 ==> (t.1, r.state) == RunLoop(s, adj, budget)
    ensures !t.0 ==> RunLoop(r.state, adj, t.2) == RunLoop(s, adj, budget)
    ensures !t.0 ==> t.2 < budget || (t.2 == budget && CountTrue(r.state.scanned) == CountTrue(s.scanned) + 1)
  {
    if !t.0 && !r.augmented {
      ScanFromMarks(s, adj[x], x, 0);
      CountTrueSet(s.scanned, x);
    }
  }

  /** get_matching's search on an n-node graph: the state after the
      constructor, run with at most n augmentations. */
  function Search(adj: seq<seq<nat>>): (r: (Outcome<EdError>, Forest))
    requires IsAdjacency(adj, |adj|)
    ensures WellFormed(r.1) && |r.1.mu| == |adj|
  {
    RunLoop(Initial(|adj|), adj, |adj|)
  }

  // ---------------------------------------------------------------------
  // What the steps preserve

  lemma KeptTransitive(a: seq<nat>, b: seq<nat>, c: seq<nat>)
    requires |b| == |a| && |c| == |a| && AttachmentsKept(a, b) && AttachmentsKept(b, c)
    ensures AttachmentsKept(a, c)
  {
  }

  /** shrink detaches no node, keeps an outer x outer and keeps every base
      canonical; it changes no partner and no scanned flag. */
  lemma ShrinkStepKeeps(s: Forest, x: nat, y: nat, m: nat, xPath: seq<nat>, yPath: seq<nat>)
    requires WellFormed(s) && x < |s.mu| && y < |s.mu| && m < |s.mu| && x != y
    requires |xPath| <= |s.mu| && |yPath| <= |s.mu|
    ensures var r := ShrinkStep(s, x, y, m, xPath, yPath);
      && !r.augmented && r.state.mu == s.mu && r.state.scanned == s.scanned
      && AttachmentsKept(s.phi, r.state.phi)
      && (Classify(s.mu, s.phi, x) == Outer ==> Classify(r.state.mu, r.state.phi, x) == Outer)
      && (BasesCanonical(s.rho) ==> BasesCanonical(r.state.rho))
      && (r.out.Pass? ==> CheckHolds(r.state.mu, r.state.phi))
  {
    var r := ShrinkStep(s, x, y, m, xPath, yPath);
    ShrinkRootIsBase(s.mu, s.phi, s.rho, m);
    if ShrinkRoot(s.mu, s.phi, s.rho, m).Success? {
      var root := ShrinkRoot(s.mu, s.phi, s.rho, m).value;
      ShrinkKeepsAttachments(s.phi, s.rho, root, x, y, |xPath|, |yPath|);
      if r.out.Pass? && BasesCanonical(s.rho) {
        RebaseKeepsBasesCanonical(s.rho, UpTo(xPath, root) + UpTo(yPath, root), root);
      }
    }
    OuterIsStable(s.mu, s.phi, r.state.phi, x);
  }

  /** The outer-neighbour case of scan_node (prog1/edmonds.cpp:270-293): a
      failing get_path aborts with its error and changes nothing; disjoint
      paths augment, matching x with nb; paths that meet shrink at their
      first common node. */
  lemma ExamineOuter(s: Forest, x: nat, nb: nat)
    requires WellFormed(s) && x < |s.mu| && nb < |s.mu|
    requires Classify(s.mu, s.phi, nb) == Outer && s.rho[x] != s.rho[nb]
    ensures var r := Examine(s, x, nb);
      var xp := TracePath(s.mu, s.phi, x);
      var yp := TracePath(s.mu, s.phi, nb);
      && (xp.Failure? ==> r == Step(Fail(xp.error), false, s))
      && (xp.Success? && yp.Failure? ==> r == Step(Fail(yp.error), false, s))
      && (xp.Success? && yp.Success? ==>
            && (r.augmented <==> forall a, b :: 0 <= a < |xp.value| && 0 <= b < |yp.value| ==> xp.value[a] != yp.value[b])
            && (r.augmented ==>
                  && r.out == Pass && r.state.mu[x] == nb && r.state.mu[nb] == x
                  && r.state.mu == AugmentMu(s.mu, s.phi, xp.value, yp.value, x, nb)
                  && r.state == Initial(|s.mu|).(mu := r.state.mu))
            && (!r.augmented ==>
                  var m := FirstCommon(xp.value, yp.value).value;
                  && m in xp.value && m in yp.value
                  && r == ShrinkStep(s, x, nb, m, xp.value, yp.value)))
  {
    var xp := TracePath(s.mu, s.phi, x);
    var yp := TracePath(s.mu, s.phi, nb);
    if xp.Success? && yp.Success? {
      var f := FirstCommon(xp.value, yp.value);
      if f.Some? {
        var k :| 0 <= k < |yp.value| && yp.value[k] == f.value && f.value in xp.value;
        var a :| 0 <= a < |xp.value| && xp.value[a] == f.value;
        assert xp.value[a] == yp.value[k];
      } else {
        forall a, b | 0 <= a < |xp.value| && 0 <= b < |yp.value|
          ensures xp.value[a] != yp.value[b]
        {
          assert yp.value[b] !in xp.value;
        }
      }
    }
  }

  /** What one examination keeps: an augmentation matches x with the
      neighbour and resets the forest; otherwise partners and scanned flags
      stay, no node is detached, an outer x stays outer and canonical bases
      stay canonical. */
  lemma ExamineKeeps(s: Forest, x: nat, nb: nat)
    requires WellFormed(s) && x < |s.mu| && nb < |s.mu| && Classify(s.mu, s.phi, x) == Outer
    ensures var r := Examine(s, x, nb);
      && (r.augmented ==>
            && r.out == Pass && nb != x && r.state.mu[x] == nb && r.state.mu[nb] == x
            && r.state == Initial(|s.mu|).(mu := r.state.mu))
      && (!r.augmented ==>
            && r.state.mu == s.mu && r.state.scanned == s.scanned
            && AttachmentsKept(s.phi, r.state.phi)
            && Classify(r.state.mu, r.state.phi, x) == Outer
            && (BasesCanonical(s.rho) ==> BasesCanonical(r.state.rho)))
      && (Classify(s.mu, s.phi, nb) == OutOfForest ==>
            r == Step(Pass, false, s.(phi := s.phi[nb := x])))
      && (Classify(s.mu, s.phi, nb) == Inner || (Classify(s.mu, s.phi, nb) == Outer && s.rho[x] == s.rho[nb]) ==>
            r == Step(Pass, false, s))
  {
    var r := Examine(s, x, nb);
    var t := Classify(s.mu, s.phi, nb);
    if t == OutOfForest {
      assert AttachmentsKept(s.phi, s.phi[nb := x]);
      OuterIsStable(s.mu, s.phi, s.phi[nb := x], x);
    } else if t == Outer && s.rho[x] != s.rho[nb] {
      ExamineOuter(s, x, nb);
      var xp := TracePath(s.mu, s.phi, x);
      var yp := TracePath(s.mu, s.phi, nb);
      if xp.Success? && yp.Success? && !r.augmented {
        TracePathIsTrace(s.mu, s.phi, x);
        var m := FirstCommon(xp.value, yp.value).value;
        var a :| 0 <= a < |xp.value| && xp.value[a] == m;
        ShrinkStepKeeps(s, x, nb, m, xp.value, yp.value);
      }
    }
  }

  /** Both paths get_path traces for an examination run along the matching
      and the forest to an unmatched root. */
  predicate TracesAlternate(s: Forest, x: nat, nb: nat)
    requires WellFormed(s) && x < |s.mu| && nb < |s.mu|
  {
    var xp := TracePath(s.mu, s.phi, x);
    var yp := TracePath(s.mu, s.phi, nb);
    xp.Success? && yp.Success? ==>
      IsAlternatingToRoot(s.mu, s.phi, xp.value) && IsAlternatingToRoot(s.mu, s.phi, yp.value)
  }

  /** When the traced paths alternate to unmatched roots, an examination
      keeps the partners a matching, and an augmentation keeps every matched
      node matched while matching x and the neighbour. */
  lemma ExamineKeepsMatching(s: Forest, x: nat, nb: nat)
    requires WellFormed(s) && x < |s.mu| && nb < |s.mu| && IsMatching(s.mu)
    requires TracesAlternate(s, x, nb)
    ensures var r := Examine(s, x, nb);
      && IsMatching(r.state.mu)
      && (r.augmented ==>
            && r.state.mu[x] == nb && r.state.mu[nb] == x
            && forall w :: 0 <= w < |s.mu| && s.mu[w] != w ==> r.state.mu[w] != w)
  {
    var r := Examine(s, x, nb);
    var t := Classify(s.mu, s.phi, nb);
    if t == Outer && s.rho[x] != s.rho[nb] {
      ExamineOuter(s, x, nb);
      var xp := TracePath(s.mu, s.phi, x);
      var yp := TracePath(s.mu, s.phi, nb);
      if xp.Success? && yp.Success? && r.augmented {
        TracePathIsTrace(s.mu, s.phi, x);
        TracePathIsTrace(s.mu, s.phi, nb);
        AugmentKeepsMatching(s.mu, s.phi, xp.value, yp.value);
      }
    }
  }

  /** What a scan from position idx keeps, for an outer x: an augmentation
      matches x with one of its neighbours and resets the forest; otherwise
      partners stay, no node is detached, x stays outer, canonical bases stay
      canonical, and x is marked scanned exactly when the pass completed. */
  lemma {:induction false} ScanFromKeeps(s: Forest, nbs: seq<nat>, x: nat, idx: nat)
    requires WellFormed(s) && x < |s.mu| && AllBelow(nbs, |s.mu|) && idx <= |nbs|
    requires Classify(s.mu, s.phi, x) == Outer
    ensures var r := ScanFrom(s, nbs, x, idx);
      && (r.augmented ==>
            && r.out == Pass && r.state.mu[x] in nbs[idx..] && r.state.mu[x] != x && r.state.mu[r.state.mu[x]] == x
            && r.state == Initial(|s.mu|).(mu := r.state.mu))
      && (!r.augmented ==>
            && r.state.mu == s.mu
            && AttachmentsKept(s.phi, r.state.phi)
            && Classify(r.state.mu, r.state.phi, x) == Outer
            && (BasesCanonical(s.rho) ==> BasesCanonical(r.state.rho))
            && r.state.scanned == if r.out.Pass? then s.scanned[x := true] else s.scanned)
    decreases |nbs| - idx
  {
    if idx < |nbs| {
      var r := Examine(s, x, nbs[idx]);
      ExamineKeeps(s, x, nbs[idx]);
      if !(r.augmented || r.out.Fail?) {
        ScanFromKeeps(r.state, nbs, x, idx + 1);
        var r2 := ScanFrom(r.state, nbs, x, idx + 1);
        if !r2.augmented {
          KeptTransitive(s.phi, r.state.phi, r2.state.phi);
        } else {
          assert nbs[idx + 1..] == nbs[idx..][1..];
        }
      }
    }
  }

  /** After a run, every outer node is scanned unless the run aborted, and
      bases that started canonical end canonical. */
  lemma {:induction false} RunLoopKeeps(s: Forest, adj: seq<seq<nat>>, budget: nat)
    requires WellFormed(s) && IsAdjacency(adj, |s.mu|)
    ensures var r := RunLoop(s, adj, budget);
      && (r.0.Pass? ==> forall v :: 0 <= v < |s.mu| ==> Classify(r.1.mu, r.1.phi, v) == Outer ==> r.1.scanned[v])
      && (BasesCanonical(s.rho) ==> BasesCanonical(r.1.rho))
    decreases budget, |s.mu| - CountTrue(s.scanned)
  {
    var next := NextToScan(s, 0);
    if next.Some? {
      var x := next.value;
      var r := Scan(s, adj[x], x);
      if CheckHolds(s.mu, s.phi) {
        ScanFromKeeps(s, adj[x], x, 0);
      }
      if r.out.Fail? {
      } else if r.augmented {
        assert BasesCanonical(r.state.rho);
        if budget > 0 {
          RunLoopKeeps(r.state, adj, budget - 1);
        }
      } else {
        CountTrueSet(s.scanned, x);
        RunLoopKeeps(r.state, adj, budget);
      }
    }
  }
}
