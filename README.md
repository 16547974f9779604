# Matching, T-join and cycle helpers of combo, modelled in Dafny

This project models the integer graph code of the combo repository. It has
three parts.

- **prog1: Edmonds' blossom matcher** (`EdmondsState`, `EdmondsSearch`, `Edmonds`).
  - `EdmondsMatching` keeps four node-indexed vectors: `_mu` (match partner), `_phi` (forest attachment), `_rho` (blossom base) and `scanned`.
  - Node classification (`get_type`), path tracing (`get_path`) and path intersection are modelled, with the grow, `augment` and `shrink` updates.
  - The `scan_node`/`run` loop and the extraction of the result (`populate`, `get_matching`) are modelled too.
  - `Edmonds` holds the vectors as array fields and updates them in place.
  - `EdmondsSearch` states the search as a state machine over snapshots of the four vectors: `Examine` (one neighbour), `Scan` (`scan_node`), `RunLoop` (`run`'s loop) and `Search` (what `get_matching` runs).
  - Each method of the search is proved to leave exactly the state and outcome that these functions give for the old state. What a step preserves is proved as lemmas about the functions.
  - The helpers (`get_path`, `augment`, `shrink`, `populate`) are specified through the pure functions of `EdmondsState`.
- **prog2: the graph store** (`MmwcGraph`).
  - An undirected loop-free multigraph: an edge vector, and per node the list of its incident edge ids.
  - `add_edge` with its error cases, `Edge::other`, and the bounds-checked accessors.
  - The 1-based to 0-based conversions of DIMACS ids and back.
- **prog2: the T-join and mean-cycle helpers** (`TJoin`, `Mwc`).
  - The O(n²) Dijkstra `compute_shortest_paths`, and `all_pairs_shortest_paths`.
  - The Floyd-Warshall metric closure `asp`, and the parity test `odd_neg_deg`.
  - The toggling edge collection `collect_used_edges`.
  - The `MinMeanWeightCycle` constructor's capacity adjustment, `adjusted_cap`, and the cycle test `has_circle`.

Shared modules: `Wrappers` holds the `Option`, `Result` and `Outcome` types. Thrown exceptions and aborting asserts become their failure cases. `Flags` counts the set entries of a flag vector, the measure by which the scan loops progress.

The model follows the code as written, including the places where it departs from the textbook algorithm.

- **`get_path` and `shrink`'s root.**
  - `get_path` walks `mu` and `phi` alternately from an outer node until a step yields the same node. It throws once the path outgrows the node count.
  - `shrink` takes as its root the first node that is its own base on `get_path(intersection)`.
- **Shrink's re-pointing loops** use the position `i` in the path as a node id. They read `_phi[i]`, write `_phi[_phi[i]] = i`, and stop at `i == root`. `Repoint` models exactly that.
  - What is proved about them is that they never detach a node. So no outer node stops being outer, and `scan_node` keeps its own node outer.
  - Re-basing keeps every base its own base.
  - When `check()` fails after a shrink, the model returns the `CheckFailed` error instead of aborting.
- **`matching_edge(v, u)`** tests `u == _phi[v]`, not the partner. So it implies `forest_edge`.
- **`asp`** moves the closure row of every entry of `_odd_nodes` into `_shortest_paths`, including entries appended by earlier calls.
  - A node listed twice, for instance after an earlier `all_pairs_shortest_paths`, gets its row only the first time. The second time it gets the moved-from row, which the model takes to be empty.
  - So every appended row is a closure row only when `_odd_nodes` starts out empty.
- **The mean-cycle constructor** starts its `std::min` fold at `min_capacity`.
  - The adjustment is therefore always `min_capacity`, and `adjusted_cap(e)` is `cap + 2^31`.
  - That exceeds the range of `capacity` whenever `cap >= 0`. The model computes it in unbounded integers and proves both facts.
- **`has_circle`** starts every parent at `invalid_node_id`, then skips each node whose parent is `invalid_node_id`. It therefore never starts a search and returns false for every graph; `HasCircle` proves that.
  - The search body (lines 17-42) is modelled on its own as `Dfs` and `ExpandNode`, from a root that has a parent.
  - Scanning one node finds a node already reached exactly when some neighbour, other than the node's own parent, either had a parent already or occurs earlier in the incidence list.
  - Parallel edges to the node's own parent are all skipped.

## Model

| member | source | states |
|---|---|---|
| EdmondsState.Classify | prog1/edmonds.cpp:49-62 | defines get_type: outer when unmatched or when the partner is attached, otherwise out of the forest while unattached, else inner; its properties are the lemmas below |
| EdmondsState.ForestEdge | prog1/edmonds.cpp:64-67 | defines forest_edge: u is v's partner, v is u's partner, or u is v's attachment |
| EdmondsState.MatchingEdge | prog1/edmonds.cpp:69-72 | defines matching_edge as written: u is v's attachment |
| EdmondsState.CheckHolds | prog1/edmonds.cpp:6-16 | defines check(): no node is attached to a partner other than itself; GrowEffect states that growing keeps it, and Edmonds.EdmondsMatching.Check computes it |
| EdmondsState.InitialNodesAreOuter | prog1/edmonds.hpp:29-34 | with every partner and attachment reset to the node itself, get_type classifies every node outer |
| EdmondsState.MatchingEdgeIsForestEdge | prog1/edmonds.cpp:64-72 | matching_edge, which tests the attachment and not the partner, implies forest_edge |
| EdmondsState.OuterIsStable | prog1/edmonds.cpp:49-62 | while the partners stay the same, attaching more nodes never turns an outer node into an inner or out-of-forest one |
| EdmondsState.GrowEffect | prog1/edmonds.cpp:263-269 | the grow step attaching an out-of-forest neighbour y to outer x makes y inner and y's partner outer, keeps x outer, and keeps check() true |
| EdmondsState.Walk | prog1/edmonds.cpp:81-105 | defines the nodes get_path pushes, alternating partner and attachment steps and stopping after a step that stays in place; it never pushes more nodes than its budget, and every node it pushes is a node of the graph |
| EdmondsState.TracePath | prog1/edmonds.cpp:74-110 | defines get_path: the outer-node assert fails for a node that is not outer, the throw fires once the path holds more than num_nodes nodes, and otherwise the walk is returned; TracePathIsTrace and TraceIsTracePath state what it returns |
| EdmondsState.WalkShape | prog1/edmonds.cpp:81-105 | the traced nodes start at the given node; each next node is the partner (even step) or attachment (odd step) of the previous one and differs from it; a trace shorter than its budget ends where the next step would stay put |
| EdmondsState.WalkOfShape | prog1/edmonds.cpp:81-105 | conversely, any sequence of that shape is the trace |
| EdmondsState.TracePathIsTrace | prog1/edmonds.cpp:74-110 | get_path fails the outer-node assert exactly when v is not outer; a returned path is the alternating trace from v and has at most n nodes; it fails as too long only when every trace from v has more than n nodes |
| EdmondsState.NoShortTrace | prog1/edmonds.cpp:96-104 | once the walk has passed n nodes, no alternating trace from v fits in n nodes |
| EdmondsState.TraceIsTracePath | prog1/edmonds.cpp:74-110 | every alternating trace of at most n nodes from an outer node is exactly what get_path returns |
| EdmondsState.FlipOdd | prog1/edmonds.cpp:133-150 | defines one flipping loop of augment, mu[phi[nd]] := nd then mu[nd] := phi[nd] at every odd position; the result is again a vector of node ids |
| EdmondsState.FlipOddEffect | prog1/edmonds.cpp:133-150 | the flipping loop matches p[j] with p[j+1] at every odd position j and leaves the partner of every node off the rest of the path unchanged |
| EdmondsState.FlipOddSwaps | prog1/edmonds.cpp:133-150 | from an odd position on, the flipping loop matches p[j] with p[j+1] at every odd position j |
| EdmondsState.FlipOddKeeps | prog1/edmonds.cpp:133-150 | from an odd position on, the flipping loop leaves the partner of every node off the rest of the path unchanged |
| EdmondsState.AugmentMu | prog1/edmonds.cpp:130-160 | defines augment's partner vector: both paths flipped, then x and y matched to each other; the result is again a vector of node ids |
| EdmondsState.AugmentMuAt | prog1/edmonds.cpp:130-160 | for two disjoint alternating paths to unmatched roots, augment matches x with y, swaps every odd pair on both paths and leaves all other partners unchanged |
| EdmondsState.AugmentKeepsMatching | prog1/edmonds.cpp:130-160 | the partner vector stays a matching with x matched to y, and the matched nodes afterwards are those matched before plus the two path ends |
| EdmondsState.FirstBase | prog1/edmonds.cpp:164-172 | the root search finds nothing exactly when no node on the path is its own base, and otherwise returns the first node on the path that is |
| EdmondsState.UpTo | prog1/edmonds.cpp:219-235 | defines the nodes of one path that shrink marks on_path: those up to and including the first occurrence of root |
| EdmondsState.UpToSpec | prog1/edmonds.cpp:219-235 | the on_path marking covers the prefix of the path up to and including the first occurrence of root, or the whole path when root is not on it |
| EdmondsState.Repoint | prog1/edmonds.cpp:176-193 | defines one re-pointing loop as written, with the position as node id, stopping at the position equal to root; the result is again a vector of node ids |
| EdmondsState.ShrinkPhi | prog1/edmonds.cpp:176-202 | defines shrink's attachment vector: both re-pointing loops, then phi[x] := y and phi[y] := x unless that end's base is root; the result is again a vector of node ids |
| EdmondsState.RepointKeepsAttachments | prog1/edmonds.cpp:176-193 | the position-as-node-id re-pointing loop never detaches an attached node |
| EdmondsState.ShrinkKeepsAttachments | prog1/edmonds.cpp:176-202 | all attachment updates of shrink, including phi[x] := y and phi[y] := x, never detach an attached node |
| EdmondsState.ShrinkRoot | prog1/edmonds.cpp:164-173 | defines the root shrink picks: the first node of get_path(intersection) that is its own base; a failing get_path passes its error on, and a path with no such node fails with NoBlossomBase, the assert on root; ShrinkRootIsBase states that a root found is a node and its own base |
| EdmondsState.Rebase | prog1/edmonds.cpp:236-242 | defines the base vector shrink leaves: every node whose base is marked on_path gets root as its base, every other node keeps its base; the result is again a vector of node ids, and RebaseKeepsBasesCanonical states what it preserves |
| EdmondsState.RebaseKeepsBasesCanonical | prog1/edmonds.cpp:236-242 | re-basing the marked blossoms onto a root that is its own base leaves every base its own base |
| EdmondsState.PopulatedBelow | prog1/edmonds.cpp:36-47 | defines the pairs populate emits for the nodes below v: (u, mu[u]) for each u whose partner is smaller, in increasing order of u; PopulatedBelowPairs and PopulatedBelowCovers state both directions |
| EdmondsState.Populated | prog1/edmonds.cpp:36-47 | defines the graph populate builds, the pairs for all nodes; PopulatedIsPopulatedFrom states it |
| EdmondsState.PopulatedBelowPairs | prog1/edmonds.cpp:36-47 | every pair populate emits is (v, mu[v]) for a node v whose partner is smaller, and the pairs come in increasing order of v |
| EdmondsState.PopulatedBelowCovers | prog1/edmonds.cpp:36-47 | populate emits (v, mu[v]) for every node v whose partner is smaller |
| EdmondsState.PopulatedIsPopulatedFrom | prog1/edmonds.cpp:36-47 | the graph populate builds holds exactly the pairs (v, mu[v]) with mu[v] < v, in increasing order of v |
| EdmondsState.PopulatedMatchingDegrees | prog1/edmonds.cpp:36-47 | for a matching, the emitted pairs give every matched node degree one and every unmatched node degree zero |
| Edmonds.EdmondsMatching.constructor | prog1/edmonds.hpp:22-37 | sizes the four vectors to the node count, gives every node itself as partner, attachment and base, and clears scanned |
| Edmonds.EdmondsMatching.Check | prog1/edmonds.cpp:6-16 | true exactly when no matched node is attached to its own partner |
| Edmonds.EdmondsMatching.GetPath | prog1/edmonds.cpp:74-110 | the loop returns the traced path or the error that get_path's abstract definition gives |
| Edmonds.EdmondsMatching.GetIntersection | prog1/edmonds.cpp:112-128 | returns FirstCommon of the two paths: the first node of y_path that lies on x_path, or nothing exactly when the paths are disjoint |
| Edmonds.EdmondsMatching.Augment | prog1/edmonds.cpp:130-160 | flips both paths and matches x with y; afterwards every attachment and base is the node itself and nothing is scanned |
| Edmonds.EdmondsMatching.FlipPathInPlace | prog1/edmonds.cpp:133-141 | one flipping loop sets mu[phi[p]] := p and then mu[p] := phi[p] at every odd position |
| Edmonds.EdmondsMatching.FindBase | prog1/edmonds.cpp:164-172 | returns the first node on the path that is its own base |
| Edmonds.EdmondsMatching.RepointInPlace | prog1/edmonds.cpp:176-184 | performs one re-pointing loop on the attachment array as written |
| Edmonds.EdmondsMatching.MarkUpTo | prog1/edmonds.cpp:219-227 | sets exactly the flags of the nodes on the path up to root and keeps the others |
| Edmonds.EdmondsMatching.FindRoot | prog1/edmonds.cpp:164-173 | finds the root on get_path(intersection), which is its own base, or fails as that path or the assert does |
| Edmonds.EdmondsMatching.Relink | prog1/edmonds.cpp:176-202 | both re-pointing loops, then phi[x] := y unless x's base is root, then phi[y] := x unless y's base is root |
| Edmonds.EdmondsMatching.Rebase | prog1/edmonds.cpp:219-242 | every node whose base is on either path up to root gets root as its base; every other base is kept |
| Edmonds.EdmondsMatching.Shrink | prog1/edmonds.cpp:162-244 | leaves the outcome and vectors ShrinkStep gives: with no root found it fails and changes nothing; otherwise it relinks, succeeds exactly when check() then holds, and only then re-bases |
| Edmonds.EdmondsMatching.ExamineNeighbor | prog1/edmonds.cpp:252-293 | its outcome, augmentation flag and new vectors are exactly those Examine gives for the old vectors: grow, no change, augment on disjoint paths, shrink at the first common node, or get_path's error |
| Edmonds.EdmondsMatching.ScanNode | prog1/edmonds.cpp:246-296 | its outcome, augmentation flag and new vectors are exactly those Scan gives: check() is asserted, the neighbours are examined in list order until an augmentation or an abort, and scanned[x] is set after a full pass |
| Edmonds.EdmondsMatching.FirstUnscannedOuter | prog1/edmonds.cpp:307-317 | returns NextToScan of the current vectors: the lowest-numbered outer node that is not scanned, or nothing exactly when every outer node is scanned |
| Edmonds.EdmondsMatching.Reset | prog1/edmonds.cpp:300-303 | every partner, attachment and base becomes the node itself; the scanned flags are kept |
| Edmonds.EdmondsMatching.RunTurn | prog1/edmonds.cpp:305-324 | one turn of the loop agrees with RunLoop: either the run ends with RunLoop's outcome and vectors, or RunLoop from the new state gives the same result as from the old one, with the budget used up by one or one more node scanned |
| Edmonds.EdmondsMatching.Run | prog1/edmonds.cpp:298-325 | the outcome and final vectors are RunLoop's from the reset vectors; after a successful run every outer node is scanned, and every base is its own base |
| Edmonds.EdmondsMatching.Populate | prog1/edmonds.cpp:36-47 | the loop builds Populated of the partners: (v, mu[v]) exactly for the nodes whose partner is smaller, in increasing order of v |
| Edmonds.GetMatching | prog1/edmonds.cpp:17-34 | fails with the search's error exactly when Search aborts; once Search passes, it succeeds exactly when every node has degree at most one in the pairs populate emits from Search's final partners, a success holds exactly those pairs, and a failure is the no-matching error; Search passing with a matching implies success |
| Edmonds.DegreesAtMostOne | prog1/edmonds.cpp:25-31 | the check on the populated graph passes exactly when no node has degree above one |
| EdmondsSearch.FirstCommon | prog1/edmonds.cpp:112-128 | nothing exactly when no node of y_path lies on x_path; otherwise a node of y_path that lies on x_path, with no earlier node of y_path on x_path |
| EdmondsSearch.NextToScan | prog1/edmonds.cpp:309-317 | the lowest node from a position on that is outer and not scanned; nothing exactly when every such node is scanned |
| EdmondsSearch.ShrinkStep | prog1/edmonds.cpp:162-244 | defines shrink on a snapshot: no root aborts and changes nothing; otherwise the attachments are relinked and check() decides between aborting and re-basing the marked blossoms onto root; the snapshot stays well-formed |
| EdmondsSearch.ShrinkRootIsBase | prog1/edmonds.cpp:164-173 | a root shrink finds is a node and its own base |
| EdmondsSearch.ShrinkStepKeeps | prog1/edmonds.cpp:162-244 | shrink changes no partner and no scanned flag, detaches no node, keeps an outer x outer, keeps canonical bases canonical, and passes only when check() holds |
| EdmondsSearch.Examine | prog1/edmonds.cpp:263-293 | defines one turn of scan_node's loop: grow at an out-of-forest neighbour, no change at an inner one or one in the same blossom, otherwise trace both paths and augment when they are disjoint or shrink at their first common node; the snapshot stays well-formed |
| EdmondsSearch.ExamineOuter | prog1/edmonds.cpp:270-293 | for an outer neighbour in another blossom: a failing get_path aborts with its error and changes nothing; with both paths traced it augments exactly when they are disjoint, matching x with the neighbour by augment's partner update and resetting the rest; otherwise it is shrink at the first common node |
| EdmondsSearch.ExamineKeeps | prog1/edmonds.cpp:263-293 | for an outer x: an out-of-forest neighbour is attached to x; an inner neighbour or one in x's blossom changes nothing; an augmentation matches x with the neighbour and resets the forest; otherwise partners and scanned flags stay, no node is detached, x stays outer and canonical bases stay canonical |
| EdmondsSearch.ExamineKeepsMatching | prog1/edmonds.cpp:263-293 | when both traced paths alternate to unmatched roots, an examination keeps the partners a matching, and an augmentation matches x with the neighbour and unmatches no node |
| EdmondsSearch.ScanFrom | prog1/edmonds.cpp:250-295 | defines scan_node's loop from one neighbour on: it stops at an augmentation or an abort and marks the node scanned after a full pass; the snapshot stays well-formed |
| EdmondsSearch.Scan | prog1/edmonds.cpp:246-296 | defines scan_node: the check() assert, then the loop over the node's neighbours; the snapshot stays well-formed |
| EdmondsSearch.ScanFromMarks | prog1/edmonds.cpp:250-295 | a scan that neither augments nor aborts changes no partner, and sets scanned[x] exactly when the pass completed |
| EdmondsSearch.ScanFromKeeps | prog1/edmonds.cpp:250-295 | for an outer x: an augmentation matches x with one of its remaining neighbours and resets the forest; otherwise partners stay, no node is detached, x stays outer, canonical bases stay canonical, and scanned[x] is set exactly after a full pass |
| EdmondsSearch.RunLoop | prog1/edmonds.cpp:305-325 | defines run's loop: the lowest unscanned outer node is scanned until none is left, with a bound on the augmentations; the final snapshot stays well-formed |
| EdmondsSearch.Search | prog1/edmonds.cpp:298-325 | defines the search get_matching runs: the loop from the constructor's state with the node count as bound; the final snapshot is well-formed and sized to the graph |
| EdmondsSearch.Initial | prog1/edmonds.hpp:22-37 | the state the constructor leaves, and the reset at the start of run: every node its own partner, attachment and base, nothing scanned; it is well formed and has one entry per node |
| EdmondsSearch.Turn | prog1/edmonds.cpp:305-324 | defines how run's loop goes on after a scan: an abort ends the run with its error, an augmentation uses up one unit of the fuel bound and ends the run with OutOfFuel when none is left, anything else goes on; RunLoopTurn states a whole turn |
| EdmondsSearch.RunLoopTurn | prog1/edmonds.cpp:305-324 | one turn scans the lowest unscanned outer node: an abort ends the run with its error; an augmentation uses one unit of the budget, and fails with OutOfFuel when none is left; otherwise one more node is scanned and the run goes on from the new state |
| EdmondsSearch.RunLoopKeeps | prog1/edmonds.cpp:298-325 | a run that does not abort ends with every outer node scanned, and bases that start canonical end canonical |
| MmwcGraph.FromDimacsId | prog2/graph.cpp:111-119 | throws exactly on zero and otherwise returns a smaller id that is not the sentinel |
| MmwcGraph.ToDimacsId | prog2/graph.cpp:121-129 | throws exactly on the largest id and otherwise returns a larger non-zero id |
| MmwcGraph.DimacsRoundTrip | prog2/graph.cpp:111-129 | every node id below the maximum converts to DIMACS and back to itself |
| MmwcGraph.NodeIdRoundTrip | prog2/graph.cpp:111-129 | every non-zero DIMACS id converts to a node id and back to itself |
| MmwcGraph.Edge.Other | prog2/graph.hpp:170-173 | returns to when given from, and from for any other node |
| MmwcGraph.OtherSwapsEnds | prog2/graph.hpp:170-173 | on an edge that is not a loop, other maps each end to the other one and back |
| MmwcGraph.Node.AddNeighbor | prog2/graph.cpp:14-17 | appends the id as the last incident edge and keeps the earlier ones |
| MmwcGraph.IncidentIds | prog2/graph.cpp:85-89 | defines a node's incidence list as add_edge builds it: the id of every edge with the node as an end, in the order the edges were added; IncidentIdsSpec and AddEdgeIncidence state it |
| MmwcGraph.IncidentIdsSpec | prog2/graph.cpp:85-89 | a node's incidence list holds exactly the ids of the edges touching it, in increasing order |
| MmwcGraph.Graph.constructor | prog2/graph.cpp:76 | n nodes with empty incidence lists and no edges, a valid graph |
| MmwcGraph.Graph.NodeAt | prog2/graph.hpp:195-199 | throws exactly on an id out of range |
| MmwcGraph.Graph.GetCapacity | prog2/graph.hpp:201-204 | throws exactly on an edge id out of range |
| MmwcGraph.Graph.GetOtherNode | prog2/graph.hpp:206-209 | throws exactly on an edge id out of range |
| MmwcGraph.Graph.AddEdge | prog2/graph.cpp:78-90 | a loop throws and changes nothing; otherwise the edge is appended first, so an out-of-range end throws after the edge vector grew; on success the new id is appended to both ends' lists, and a valid graph stays valid |
| MmwcGraph.AddEdgeIncidence | prog2/graph.cpp:85-89 | the new id is appended to the lists of the edge's two ends and to no other list |
| TJoin.ShortestPathLowerBound | prog2/tjoin.cpp:8-67 | no walk from the source costs less than the distance the tree gives its end |
| TJoin.ShortestPathExact | prog2/tjoin.cpp:8-67 | a node's distance is below max_capacity exactly when some walk from the source reaches it for less than max_capacity; then some walk costs exactly that distance, and no walk to the node costs less |
| TJoin.TreeWalkBack | prog2/tjoin.cpp:8-67 | following the incoming entries back from a reached node reaches the source within num_nodes steps, along a walk whose cost is exactly the node's distance |
| TJoin.UnreachedStayAtMax | prog2/tjoin.cpp:12-13 | in a graph where only an edge between nodes 1 and 2 exists, every shortest-path tree from node 0 leaves both at the initial max_capacity, even though a zero-cost edge between them would not contradict the optimality conditions alone |
| TJoin.BackWalkCost | prog2/tjoin.cpp:33-39 | the walk back from a reached node along tight entries costs exactly its distance |
| TJoin.VisitKeepsRooted | prog2/tjoin.cpp:29 | visiting a node keeps every reached node's walk back to the source within the number of visited nodes |
| TJoin.RelaxKeepsRooted | prog2/tjoin.cpp:33-39 | pointing an unvisited node at the visited current node keeps every reached node's walk back to the source within the number of visited nodes |
| TJoin.InitialFrontier | prog2/tjoin.cpp:11-24 | the initial entries, the source at distance 0 and everything else at max_capacity, satisfy the search invariant, including the source's empty walk |
| TJoin.RelaxOne | prog2/tjoin.cpp:32-40 | defines one relaxation: the other end of e takes distance dist + cost(e) and incoming edge e when that is strictly smaller, otherwise nothing changes; the length is kept, and RelaxIter and RelaxStep state what it preserves |
| TJoin.RelaxStep | prog2/tjoin.cpp:29-41 | relaxing an edge out of the current node hits an unvisited node, as asserted, and keeps the search invariant: the new distance is the cost of the current node's walk extended by the edge |
| TJoin.RelaxKeepsTight | prog2/tjoin.cpp:29-41 | after a relaxation every reached node other than the source still hangs off a visited node by an edge whose cost closes the gap exactly |
| TJoin.RelaxKeepsRealized | prog2/tjoin.cpp:29-41 | after a relaxation every reached node's distance is still the cost of a walk from the source to it |
| TJoin.RelaxKeepsRelaxed | prog2/tjoin.cpp:29-41 | a relaxation lowers only an unvisited node, so every visited node other than the current one stays relaxed |
| TJoin.ReachedHasIncoming | prog2/tjoin.cpp:55-62 | every unvisited node at a finite distance has an incoming edge, as asserted |
| TJoin.NegDegree | prog2/tjoin.cpp:130-141 | defines the negative degree of a node: the number of edges of negative capacity with it as an end; NegCountIncident and Handshake state its properties |
| TJoin.OddNodes | prog2/tjoin.cpp:69-79 | defines the nodes the loop collects: those of odd negative degree, in increasing order; OddNodesSpec states it |
| TJoin.OddNodesSpec | prog2/tjoin.cpp:69-79 | the collected nodes are increasing and are exactly the nodes of odd negative degree |
| TJoin.NegCount | prog2/tjoin.cpp:133-139 | defines odd_neg_deg's count over an incidence list: the number of ids naming an edge of negative capacity; NegCountIncident ties it to the negative degree |
| TJoin.NegCountIncident | prog2/tjoin.cpp:130-141 | counting the negative edges on a node's incidence list gives its negative degree |
| TJoin.Handshake | prog2/tjoin.cpp:130-141 | the negative degrees of all nodes sum to twice the number of negative edges |
| TJoin.OddNodesEven | prog2/tjoin.cpp:159-164 | in a valid graph the number of nodes of odd negative degree is even |
| TJoin.SeedEntry | prog2/tjoin.cpp:147-157 | defines a closure cell after the first k edges are seeded: the last of them that joins the two nodes, at its cost, or no edge at max_capacity; SeedEntrySpec states it |
| TJoin.SeedEntrySpec | prog2/tjoin.cpp:147-157 | a seeded cell names the last edge joining its two nodes, with that edge's cost, or stays at max_capacity with no edge when none joins them |
| TJoin.Improve | prog2/tjoin.cpp:169-180 | an update never raises a distance, and when both legs are finite the result is at most their sum |
| TJoin.ImproveOwnLeg | prog2/tjoin.cpp:169-180 | a cell that is one of its own legs is never changed, so the pivot's row and column stay fixed during the pass |
| TJoin.ImproveOk | prog2/tjoin.cpp:169-180 | an update keeps a cell in range, pointing into its node, and no worse than the direct edge |
| TJoin.SeedMatrix | prog2/tjoin.cpp:145-157 | the seeded closure: an n by n matrix whose every cell is its seed entry |
| TJoin.PivotMatrix | prog2/tjoin.cpp:165-184 | one round with pivot p: every cell becomes the update of its value through p, computed from the legs as they were before the round; the matrix stays square |
| TJoin.ClosureAfter | prog2/tjoin.cpp:159-184 | defines the closure after nodes 0 to p - 1 have served as pivots, in that order, starting from the seed; ClosureAfterOk and ClosureThroughPivot state its properties |
| TJoin.Closure | prog2/tjoin.cpp:143-184 | defines the metric closure asp computes: every node has served as pivot; ClosureRows and ClosureThroughPivot state its properties |
| TJoin.SeedMatrixOk | prog2/tjoin.cpp:145-157 | with non-negative costs every seeded cell is a sound closure entry: in range, a finite one naming an edge, the named edge touching the cell's node, and no worse than the direct edge |
| TJoin.PivotMatrixOk | prog2/tjoin.cpp:165-184 | a pivot round keeps every cell a sound closure entry |
| TJoin.ClosureAfterOk | prog2/tjoin.cpp:145-184 | after any number of pivot rounds every cell is a sound closure entry |
| TJoin.ClosureRows | prog2/tjoin.cpp:143-184 | every row of the closure is a sound closure row from its node |
| TJoin.ClosureThroughPivot | prog2/tjoin.cpp:165-184 | after p's round, no pair of finite legs through p adds up to less than the cell they join |
| TJoin.MovedRow | prog2/tjoin.cpp:186-189 | defines what the move loop pushes for the k-th entry of oddNodes: the closure row of its node, or an empty row when the node occurs earlier in oddNodes and its row has already been moved out |
| TJoin.MovedRowIs | prog2/tjoin.cpp:186-189 | when the array holds the matrix m, the pushed row is the empty row for a repeated node and m's row otherwise |
| TJoin.IncreasingNotBefore | prog2/tjoin.cpp:159-164 | in an increasing list, as the pivot loop builds oddNodes, no entry occurs earlier, so no row is moved twice |
| TJoin.TreePointsIn | prog2/tjoin.cpp:115-117 | every incoming edge of a shortest-path tree touches its node |
| TJoin.ClosureRowPointsIn | prog2/tjoin.cpp:115-117 | every incoming edge of a closure row touches its node |
| TJoin.BackWalk | prog2/tjoin.cpp:111-118 | defines the walk back of collect_used_edges: it fails on a step beyond n or an entry that names no edge, and otherwise lists the incoming edges followed; BackWalkIsWalk and BackWalkCost state what it returns |
| TJoin.BackWalkIsWalk | prog2/tjoin.cpp:111-119 | a walk back that succeeds is a walk in the graph from the mate's node to the odd node, of at most n edges |
| TJoin.PairWalks | prog2/tjoin.cpp:103-119 | defines the walks of collect_used_edges over the positions: a position whose node is larger than its mate's is skipped, and the first failing walk decides the result |
| TJoin.PairWalksSucceed | prog2/tjoin.cpp:103-119 | when each position's row is the shortest-path tree from its node and reaches its mate's node, no walk of collect_used_edges fails |
| TJoin.PairWalksFrom | prog2/tjoin.cpp:103-119 | when the walk of every position succeeds, collect_used_edges does not fail |
| TJoin.Toggle | prog2/tjoin.cpp:116 | defines the toggling: each walked id flips its flag; no flag is added or removed |
| TJoin.ToggleParity | prog2/tjoin.cpp:116 | after toggling, an edge's flag is set exactly when it was walked an odd number of times |
| TJoin.Differing | prog2/tjoin.cpp:121-127 | defines the ids the final loop emits: those whose flag differs from cap < 0, in increasing order; DifferingSpec states it |
| TJoin.DifferingSpec | prog2/tjoin.cpp:121-127 | the emitted ids are increasing and are exactly the edges whose flag differs from cap < 0 |
| TJoin.UsedEdgesSpec | prog2/tjoin.cpp:98-128 | an edge is used exactly when the parity of its walk count differs from cap < 0 |
| TJoin.TJoin.OddNegDeg | prog2/tjoin.cpp:130-141 | true exactly when the node's negative degree is odd |
| TJoin.TJoin.AllPairsShortestPaths | prog2/tjoin.cpp:69-79 | appends the odd nodes in increasing order, each with a shortest-path tree from it, and keeps the earlier entries |
| TJoin.TJoin.AppendTree | prog2/tjoin.cpp:73-77 | for an odd node, appends a shortest-path tree from it and leaves the odd nodes as they were |
| TJoin.TJoin.Asp | prog2/tjoin.cpp:143-190 | fails exactly when a cost is negative, changing nothing; otherwise appends the odd nodes in increasing order, then for each entry of oddNodes the row of Closure for its node, or an empty row when the node occurs earlier in oddNodes; the first occurrence of each node gets a sound closure row, and when oddNodes started empty every row is the Closure row |
| TJoin.TJoin.PushIfOdd | prog2/tjoin.cpp:161-164 | appends v exactly when its negative degree is odd |
| TJoin.TJoin.AppendRows | prog2/tjoin.cpp:186-189 | appends, for each entry of oddNodes in order, the closure row of its node, or an empty row when the node occurs earlier (the move has emptied that row), and keeps the earlier rows |
| TJoin.TJoin.SeedClosure | prog2/tjoin.cpp:145-157 | fails exactly on a negative cost; otherwise every cell holds its seed entry, and the matrix is sound |
| TJoin.TJoin.Pivot | prog2/tjoin.cpp:165-184 | every cell becomes the update of its old value through the pivot, with both legs read before the pass, and the matrix stays sound |
| TJoin.TJoin.PivotCell | prog2/tjoin.cpp:168-182 | one cell takes the update of its value through the pivot, no other cell changes, the matrix stays sound, and the throw on a negative cell cannot be reached |
| TJoin.TJoin.PivotRounds | prog2/tjoin.cpp:159-184 | after the loop every node has been tested and has served as pivot: the closure is ClosureAfter of all nodes, and the odd nodes follow the earlier entries of oddNodes in increasing order |
| TJoin.TJoin.PivotRound | prog2/tjoin.cpp:159-184 | one round of the loop takes the closure from p pivots to p + 1 and the collected odd nodes from the nodes below p to those below p + 1 |
| TJoin.TJoin.PushOddRound | prog2/tjoin.cpp:161-164 | the parity test extends the collected odd nodes from the nodes below p to those below p + 1 and changes nothing else |
| TJoin.TJoin.PivotTo | prog2/tjoin.cpp:165-184 | the inner loops take the closure array from ClosureAfter p to ClosureAfter p + 1 |
| TJoin.TJoin.CollectUsedEdges | prog2/tjoin.cpp:98-128 | fails exactly when a walk back fails, with its error; otherwise appends the edges whose toggle flag after all walks differs from cap < 0 |
| TJoin.TJoin.WalkPairs | prog2/tjoin.cpp:103-119 | fails exactly when the first failing walk back does, with its error; otherwise the flags are the start flags toggled along every walk, in order |
| TJoin.TJoin.AppendDiffering | prog2/tjoin.cpp:121-127 | appends, in increasing order, the edges whose flag differs from cap < 0 |
| TJoin.TJoin.WalkBack | prog2/tjoin.cpp:105-119 | follows the incoming edges from j to the target, toggling each one, and fails on a step beyond n or a missing edge |
| TJoin.TJoin.ComputeShortestPaths | prog2/tjoin.cpp:8-67 | returns a shortest-path tree from the source: reached distances are costs of walks from it and no walk is cheaper, nodes left at max_capacity have no walk cheaper than max_capacity, and the incoming entries lead back to the source without a cycle |
| TJoin.TJoin.Step | prog2/tjoin.cpp:27-64 | marks the current node visited and relaxes its edges; it ends with a tree when no unvisited node is reached, and otherwise names the next node |
| TJoin.TJoin.Relax | prog2/tjoin.cpp:29-41 | relaxation only lowers distances, changes no visited node, and keeps the search invariant |
| TJoin.TJoin.SelectNext | prog2/tjoin.cpp:42-64 | picks the lowest-numbered unvisited node of strictly smallest finite distance, or none when every unvisited node is at max_capacity |
| Mwc.MinFold | prog2/mwc.hpp:17-20 | the fold is no larger than its start value or any capacity folded |
| Mwc.MinFoldKeepsLowerBound | prog2/mwc.hpp:17-20 | a start value no larger than every capacity is what the fold returns |
| Mwc.MinFoldFromMinimum | prog2/mwc.hpp:15-20 | folding from min_capacity yields min_capacity for every graph |
| Mwc.MinMeanWeightCycle.constructor | prog2/mwc.hpp:15-21 | the adjustment is the fold of min_capacity with every capacity, which is min_capacity, and no capacity lies below it |
| Mwc.MinMeanWeightCycle.AdjustedCap | prog2/mwc.hpp:33-36 | throws exactly on an edge id out of range; the result is never negative, and exceeds max_capacity whenever the capacity is not negative |
| Mwc.MinMeanWeightCycle.AdjustedCapMonotone | prog2/mwc.hpp:33-36 | adjusting preserves the order of capacities |
| Mwc.MinMeanWeightCycle.HasCircle | prog2/mwc.cpp:5-46 | returns false for every graph |
| Mwc.Neighbors | prog2/mwc.cpp:25-27 | lists, for each incident edge of the node in order, the node at its other end |
| Mwc.Expand | prog2/mwc.cpp:25-41 | defines the scan of a popped node's neighbours: the parent is skipped, a neighbour that has a parent stops the scan with found set, any other gets the node as parent and is pushed; the parent vector keeps its size |
| Mwc.ExpandFrame | prog2/mwc.cpp:25-41 | scanning a node changes only entries that had no parent, each to the scanned node |
| Mwc.ExpandFound | prog2/mwc.cpp:25-41 | scanning finds a node already reached exactly when a neighbour other than the node's parent had a parent already or occurs earlier in the list |
| Mwc.ExpandPushes | prog2/mwc.cpp:29-40 | a scan that finds nothing pushes only neighbours other than the parent, gives each the scanned node as its parent, and uses up one parentless entry per push |
| Mwc.MinMeanWeightCycle.ExpandNode | prog2/mwc.cpp:25-41 | the incidence loop gives the found flag, parents and pushes of the scan's abstract definition |
| Mwc.MinMeanWeightCycle.Dfs | prog2/mwc.cpp:17-42 | the search terminates; it changes only entries that had no parent, each to a node id, and every entry it sets names a node that has a parent |

## Left out

- prog1/main.cpp and prog2/main.cpp: command-line glue and printing.
- Graph::build_graph and operator<< in prog2/graph.cpp: file input and output in the DIMACS format.
- prog2/MWPM/mwpm.cpp, TJoin::init_perfect_matching and PerfectMatching::GetMatch: calls into an external matching library whose source is not part of this model.
  - `CollectUsedEdges` takes the matching as an input vector `mate` of positions in `oddNodes`.
- prog1/checkequal.py: a test script that compares output files.
- prog2/tjoin.hpp: it declares an unrelated stub class.
  - The members tjoin.cpp uses (`_g`, `_odd_nodes`, `_shortest_paths`, `_used_edges`, `get_cap`, the `{incoming, dist}` entry) are the fields of the `TJoin` class.
  - `get_cap` is an input sequence `cost`, indexed by edge id.
- The Graph type of prog1 is not part of this model. The matcher takes its neighbour lists as a sequence of sequences, and `populate` emits a list of pairs instead of adding edges to a graph.
- All debug printing to std::cout.
- Access control (public, private and static members of EdmondsMatching) has no counterpart.
- The theorem that get_matching returns a maximum matching. The shrink step does not follow the textbook, so only per-operation contracts are proved.
- Native 32-bit overflow of distance sums in compute_shortest_paths and asp. Sums are unbounded integers.
- Run: the partners are not proved to stay a matching across a whole run. That needs every path get_path traces to alternate to an unmatched root, which the shrink re-pointing loop, using positions as node ids, can break. ExamineKeepsMatching proves it for one examination under that hypothesis. GetMatching only guarantees what its degree check enforces: no node has degree above one in the result.
- Run: it takes a fuel bound on the number of augmentations and fails with OutOfFuel once the bound is used up, because termination across augmentations is not proved. Between two augmentations termination is proved, since each scan sets one more scanned flag. GetMatching passes the node count as the bound.
- Asp: the appended rows are proved to be rows of `Closure`, the matrix after every node has served as pivot. Closure rows are proved sound: in range, each incoming edge touching its node, and no worse than the direct edge. Each pivot round is proved to leave no shorter pair of legs through its pivot. That the rows are shortest distances is not proved.
- TJoin.TJoin.Asp: only the first occurrence of a node in oddNodes is promised a sound closure row. A later occurrence gets the moved-from, empty row.
- TJoin.TJoin.AppendRows: the C++ standard leaves a moved-from std::vector valid but unspecified. The model takes it to be empty, as the common standard libraries leave it.
- ComputeShortestPaths: requires the costs to be non-negative. The C++ code does not check this, but its assert that a relaxed node is unvisited (prog2/tjoin.cpp:35) holds only then.
- TJoin.TJoin.WalkBack: on an incoming entry that names no edge it fails with BadIncoming before toggling anything. The C++ code first toggles t_join at that id, out of bounds and undefined behaviour, and get_other_node then throws (prog2/tjoin.cpp:115-117).
- TJoin.TJoin.ComputeShortestPaths: a node reached only by walks costing max_capacity or more stays at max_capacity, as in the C++ code. So "no walk reaches it" is stated as "no walk reaches it for less than max_capacity".
- Mwc.MinMeanWeightCycle.AdjustedCap: returns the unbounded difference instead of a wrapped 32-bit value. The overflow is stated as a property, not modelled.
- Mwc.MinMeanWeightCycle.HasCircle: it does not call the search, because the search can never start. The search body is modelled on its own as `Dfs`.
- Mwc.MinMeanWeightCycle.Dfs: it states the parent-vector invariants of the search, not that a true answer means a cycle exists. What one scan detects is characterised by `ExpandFound`.
- Node::degree, Node::incident_edges, Graph::num_nodes and Graph::num_edges are plain field reads, modelled as functions without contracts.
