# s-club partitioning: a Dafny model of the separation oracle, the solution check, the heuristics' phase II, the divide-and-conquer driver and the instance readers

The repository partitions (or covers) a graph G into as few s-clubs as possible. An s-club is a vertex set that is non-empty, induces a connected subgraph, and has diameter at most s. Integer programs over vertex-to-label variables x[v, j] do the partitioning. This project models the parts of the code that decide things about graphs:

- **The separation oracle** (`src/callback.py`) runs on every integer solution the solver finds. For each label j it looks at the cluster V_j. If G[V_j] is disconnected, it cuts each other component off from an anchor vertex b: a boundary-trimming breadth-first search from b finds a separator, which is then reduced. If G[V_j] is connected but too wide, it walks the pairs (a, b) with a < b and, for each pair it reads as more than s apart, starts from the prefiltered set S'. Either way the separator C is reduced greedily, and the cut x[a,j] + x[b,j] <= rhs + sum of x[c,j] over C is emitted. For a disconnected cluster the reduction, in the directed view, leaves a minimal *length-s* a,b-separator. For a connected cluster the weights are shared edge records. The result is then still a length-s separator, but not necessarily a minimal one. The pair walk also reads the distances of the reduction's last trial for later pairs of the same a, so it can skip a far pair (see Findings). There are four variants: labelling, restricted labelling, centring and Benders. The files model them as one scan (`Scanner.Scan`) with a `Mode` parameter.
- **The solution check** (`src/check_solution.py`) first tests for a partition or a cover. It then tests every cluster for connectivity and diameter.
- **Phase II of the two upper-bound heuristics** (`src/heuristic.py`). For even s, every selected vertex grows a part, taking its unassigned neighbours in G^1, G^2, ..., G^(s/2) in turn. For odd s, every selected clique keeps its unassigned vertices, then absorbs its unassigned G-neighbours.
- **The divide-and-conquer driver** (`src/s_club_ext_label.py`). It has three pieces:
  - the warm start, which labels the heuristic's clusters;
  - the binary search over the number of labels, with truncating middle, the status-driven bracket update and the TIME_LIMIT exit;
  - the upper-bound fix and restore around each restricted solve.
- **The instance readers** (`src/read.py`): `read_graph` reads adjacency lists and `read_txt` reads edge lists.

Modelling choices:

- **Graphs.** A graph is a list of adjacency lists over the vertices 0..n-1.
- **Distances.** The oracle's Dijkstra runs weigh arcs 1 or s + 1 and only ask whether dist(a, b) <= s. So the model replaces them with `Graphs.Near(g, heavy, u, v, k)`: there is a walk of at most k arcs, none of them in the set `heavy` of weight-(s+1) arcs. `Graphs.NearToWalk` and `Graphs.WalkToNear` tie this to walk weights.
- **Arc weights.** They are a pure overlay, with two views:
  - the directed view (`OutArcs`): the arcs leaving the blocked vertices, as in `DG[c][node]`;
  - the undirected view (`IncidentArcs`): the edges with either end blocked, because in G one edge record is shared by both ends.
- **Iteration order.** Wherever the source iterates a set (components, `list(component)[0]`, node order), the model uses ascending vertex order. The one exception is the key order of the Dijkstra table from a in G[V_j]. The pair walk runs over that order, and which far pairs it skips depends on it, so it is a parameter (`keys`) that lists V_j once.
- **The solver.** Gurobi is represented only by the data it hands over:
  - a 0/1 candidate for the oracle;
  - a function from (round, label count) to answers for the driver;
  - the selected vertices or cliques for the heuristics.

## Model

| member | source | states |
|---|---|---|
| Graphs.NearToWalk | src/callback.py:96-99 | a light walk of at most k arcs is a walk whose weight under the 1 / s+1 overlay is at most k, so `Near` implies Dijkstra distance <= k |
| Graphs.WalkToNear | src/callback.py:96-99 | a walk of weight at most k <= s uses no heavy arc and at most k arcs, so Dijkstra distance <= s implies `Near` |
| Graphs.NearSym | src/callback.py:121-125 | in an undirected graph under a symmetric overlay, distances are symmetric, so testing only the pairs with a < b is enough |
| Graphs.CappedDist | src/callback.py:126-130 | the distance from a, capped at s+1: it is reachable when <= s, and nothing shorter is |
| Graphs.Induced | src/callback.py:58-59 | the induced subgraph has exactly the arcs of G between members of V |
| Graphs.Component | src/callback.py:61-70 | the component of S in G[V] is the least subset of V that contains S and is closed under V-neighbours |
| Graphs.ComponentSame | src/callback.py:69-75 | two vertices of one component have the same component, so components partition the cluster |
| Graphs.DisconnectedWitness | src/callback.py:61-72 | a disconnected G[V] leaves some vertex of V outside the anchor's component |
| Separator.Boundary | src/callback.py:9-10 | the scanned boundary lists exactly N(T), the vertices outside T with a neighbour in T, in ascending order |
| Separator.FischettiSeparator | src/callback.py:8-32 | the search from b returns the boundary vertices it visited, and the visited set is the least set holding b that is closed under expansion of non-boundary vertices; each vertex is marked once |
| Separator.ExpandLevel | src/callback.py:18-28 | one BFS level queues only newly marked vertices, leaves only the queued ones unexpanded, keeps the visited set inside every closed set holding b, and marks each vertex once |
| Separator.BoundaryTrimSeparates | src/callback.py:12-30 | once the arcs out of the visited boundary are blocked, any walk to b starts at a visited vertex outside T and N(T) |
| Separator.SeparatorCutsComponent | src/callback.py:77-78 | the returned separator cuts every vertex of the component T off from b, for walks of any length |
| Reduction.DirectedUnblockExact | src/callback.py:90-105 | in the directed view, resetting c's out-arcs gives exactly the overlay of the other blocked vertices, so the in-place update is the pure overlay |
| Reduction.UndirectedUnblockWithin | src/callback.py:146-149 | in the undirected view, resetting c's edges never blocks more than the overlay of the other blocked vertices |
| Reduction.Reduce | src/callback.py:79-107 | the reduced separator is an order-preserving sub-list of C; if C kept a more than s from b, so does the result; every kept vertex is needed |
| Reduction.UndirectedReduceAsWritten | src/callback.py:134-162 | the undirected reduction with shared edge weights, as written: a sub-list of C whose final weights lie within the overlay of the kept vertices, which stays separating, and whose last trial's overlay lies within the overlay of C |
| Reduction.SharedReduceSound | src/callback.py:134-165 | the shared-weight reduction still returns a length-s separator |
| Reduction.SharedReduceNotMinimal | src/callback.py:146-162 | on a six-vertex graph with s = 5, the shared-weight reduction keeps [x, y], although {x} alone separates |
| Reduction.Prefilter | src/callback.py:119-132 | S' is, in ascending order, the vertices outside V with d(a, v) + d(b, v) <= s in G |
| Reduction.PrefilterSeparates | src/callback.py:119-135 | if a and b are more than s apart inside G[V], blocking S' keeps them more than s apart in G |
| Cuts.Cluster | src/callback.py:54-55 | V_j holds exactly the vertices with x[v, j] = 1 |
| Cuts.SepSum | src/callback.py:109-110 | the separator sum is zero iff no separator vertex lies in the cluster |
| Cuts.CutViolated | src/callback.py:109-110 | a separating record for an active label is violated by the candidate, in each of the four cut forms |
| Cuts.SeparatorMeetsClub | src/callback.py:164-165 | a length-s a,b-separator meets every s-club that contains a and b |
| Cuts.CutValid | src/callback.py:363-364 | every record's inequality holds for any candidate whose cluster j is empty or an s-club and that meets the linking constraint, so cuts never remove a feasible clustering |
| Scanner.ArgMin | src/callback.py:63-64 | the first position of a least entry |
| Scanner.SmallestIn | src/callback.py:63-67 | the chosen vertex's component is no larger than the component of any listed vertex |
| Scanner.Anchor | src/callback.py:63-67 | the anchor lies in V: it is the centre in the centring variant, and otherwise a vertex of a smallest component |
| Scanner.Reps | src/callback.py:69-75 | lists exactly the least vertex of each component that does not hold the anchor, in ascending order and so each once |
| Scanner.FarPairsOf | src/callback.py:121-125 | the intended pair list: exactly the pairs a < b of V more than s apart in G[V], each once |
| Scanner.SplitCut | src/callback.py:74-110 | the record for a component: a in it, b outside it, the separator outside V, separating and minimal in the directed view |
| Scanner.FarInCluster | src/callback.py:122-125 | a table that blocks no arc inside V, whether the cluster's own or a trial's, reports b more than s from a only if it is so in G[V]: a stale table can skip a far pair but never invents one |
| Scanner.WideRecord | src/callback.py:126-162 | the record for a far pair as written: a sub-list of S', outside V, keeping a and b more than s apart in the undirected view; the table the walk reads next blocks no arc inside V, and it is the old table only when S' is empty |
| Scanner.PairsFrom | src/callback.py:122-162 | the pair walk for one a, as written: every record is for a key b > a more than s from a in G[V] and separates it; no b gets two records; starting from the cluster's table, a gets a record whenever some key is a far partner |
| Scanner.PairsOver | src/callback.py:121-162 | the walk over the vertices of the cluster: every record separates a far pair a < b with a listed; for distinct vertices no pair repeats; every listed vertex with a far partner above it gets a record |
| Scanner.StaleTableSkipsPair | src/callback.py:122-154 | on a seven-vertex graph with V = {0,...,4} and s = 2, the walk for a = 0 emits only (0, 3), although (0, 4) is 3 apart in G[V] and is in the intended pair list |
| Scanner.WideCutMinimal | src/callback.py:126-162 | the intended record for a far pair: outside V, separating, and minimal in the undirected view |
| Scanner.AllFarPairCuts | src/callback.py:119-165 | the intended records of a wide cluster: exactly one separating, minimal record per pair a < b more than s apart in G[V] |
| Scanner.SplitCuts | src/callback.py:69-110 | exactly one separating record per component without the anchor: the records' a are distinct and are exactly the representatives |
| Scanner.WideCuts | src/callback.py:119-165 | the records of a wide connected cluster as written: separating, for distinct pairs a < b more than s apart in G[V], and a vertex gets one iff it has a far partner above it |
| Scanner.RepExists | src/callback.py:61-75 | a disconnected cluster has a representative, so it gets at least one record |
| Scanner.FarPairExists | src/callback.py:116-125 | a connected cluster of diameter more than s has a far pair a < b, so it gets at least one record |
| Scanner.ScanCluster | src/callback.py:50-165 | label j gets records iff it is active and its non-empty cluster is not an s-club; every record is violated and separating; a disconnected cluster gets exactly one record per component without the anchor; a connected one gets records for distinct far pairs, at least one for every vertex with a far partner above it |
| Scanner.Scan | src/callback.py:36-165 | over all labels of the variant's domain, each record is violated and separating, and a label has records exactly when it is flagged |
| Validation.Flat | src/check_solution.py:12 | the entries of all clusters: v is listed iff some cluster holds v |
| Validation.Vertices | src/check_solution.py:13 | the vertex set 0..n-1, of size n |
| Validation.PartitionTestMeaning | src/check_solution.py:7-10 | the counting partition test accepts exactly the cluster lists whose entries are vertices, listed once each, covering all vertices |
| Validation.CoverTestMeaning | src/check_solution.py:11-16 | the cover test accepts exactly the lists whose entries are vertices and that list every vertex |
| Validation.PartitionIsCover | src/check_solution.py:7-16 | every partition passes the cover test |
| Validation.OverlapCovers | src/check_solution.py:7-16 | an overlapping list passes the cover test and fails the partition test |
| Validation.TestInRange | src/check_solution.py:7-17 | passing either test puts every entry in range before the per-cluster loop |
| Validation.TestOrderFree | src/check_solution.py:7-16 | both tests depend only on the multiset of clusters |
| Validation.ClusterCheck | src/check_solution.py:21-27 | one cluster: it raises iff it is empty or disconnected, and is accepted iff it is an s-club |
| Validation.CheckClusters | src/check_solution.py:20-28 | the loop raises iff some cluster raises, and accepts iff all clusters are s-clubs |
| Validation.CheckSolution | src/check_solution.py:5-29 | a failed test gives False; otherwise the check raises iff some cluster raises, and returns True iff every cluster is an s-club |
| Validation.CheckOrderFree | src/check_solution.py:5-29 | reordering the clusters changes neither whether the check raises nor its verdict |
| Heuristic.AppendFresh | src/heuristic.py:48-50 | appending an unassigned vertex to one part and marking it keeps the parts disjoint and the marks exact |
| Heuristic.Take | src/heuristic.py:46-50 | a part takes exactly the candidates not yet assigned, in order; no other part changes; every candidate ends up marked |
| Heuristic.PowerNeighbours | src/heuristic.py:45-47 | the neighbours of h in G^k: the other vertices within k hops, ascending |
| Heuristic.Round | src/heuristic.py:44-50 | after round k, every vertex within k hops of some head is assigned, and every part stays within k of its head |
| Heuristic.WithinMono | src/heuristic.py:44-50 | being within k of the head stays true for larger k |
| Heuristic.AssignEven | src/heuristic.py:39-50 | one part per selected vertex, headed by it; parts are disjoint and within s/2 of their head; if the selection dominates G^(s/2), every vertex is placed |
| Heuristic.CliqueClusters | src/heuristic.py:106-117 | cluster i holds exactly the vertices of clique i that no earlier clique lists |
| Heuristic.Absorb | src/heuristic.py:123-130 | a part absorbs every unassigned neighbour of its cluster; afterwards all those neighbours are assigned and the parts stay disjoint |
| Heuristic.AssignOdd | src/heuristic.py:106-130 | the clusters and parts are disjoint; each part is its cluster followed by neighbours of it; if every vertex is in or next to a selected clique, every vertex is placed |
| Divide.WarmStart | src/s_club_ext_label.py:64-82 | sets start 1 exactly on (v, j) for v in a cluster and j among its labels, and raises iff a non-empty cluster has a label at or beyond maxK |
| Divide.FreshLabelsIncrease | src/s_club_ext_label.py:79-80 | root-free clusters get strictly increasing labels |
| Divide.LabelsApart | src/s_club_ext_label.py:71-82 | a root-free cluster shares no label with any other cluster |
| Divide.TruncHalf | src/s_club_ext_label.py:163 | the middle is x/2 truncated toward zero: within 1 of x/2, rounding toward zero on either side |
| Divide.MiddleInside | src/s_club_ext_label.py:162-163 | the probe of a bracket at least two wide lies strictly inside it |
| Divide.NarrowProbe | src/s_club_ext_label.py:151-163 | with no roots, the bracket (-1, 0) is probed at 0, where floor division would give -1 |
| Divide.Step | src/s_club_ext_label.py:173-183 | a found solution is counted and kept; INFEASIBLE raises the bottom, OPTIMAL lowers the top, any other status leaves both |
| Divide.OtherStatusStalls | src/s_club_ext_label.py:177-185 | a status other than the three known ones never narrows the bracket |
| Divide.FoundSnoc | src/s_club_ext_label.py:173-176 | counter and best solution follow the answers one by one |
| Divide.BracketStep | src/s_club_ext_label.py:161-185 | one round keeps the bracket within [R-1, maxK], with its ends the initial ones or probes with the matching answer, and every INFEASIBLE probe at or below it and every OPTIMAL probe at or above it |
| Divide.SearchStep | src/s_club_ext_label.py:161-185 | one round keeps the whole search invariant: the trace, no earlier TIME_LIMIT, counter and best, the bracket and the probe range |
| Divide.DivideAndConquer | src/s_club_ext_label.py:147-185 | at least one probe; the trace is the solver's answers; it ends on TIME_LIMIT or width <= 1, with no earlier TIME_LIMIT; counter and best summarise the answers; the bracket facts; every probe in R..maxK-1 when maxK > R |
| Divide.FixBounds | src/s_club_ext_label.py:209-212 | ub becomes 0 on all vertices for labels k..maxK-1, and nothing else changes |
| Divide.RestoreBounds | src/s_club_ext_label.py:225-227 | ub becomes 1 on the same region, and nothing else changes |
| Divide.InitialBounds | src/s_club_ext_label.py:139-143 | the bounds before any probe: a key per (vertex, label), and 1 on every label from R on |
| Divide.FixRestore | src/s_club_ext_label.py:209-227 | restoring undoes fixing when every fixed bound was 1 before |
| Divide.ProbesRestoreInitial | src/s_club_ext_label.py:139-227 | a probe with k >= R leaves the initial bounds, zero-fixing included, exactly as they were |
| Reader.ParseInt | src/read.py:10 | a token is read iff it is an optional sign followed by a digit run; the value's sign follows the sign character |
| Reader.ParseShow | src/read.py:10 | reading back the decimal text of any integer gives that integer |
| Reader.TokenExamples | src/read.py:23 | leading zeros, a plus sign and single underscores between digits are accepted; a bare sign and doubled or trailing underscores are not |
| Reader.TokenAt | src/read.py:10 | a token is read iff it exists and parses; otherwise the error says whether it was missing or not an integer |
| Reader.Below | src/read.py:13 | the empty graph on n >= 0 vertices has exactly the vertices 0..n-1 |
| Reader.ScanNeighbours | src/read.py:19-25 | a line raises at its first non-integer token; otherwise the edges grow by exactly (k, t-1) for each listed t with k < t-1, and no edge repeats |
| Reader.ReadGraph | src/read.py:5-28 | raises iff the header has a bad token, the vertex count is negative, or one of the n lines has a bad token, at the first in reading order; otherwise the edges are distinct, and (a, b) is an edge iff a < b, a < n and line a+1 lists b+1; the vertices are 0..n-1 plus every endpoint |
| Reader.EdgeLine | src/read.py:42-45 | a line gives the edge of its first two tokens, or the first error in reading order |
| Reader.EdgeLines | src/read.py:41-45 | succeeds iff every one of the lines does, giving one edge per line in order; otherwise raises the error of a line all of whose predecessors succeed |
| Reader.ReadTxt | src/read.py:31-46 | m comes from the second header token; the result has max(m, 0) edges, edge k read from line k+1, and succeeds iff each of those lines does; otherwise it raises the header's error or that of the first failing line |
| Reader.ReadWriteTxt | src/read.py:31-46 | reading a written edge list gives back its edges |

## Left out

- Gurobi itself is not modelled: the models, variables, objective, `optimize`, lazy-constraint registration and solution pools. The oracle receives the candidate's 0/1 values as sets. The driver receives the solver as a function from (round, label count) to an answer.
- Floating-point comparisons with 0.5 are left out; the candidate is 0/1.
- Printing, `sys.exit` and file opening are left out, as is `read_files` dispatch by extension. So is the `convert_node_labels_to_integers` relabelling in `read_txt`, which is a library call whose order networkx fixes.
- networkx set iteration order is not modelled. Where the source takes `list(S)[0]` or iterates a set, the model takes ascending order. The choice of b and a can therefore differ from a real run, but the contracts hold for every such choice.
- G is taken to be undirected and simple. The oracle's `to_directed` copy is the directed view of the same adjacency lists.
- The order in which cuts are passed to the solver is left out, and so is the cross-iteration persistence of edge weights. Every reduction resets all weights first, so that state is dead.
- Reader.ParseInt: Python's `int` also accepts non-ASCII decimal digits and surrounding whitespace. Tokens come from `split()`, so the whitespace never arises; the non-ASCII digits are not modelled.
- Validation.CheckOrderFree: reordering the clusters can change which exception is raised, empty versus disconnected, because the first raising cluster decides. Only whether the check raises, and its verdict, are stated order-free.
- Divide.DivideAndConquer: it requires every solver answer to have one of the three known statuses. Any other status never narrows the bracket (`Divide.OtherStatusStalls`), so the source loop need not terminate, and a terminating Dafny method cannot model that run. The status check after the loop (lines 188-198) is only its `sys.exit` branch.
- Divide.DivideAndConquer: the middle is computed as an exact integer truncation. The source uses the float `(last + first) / 2`, which agrees for every label count a model can hold.
- Divide.WarmStart: it states when the warm start raises, not which (vertex, label) pair the error names.
- Divide.ProbesRestoreInitial: it covers probes with k >= R. When maxK == R the only probe is R-1. The restore then sets the bounds of label R-1 back to 1, which undoes its zero-fixing. The loop ends after that probe anyway, so nothing observes it.
- Heuristic.AssignEven: it states the final bound, every part within s/2 of its head. It does not state the per-round bound of i+1 hops after round i, beyond what `Heuristic.Round` states.
- Phase I of both heuristics (the dominating-set and clique-cover programs) is left out, and so is the `check_solution` call at their end. Their outputs, the selected vertices and cliques, are parameters.
- Reduction.Prefilter: it assumes every vertex outside V is reachable from a and from b, which holds when G is connected. On a disconnected G the source's lookup `distance_from_a_in_G[v]` at callback.py:130 (also 259, 383, 513) raises KeyError. The model instead drops such a vertex from S', as a distance above s would.
- Scanner.PairsFrom: the key order of the table from a is a parameter. The contract states which records are sound and that a vertex with a far partner gets one; which later far pairs a stale table skips is shown only on the concrete graph of `Scanner.StaleTableSkipsPair`.
- Maximal-clique enumeration (`nx.find_cliques`) and the power graphs used to select cliques are left out. The cliques are a parameter.

## Findings

The scan follows the code as written. The corrected members are proved beside it.

| source | as written | input that shows it | evidently intended | confidence | as-written member | corrected member |
|---|---|---|---|---|---|---|
| src/callback.py:134-162 (also 266-290, 387-415, 517-540) | in undirected G the weight of edge {c, w} is one shared record, so unblocking c resets the edges to still-blocked neighbours w, and a later test can pass through a blocked vertex | six vertices a=0, b=1, x=2, d1=3, d2=4, y=5; edges a-x, x-b, a-y, y-d1, d1-x, x-d2, d2-b; s=5; C=[x, d1, d2, y] reduces to [x, y], yet {x} alone keeps a and b more than 5 apart | a minimal length-s separator: each kept vertex needed against the overlay of the other kept vertices | not executed | Reduction.SharedReduceNotMinimal | Reduction.Reduce |
| src/callback.py:122-154 (also 251-283, 376-409, 505-534) | the reduction stores each trial's distances in `distance_from_a`, the name of the table the pair walk reads for the later b of the same a; after a's first record, later pairs are tested against the last trial's weighted distances in G | seven vertices, edges 0-1, 1-2, 2-3, 2-4, 0-5, 5-3, 0-6, 6-4; V_j = {0, 1, 2, 3, 4}; s = 2; keys in order 0..4: (0, 3) gets C = [5], the last trial leaves 0-6-4 light, so (0, 4) is skipped although it is 3 apart in G[V_j] | every pair a < b more than s apart in G[V_j] gets a record | not executed | Scanner.StaleTableSkipsPair | Scanner.AllFarPairCuts |
