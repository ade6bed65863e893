# Graph algorithms: shortest paths, centrality and hierarchical clustering

This project models the three algorithm files of a small C graph library and proves what they compute:

- **`Dijkstra` (dijkstra.dfy).** `dijkstra(g, src)` returns a `ShortestPaths` record. Its `dist` array holds the shortest distance from `src` to every vertex, or INFINITY. Its `pred` array holds, for every vertex, the list of *all* predecessors on a shortest path, so ties are kept.
  - The model keeps the C state: `dist` and `pred` are arrays updated in place, and the relaxation loop walks each out-list with a cursor.
  - The priority queue becomes a set of unextracted vertices. Each round picks *some* vertex of minimum distance, so the proofs hold whatever tie order the queue uses.
  - Proved: the final distances equal the minimum weight over all walks in the graph (INFINITY exactly when no walk exists). Every predecessor is sound and complete. A vertex `x` occurs in `pred[v]` exactly once per edge x→v that achieves `dist[v]`. `pred[v]` is empty exactly for `src` and unreachable vertices. Vertices are extracted once each, in non-decreasing order of distance.
  - So the result depends on the graph alone: two runs agree on every distance and on every predecessor multiset, and only the order inside a list can differ.
- **`CentralityMeasures` (centrality.dfy).**
  - Closeness uses the Wasserman and Faust formula.
  - Raw betweenness sums, over all pairwise-distinct (src, middle, dest) triples, the share of shortest src → dest paths that pass through the middle. The normalised version divides by (n-1)(n-2).
  - The path-counting recursions `numPaths` and `numPathFinder` are ghost functions over the predecessor DAG. They terminate because predecessors are strictly closer to the source.
  - The C routines that compute them are methods proved equal to those functions.
  - Both counts are proved equal to a count defined on the graph: the number of paths made of edges that achieve the distances. The betweenness values are therefore a function of the graph, whichever run of the engine they used.
  - The accumulating loops of the three public functions are methods over the `values` array.
- **`LanceWilliamsHAC` (hac.dfy).** Agglomerative clustering over an upper-triangular distance matrix.
  - The starting distance is `1/max(w(i→j), w(j→i))`, or INFINITY when the vertices are not adjacent.
  - The `Shape` class holds the `distance` matrix (`array2`), the `dendro` slots (`array`) and the linkage method.
  - `cluster` scans for the closest pair; `merge` links two slots into one dendrogram node and updates the matrix with single (min) or complete (max) linkage.
  - Proved: the invariant "an entry is non-zero iff it lies above the diagonal between two live slots" holds throughout. Each round removes one live slot. The result is a binary tree with the n vertices as leaves and n-1 link nodes.
- **`Graph` (graph.dfy).** The graph abstract data type the three files call. Each vertex has a sequence of `(neighbour, weight)` out-edges, with positive weights. It also defines walks and their weights, the reference notion for shortest distances.

Doubles become Dafny `real`, and INFINITY becomes a dedicated constructor (`Distance.Infinity`, `Dist.Inf`).

Two behaviours of the code differ from the textbook algorithm, and the model follows the code:

- `cluster` compares with `<=` (src/LanceWilliamsHAC.c:222-227), so a tie goes to the *last* pair in row-major order, not the first. With three mutually adjacent vertices of equal weight, the pair (1, 2) is merged first, not (0, 1). `TriangleFirstMerge` proves this.
- `max` treats INFINITY as an identity, like `min`, so complete linkage with an unconnected cluster keeps the finite distance (src/LanceWilliamsHAC.c:168-177).

## Model

| member | source | states |
|---|---|---|
| Dijkstra.InsertPred | src/Dijkstra.c:125-132 | The new node goes in front: the result is `x` followed by the old list, and its elements are `x` and the old ones |
| Dijkstra.SetupSPS | src/Dijkstra.c:106-120 | Fresh arrays of length n with `dist[src] = 0`, every other `dist[v] = INFINITY`, and every predecessor list empty |
| Dijkstra.Relax | src/Dijkstra.c:46-63 | One relaxation of edge u→v:<br>• leaves every other vertex unchanged;<br>• does nothing when `dist[u]` is INFINITY;<br>• never increases `dist[v]`;<br>• a strict improvement sets `dist[v] = alt` and `pred[v] = [u]`;<br>• a tie prepends `u` to `pred[v]`. |
| Dijkstra.RelaxEdge | src/Dijkstra.c:48-60 | The in-place update of the two arrays is exactly `Relax` of their old contents |
| Dijkstra.RelaxOutEdges | src/Dijkstra.c:42-63 | Walking all out-edges of the extracted vertex keeps the inner loop invariant. It leaves the distances of extracted vertices and of `u` unchanged. |
| Dijkstra.ProcessVertex | src/Dijkstra.c:40-63 | One round of the main loop: extracting a minimum vertex and relaxing its edges keeps the outer invariant, with that vertex moved from the queue to the done set |
| Dijkstra.ExtractAll | src/Dijkstra.c:40-65 | The main loop runs until the queue is empty. It extracts each vertex exactly once, in non-decreasing order of final distance. |
| Dijkstra.Dijkstra | src/Dijkstra.c:23-69 | The final result:<br>• every `dist[t]` is the shortest walk weight from `src`, or INFINITY iff `t` is unreachable;<br>• every predecessor `x` of `v` has an edge x→v with `dist[x] + w = dist[v]`;<br>• every such tight edge is recorded;<br>• `x` occurs in `pred[v]` exactly as many times as there are tight edges x→v;<br>• `pred[v]` is empty iff `v == src` or `v` is unreachable;<br>• vertices are extracted once each, in non-decreasing distance order. |
| Dijkstra.InitialState | src/Dijkstra.c:30-37 | After setup, with every vertex in the queue, the outer loop invariant holds |
| Dijkstra.ExtractPreserves | src/Dijkstra.c:41 | Dequeuing a minimum-distance vertex turns the outer invariant into the inner one |
| Dijkstra.RelaxPreserves | src/Dijkstra.c:46-63 | A relaxation step keeps the inner invariant and never changes the distance of an extracted vertex |
| Dijkstra.RelaxSkip | src/Dijkstra.c:50-51 | An edge out of an INFINITY vertex, or one that gives no improvement and no tie, changes nothing and keeps the invariant |
| Dijkstra.RelaxStrict | src/Dijkstra.c:51-56 | A strict improvement keeps the inner invariant |
| Dijkstra.StrictSound | src/Dijkstra.c:52-55 | After a strict improvement, `pred[v] = [u]` is a tight edge, so every predecessor entry stays sound |
| Dijkstra.StrictComplete | src/Dijkstra.c:52-55 | After a strict improvement, every tight processed edge is still recorded |
| Dijkstra.StrictRelaxed | src/Dijkstra.c:52 | After a strict improvement, every processed edge still satisfies `dist[t] <= dist[x] + w` |
| Dijkstra.RelaxTie | src/Dijkstra.c:57-59 | A tie keeps the inner invariant |
| Dijkstra.TieSound | src/Dijkstra.c:58 | Prepending `u` on a tie keeps every predecessor entry a tight edge |
| Dijkstra.TieComplete | src/Dijkstra.c:58 | Prepending `u` on a tie records the current edge and keeps the earlier ones |
| Dijkstra.CountInitial | src/Dijkstra.c:30-37 | With every list empty and no edge relaxed, every predecessor count matches the (zero) count of relaxed tight edges |
| Dijkstra.CountExtract | src/Dijkstra.c:41 | Dequeuing a vertex relaxes no edge, so the predecessor counts still match |
| Dijkstra.CountPreserves | src/Dijkstra.c:46-63 | After one relaxation, `x` occurs in `pred[v]` as often as the relaxed edges x→v that achieve the current `dist[v]` |
| Dijkstra.CountSkip | src/Dijkstra.c:50-51 | An edge that neither improves nor ties adds no tight edge and changes no list, so the counts still match |
| Dijkstra.CountTie | src/Dijkstra.c:57-59 | On a tie, prepending `u` adds one occurrence of `u`, matching the one new tight edge |
| Dijkstra.CountStrict | src/Dijkstra.c:51-56 | On a strict improvement, `pred[v] = [u]` matches the counts: exactly one relaxed edge, the current one, achieves the new `dist[v]` |
| Dijkstra.RelaxedNoTight | src/Dijkstra.c:51-56 | When the current edge improves `dist[v]` strictly, no edge relaxed before it reaches `v` with the new, smaller distance |
| Dijkstra.NoEarlierTie | src/Dijkstra.c:51-56 | After a strict improvement, each vertex has exactly as many relaxed tight edges into `v` as the new list `[u]` holds of it |
| Dijkstra.FinishPreserves | src/Dijkstra.c:46-64 | After all out-edges of `u` are relaxed, the outer invariant holds with `u` done |
| Dijkstra.CountFinish | src/Dijkstra.c:46-64 | Once all edges of `u` are relaxed, the counts match with `u` among the extracted vertices |
| Dijkstra.CountFinal | src/Dijkstra.c:40-68 | With the queue empty every edge is relaxed, so `x` occurs in `pred[v]` once per tight edge x→v of the graph |
| Dijkstra.OrderExtend | src/Dijkstra.c:41 | Appending the newly extracted vertex keeps the extraction order distinct and non-decreasing |
| Dijkstra.MinOf | src/Dijkstra.c:41 | The queue yields some vertex whose distance is no larger than any other in the queue |
| Dijkstra.LeTrans | src/Dijkstra.c:51 | The distance order, with INFINITY on top, is transitive |
| Dijkstra.FinalState | src/Dijkstra.c:40-68 | When the queue is empty: all edges are relaxed, the predecessor lists are sound and complete, the distances are the shortest ones, and the lists are empty exactly at `src` and at unreachable vertices |
| Dijkstra.SettledFromOuter | src/Dijkstra.c:40-65 | The loop invariant with an empty queue gives the settled-tree property |
| Dijkstra.SoundFromOuter | src/Dijkstra.c:51-59 | With an empty queue, every recorded predecessor is a tight edge between reached vertices |
| Dijkstra.SoundForget | src/Dijkstra.c:51-59 | Predecessor soundness with respect to a settled set implies plain soundness |
| Dijkstra.RelaxedFromOuter | src/Dijkstra.c:46-63 | With an empty queue, every edge out of a reached vertex satisfies `dist[t] <= dist[x] + w` |
| Dijkstra.CompleteFromOuter | src/Dijkstra.c:51-59 | With an empty queue, every tight edge is in the predecessor list of its target |
| Dijkstra.WalkLowerBound | src/Dijkstra.c:40-65 | Every walk from `src` to `t` weighs at least `dist[t]`, and `t` is reached |
| Dijkstra.ShortestWitness | src/Dijkstra.c:51-59 | Following predecessors yields a walk of weight exactly `dist[t]` |
| Dijkstra.SettledIsShortest | src/Dijkstra.c:20-22 | A settled tree's distances are the shortest-walk distances, and INFINITY iff unreachable |
| Dijkstra.SettledPredEmpty | src/Dijkstra.c:40-65 | In a settled tree, `pred[v]` is empty iff `v` is the source or unreachable |
| Dijkstra.ShortestDistanceUnique | src/Dijkstra.c:20-22 | Two values that are both the shortest distance from `src` to `t` are equal |
| Dijkstra.SettledDetermined | src/Dijkstra.c:40-65 | Two final results for the same graph and source have equal distances and, for every vertex, the same multiset of predecessors, so they differ at most in the order inside a list |
| CentralityMeasures.CreateNodeValues | src/CentralityMeasures.c:151-156 | `numNodes = n` and all n values are 0 |
| CentralityMeasures.PathCheck | src/CentralityMeasures.c:173-178 | True iff src, middle and dest are pairwise distinct |
| CentralityMeasures.SettledIsDag | src/CentralityMeasures.c:195-210 | A Dijkstra result is a predecessor DAG: each predecessor is strictly closer to the source, so the recursions terminate |
| CentralityMeasures.PredCloser | src/CentralityMeasures.c:201-207 | A predecessor has a strictly smaller distance and rank than its successor |
| CentralityMeasures.NumPaths | src/CentralityMeasures.c:195-210 | From the source of the result, the number of predecessor chains to dest is positive iff dest is reachable |
| CentralityMeasures.SumPaths | src/CentralityMeasures.c:201-207 | From the source, the sum over a predecessor list is positive iff the list is non-empty |
| CentralityMeasures.NumPathFinder | src/CentralityMeasures.c:213-229 | From the source, the chains through the middle are at most all the chains (`numPathFinder(p) <= numPaths(p)`) |
| CentralityMeasures.SumFinder | src/CentralityMeasures.c:218-225 | The same bound for the sums over a predecessor list |
| CentralityMeasures.CountPaths | src/CentralityMeasures.c:195-210 | `numPaths` computes `NumPaths`: 1 when dest == src, otherwise the sum over `pred[dest]` (0 for an empty list) |
| CentralityMeasures.FindPaths | src/CentralityMeasures.c:213-229 | `numPathFinder` computes `NumPathFinder`: `numPaths` when middle == dest, otherwise the sum over `pred[dest]` |
| CentralityMeasures.FinderIsProduct | src/CentralityMeasures.c:213-229 | The chains through the middle number (chains src→middle) × (chains middle→dest) |
| CentralityMeasures.SumFinderIsProduct | src/CentralityMeasures.c:218-227 | The same product law for the sum over a predecessor list |
| CentralityMeasures.TightCloser | src/CentralityMeasures.c:195-210 | An edge x→t that achieves `dist[t]` leaves a vertex strictly closer than `t` (weights are positive) |
| CentralityMeasures.SumPathsWeighted | src/CentralityMeasures.c:201-207 | Summing `numPaths` along a predecessor list equals summing it over the list's multiset, each vertex weighted by its occurrences |
| CentralityMeasures.CountIsPathCount | src/CentralityMeasures.c:195-210 | On any engine result over g, `numPaths` equals `PathCount` on g: 1 at the start vertex, else the sum over edges x→dest achieving `dist[dest]` of the count for x |
| CentralityMeasures.WeightedIsTight | src/CentralityMeasures.c:201-207 | Weighting by the predecessor multiset equals summing over the tight edges of g, since each predecessor occurs once per tight edge |
| CentralityMeasures.ShareByGraph | src/CentralityMeasures.c:181-192 | `calBetweeness` equals the share on g: `PathCount(src, m) * PathCount(m, dest) / PathCount(src, dest)`, or 0 when there is no path |
| CentralityMeasures.ShareDetermined | src/CentralityMeasures.c:181-192 | Two engine results for the same source give the same share for every triple |
| CentralityMeasures.Share | src/CentralityMeasures.c:181-192 | The share of one triple:<br>• lies in [0, 1];<br>• is 0 for an unreachable dest;<br>• is 1 when middle == dest and dest is reachable. |
| CentralityMeasures.RatioAtMostOne | src/CentralityMeasures.c:188-191 | `through/total` lies in [0, 1] when `through <= total` and `total > 0`, and equals 1 when they are equal |
| CentralityMeasures.CalBetweenness | src/CentralityMeasures.c:181-192 | `calBetweeness` returns 0 when no shortest path exists, and `through/total` otherwise |
| CentralityMeasures.DestSumBound | src/CentralityMeasures.c:98-108 | Summing over destinations is non-negative and zero when src == middle. It is at most the number of destinations distinct from src and middle. |
| CentralityMeasures.SrcSumBound | src/CentralityMeasures.c:94-110 | Summing over sources is non-negative and at most (sources other than m) × (n-2) |
| CentralityMeasures.DestSumDetermined | src/CentralityMeasures.c:98-108 | The destination sum is the same on any two engine results for the same source |
| CentralityMeasures.BetweennessDetermined | src/CentralityMeasures.c:94-110 | Raw betweenness is the same for any two rows of engine results, so it is a function of the graph |
| CentralityMeasures.SrcSumSnoc | src/CentralityMeasures.c:94-110 | Adding one more source adds that source's destination sum |
| CentralityMeasures.AddShares | src/CentralityMeasures.c:98-108 | The destination loop adds exactly that source's destination sum to `values[middle]` and leaves the other entries alone |
| CentralityMeasures.MiddleShares | src/CentralityMeasures.c:94-110 | The source loop leaves `values[middle]` equal to the raw betweenness of the middle, running Dijkstra once per source |
| CentralityMeasures.BetweennessCentrality | src/CentralityMeasures.c:82-113 | Each value is the sum of `calBetweeness` over all pathCheck-passing (src, m, dest) triples. It lies in [0, (n-1)(n-2)]. (`BetweennessDetermined` shows it does not depend on which engine results were used.) |
| CentralityMeasures.RawBounded | src/CentralityMeasures.c:82-113 | Every raw betweenness value lies in [0, (n-1)(n-2)] |
| CentralityMeasures.Normalise | src/CentralityMeasures.c:120-129 | Every value becomes `raw / ((n-1)(n-2))` when n > 2, and 0 otherwise |
| CentralityMeasures.Rescale | src/CentralityMeasures.c:121-129 | The loop multiplies every value by the factor, or sets it to 0 when n <= 2 |
| CentralityMeasures.NormaliseMeaning | src/CentralityMeasures.c:120-129 | Multiplying by the reciprocal of (n-1)(n-2) is the normalised value |
| CentralityMeasures.FactorMeaning | src/CentralityMeasures.c:120-125 | For n > 2, `normalise * raw == raw / ((n-1)(n-2))` |
| CentralityMeasures.NormalisedBounded | src/CentralityMeasures.c:117-132 | A raw value in [0, (n-1)(n-2)] normalises into [0, 1] |
| CentralityMeasures.BetweennessCentralityNormalised | src/CentralityMeasures.c:117-132 | Each value is the normalised raw betweenness, and lies in [0, 1] |
| CentralityMeasures.CountReached | src/CentralityMeasures.c:45-55 | `numVisted` is 1 plus the number of `j` with `dist[j]` neither 0 nor INFINITY, and `sumDistance` is the sum of those distances |
| CentralityMeasures.PrefixFacts | src/CentralityMeasures.c:48-55 | Over a prefix: the source is never counted, every counted distance adds at least 1, and the sum is 0 iff nothing is counted |
| CentralityMeasures.ReachedSomething | src/CentralityMeasures.c:66-68 | A non-zero distance sum implies at least two vertices, so `nV - 1` is not 0 |
| CentralityMeasures.CalCloseness | src/CentralityMeasures.c:161-169 | `r * (n-1) * D == (R-1)^2`, the Wasserman and Faust formula; `r` lies in [0, 1] when `2 <= R <= n` and `D >= R-1` |
| CentralityMeasures.ClosenessRatio | src/CentralityMeasures.c:161-169 | `(c^2/n1) * (1/D)` times `n1 * D` is `c^2`, and it lies in [0, 1] when `1 <= c <= n1` and `c <= D` |
| CentralityMeasures.Closeness | src/CentralityMeasures.c:45-69 | Closeness of a vertex lies in [0, 1]. It is 0 for a vertex with no in- or out-edges or one that reaches nothing. Otherwise `r * (n-1) * D == c^2`, where `c` is the number of other reached vertices and `D` the sum of their distances. |
| CentralityMeasures.ClosenessOf | src/CentralityMeasures.c:45-69 | Per vertex: 0 when it has no in- or out-edges, 0 when `sumDistance == 0`, otherwise `calCloseness` of the counts |
| CentralityMeasures.ClosenessCentrality | src/CentralityMeasures.c:34-73 | Each value is the closeness of the vertex computed from its own Dijkstra run, and lies in [0, 1] |
| CentralityMeasures.ShortestPathsFrom | src/CentralityMeasures.c:43 | A Dijkstra run from `s` yields a settled predecessor DAG with `dist[s] = 0` and predecessor counts equal to the tight-edge counts |
| Graph.InIncident | src/CentralityMeasures.c:57 | `Edge(u, w)` is in the incoming list of `v` iff `u` is a vertex with an out-edge `(v, w)` |
| LanceWilliamsHAC.Min | src/LanceWilliamsHAC.c:155-164 | Returns one of its arguments, no larger than either; INFINITY only when both are INFINITY |
| LanceWilliamsHAC.Max | src/LanceWilliamsHAC.c:168-177 | Returns one of its arguments: the finite one when the other is INFINITY, otherwise the larger |
| LanceWilliamsHAC.SingleBelowComplete | src/LanceWilliamsHAC.c:155-177 | `min(x, y) <= max(x, y)` |
| LanceWilliamsHAC.CalDistance | src/LanceWilliamsHAC.c:181-184 | The reciprocal of `max(x, y)`, positive when that maximum is |
| LanceWilliamsHAC.Link | src/LanceWilliamsHAC.c:262-266 | Single linkage is `min` and complete linkage is `max` |
| LanceWilliamsHAC.LinkLive | src/LanceWilliamsHAC.c:279-299 | Linking two live (non-zero, non-negative) entries gives a live entry, and two inactive ones an inactive one |
| LanceWilliamsHAC.NewDNode | src/LanceWilliamsHAC.c:201-208 | A leaf holding `v` with no children |
| LanceWilliamsHAC.NewLinkNode | src/LanceWilliamsHAC.c:188-196 | An internal node with `vertex = -1` whose leaves are those of both children, with one more internal node |
| LanceWilliamsHAC.LeavesCount | src/LanceWilliamsHAC.c:188-208 | A well-shaped dendrogram has one more leaf than it has link nodes |
| LanceWilliamsHAC.InitialSlotsFacts | src/LanceWilliamsHAC.c:72-76 | The initial slots hold each vertex once as a leaf, and all n are live |
| LanceWilliamsHAC.MergedSlots | src/LanceWilliamsHAC.c:246-251 | After a merge, slot `v1` holds the link node of the old `v1` and `v2` slots, slot `v2` is empty, and every other slot is unchanged |
| LanceWilliamsHAC.MergedSlotsFacts | src/LanceWilliamsHAC.c:246-251 | Merging two live slots keeps the multiset of leaves, removes one live slot, keeps every tree well shaped, and leaves `v1` live and `v2` empty |
| LanceWilliamsHAC.MergedLeaves | src/LanceWilliamsHAC.c:246-251 | Merging keeps the multiset of all leaves |
| LanceWilliamsHAC.MergedCount | src/LanceWilliamsHAC.c:246-251 | Merging removes exactly one live slot |
| LanceWilliamsHAC.MergedShaped | src/LanceWilliamsHAC.c:246-251 | Merging keeps every slot's tree well shaped |
| LanceWilliamsHAC.DirectWeightAbsent | src/LanceWilliamsHAC.c:70-86 | With no edge i→j the direct weight stays at its calloc value 0 |
| LanceWilliamsHAC.DirectWeight | src/LanceWilliamsHAC.c:80-86 | The entry is non-negative for positive weights, and a non-zero entry `w` is the weight of some edge i→j |
| LanceWilliamsHAC.DirectWeightLastEdge | src/LanceWilliamsHAC.c:82-85 | With parallel edges, the weight of the last edge i→j in the list wins |
| LanceWilliamsHAC.DirectDistances | src/LanceWilliamsHAC.c:80-86 | The `directDistance` matrix holds `DirectWeight(g[i], j)` for every pair |
| LanceWilliamsHAC.InitialEntry | src/LanceWilliamsHAC.c:90-101 | Entries on or below the diagonal are 0. Above it, an entry is non-zero and non-negative, and INFINITY iff neither direction has an edge. |
| LanceWilliamsHAC.InitialReciprocal | src/LanceWilliamsHAC.c:96-99 | A finite initial entry times `max(w(j→i), w(i→j))` is 1 |
| LanceWilliamsHAC.Shape.InitialDistances | src/LanceWilliamsHAC.c:90-102 | The filled matrix equals `InitialEntry` everywhere |
| LanceWilliamsHAC.Shape.constructor | src/LanceWilliamsHAC.c:62-107 | Leaves `0 .. n-1` in the slots and the initial matrix; the clustering invariant holds |
| LanceWilliamsHAC.Shape.InitialValid | src/LanceWilliamsHAC.c:72-101 | The initial slots and matrix satisfy the clustering invariant |
| LanceWilliamsHAC.Shape.ExhaustedIff | src/LanceWilliamsHAC.c:220-233 | Under the invariant, no non-zero entry is left iff fewer than two slots are live |
| LanceWilliamsHAC.Shape.FindClosest | src/LanceWilliamsHAC.c:214-230 | The scan returns -1 iff no non-zero entry remains. Otherwise it returns a minimum non-zero pair `a < b` that is strictly below every entry scanned after it, so ties go to the last pair. |
| LanceWilliamsHAC.Shape.Cluster | src/LanceWilliamsHAC.c:213-239 | Returns MERGED iff fewer than two slots were live, and then changes nothing. Otherwise it returns `a` and merges the closest pair `(a, b)`, keeping the invariant. |
| LanceWilliamsHAC.Shape.Merge | src/LanceWilliamsHAC.c:244-274 | After `merge(v1, v2)`:<br>• `dendro[v1]` is the new link node and `dendro[v2]` is empty;<br>• all of row and column `v2` is 0;<br>• each `(v1, k)` entry is the linkage of the old `(v1, k)` and `(v2, k)`;<br>• all other entries are unchanged;<br>• the invariant holds. |
| LanceWilliamsHAC.Shape.UpdateDistances | src/LanceWilliamsHAC.c:254-273 | The matrix loop zeroes column/row `v2`, links row `v1`, and changes nothing else |
| LanceWilliamsHAC.Shape.UpdateSlot | src/LanceWilliamsHAC.c:255-272 | One iteration for `i`: clears the `(v2, i)` entry and links the `(v1, i)` entry, touching no other cell |
| LanceWilliamsHAC.Shape.SingleLinkage | src/LanceWilliamsHAC.c:279-287 | The `(v1, count)` entry becomes the min of the old `(v1, count)` and `(v2, count)`; no other cell changes |
| LanceWilliamsHAC.Shape.CompleteLinkage | src/LanceWilliamsHAC.c:292-299 | The `(v1, count)` entry becomes the max of the old `(v1, count)` and `(v2, count)`; no other cell changes |
| LanceWilliamsHAC.Shape.ClusterRound | src/LanceWilliamsHAC.c:213-239 | A round either stops with fewer than two live slots or removes exactly one live slot, keeping the leaves |
| LanceWilliamsHAC.Shape.ClusterAll | src/LanceWilliamsHAC.c:108-121 | The driver loop ends with fewer than two live slots; `index` names a live slot; one merge per slot removed |
| LanceWilliamsHAC.FinalTree | src/LanceWilliamsHAC.c:116-121 | The one remaining slot is a well-shaped tree with leaves exactly `0 .. n-1` and n-1 link nodes |
| LanceWilliamsHAC.NewShape | src/LanceWilliamsHAC.c:62-107 | The initial shape holds all n vertices as live leaves and satisfies the invariant |
| LanceWilliamsHAC.LanceWilliamsHAC | src/LanceWilliamsHAC.c:54-135 | The returned dendrogram is a binary tree with the n vertices as leaves (each once) and n-1 link nodes, after exactly n-1 merges |
| LanceWilliamsHAC.TriangleDistances | src/LanceWilliamsHAC.c:90-101 | On the unit-weight triangle every initial entry is 1 |
| LanceWilliamsHAC.TriangleFirstMerge | src/LanceWilliamsHAC.c:222-227 | On that triangle the closest pair is (1, 2), the last one scanned |

## Left out

- `src/lw.c` is not part of this model. It duplicates the clustering step and is not a working variant.
- Printing and freeing are I/O and memory management:
  - printing: `showShortestPaths`, `printPred`, `showNodeValues`;
  - freeing: `freeShortestPaths`, `freePredList`, `freeDendrogram`, `freeNodeValues`;
  - allocation: `newPred` and the `malloc`/`calloc` bookkeeping.
  Predecessor lists are sequences, and dendrograms are an inductive datatype.
- The "Invalid graph", "Invalid source vertex" and "Invalid method" messages on `stderr` are not modelled. The model turns each into a precondition: a graph is given, `src < n`, and the linkage is one of the two methods.
  - After "Invalid graph" or "Invalid source vertex" the C carries on into undefined behaviour: a null graph or an out-of-range index.
  - After "Invalid method" the C carries on with defined behaviour, which the precondition excludes. `merge` still installs the link node, empties slot `v2` and zeroes its row and column, but updates no `v1` entry (src/LanceWilliamsHAC.c:254-273, with the method test at 260-264).
- `Graph.h` and `PQ.h` are not part of this model.
  - The graph is its vertex count, out-lists and in-lists.
  - The priority queue is a set of vertices with an arbitrary choice among those of minimum distance.
- INFINITY's concrete value (defined in a header not shown) and IEEE `double` semantics are abstracted. INFINITY is its own constructor. Rounding of `1/w`, of the quotients and of the running sums is not modelled, since `real` is exact.
- Dijkstra.Dijkstra: `alt = dist[u] + weight` is computed before the INFINITY test and can overflow `int` in C. The model uses unbounded integers, so 32-bit wrap-around is not modelled. Positive weights are required.
- Dijkstra.Dijkstra: the order of the entries inside a predecessor list is not stated. It depends on the order in which the queue extracts vertices of equal distance. `SettledDetermined` shows that this order is the only freedom.
- CentralityMeasures.CountPaths: `numPaths` is proved equal to `PathCount`, the count of paths made of edges that achieve the distances, not to an enumeration of walks of g. Like the C, `PathCount` counts parallel tight edges separately, while a walk in graph.dfy is a sequence of vertices and weights that does not tell them apart.
- CentralityMeasures.CountPaths: the C count is an `int` and can overflow on graphs with very many shortest paths. The model counts with unbounded integers.
- CentralityMeasures.FindPaths: the same `int` overflow is possible in the C `numPathFinder` and is not modelled.
- CentralityMeasures.CalCloseness: the C squares `numVisted - 1` in `int` before converting to `double`, which overflows above 46341 reached vertices. The model squares exactly.
- CentralityMeasures.Normalise: the factor `1/((n-1)(n-2))` is computed only when n > 2. The C computes it for every n, divides by zero when n is 1 or 2, and never uses that value.
- LanceWilliamsHAC.LanceWilliamsHAC: requires at least one vertex. With an empty graph the C reads `dendro[0]` of a zero-length allocation.
- The zero-weight case is not modelled: every graph is required to have positive weights. With zero-weight ties the predecessor recursions of `numPaths` can cycle, and the walk bound relies on it.
