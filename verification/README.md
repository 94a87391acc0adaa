# WeightedGraph in Dafny

A model of `WeightedGraph<V>`, a directed graph with non-negative integer
edge weights, and of its three traversals:

- **The store.** `addVertex`, `containsVertex`, `addEdge` and `getWeight`
  work over a map from each vertex to its outgoing edges, kept in insertion
  order.
- **Breadth-first and depth-first search.** `DoBFS` and `DoDFS` run from a
  start vertex until the end vertex is taken off the worklist.
- **Dijkstra's algorithm.** `DoDijsktra` finishes every vertex with its
  least cost from the start. It then reports the least-cost path to the end
  vertex, rebuilt from the predecessor map.

Observers get the same notifications in the same order, so each traversal
returns the one sequence of events they all see (module `Events`).
Exceptions become `Result` values, and `null` becomes `Option`.

## Modules

| file | module | contents |
|---|---|---|
| `wrappers.dfy` | `Wrappers` | `Option`, `Result` |
| `graph_store.dfy` | `GraphStore` | edges, the store, its invariant `Valid`, the four store operations |
| `walks.dfy` | `Walks` | walks, their weight, reachability, and potentials, the lower-bound argument behind Dijkstra |
| `events.dfy` | `Events` | the observer notifications |
| `search.dfy` | `Search` | BFS and DFS, with the loop invariant they share |
| `shortest_path.dfy` | `ShortestPath` | Dijkstra: selection, relaxation, the finished-set invariant, path reconstruction |
| `examples.dfy` | `Examples` | the three public tests, replayed on the model |
| `as_written.dfy` | `AsWritten` | the code as written, where it departs from its documentation (see Findings) |

The main part of the project models the behaviour the documentation
promises. Where the code does something else, `AsWritten` models the code
branch for branch, and a lemma shows an input on which the two differ.

### Search results

`Search.BFS` and `Search.DFS` share one loop body, `Search.Step`, and one
invariant, `Search.Exploring`. BFS takes the worklist's head. DFS takes its
top.

Neither search visits `end`. Each vertex is visited at most once, and every
visited vertex is reachable from `start`. `SearchOver` is sent exactly when
`end` is reachable. When it is not sent, every reachable vertex was visited.

`DoDFS` means to skip destinations that are already visited
(`graph/WeightedGraph.java:326`). It compares an `Edge` with vertices, so the
test always passes and every destination is pushed. The model pushes every
destination as well. The visited check when a vertex is taken off the stack
still filters, so the events are the same either way.

### Dijkstra results

`ShortestPath.Dijkstra` returns `DijkstraBegun`, then one `Finished` event
for each vertex. Each vertex appears exactly once, and `start` comes first at
cost 0. Each event carries the vertex's least walk cost, or `None` when the
vertex is unreachable. The costs come in non-decreasing order.

The last event, `DijkstraOver`, carries a path exactly when `end` is
reachable. That path follows a least-cost walk from `start` to `end`, and its
weight is the cost `end` was finished with.

For the six-vertex public test, every cost is proved: 0, 4, 3, 6, 8 and 14.
The reported path is proved to be exactly `0, 1, 3, 4, 5`.

## Model

| member | source | states |
|---|---|---|
| GraphStore.AddVertex | graph/WeightedGraph.java:83-97 | refused with a duplicate-vertex error exactly when the vertex is present; otherwise the new vertex has no edges, every old vertex keeps its list, and the store invariant is kept |
| GraphStore.AddEdge | graph/WeightedGraph.java:111-128 | refused exactly when an endpoint is missing or the weight is negative, with the matching error; otherwise the vertex set is unchanged, the edge is appended to `from`'s list only, and the invariant is kept |
| GraphStore.FindEdge | graph/WeightedGraph.java:172-181 | finds the first edge of the list that joins `from` to `to`, or reports that none does |
| GraphStore.GetWeight | graph/WeightedGraph.java:151-187 | refused exactly when an endpoint is missing; `None` exactly when no edge joins the two vertices; otherwise the weight of the first joining edge in insertion order |
| GraphStore.EmptyGraph | graph/WeightedGraph.java:65-72 | the store the constructor builds: no vertices (a definition; `Examples.ContainsVertexTest` and `Examples.SixVerticesBuilt` start from it) |
| GraphStore.ContainsVertex | graph/WeightedGraph.java:104-109 | membership of the store's key set (a definition; its behaviour under updates is stated by `GraphStore.ContainsAfterAddVertex` and `GraphStore.ContainsAfterAddEdge`) |
| GraphStore.ContainsAfterAddVertex | graph/WeightedGraph.java:90-109 | after adding `v`, `containsVertex(u)` holds iff `u` is `v` or was already contained |
| GraphStore.ContainsAfterAddEdge | graph/WeightedGraph.java:104-149 | adding an edge does not change which vertices are contained |
| GraphStore.AddVerticesContains | graph/WeightedGraph.java:83-109 | a run of `addVertex` calls succeeds iff the vertices are pairwise distinct and new; afterwards the contained vertices are exactly the old ones plus the added ones, and the old lists are untouched |
| GraphStore.FindEdgeAppend | graph/WeightedGraph.java:141-142 | appending an edge keeps an earlier match as the first; otherwise the new edge is found if it joins the pair |
| GraphStore.GetWeightAfterAddEdge | graph/WeightedGraph.java:129-187 | after `addEdge(a, b, w)` only the query `(a, b)` can change, and only from "no edge" to `w`; edges are directed, so `(b, a)` is unaffected |
| Walks.WalkExtend | graph/WeightedGraph.java:252-259 | a walk extended by an edge leaving its target is a walk to that edge's destination, heavier by that edge's weight |
| Walks.ReachableStep | graph/WeightedGraph.java:252-259 | a destination of an edge leaving a reachable vertex is reachable |
| Walks.ClosedKeepsWalks | graph/WeightedGraph.java:229-262 | a walk that starts in a set no edge leaves ends in that set |
| Walks.CrossingStep | graph/WeightedGraph.java:406-438 | a walk that leaves a set has an edge from inside the set to outside it |
| Walks.PotentialBound | graph/WeightedGraph.java:371-381 | a walk weighs at least the potential difference between its ends, when no edge undercuts the potential |
| Walks.TightWalk | graph/WeightedGraph.java:371-381 | a walk whose weight equals the potential difference uses only edges that are tight under the potential |
| Search.Targets | graph/WeightedGraph.java:252-260 | the pushed vertices are exactly the destinations of the list that are not skipped |
| Search.VisitEvents | graph/WeightedGraph.java:247-250 | as many events as visits; every event is a `Visit` of a vertex of the visit order, and every vertex of the order has its `Visit` |
| Search.TargetsReachable | graph/WeightedGraph.java:252-259 | every vertex pushed for a reachable vertex is a reachable vertex |
| Search.SearchTraceFacts | graph/WeightedGraph.java:213-263 | the events of a search are its begun event, then the visits in order, then `SearchOver` exactly when the end was found |
| Search.ExhaustedSearch | graph/WeightedGraph.java:229-262 | when the worklist runs dry without finding `end`, every reachable vertex has been visited and `end` is unreachable |
| Search.FoundStep | graph/WeightedGraph.java:234-242 | taking `end` off the worklist ends the search, with `end` reachable |
| Search.DropStep | graph/WeightedGraph.java:243 | dropping an already visited vertex keeps the search invariant |
| Search.VisitWork | graph/WeightedGraph.java:252-259 | after a visit the worklist still holds only reachable vertices |
| Search.VisitOrder | graph/WeightedGraph.java:243-245 | the visit order stays free of repeats and of `end`, and covers exactly the visited set |
| Search.VisitFrontier | graph/WeightedGraph.java:252-260 | every edge out of the visited set still leads to a visited vertex or to one on the worklist |
| Search.VisitStep | graph/WeightedGraph.java:243-261 | visiting a new vertex keeps the search invariant and shrinks the set of unvisited vertices |
| Search.Top | graph/WeightedGraph.java:305 | the popped vertex is on the stack |
| Search.Below | graph/WeightedGraph.java:305 | the stack is the rest with the top on it; the rest holds every other stacked vertex |
| Search.StartExploring | graph/WeightedGraph.java:219-227 | the initial worklist `[start]`, with nothing visited, satisfies the search invariant |
| Search.SearchOutcome | graph/WeightedGraph.java:189-212 | a stopped search yields the promised events: visits of reachable vertices only, `SearchOver` iff `end` is reachable, and otherwise a visit of every reachable vertex |
| Search.SearchFromEnd | graph/WeightedGraph.java:229-242 | a search from `end` itself sends no visit, only `SearchOver` |
| Search.Step | graph/WeightedGraph.java:229-261 | one loop iteration keeps the search invariant and makes progress: fewer unvisited vertices, or a shorter worklist |
| Search.BFS | graph/WeightedGraph.java:189-263 | begun first; distinct visits of reachable vertices other than `end`, `start` first; `SearchOver` last and exactly when `end` is reachable; without it, every reachable vertex visited |
| Search.DFS | graph/WeightedGraph.java:265-334 | the same guarantees for the depth-first search |
| ShortestPath.FollowsExtend | graph/WeightedGraph.java:467-485 | a vertex path that follows a walk still follows it when both are extended by one edge |
| ShortestPath.SelectMin | graph/WeightedGraph.java:376 | picks an unfinished vertex whose cost is no greater than that of any other candidate, with `None` as infinity |
| ShortestPath.MinIsOptimal | graph/WeightedGraph.java:376-377 | the cheapest unfinished vertex's cost is its least walk cost, so finishing it keeps every finished cost optimal |
| ShortestPath.FirstIsStart | graph/WeightedGraph.java:403-417 | the first vertex finished is `start`, at cost 0 |
| ShortestPath.FinishRanks | graph/WeightedGraph.java:417-421 | each finished vertex has exactly one `Finished` event, at the position its rank records |
| ShortestPath.FinishOrder | graph/WeightedGraph.java:417-421 | the finished costs stay in non-decreasing order |
| ShortestPath.FinishFloor | graph/WeightedGraph.java:417-421 | no unfinished vertex is cheaper than a cost already reported |
| ShortestPath.FinishEvents | graph/WeightedGraph.java:417-421 | finishing the cheapest vertex keeps all event invariants |
| ShortestPath.FinishPredEdges | graph/WeightedGraph.java:417 | finishing a vertex keeps every predecessor backed by an edge of the store |
| ShortestPath.FinishPredRanks | graph/WeightedGraph.java:417 | predecessors stay finished strictly earlier than the vertices they precede |
| ShortestPath.RelaxTarget | graph/WeightedGraph.java:426-430 | an edge that lowers a cost never leads to a finished vertex or to `start`, so the commented-out finished test is not needed |
| ShortestPath.RelaxEvents | graph/WeightedGraph.java:428-432 | lowering an unfinished vertex's cost keeps the event invariants |
| ShortestPath.RelaxCosts | graph/WeightedGraph.java:428-432 | a lowered cost is the weight of a recorded walk, and finished costs stay optimal |
| ShortestPath.RelaxPredDomain | graph/WeightedGraph.java:432-435 | exactly the reached vertices other than `start` have a predecessor |
| ShortestPath.RelaxPredEdges | graph/WeightedGraph.java:432-435 | a new predecessor is joined to its vertex by an edge that accounts for the new cost |
| ShortestPath.RelaxPredRanks | graph/WeightedGraph.java:435 | a new predecessor is finished before its vertex |
| ShortestPath.RelaxedAfterLowering | graph/WeightedGraph.java:430-432 | lowering an unfinished vertex's cost keeps every finished vertex's edges relaxed |
| ShortestPath.RelaxPrefix | graph/WeightedGraph.java:424-438 | each edge examined leaves that edge relaxed, together with the earlier ones |
| ShortestPath.RelaxDone | graph/WeightedGraph.java:424-438 | after its whole list is examined, the finished vertex's edges are relaxed |
| ShortestPath.Backtrack | graph/WeightedGraph.java:467-480 | following predecessors back from a vertex ends at a vertex without predecessor, each step a predecessor link |
| ShortestPath.ReconstructPath | graph/WeightedGraph.java:467-485 | a path is reported only when the chain reaches `start`, and then runs from `start` to `end` along predecessor links; conversely, when `start` has no predecessor, any predecessor chain from `start` to `end` is exactly the path reported; without a path, some root other than `start` is `end` or a predecessor |
| ShortestPath.BacktrackUnique | graph/WeightedGraph.java:467-480 | the chain walked back from `v` is the only predecessor chain ending at `v` whose first vertex has no predecessor |
| ShortestPath.ChainIsBacktrack | graph/WeightedGraph.java:467-480 | a predecessor chain starting at a vertex without predecessor equals the chain walked back from its last vertex |
| ShortestPath.ChainIsWalk | graph/WeightedGraph.java:467-485 | a predecessor chain from `start` follows a walk whose weight is the cost of its last vertex |
| ShortestPath.AllFinished | graph/WeightedGraph.java:406-441 | once every vertex is finished, every cost is the least walk cost from `start` |
| ShortestPath.PathFacts | graph/WeightedGraph.java:355-363 | the rebuilt path exists iff `end` is reachable, and then follows a least-cost walk ending at `end` |
| ShortestPath.FinalEvents | graph/WeightedGraph.java:348-353 | the events of a finished run list every vertex once, with its least cost, in non-decreasing order |
| ShortestPath.InitialState | graph/WeightedGraph.java:389-403 | costs of 0 at `start` and infinity elsewhere, with no predecessors, satisfy the loop invariant |
| ShortestPath.FinishState | graph/WeightedGraph.java:408-421 | finishing the cheapest unfinished vertex keeps the loop invariant |
| ShortestPath.RelaxEdges | graph/WeightedGraph.java:423-438 | relaxing the finished vertex's edges keeps the invariant, relaxes all its edges, and changes no finished cost |
| ShortestPath.FinishVertex | graph/WeightedGraph.java:406-438 | one round keeps the invariant and finishes one more vertex |
| ShortestPath.FinishRest | graph/WeightedGraph.java:406-441 | the main loop ends with every vertex finished and the invariant kept |
| ShortestPath.FinalState | graph/WeightedGraph.java:443-490 | the events and the reported path of a finished run meet both promises of `Dijkstra` |
| ShortestPath.Dijkstra | graph/WeightedGraph.java:336-368 | every vertex finished once with its least cost, `start` first at 0, costs non-decreasing; the final path exists iff `end` is reachable and follows a least-cost walk |
| Examples.ContainsVertexTest | tests/PublicTests.java:10-22 | after adding A to D, all four are contained and E is not |
| Examples.LettersWithEdgesBuilt | tests/PublicTests.java:24-35 | the five `addEdge` calls of the second test succeed and build the expected store |
| Examples.EdgesFromABuilt | tests/PublicTests.java:31-33 | the three edges out of A are added in order |
| Examples.LastTwoLetterEdgesBuilt | tests/PublicTests.java:34-35 | the edges B to C and D to C are added |
| Examples.GetWeightTest | tests/PublicTests.java:36-56 | every weight the test asserts, the two refused lookups, and the two missing edges |
| Examples.SixVerticesBuilt | tests/PublicTests.java:63-69 | the six `addVertex` calls of the Dijkstra test succeed |
| Examples.FirstTwoBuilt | tests/PublicTests.java:72-73 | the first two edges are added |
| Examples.FirstFourBuilt | tests/PublicTests.java:72-75 | the first four edges are added |
| Examples.NextTwoBuilt | tests/PublicTests.java:76-77 | the fifth and sixth edges are added |
| Examples.NextTwoFromFourBuilt | tests/PublicTests.java:78-79 | the seventh and eighth edges are added |
| Examples.LastThreeBuilt | tests/PublicTests.java:78-80 | the last three edges are added and complete the test store |
| Examples.AllNineEdges | tests/PublicTests.java:80 | the last edge completes the list of vertex 4 |
| Examples.PublicTestBuilt | tests/PublicTests.java:59-80 | all fifteen store calls of the Dijkstra test succeed and build the test store |
| Examples.PublicTestWeights | tests/PublicTests.java:82-91 | the nine weights the test asserts |
| Examples.PublicTestSize | tests/PublicTests.java:63-69 | the test store has six vertices |
| Examples.TestDistanceIsPotential | tests/PublicTests.java:93 | no edge of the test store undercuts the claimed distances |
| Examples.ShortestByWitness | tests/PublicTests.java:93 | a walk whose weight matches the claimed distance is a least-cost walk |
| Examples.NearDistances | tests/PublicTests.java:93 | the least costs of vertices 0 to 3 are 0, 4, 3 and 6 |
| Examples.PublicTestDistances | tests/PublicTests.java:93 | the least costs from 0 are 0, 4, 3, 6, 8 and 14 |
| Examples.TestTightEdge | tests/PublicTests.java:93 | exactly five edges of the test store are tight under the distances |
| Examples.TightChain | tests/PublicTests.java:93 | the only chain of tight edges from 0 to 5 is 0, 1, 3, 4, 5 |
| Examples.PublicTestPath | tests/PublicTests.java:93 | the only least-cost path from 0 to 5 is 0, 1, 3, 4, 5 |
| Examples.ShortestUnique | graph/WeightedGraph.java:348-353 | a vertex has one least cost |
| Examples.FinishedWithShortest | graph/WeightedGraph.java:348-353 | a finished run reports each vertex with its least cost |
| Examples.ReportedPathCost | graph/WeightedGraph.java:355-363 | when `end` is reachable at least cost `c`, the reported path has weight `c` |
| Examples.PublicTestEvents | tests/PublicTests.java:93 | on the test store, the costs reported are 0, 4, 3, 6, 8 and 14 |
| Examples.PublicDijkstraTest | tests/PublicTests.java:59-93 | the Dijkstra test's run reports the six least costs and the path 0, 1, 3, 4, 5 of weight 14 |
| AsWritten.Int32Add | graph/WeightedGraph.java:428 | Java `int` addition: the result lies in the 32-bit range, is congruent to the sum modulo 2^32, and equals it when the sum is in range |
| AsWritten.AddVertexAsWritten | graph/WeightedGraph.java:90-97 | refused iff the vertex is present; otherwise it is filed with no list |
| AsWritten.AddEdgeAsWritten | graph/WeightedGraph.java:129-149 | refused only when both endpoints are missing and the weight is negative; otherwise `from` becomes a key and the edge is appended to its list |
| AsWritten.AddEdgeAcceptsForbiddenEdges | graph/WeightedGraph.java:131 | any call the documentation forbids but that passes one of the three tests is accepted and stores the edge |
| AsWritten.AddEdgeAsWrittenExample | graph/WeightedGraph.java:131-142 | an edge from an unknown vertex, and a negative weight, are both stored |
| AsWritten.FirstWeight | graph/WeightedGraph.java:172-181 | the weight of the first joining edge of the list (no earlier edge joins the pair), or none when none joins |
| AsWritten.GetWeightAsWritten | graph/WeightedGraph.java:166-187 | refused iff an endpoint is missing; fails on `null` iff `from` has no list; otherwise the first joining weight |
| AsWritten.GetWeightOnNewVertexThrows | graph/WeightedGraph.java:170-173 | looking up a weight from a vertex without edges dereferences `null`; the corrected store answers "no edge" |
| AsWritten.Qualifies | graph/WeightedGraph.java:412-416 | the selection test as written: unfinished and cheaper than `Integer.MAX_VALUE`, the never-lowered `smallestCost` (a definition) |
| AsWritten.Scan | graph/WeightedGraph.java:408-416 | the selection loop as written, over the keys in iteration order (a definition; its result is stated by `AsWritten.ScanPicksLast`) |
| AsWritten.RoundAsWritten | graph/WeightedGraph.java:406-438 | one round of the main loop as written (a definition; its outcome is stated by `AsWritten.RoundAsWrittenSelects` and `AsWritten.RoundStep`) |
| AsWritten.ScanPicksLast | graph/WeightedGraph.java:408-416 | the selection returns the last qualifying key in iteration order, not the cheapest, and `null` when none qualifies |
| AsWritten.RelaxAsWritten | graph/WeightedGraph.java:423-438 | relaxation keeps the cost map's keys and never removes a predecessor |
| AsWritten.InitialRun | graph/WeightedGraph.java:397-403 | `start` at 0, every other vertex at `Integer.MAX_VALUE` |
| AsWritten.RoundAsWrittenSelects | graph/WeightedGraph.java:406-438 | a round with no qualifying key throws; a round that returns finishes and reports the last qualifying key |
| AsWritten.PublicTestRawLists | tests/PublicTests.java:64-80 | the lists of the test store as written; vertex 5 has none |
| AsWritten.RoundStep | graph/WeightedGraph.java:408-438 | a round that selects `k` and relaxes its list finishes `k` with its current cost |
| AsWritten.RelaxLowers | graph/WeightedGraph.java:428-436 | a cheaper sum lowers the destination's cost and sets its predecessor |
| AsWritten.RelaxKeeps | graph/WeightedGraph.java:430 | a sum that is not cheaper changes nothing |
| AsWritten.TestRound0Reached | graph/WeightedGraph.java:397-403 | the state before the first round on the test store |
| AsWritten.TestRound1Reached | graph/WeightedGraph.java:406-438 | round one finishes 0 and lowers 1 to 4 and 2 to 3 |
| AsWritten.TestRound2Reached | graph/WeightedGraph.java:406-438 | round two finishes 2 rather than the cheaper 1 |
| AsWritten.TestRound3Reached | graph/WeightedGraph.java:406-438 | round three finishes 3 at cost 10 while its least cost is 6 |
| AsWritten.TestRound4Reached | graph/WeightedGraph.java:406-438 | round four finishes 4 at cost 12 |
| AsWritten.TestRound5Throws | graph/WeightedGraph.java:424 | round five selects 5, whose list is `null`, and throws |
| AsWritten.TestReported | graph/WeightedGraph.java:417-421 | after three rounds the reported costs are 0, 3 and 10 for vertices 0, 2 and 3 |
| AsWritten.PublicTestRunAsWritten | graph/WeightedGraph.java:406-438 | on the Dijkstra test the code reports vertex 3 at 10 though its least cost is 6, and round five throws |
| AsWritten.UnreachableVertexThrows | graph/WeightedGraph.java:408-424 | with an unreachable vertex left, no key qualifies and the round dereferences `null` |
| AsWritten.ReconstructAsWritten | graph/WeightedGraph.java:467-485 | on any predecessor map, a loop that ends within the fuel reports a predecessor chain ending at `end` whose first vertex has no predecessor, whether or not that is `start` |
| AsWritten.ReconstructAsWrittenEnds | graph/WeightedGraph.java:471-480 | on a predecessor map ordered by a decreasing rank, the loop ends within `rank[end] + 1` steps with the chain the corrected `Backtrack` finds |
| AsWritten.CycleNeverEnds | graph/WeightedGraph.java:471-480 | from either of two vertices that are each other's predecessor, the loop does not end for any fuel |
| AsWritten.CycleUnranked | graph/WeightedGraph.java:471-480 | two vertices that are each other's predecessor admit no decreasing rank |
| AsWritten.ReconstructUnreachableAsWritten | graph/WeightedGraph.java:467-485 | an `end` without predecessor other than `start` is reported as the path `[end]`, which does not start at `start`; the corrected reconstruction reports no path |
| AsWritten.NonVertexEndAsWritten | graph/WeightedGraph.java:406-485 | with the single vertex `A` and a loop on it, the main loop ends after one round and the non-vertex `Z` is reported as the path `[Z]` |
| AsWritten.CycleStoreBuilt | graph/WeightedGraph.java:129-149 | `addVertex(A)`, `addVertex(B)`, `addEdge(A, B, 1)`, `addEdge(B, A, w)` are all accepted for every `w`, negative included |
| AsWritten.NegativeAndWrappedSums | graph/WeightedGraph.java:428 | `1 + (-5)` and, by the 32-bit wrap, `1 + Integer.MAX_VALUE` are both negative |
| AsWritten.CyclicPredecessorsAsWritten | graph/WeightedGraph.java:406-480 | when `1 + w` is negative as an `int`, Dijkstra from `A` finishes both vertices, makes `A` and `B` each other's predecessor, and the reconstruction from `B` never ends |

## Left out

- Observers. `observerList` and `addObserver` (`graph/WeightedGraph.java:62`, `:79-81`) are replaced by the returned event sequence. Every observer gets the same calls in the same order.
- The two `System.out.println` calls of `DoDijsktra` (`:447-448`) are left out, because they are output only.
- `graph/MazeGraph.java` is not part of this model. It is a client that builds a graph from a maze's cells and wall weights with `addVertex` and `addEdge`, and queries it; it adds no graph operation of its own.
- Vertices are Dafny `char`s in the test examples, where the tests use one-letter `String`s. Equality is the only operation the graph needs.
- The store is an immutable value, so no query or traversal can change it. The code gives the same guarantee by never writing to the map outside `addVertex` and `addEdge`.
- ShortestPath.SelectMin: when costs tie, it may pick any cheapest vertex. The code's choice depends on `HashMap` iteration order, which is not modelled. Ties change the order of equal-cost events and possibly which least-cost path is reported, but not the costs.
- ShortestPath.Dijkstra: costs are unbounded `nat`s, and `None` is an infinite cost. `Integer.MAX_VALUE` and 32-bit wrap-around appear only in `AsWritten`.
- ShortestPath.Dijkstra: requires `start` to be a vertex. When the store is non-empty, the code puts `start` in the cost map anyway and then dereferences its `null` list; this crash path is not modelled. On the empty store the main loop (`:406`) never runs and the code reports `[end]`, which the model does not cover either.
- ShortestPath.Dijkstra: when `end` is unreachable, the corrected model reports `None`. The code reports `[end]` (see Findings).
- Search.BFS: requires `start` to be a vertex unless it equals `end`. Otherwise the code visits `start` and then dereferences its `null` list. This crash path is not modelled.
- Search.DFS: the same requirement and the same omitted crash path as `Search.BFS`.
- Search.BFS and Search.DFS model the corrected store, where a vertex without edges has an empty list. As written, `addVertex` files `null` (`:94`), so `DoBFS` (`:253-254`) and `DoDFS` (`:325`) throw `NullPointerException` on visiting any vertex without outgoing edges (see Findings); the traversals on that `null` store are not modelled.
- AsWritten.ReconstructAsWritten: the loop has no bound, so the model counts its steps with `fuel`; non-termination is stated as "no result for any fuel" (`AsWritten.CycleNeverEnds`).
- AsWritten.RoundAsWritten: a round that ends in `NullDereference` does not record the `notifyDijkstraVertexFinished` call the code makes (`:417-421`) before it throws at `:424`; the reported list is extended only by rounds that return.
- Search.BFS: the contract states which vertices are visited, not that they come in breadth-first order. The queue discipline appears only in the method's body.
- Search.DFS: the contract likewise does not state the depth-first visit order.
- ShortestPath.Backtrack and ShortestPath.ReconstructPath: each takes a ghost rank map as a termination argument. The code's loop terminates only because predecessors form a forest, which the rank map records.
- AsWritten.RelaxAsWritten: its contract states only that the keys are kept. Edge-by-edge behaviour is given by `AsWritten.RelaxLowers` and `AsWritten.RelaxKeeps`.

## Findings

| source | as written | input that shows it | evidently intended | confidence | as-written member | corrected member |
|---|---|---|---|---|---|---|
| graph/WeightedGraph.java:131 | the guard of `addEdge` joins its three tests with `\|\|`, so the edge is stored as soon as one test passes | `addEdge("X", "A", 5)` with only `A` a vertex stores an edge from the unknown `X`; `addEdge("A", "A", -5)` stores a negative weight | refuse unless both endpoints are vertices and the weight is non-negative (`&&`) | not executed | AsWritten.AddEdgeAcceptsForbiddenEdges | GraphStore.AddEdge |
| graph/WeightedGraph.java:94 | `addVertex` files a new vertex under `null`, and `getWeight` iterates over that `null` | `addVertex("A"); addVertex("B"); getWeight("A", "B")` throws `NullPointerException` instead of returning `null`; the same `null` makes `DoBFS` (`:253-254`) and `DoDFS` (`:325`) throw on visiting any vertex without outgoing edges, e.g. the second public test's store with `DoBFS(A, D)` dequeues `C` | a new vertex has an empty edge list | not executed | AsWritten.GetWeightOnNewVertexThrows | GraphStore.GetWeight |
| graph/WeightedGraph.java:408-416 | the selection loop never lowers `smallestCost`, so it picks the last unfinished key with a finite cost, not the cheapest | the Dijkstra public test finishes vertex 3 at cost 10 while its least cost is 6, then selects vertex 5 and throws on its `null` list | select the unfinished vertex of least cost | not executed | AsWritten.PublicTestRunAsWritten | ShortestPath.Dijkstra |
| graph/WeightedGraph.java:417-424 | when no unfinished vertex has a finite cost, `minVertex` stays `null`, and `graph.get(null)` is iterated | vertices `s` and `x` with edges `s -> s` and `x -> s`, from `s`: round two dereferences `null` | finish unreachable vertices with an infinite cost | not executed | AsWritten.UnreachableVertexThrows | ShortestPath.Dijkstra |
| graph/WeightedGraph.java:467-485 | reconstruction follows predecessors from `end` until one is missing, and reports that chain even when it does not reach `start` | store `{A}` with the edge `A -> A` of weight 1: `DoDijsktra(A, Z)` finishes `A` and reports `[Z]` for the non-vertex `Z` (an unreachable vertex `end` never gets here, because the main loop throws first) | report no path when `end` is unreachable | not executed | AsWritten.NonVertexEndAsWritten | ShortestPath.ReconstructPath |
| graph/WeightedGraph.java:471-480 | reconstruction loops until a vertex without predecessor, and the predecessor map can hold a cycle, because a negative weight passes the `:131` guard or `1 + w` wraps at `:428` | `addVertex(A); addVertex(B); addEdge(A, B, 1); addEdge(B, A, -5); DoDijsktra(A, B)` (or weight `Integer.MAX_VALUE` in place of `-5`) makes `A` and `B` each other's predecessor, and the loop never ends | predecessors form a forest, as with non-negative weights and unbounded sums, so the loop ends | not executed | AsWritten.CyclicPredecessorsAsWritten | ShortestPath.Dijkstra |
