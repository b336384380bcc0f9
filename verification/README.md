# Shortest-path search engines of dijkstra-vs-astar, in Dafny

This project models the search core of the `dijkstra-vs-astar` C++ sources. It also proves what each variant computes.

- **Graphs.** A graph is an adjacency list `seq<seq<Edge>>` with `nat` weights. `Dist` is `Fin(n)` or `Inf`, where `Inf` stands for the programs' INF sentinel.
- **Distances.** Every result is stated against one ghost definition: `Delta(g, s, v)`, the cost of a cheapest walk from `s` to `v`, or `Inf` when no walk exists (`graphs.dfy`).

The modules follow the sources:

| module | file | models |
|---|---|---|
| `GraphIO` | graph_io.dfy | `read_graph`'s edge insertion, both undirected and directed. Also `reconstruct_path`. |
| `PriorityQueue` | priority_queue.dfy | the lazy `std::priority_queue` of `(key, vertex)` pairs. |
| `BinaryHeap` | binary_heap.dfy | `MinBinaryHeap`: `sift_up`, `sift_down`, `push`, `pop`, `decrease` and `index`. |
| `KeyedQueue` | keyed_queue.dfy | the Fibonacci heap, as a keyed map with `push`, `top`, `pop` and `update`. |
| `Settling` | settling.dfy | the invariants shared by every search that keeps a `vis`/`closed` array. |
| `LazySearch` | lazy_search.dfy | the lazy re-insertion loop. It is shared by `dijkstra_lazy`, the preprocessing `dijkstra`, `astar_best` and `astar_weighted`. |
| `DijkLazy` | dijk_lazy.dfy | `dijkstra_lazy`. |
| `DijkDecKey` | dijk_deckey.dfy | `dijkstra_dec_key`. |
| `DijkFib` | dijk_fib.dfy | `dijkstra_fib`. |
| `StaleSearch` | stale_search.dfy | the stale-key loop (`d > dist[u]`) with `prev` and the explored-edge log. |
| `DijkstraGenerated` | dijkstra_generated.dfy | the program of `Dijkstra_generated.cpp`. |
| `DijkGenerated` | dijk_generated.dfy | `run_dijk_generated` and its `main`. |
| `AStarWeighted` | astar_weighted.dfy | `astar_weighted`, with priority `g + w * h`. |
| `AStarAlt` | astar_alt.dfy | landmark selection, the landmark table, `MultiALT`, `astar_best` and `main`. |
| `Demo` | demo.dfy | the demo graph of `dijk_decKey.cpp` and `dijk_Fib.cpp`. |

Each search that keeps a `vis` array, including A* with a consistent heuristic, reaches exact labels through one settling argument. The label of the least frontier vertex is within the factor `num / den` of every walk to that vertex. So a settled label is exact when `num = den`.

- **Weighted A\*.** The weighted priority `g + (num / den) * h` is kept as the integer `den * g + num * h`. `AStarWeighted.PriorityOrder` shows this orders the frontier the same way.
- **Stale-key variant.** It has no `vis` array. It is proved through a ghost record of the settled vertices and their settle order. Each vertex's rank in that order also shows that `prev` has no cycle, so `reconstruct_path` stops.

Several copies of `read_graph` exist: in `helpers/graph_io.h`, `dijk_lazy.cpp`, `astar_alt.cpp` and `astar_weighted.cpp`. They all run the same edge-doubling loop, which `GraphIO.BuildUndirected` models.

Two places where the code's behaviour differs from a natural reading:

- **The first landmark.** `pick_landmarks` takes the first landmark with `max_element` over doubles. INF ranks highest there, so an unreachable vertex is picked first if one exists. It is not "the farthest finite vertex". The model follows the code (`IsFirstMax`, with `Inf` on top).
- **Repeated landmarks.** The landmarks need not be distinct. The selection repeats a vertex only once every vertex is a landmark or at distance 0 from one (`AStarAlt.NextIsFresh`).

## Model

| member | source | states |
|---|---|---|
| GraphIO.BuildUndirected | helpers/graph_io.h:19-31 | For every triple `u v w`, in input order, `(v, w)` is appended to `G[u]` and `(u, w)` to `G[v]`. So `G[u]` is exactly the input's incident list of `u`, and the lists hold `2m` edges in total. |
| GraphIO.UndirectedSymmetric | helpers/graph_io.h:24-29 | An edge is in `G[u]` exactly when some triple lists it forwards or backwards. The graph is well formed, and every edge `u -> v` of weight `w` has a partner `v -> u` of weight `w`. |
| GraphIO.BuildDirected | dijkstra/Dijkstra_generated.cpp:37-45 | The directed build appends `(v, w)` to `adj[u]` only. `adj[u]` is the input's outgoing list of `u`, and there are `m` edges in total. |
| GraphIO.DirectedMembers | dijkstra/Dijkstra_generated.cpp:41-45 | An edge is in `adj[u]` exactly when some triple `u v w` lists it. The graph is well formed. |
| GraphIO.FollowPrev | helpers/graph_io.h:36-37 | The walk back from `target` starts at `target` and follows `prev` at every step. It ends at a vertex whose `prev` is -1. The ranks strictly decrease along it, so the loop stops. |
| GraphIO.ReconstructPath | helpers/graph_io.h:34-40 | The path is never empty and ends with `target`. Its first vertex has `prev == -1`, and each vertex is the `prev` of the next. It has no repeated vertex and at most `n` vertices. It is exactly `[target]` when `prev[target] == -1`. |
| GraphIO.Reverse | helpers/graph_io.h:38 | `std::reverse`: the result has the same length, and position `i` holds the input's element at `n - 1 - i`. |
| GraphIO.WritePairs | dijkstra/Dijkstra_generated.cpp:90-95 | The loop takes the path's first vertex as `u`. For each later vertex `v` it writes `(u, v)` and moves `u` to `v`. So a path of `k >= 1` vertices gives exactly its `k - 1` consecutive pairs, in path order. |
| PriorityQueue.PopMin | dijkstra/dijk_lazy.cpp:57-58 | `top(); pop();` returns an entry no larger than any other in `(key, vertex)` order. It removes one copy of that entry and nothing else, as multisets. |
| BinaryHeap.Empty | dijkstra/dijk_decKey.cpp:45 | The new heap is valid and empty, with room to index `N` vertices, and its view holds no vertex. |
| BinaryHeap.ViewEntry | dijkstra/dijk_decKey.cpp:13-14 | In a valid heap, the index maps `v` to key `k` exactly when the entry `(k, v)` is stored. |
| BinaryHeap.SiftUp | dijkstra/dijk_decKey.cpp:15-24 | From an array ordered except between slot `i` and its parent, `sift_up` restores the heap order. The entries stay the same as a multiset, every slot's vertex is indexed at that slot, and the index of each vertex outside the heap is untouched. |
| BinaryHeap.SiftDown | dijkstra/dijk_decKey.cpp:25-42 | From an array ordered except between slot `i` and its children, `sift_down` restores the heap order. The entries stay the same, every slot's vertex is indexed at that slot, and the index of each vertex outside the heap is untouched. |
| BinaryHeap.Push | dijkstra/dijk_decKey.cpp:47-53 | The caller must supply an absent `v`. The result is valid, grows by exactly the entry `(k, v)`, has `index(v) != -1`, and maps `v` to `k`. |
| BinaryHeap.Pop | dijkstra/dijk_decKey.cpp:54-65 | On a non-empty heap, `pop` returns the root, whose key is minimal. Exactly that entry is removed, and the popped vertex becomes absent. Every other vertex keeps its key. |
| BinaryHeap.RootIsLeast | dijkstra/dijk_decKey.cpp:54-56 | In heap order the root's key is no larger than any stored key. |
| BinaryHeap.Decrease | dijkstra/dijk_decKey.cpp:66-73 | If `v` is present with a larger key, only `v`'s key changes, to `k`. Otherwise the heap is returned unchanged. |
| BinaryHeap.Index | dijkstra/dijk_decKey.cpp:74 | The result is -1 exactly when no slot holds `v`. Otherwise it is the slot that holds `v`. |
| BinaryHeap.Swap | dijkstra/dijk_decKey.cpp:19-21 | `swap` with re-indexing, also used at lines 37-39. The two slots exchange entries and all other slots are kept, so the multiset is unchanged. Each moved vertex is indexed at its new slot, and every other vertex's index is untouched. |
| KeyedQueue.LeastExists | dijkstra/dijk_Fib.cpp:14-15 | A non-empty queue has a node that is least under the pair order of `greater<Node>`. |
| KeyedQueue.Top | dijkstra/dijk_Fib.cpp:26 | `top()` is a node of the queue, carrying its own key, and no node is smaller. |
| KeyedQueue.Push | dijkstra/dijk_Fib.cpp:38 | Pushing a vertex without a node adds exactly that node. Every other node is unchanged. |
| KeyedQueue.Update | dijkstra/dijk_Fib.cpp:40 | `update` re-keys the existing node of `v` to `k`. Every other node is unchanged, and the size stays the same. |
| KeyedQueue.Pop | dijkstra/dijk_Fib.cpp:27 | `pop()` removes the top node and nothing else. |
| Settling.Start | dijkstra/dijk_lazy.cpp:48-53 | Initially only `dist[s] = 0` is finite and nothing is settled. The queue's contents are `{s: 0}`, and every invariant holds. |
| Settling.SettleWithin | dijkstra/dijk_lazy.cpp:57-61 | Suppose the heuristic is consistent and `den <= num`. Then an unsettled vertex of least priority has a label within the factor `num / den` of every walk to it from `s`. |
| Settling.Frontier | dijkstra/dijk_lazy.cpp:55-81 | Take a walk from `s` to an unsettled vertex `v`. Some unsettled labelled vertex has priority at most `num` times the walk's cost plus `h(v)`. This is the frontier argument behind every exactness result. |
| Settling.Settle | dijkstra/dijk_lazy.cpp:61 | Marking the popped vertex settled keeps every invariant, leaving only its own edges to relax. It also removes exactly that vertex from the open labels. |
| Settling.RelaxKeep | dijkstra/dijk_lazy.cpp:75 | A failed test `!vis[v] && d + w < dist[v]` leaves the edge relaxed as it stands. |
| Settling.RelaxLower | dijkstra/dijk_lazy.cpp:75-78 | Lowering `dist[v]` to `d + w` for an unsettled `v` keeps the relaxation, settled-bound and walk-witness invariants. |
| Settling.OpenLower | dijkstra/dijk_decKey.cpp:96-100 | Lowering an unsettled label changes exactly that vertex's entry among the open labels. |
| Settling.AllReachableSettled | dijkstra/dijk_lazy.cpp:55 | Suppose the loop ran until no unsettled vertex has a label. Then every vertex reachable from `s` is settled. |
| Settling.ExactWhenSettled | dijkstra/dijk_lazy.cpp:71-72 | A settled vertex has its shortest distance. So does a vertex unreachable from `s`, whose label stays `Inf`. |
| Settling.WitnessedAchieved | dijkstra/dijk_lazy.cpp:77 | Every finite label is the cost of an actual walk from `s`. |
| LazySearch.PushLowered | dijkstra/dijk_lazy.cpp:77-78 | After `dist[v] = d + w; pq.emplace(dist[v], v)`, every unsettled labelled vertex has an entry keyed by its current priority. No entry of an unsettled vertex undercuts its label. |
| LazySearch.RelaxOne | dijkstra/dijk_lazy.cpp:75-79 | `dist[v]` drops to `d + w` exactly when `v` is unsettled and `d + w < dist[v]`. Labels never rise, and settled labels never change. |
| LazySearch.Expand | dijkstra/dijk_lazy.cpp:73-80 | After scanning `G[u]`, every edge out of a settled vertex is relaxed. Labels never rise, and settled labels are unchanged. |
| LazySearch.DiscardSettled | dijkstra/dijk_lazy.cpp:59-60 | Discarding a popped entry of a settled vertex keeps the frontier invariants. |
| LazySearch.SettleLeast | dijkstra/dijk_lazy.cpp:57-61 | The least entry of an unsettled vertex carries exactly its current priority. Settling it keeps every invariant. |
| LazySearch.Search | dijkstra/dijk_lazy.cpp:42-91 | In the lazy loop, `dist[s] = 0` and every finite label is a walk's cost. Unreachable vertices stay `Inf`, and a reachable `t` gets settled. Without a stop, every reachable vertex is settled. With a consistent `h` and `den <= num`, settled labels are within `num / den`. `nodes` counts settled vertices, at most `n`. |
| DijkLazy.DijkstraLazy | dijkstra/dijk_lazy.cpp:42-91 | `dist[s] = 0`. `dist[t]` is the shortest distance when `t` is a vertex. With `t = -1`, every entry is. Unreachable vertices are `Inf`, and `nodes <= n`. |
| DijkDecKey.PoppedUnsettled | dijkstra/dijk_decKey.cpp:87-89 | The heap holds exactly the open labels. So the popped root is unsettled, its key is its label, and no unsettled label is smaller: the `vis[u]` skip never fires. |
| DijkDecKey.PushOrDecrease | dijkstra/dijk_decKey.cpp:96-100 | Pushing when `index(v) == -1`, and decreasing otherwise, leaves the heap holding exactly the open labels, with `v`'s lowered. |
| DijkDecKey.RelaxOne | dijkstra/dijk_decKey.cpp:93-101 | An edge lowers `dist[v]` exactly when `v` is unsettled and `d + w < dist[v]`. Settled labels never change, and the heap still holds one entry per open vertex. |
| DijkDecKey.Expand | dijkstra/dijk_decKey.cpp:93-101 | After scanning `G[u]`, all settled edges are relaxed, labels have not risen, and the heap matches the open labels. |
| DijkDecKey.DijkstraDecKey | dijkstra/dijk_decKey.cpp:77-104 | `dist[s] = 0`. `dist[t]` is the shortest distance when `t` is a vertex. With `t = -1`, every entry is. Unreachable vertices are `Inf`. |
| DijkFib.TopUnsettled | dijkstra/dijk_Fib.cpp:26-29 | The top node is an unsettled vertex keyed by its label, and no unsettled label is smaller. So the `vis[u]` skip never fires. |
| DijkFib.PushOrUpdate | dijkstra/dijk_Fib.cpp:36-40 | A vertex without a handle is pushed, and one with a handle is updated in place. Afterwards the queue holds exactly the open labels, and a vertex has a handle exactly when it has a label. |
| DijkFib.RelaxOne | dijkstra/dijk_Fib.cpp:33-41 | `update` or `push` is issued only for an unsettled `v` with a strictly smaller `d + w`. Settled labels never change, and there is one node per open vertex. |
| DijkFib.Expand | dijkstra/dijk_Fib.cpp:33-41 | After scanning `G[u]`, all settled edges are relaxed and the queue matches the open labels. |
| DijkFib.DijkstraFib | dijkstra/dijk_Fib.cpp:12-44 | `dist[s] = 0`. `dist[t]` is the shortest distance when `t` is a vertex. With `t = -1`, every entry is. Unreachable vertices are `Inf`. |
| DijkFib.SameAsDecKey | dijkstra/dijk_Fib.cpp:24-42 | On the same graph and source, `dijkstra_fib` and `dijkstra_dec_key` agree: at `t`, or on the whole vector when `t = -1`. |
| Demo.DemoDistances | dijkstra/dijk_decKey.cpp:107-115 | The distances from 0 in the demo graph are 0, 1, 3 and 4. |
| Demo.DemoRuns | dijkstra/dijk_Fib.cpp:47-55 | On the demo graph, both searches return `[0, 1, 3, 4]`, so `dist[3] == 4`. |
| StaleSearch.LogMembers | dijkstra/dijk_generated.cpp:50 | A pair is in the log exactly when it is `(u, v)` for a settled `u` and an edge of `u` to `v`. |
| StaleSearch.DiscardStale | dijkstra/dijk_generated.cpp:33 | Skipping a popped entry with `d > dist[u]` keeps the queue invariants. |
| StaleSearch.SettleCurrent | dijkstra/dijk_generated.cpp:32-33 | A least entry that is not stale carries `u`'s label, and `u` was not settled before. Settling `u` keeps the scan, tree, queue and settle-order invariants, with the popped key as the new floor. |
| StaleSearch.LowerUnsettled | dijkstra/dijk_generated.cpp:38 | An improving edge never leads to a settled vertex. |
| StaleSearch.RelaxStale | dijkstra/dijk_generated.cpp:35-51 | `dist[v] = dist[u] + w`, `prev[v] = u` and a push happen exactly on a strict improvement. Otherwise nothing changes. In both cases `(u, v)` is appended to the log. |
| StaleSearch.ExpandStale | dijkstra/dijk_generated.cpp:35-52 | Scanning `G[u]` appends `(u, v)` for each edge, in scan order. Settled labels are unchanged. |
| StaleSearch.ScannedFeasible | dijkstra/dijk_generated.cpp:35-46 | When every labelled vertex has been scanned, no edge can still lower a label. |
| StaleSearch.SettleScan | dijkstra/dijk_generated.cpp:32-52 | A pop that is not stale settles one more vertex and keeps the loop invariant, with the popped key as the new floor. It appends exactly that vertex's scan to the log. |
| StaleSearch.Step | dijkstra/dijk_generated.cpp:31-53 | Let `e` be the least entry. It is skipped exactly when it is stale, that is `d > dist[u]`. A skip leaves `dist`, `prev`, the settled set and the log unchanged and removes exactly `e` from the queue. Otherwise one more vertex is settled and the log grows by exactly `e`'s vertex's scan. The loop invariant holds after either. |
| StaleSearch.ExhaustedExact | dijkstra/dijk_generated.cpp:31 | When the queue is empty, witnessed labels that relax every edge are the shortest distances. |
| StaleSearch.Search | dijkstra/dijk_generated.cpp:17-57 | The stale-key loop runs until the queue is empty and returns every shortest distance. `prev[v] == -1` exactly for `s` and unreached vertices. Otherwise `prev[v]` ends a label-achieving edge into `v`, and `prev` is acyclic. The log is the scans of all reached vertices, each settled once, in non-decreasing label order. |
| StaleSearch.PathFromSource | helpers/graph_io.h:34-40 | The reconstructed path to a reached vertex starts at `s`. Each consecutive pair is an edge that achieves the labels. |
| DijkstraGenerated.ExploredSet | dijkstra/Dijkstra_generated.cpp:67-68 | The explored set holds exactly the pairs `(u, v)` with `u` reached and an edge `u -> v`. |
| DijkstraGenerated.PairsTreePath | dijkstra/Dijkstra_generated.cpp:78-96 | For a reached target, the emitted pairs chain from the start to the target along label-achieving edges. |
| DijkstraGenerated.TreePathWalk | dijkstra/Dijkstra_generated.cpp:87-96 | The emitted pairs trace a walk from the start whose cost is the target's label. |
| DijkstraGenerated.EmitPath | dijkstra/Dijkstra_generated.cpp:78-96 | No pairs are emitted when `dist[target]` is INF. Otherwise the pairs are the `prev` chain: each pair is `(prev[v], v)`, and they form a start-to-target walk of cost `dist[target]`. |
| DijkstraGenerated.Run | dijkstra/Dijkstra_generated.cpp:22-104 | The graph is built directed, and the labels are exact from the start. The explored set is as stated above. A reached target's pairs are a shortest path, and an unreached target gets none. |
| DijkGenerated.RunDijkGenerated | dijkstra/dijk_generated.cpp:17-57 | `t` is never consulted, so every label is exact. The caller's log grows by the scans of all reached vertices, in non-decreasing label order. `prev` is as in `StaleSearch.Search`. |
| DijkGenerated.Program | dijkstra/dijk_generated.cpp:59-77 | The graph is undirected, with labels exact from 0. The path to `n - 1` is never empty and has no repeats. It is `[n - 1]` when that vertex is unreached, and otherwise a tree path from 0. |
| AStarWeighted.PriorityOrder | astar/astar_weighted.cpp:56-80 | The integer priority `den * g + num * h` orders any two vertices exactly as `g + w * h` does, with `w = num / den`. |
| AStarWeighted.AStarWeighted | astar/astar_weighted.cpp:42-90 | Every finite `g[v]` is a walk's cost, so it is at least the shortest distance. A reachable `t` is reached. With a consistent `h` and `w >= 1`, `g[t] <= w * d(s, t)`. `nodes_expanded <= n`. |
| AStarWeighted.UnweightedIsLazy | astar/astar_weighted.cpp:42-90 | With `w = 1` and `h = 0`, `astar_weighted` and `dijkstra_lazy` agree at `t` when `t` is a vertex, which is the value `main` prints. They agree on the whole vector when `t = -1`. |
| AStarAlt.Dijkstra | astar/astar_alt.cpp:44-71 | The preprocessing search returns the shortest distance from `s` to every vertex, with `Inf` for unreachable ones. |
| AStarAlt.MaxElement | astar/astar_alt.cpp:82 | `max_element` returns the first position of a largest entry, with `Inf` above every number. |
| AStarAlt.FirstMaxUnique | astar/astar_alt.cpp:95 | The first largest position is unique, so the choice is deterministic. |
| AStarAlt.MinDist | astar/astar_alt.cpp:93 | `min` is one of its arguments, and no larger than either. |
| AStarAlt.FoldLandmark | astar/astar_alt.cpp:88-94 | Folding one more landmark's distances into `d_min` gives the distance from the enlarged landmark set. |
| AStarAlt.PickLandmarks | astar/astar_alt.cpp:74-99 | It returns `max(k, 1)` vertices. The first is the first vertex farthest from 0. Each later one is the first vertex farthest from the landmarks before it. |
| AStarAlt.AppendLandmark | astar/astar_alt.cpp:95-96 | `L.push_back(nxt)` keeps the earlier landmarks. The whole list keeps the property that each landmark after the first is the first vertex farthest from those before it. |
| AStarAlt.NextIsFresh | astar/astar_alt.cpp:86-97 | While some vertex is not at distance 0 from the landmarks, the next pick is not already a landmark. |
| AStarAlt.PreprocessLandmarks | astar/astar_alt.cpp:102-115 | The table has one row per landmark, and `dist[i][v]` is the distance from `L[i]` to `v`. |
| AStarAlt.MultiAltGoalDistances | astar/astar_alt.cpp:124-131 | A `MultiALT` built from the landmark table holds, in `distLt[i]`, landmark `i`'s true distance to the goal. It is therefore the heuristic for that goal that the consistency and admissibility results assume. |
| AStarAlt.Term | astar/astar_alt.cpp:137 | `fabs(dist_from_L[i][v] - distLt[i])` is the absolute difference of two finite distances. It is infinite when exactly one is infinite. When both are infinite the value is NaN, which never beats `best`, so it is counted as 0. |
| AStarAlt.Raise | astar/astar_alt.cpp:138-139 | `if (val > best) best = val` leaves the larger of the two, and the result is one of them. |
| AStarAlt.Best | astar/astar_alt.cpp:132-142 | `h(v)` is at least 0 and at least every landmark term. It equals 0 or one of the terms. |
| AStarAlt.Eval | astar/astar_alt.cpp:132-142 | `operator()(v)` is at least 0 and at least every landmark's term. It is 0 or one of the terms, so it is their maximum with 0. |
| AStarAlt.GoalZero | astar/astar_alt.cpp:132-142 | `h(t) == 0`. |
| AStarAlt.LandmarkEdge | astar/astar_alt.cpp:137 | On a symmetric graph, the distances from a landmark to the two ends of an edge differ by at most its weight. |
| AStarAlt.BestEdge | astar/astar_alt.cpp:132-142 | Across an edge `u -> v` of weight `w`, `h(u) <= w + h(v)`. `h` is infinite at both ends or at neither. |
| AStarAlt.AltConsistent | astar/astar_alt.cpp:132-142 | On a symmetric graph, the ALT heuristic is consistent. |
| AStarAlt.AltAdmissible | astar/astar_alt.cpp:132-142 | On a symmetric graph, `h(v) <= d(v, t)` for every vertex, and `h` is finite wherever `t` can be reached. |
| AStarAlt.AltFinite | astar/astar_alt.cpp:159-181 | If `t` is reachable from `s`, every vertex the search can reach has a finite `h`. So each pushed key is the program's `g + h`. |
| AStarAlt.AStarBest | astar/astar_alt.cpp:146-192 | Every label is a walk's cost, and `g[t]` is finite exactly when `t` is reachable. With the ALT heuristic of a symmetric graph, `g[t]` is the shortest distance. `nodes <= n`. |
| AStarAlt.AgreesWithDijkstra | astar/astar_alt.cpp:158-183 | With the ALT heuristic, `astar_best` returns the same `g[t]` as `dijkstra(G, s)`. |
| AStarAlt.AltProgram | astar/astar_alt.cpp:195-215 | `main` builds the undirected graph and picks 8 landmarks. The printed `d[t]` for `t = n - 1` is the shortest distance from 0. |

## Left out

- Floating point: weights and distances are `nat`, and INF is `Dist.Inf`. The datasets use whole metres, and `Dijkstra_generated.cpp` reads `int` weights.
- The 32-bit `float` landmark table: `preprocess_landmarks` rounds to `float`, but the table here is exact. `float` rounding does not exist in the model.
- `MultiALT`'s NaN: `|inf - inf|` is NaN, and NaN loses every comparison. It is modelled by its effect on the maximum: the term counts as 0 (`AStarAlt.Term`). No other NaN behaviour is modelled.
- `AStarAlt.AStarBest`: the search reads an infinite `h(v)` as 0, although the program would push an infinite key. `AltFinite` shows this matters only when `t` is unreachable from `s`, on a symmetric graph (every graph `read_graph` builds). The program then pops its infinite keys in vertex order. The model pops them by label, so only `g[t]` (which is `Inf`) is promised in that case, not the other labels.
- `euclid` and its `sqrt` in `astar_weighted.cpp`: the heuristic is a given `seq<nat>`, and the coordinates are not read.
- Weights and `w`: `w` is a fraction `num / den`, and the default 1.5 is `3 / 2`. Irrational weights cannot be written.
- Integer width: the `int` INF sentinel of `Dijkstra_generated.cpp` and overflow of `dist[u] + w` are not modelled. The integers are unbounded.
- `dijk_generated.cpp` keys: the heap there holds `int` keys built from `double` distances. With fractional weights this truncates keys, so stale entries can be re-expanded. With `nat` weights the keys equal the labels.
- Relaxation base in `LazySearch`: `LazySearch.RelaxOne` relaxes with `dist[u]`, as `astar_best` (astar/astar_alt.cpp:179) and `astar_weighted` do with `g[u]`. `dijkstra_lazy` and the preprocessing `dijkstra` use the popped key `d` instead (dijkstra/dijk_lazy.cpp:75, astar/astar_alt.cpp:64). For Dijkstra the two are equal: `LazySearch.SettleLeast` shows that the popped key is `u`'s label. `DijkDecKey` and `DijkFib` relax with the popped `d`, as their sources do.
- `Dijkstra_generated.cpp`'s hard-coded start 100 and target 250: `DijkstraGenerated.Run` takes the start and target as parameters and requires them to be vertices. The program would index out of bounds otherwise.
- Negative `k` in `pick_landmarks`: `reserve(k)` would throw in C++. `PickLandmarks` returns one landmark for every `k <= 1`.
- The Fibonacci heap's internal structure (Boost): only its interface is modelled, as a keyed map.
- Input malformation: `read_graph` trusts its input. The model requires every endpoint to be a vertex (`TriplesIn`).
- File and stream I/O, `write_path`, `write_edges`, hard-coded paths and printing: these are not modelled. `main` is modelled with its inputs as parameters and its outputs as results.
- Timers, clocks, the sampled trace files and `getrusage`: not modelled. The `nodes` counters are modelled.
- The Python scripts and `helpers/timer.*`: plotting, data generation and clocks are outside the search core.
