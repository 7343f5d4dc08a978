# Single-source shortest paths: three engines, one thread

The repository computes single-source shortest-path distances over a directed
adjacency list `adj[u] = [(v, w), ...]` with three engines. Each engine lowers
a distance vector in place:

- **Wave relaxation** (`dijkstra_parallel`, main.cpp). It makes repeated passes
  over all vertices. In each pass, every unvisited vertex with a finite distance
  is marked visited and its edges are relaxed. It stops after a pass that lowers
  nothing.
- **Dial's bucket algorithm** (`dijkstra_openmp`, Dijkstra_Paralel1/main.cpp).
  Buckets are indexed by tentative distance, up to `max_dist = MAX_WEIGHT * V`.
  A cursor scans upward. A non-empty bucket is swapped out into a snapshot and
  its vertices' edges are relaxed. An improved vertex goes into the bucket of
  its new distance. The same file also has the edge key `hash_edge`.
- **Dijkstra with lazy deletion** (`parallel_dijkstra`,
  Dijkstra_Paralel1/dijkstra_parallel.cpp). A worker pops the least
  `(distance, vertex)` entry from a min-priority queue and skips it when it is
  stale. Otherwise it relaxes the vertex's edges and pushes every improvement.

Each engine is modelled as the schedule it runs on one thread. Every critical
section is one atomic step. The engines are Dafny methods over arrays, with
loop invariants. The distance vector is an `array<Dist>`, the visited flags an
`array<bool>`, and the bucket table an `array<seq<int>>`. The priority queue is
a sequence standing for the heap's multiset of entries.

`INF` is the value `Inf` of `datatype Dist = Fin(value: nat) | Inf`, which is
distinct from every length.

A graph is `WellFormed` when every edge target is a vertex and every weight is
non-negative. The sources never check this, so every engine requires it.

Modules:

- `Graphs` (graph.dfy): walks, their lengths, and reachability. Any walk can
  be shortened to fewer than V edges (pigeonhole).
- `Distances` (distances.dfy): the distance table. It defines soundness (every
  finite entry is the length of a real walk), "relaxed", and "shortest". It
  proves that a relaxed fixpoint is the table of shortest distances. It also
  holds the progress measure used for termination and the `-1` rendering.
- `WaveRelaxation` (wave_relaxation.dfy): the wave engine as written, its
  functional specification, and a counterexample to its optimality. It also
  has the corrected engine (see Findings).
- `DialBuckets` (dial_buckets.dfy): `hash_edge` and Dial's algorithm.
- `LazyDijkstra` (lazy_dijkstra.dfy): the priority-queue engine.

Two behaviours of the code as written:

- The shortest distances for edges (0,1,4), (0,2,1), (2,1,1), (1,3,1) from 0
  are `[0, 2, 1, 3]`. The wave engine as written returns `[0, 2, 1, 5]`
  (Findings).
- Dial's engine is proved shortest when no weight exceeds `MAX_WEIGHT`.
  Beyond that it can miss: with V = 3 and edges (0,1,500), (1,2,1),
  `max_dist` is 300, so vertex 1 gets 500 but enters no bucket, and vertex 2
  is written as -1 although a walk of length 501 reaches it (Left out).

## Model

| member | source | states |
|---|---|---|
| Distances.InitDist | main.cpp:21-24 | The starting table has n entries: 0 exactly at the source and unreachable everywhere else. |
| Distances.SoundUpdate | main.cpp:42-43 | Writing the length of a real walk into a sound table keeps every finite entry a real walk length. |
| Distances.LowerProgress | Dijkstra_Paralel1/dijkstra_parallel.cpp:35-36 | A write that strictly lowers an entry lowers (unreachable count, sum of finite entries) lexicographically, by exact amounts. This is the termination measure of all engines. |
| Distances.FixpointIsShortest | Dijkstra_Paralel1/dijkstra_parallel.cpp:22-42 | Take a sound table with 0 at the source, where no finite vertex has an edge that could still lower its target. Its entries are exactly the shortest distances: Inf iff unreachable, otherwise at most every walk's length. |
| Distances.BoundedFixpointIsShortest | Dijkstra_Paralel1/main.cpp:62-90 | With weights at most m, it is enough that entries up to m * V are relaxed. The table then holds exactly the shortest distances. |
| Distances.ShortestUnique | Dijkstra_Paralel1/dijkstra_parallel.cpp:55-56 | Two tables that both hold the shortest distances agree entry by entry, so engines proved shortest write the same values. |
| Distances.ShortestSentinel | Dijkstra_Paralel1/main.cpp:92-94 | A shortest-distance entry is Inf (written as -1) exactly when no walk from the source reaches the vertex. |
| Distances.RenderSentinel | main.cpp:119-124 | The rendered value of a vertex is -1 exactly when its entry is Inf, and is the distance itself otherwise. |
| Distances.RenderRoundTrip | Dijkstra_Paralel1/dijkstra_parallel.cpp:55-56 | There is one rendered value per vertex, in id order, and the values read back to the same table: -1 never collides with a distance. |
| Graphs.ShortenWalk | Dijkstra_Paralel1/main.cpp:62 | Every walk can be replaced by a walk with fewer than V edges between the same ends that is no longer. So with weights at most MAX_WEIGHT, shortest distances fit in the table bound MAX_WEIGHT * V. |
| Graphs.SpliceWalk | Dijkstra_Paralel1/main.cpp:62 | Cutting out the closed stretch between two visits of one vertex leaves a walk between the same ends that is no longer, because weights are non-negative. |
| Graphs.ReachableExtend | main.cpp:39-43 | A real walk length to u plus the weight of an edge u -> v is a real walk length to v. |
| WaveRelaxation.RelaxFrom | main.cpp:35-48 | Specification function for relaxing u's edges in list order. It keeps the table length; its behaviour is stated by RelaxFromSpec. |
| WaveRelaxation.RelaxFromSpec | main.cpp:35-48 | Relaxing u's edges only lowers entries and leaves d[u] unchanged. The flag is raised iff some entry changed. Soundness is kept. |
| WaveRelaxation.Sweep | main.cpp:28-50 | Specification function for one pass. It keeps both vector lengths; its behaviour is stated by SweepSpec. |
| WaveRelaxation.SweepSpec | main.cpp:28-50 | A pass only lowers entries and only adds visited marks. `work_remaining` ends true iff the pass lowered an entry. Soundness is kept. |
| WaveRelaxation.SweepVisits | main.cpp:32-33 | A pass never clears a visited mark, and a pass that raises the flag marks at least one new vertex. |
| WaveRelaxation.Waves | main.cpp:27-51 | Specification function for the pass loop. It keeps the table length and terminates because each flag-raising pass visits a new vertex. |
| WaveRelaxation.WavesSound | main.cpp:27-51 | The pass loop keeps the table sound and keeps 0 at the source. |
| WaveRelaxation.WaveResultSound | main.cpp:20-53 | The result has one entry per vertex and 0 at start, and every finite entry is a real walk length (an upper bound on the shortest distance). |
| WaveRelaxation.RelaxFromReaches | main.cpp:35-48 | After u's edges are relaxed, every target of those edges has a finite entry. |
| WaveRelaxation.SweepReach | main.cpp:28-50 | A pass keeps every visited vertex finite, together with all its targets. |
| WaveRelaxation.SweepCovers | main.cpp:28-50 | A pass that leaves `work_remaining` false has visited every vertex with a finite entry. |
| WaveRelaxation.WavesClosed | main.cpp:27-51 | When the pass loop stops, every vertex with a finite entry has finite targets. |
| WaveRelaxation.ClosedReaches | main.cpp:20-53 | In such a table with a finite entry at start, every walk from start ends at a finite entry. |
| WaveRelaxation.WaveResultReaches | main.cpp:119-124 | The result is Inf (printed as -1) exactly when no walk from start reaches the vertex: the engine gets reachability right even though it can miss shortest distances. |
| WaveRelaxation.PassCountBound | main.cpp:25-44 | The number of passes is at most the number of unvisited vertices plus one. |
| WaveRelaxation.WaveResultPasses | main.cpp:25-44 | The loop stops after at most V + 1 passes. |
| WaveRelaxation.ExampleFirstPass | main.cpp:28-50 | On the four-vertex example, the first pass expands vertices 0 to 3 in order, leaves [0, 2, 1, 5], marks every vertex visited and raises the flag. Vertex 2 lowers vertex 1 after vertex 1 was already expanded. |
| WaveRelaxation.ExampleResult | main.cpp:20-53 | On the four-vertex example, the second pass finds every vertex visited and changes nothing, so the returned table is [0, 2, 1, 5]. |
| WaveRelaxation.NotShortestExample | main.cpp:23-33 | For edges (0,1,4), (0,2,1), (2,1,1), (1,3,1) from 0, the result is [0, 2, 1, 5]. A walk of length 3 reaches vertex 3, so the entry for 3 is not the shortest distance. |
| WaveRelaxation.Expand | main.cpp:32-48 | Expanding an unvisited, finite vertex u marks exactly u visited and leaves the table and flag computed by RelaxFrom. |
| WaveRelaxation.DijkstraParallel | main.cpp:20-53 | The method's loops compute exactly WaveResult. The result has V entries and 0 at start, and is sound. An entry is Inf, printed as -1, exactly when no walk from start reaches the vertex. |
| WaveRelaxation.ExpandStep | main.cpp:39-45 | In the corrected engine, an improving write on edge i lowers the target, clears its visited mark and makes progress. The expansion invariant is kept either way. |
| WaveRelaxation.ClearedMarks | main.cpp:32-48 | Specification function for the visited marks after the corrected edge loop. It keeps the vector length; its behaviour is stated by ClearedMarksSpec. |
| WaveRelaxation.ClearedMarksSpec | main.cpp:39-45 | In the corrected edge loop a visited mark changes only by being cleared, and only at a vertex whose distance the same loop strictly lowered. |
| WaveRelaxation.RevisitInv | main.cpp:32-48 | Relaxing u's edges from edge i on in the corrected engine keeps the expansion invariant up to u's last edge, and a table it changed has made progress. |
| WaveRelaxation.RevisitExpansion | main.cpp:32-48 | One corrected expansion of a finite u keeps the pass invariant (every visited finite vertex is relaxed) and leaves u visited. The flag is raised iff it already was or the table changed. A changed table has made progress; an unchanged one changes only u's mark. |
| WaveRelaxation.ExpandRevisiting | main.cpp:32-48 | The corrected array loop marks u visited and relaxes its edges in list order. It leaves exactly the table and flag that RelaxFrom gives, and the marks that ClearedMarks gives, for the old ones. |
| WaveRelaxation.RevisitSweep | main.cpp:28-50 | Specification function for one corrected pass in id order: each unvisited finite vertex is expanded with RelaxFrom and ClearedMarks. It keeps both vector lengths; its behaviour is stated by RevisitSweepSpec and RevisitSweepInv. |
| WaveRelaxation.RevisitSweepSpec | main.cpp:28-50 | A corrected pass never raises a distance, and raises the flag exactly when it changed the table. A mark it clears belongs to a vertex it strictly lowered; a mark it sets belongs to a vertex with a finite entry. |
| WaveRelaxation.RevisitStep | main.cpp:32-48 | Expanding one vertex keeps the pass invariant and moves the pass state on: flag down means table unchanged and every finite vertex so far visited, flag up means progress. |
| WaveRelaxation.RevisitSweepInv | main.cpp:28-50 | A corrected pass keeps the pass invariant. With the flag down the table is unchanged and every finite vertex is visited; with it up the table has made progress. |
| WaveRelaxation.RevisitPass | main.cpp:28-50 | The array loop's new table, marks and flag are exactly RevisitSweep of the old ones. It keeps the pass invariant; with the flag down the table is unchanged and every finite vertex is visited, with it up the table has made progress. |
| WaveRelaxation.DijkstraParallelRevisiting | main.cpp:20-53 | The corrected wave engine terminates with V entries and 0 at start. Its table holds exactly the shortest distances. |
| DialBuckets.HashEdgeSymmetric | Dijkstra_Paralel1/main.cpp:14-16 | hash_edge(u, v, V) == hash_edge(v, u, V), including the 64-bit wrap-around. |
| DialBuckets.HashEdgeRoundTrip | Dijkstra_Paralel1/main.cpp:15 | For vertices below V <= INT_MAX, the key does not wrap. Dividing the key by V gives back (min(u,v), max(u,v)). |
| DialBuckets.HashEdgeInjective | Dijkstra_Paralel1/main.cpp:15 | For vertices below V <= INT_MAX, two keys are equal iff they name the same unordered pair. |
| DialBuckets.InitInv | Dijkstra_Paralel1/main.cpp:60-65 | The initial state satisfies the scan invariant: dist[src] = 0 and all else Inf, only buckets[0] = [src] is non-empty, and the cursor is 0. |
| DialBuckets.AdvanceInv | Dijkstra_Paralel1/main.cpp:66-69 | Moving the cursor past an empty bucket keeps the invariant: every bucket below the cursor is empty. |
| DialBuckets.TakeInv | Dijkstra_Paralel1/main.cpp:71-72 | Swapping the current bucket into a snapshot keeps the invariant, with the snapshot as pending work. The table size drops by the snapshot's length. |
| DialBuckets.StartExpand | Dijkstra_Paralel1/main.cpp:74-76 | A snapshot vertex whose distance has dropped below the cursor is already relaxed. Taking it from the snapshot starts its expansion with the others still covered. |
| DialBuckets.LowerKeepsBucketsSound | Dijkstra_Paralel1/main.cpp:80-85 | After an improving write and append, every vertex in buckets[k] still has dist <= k. |
| DialBuckets.LowerKeepsCovered | Dijkstra_Paralel1/main.cpp:80-85 | After an improving write, the lowered vertex waits in the bucket of its new distance when that is <= max_dist. Every other vertex keeps its relaxed edges or its bucket place. |
| DialBuckets.ImprovingStep | Dijkstra_Paralel1/main.cpp:77-85 | Only a vertex at the cursor can improve a neighbour. The improving step keeps the expansion invariant and makes progress. |
| DialBuckets.ExpandStep | Dijkstra_Paralel1/main.cpp:76-87 | Each relax-and-insert step keeps the invariant, and either makes progress (one more finite entry, or a smaller sum of finite entries) or changes neither table nor buckets. |
| DialBuckets.EndExpand | Dijkstra_Paralel1/main.cpp:74-88 | Once all of u's edges are relaxed, the scan invariant holds for the rest of the snapshot. |
| DialBuckets.RelaxInto | Dijkstra_Paralel1/main.cpp:78-87 | The critical section as one step. A strictly smaller distance is written. The vertex is appended to buckets[newDist] only when newDist <= max_dist. Otherwise nothing changes. |
| DialBuckets.TakeBucket | Dijkstra_Paralel1/main.cpp:71-72 | The swap returns the bucket's contents and leaves it empty. No other bucket changes. |
| DialBuckets.AfterRelaxMonotone | Dijkstra_Paralel1/main.cpp:78-87 | One critical step never raises a distance and only appends to buckets. |
| DialBuckets.RelaxEdges | Dijkstra_Paralel1/main.cpp:76-88 | Specification function for the edge loop of one vertex: each edge in list order is one critical step that re-reads dist[u]. It keeps the table and bucket counts; its behaviour is stated by RelaxEdgesMonotone and RelaxEdgesInv. |
| DialBuckets.RelaxEdgesMonotone | Dijkstra_Paralel1/main.cpp:76-88 | Relaxing a vertex's edges never raises any distance, and every bucket only gains entries at its end. |
| DialBuckets.RelaxEdgesInv | Dijkstra_Paralel1/main.cpp:76-88 | Relaxing u's edges from edge j on keeps the expansion invariant up to u's last edge, and either makes progress (one more finite entry, or a smaller sum of finite entries) or changes neither table nor buckets. |
| DialBuckets.ExpandVertexInv | Dijkstra_Paralel1/main.cpp:74-88 | A pending snapshot vertex is a vertex with a finite distance. Expanding it re-establishes the scan invariant with the rest of the snapshot pending, and either makes progress (one more finite entry, or a smaller sum of finite entries) or changes nothing. |
| DialBuckets.RelaxAll | Dijkstra_Paralel1/main.cpp:73-89 | Specification function for the loop over the snapshot, one vertex after another. It keeps the table and bucket counts; its behaviour is stated by RelaxAllMonotone and RelaxAllInv. |
| DialBuckets.RelaxAllMonotone | Dijkstra_Paralel1/main.cpp:73-89 | Processing the snapshot never raises any distance, and every bucket only gains entries at its end. |
| DialBuckets.RelaxAllInv | Dijkstra_Paralel1/main.cpp:73-89 | Every pending snapshot vertex has a finite distance. Processing the snapshot re-establishes the scan invariant with nothing pending, and either makes progress (one more finite entry, or a smaller sum of finite entries) or changes nothing. |
| DialBuckets.ExpandVertex | Dijkstra_Paralel1/main.cpp:75-88 | The array loop over u's edges leaves exactly the table and buckets that RelaxEdges gives for the old ones, so it never raises a distance and keeps the scan invariant. |
| DialBuckets.RelaxSnapshot | Dijkstra_Paralel1/main.cpp:73-89 | The array loop over the snapshot leaves exactly the table and buckets that RelaxAll gives for the old ones, so it never raises a distance and re-establishes the scan invariant with nothing pending. |
| DialBuckets.DijkstraOpenMp | Dijkstra_Paralel1/main.cpp:59-96 | The scan terminates with V entries and dist[src] = 0. Every finite entry is a real walk length. Every entry up to MAX_WEIGHT * V is relaxed. When no weight exceeds MAX_WEIGHT, the result is exactly the shortest distances. |
| LazyDijkstra.PopMin | Dijkstra_Paralel1/dijkstra_parallel.cpp:18-28 | top/pop returns an entry of the queue that is least in the (distance, vertex) order. It removes exactly that one entry: the rest plus it is the old multiset. |
| LazyDijkstra.InitQueueInv | Dijkstra_Paralel1/dijkstra_parallel.cpp:15-19 | The initial state (dist[src] = 0, all else Inf, queue {(0, src)}) satisfies the worker invariant. |
| LazyDijkstra.PopStale | Dijkstra_Paralel1/dijkstra_parallel.cpp:31 | Discarding an entry with d > dist[u], without relaxing anything, keeps the invariant: every queued (d, x) has dist[x] <= d and d is a real walk length, and every finite vertex is relaxed or has (dist[x], x) queued. |
| LazyDijkstra.StartSettle | Dijkstra_Paralel1/dijkstra_parallel.cpp:28-31 | An entry that is not stale carries the vertex's current distance. Every other vertex keeps its queued entry. |
| LazyDijkstra.ImprovingRelax | Dijkstra_Paralel1/dijkstra_parallel.cpp:34-38 | An improving relaxation lowers dist[v] to new_dist and pushes (new_dist, v) with new_dist == dist[v]. The invariant is kept and the table makes progress. |
| LazyDijkstra.IdleRelax | Dijkstra_Paralel1/dijkstra_parallel.cpp:35 | A relaxation that does not improve leaves its edge relaxed and needs no entry. |
| LazyDijkstra.SettleStep | Dijkstra_Paralel1/dijkstra_parallel.cpp:33-41 | Each edge step keeps the invariant, and either makes progress (one more finite entry, or a smaller sum of finite entries) or changes neither table nor queue. |
| LazyDijkstra.EndSettle | Dijkstra_Paralel1/dijkstra_parallel.cpp:33-41 | Once all of u's edges are relaxed, u needs no queued entry. |
| LazyDijkstra.RelaxEdge | Dijkstra_Paralel1/dijkstra_parallel.cpp:34-40 | A strictly smaller new_dist is written to dist[v] and (new_dist, v) is pushed. Otherwise neither changes. |
| LazyDijkstra.SettleEdges | Dijkstra_Paralel1/dijkstra_parallel.cpp:33-41 | Specification function for the edge loop of a settled vertex: each edge in list order re-reads dist[u], and an improvement is written and pushed. It keeps the table length; its behaviour is stated by SettleEdgesMonotone and SettleEdgesInv. |
| LazyDijkstra.SettleEdgesMonotone | Dijkstra_Paralel1/dijkstra_parallel.cpp:33-41 | Settling never raises any distance and only appends to the queue. Every appended (new_dist, v) was a strict improvement of dist[v], and the final dist[v] is at most new_dist. |
| LazyDijkstra.SettleEdgesInv | Dijkstra_Paralel1/dijkstra_parallel.cpp:33-41 | Settling u from edge j on restores the worker invariant once all of u's edges are relaxed, and either makes progress (one more finite entry, or a smaller sum of finite entries) or changes neither table nor queue. |
| LazyDijkstra.Settle | Dijkstra_Paralel1/dijkstra_parallel.cpp:33-41 | The array loop over the edges of a popped, non-stale vertex leaves exactly the table and queue that SettleEdges gives for the old ones, so it never raises a distance and restores the worker invariant. |
| LazyDijkstra.ParallelDijkstra | Dijkstra_Paralel1/dijkstra_parallel.cpp:14-43 | The worker loop ends exactly when the queue is empty. The result has V entries and dist[src] = 0, and holds exactly the shortest distances, with Inf for unreachable vertices. |

## Left out

- Concurrency is not modelled: OpenMP `parallel for` and `critical`,
  `std::thread`, `pq_mutex` and `hardware_concurrency`. Only the one-thread
  schedule is modelled, with each critical section as one atomic step. That
  schedule has no data races, so the races in the sources are out of scope:
  the unsynchronised `visited`, `work_remaining` and `dist` accesses in the
  wave engine, the `dist` writes outside the mutex in the queue engine, and
  its empty-queue termination race.
- The nested unnamed `#pragma omp critical` in Dijkstra_Paralel1/main.cpp:78
  and 83 is not modelled. OpenMP does not allow a critical region inside
  another of the same name, so the thread could deadlock there. The model
  treats lines 78-87 as one atomic step.
- The wave engine compares twice, before and inside its critical section
  (main.cpp:39, 42). On one thread both comparisons see the same values, so
  the model compares once.
- Input and output are not modelled: reading `graph.txt`, writing the
  distance files, and the exact line formats (`Node i: d` and `i d`). `Render`
  models the values written, one per vertex in id order.
- Every `main`, the timing with `chrono`, `generate_graph` and the `rand()`
  generator are not modelled. Only `hash_edge` of the generator file is kept;
  its use as a set of seen keys inside `generate_graph` is not modelled.
- Fixed-width integers are not modelled. `INF` is the value `Inf` rather than
  `INT_MAX` or `LLONG_MAX`, and distances are unbounded. So `dist[u] + w`
  overflow and the `int` overflow of `MAX_WEIGHT * V` for large V are not
  captured. `hash_edge` keeps its 64-bit wrap-around.
- The parameter V of `dijkstra_openmp` and `parallel_dijkstra` is taken to
  be the number of adjacency lists; the sources do not check this.
- The graph checks are preconditions (`WellFormed`), not error results,
  because the sources do not validate vertex ids or weights.
- The `std::priority_queue` heap layout is not modelled. The queue is a
  sequence of entries, and `PopMin` finds a least entry by a linear scan. Only
  the queue's multiset and the least-entry guarantee are modelled.
- DialBuckets.DijkstraOpenMp: shortest distances are stated only when every
  weight is at most `MAX_WEIGHT`, because beyond that the source can miss
  them. A vertex whose improved distance exceeds `max_dist` enters no bucket,
  so its edges are never relaxed from that distance. Some inputs with a
  heavier weight still come out shortest: with V = 2 and the edge (0,1,150),
  `max_dist` is 200 and the result [0, 150] is shortest. Others do not: with
  V = 3 and edges (0,1,500), (1,2,1), `max_dist` is 300, vertex 1 gets 500
  outside every bucket, and vertex 2 is written as -1 although a walk of
  length 501 reaches it. For any weights, the method states soundness and
  that every entry up to `MAX_WEIGHT * V` is relaxed.
- WaveRelaxation.DijkstraParallel: soundness, reachability (Inf exactly for
  unreachable vertices) and equality with `WaveResult` are stated, not
  optimality, because the code as written does not compute shortest
  distances (Findings).
- Properties that depend on thread count or timing are not modelled: running
  with several thread counts, and re-running for the same output.

## Findings

| source | as written | input that shows it | evidently intended | confidence | as-written member | corrected member |
|---|---|---|---|---|---|---|
| main.cpp:23-33 | `visited[u]` is set when u is expanded and never cleared. A vertex whose distance drops after its expansion is not expanded again, so the drop never reaches its successors. | Edges (0,1,4), (0,2,1), (2,1,1), (1,3,1), start 0. The result is [0, 2, 1, 5]; vertex 3 is reachable at length 3. | Shortest distances [0, 2, 1, 3]. A vertex whose distance is lowered loses its visited mark and is expanded again in a later pass. | not executed (proved about the one-thread schedule) | WaveRelaxation.NotShortestExample | WaveRelaxation.DijkstraParallelRevisiting |
