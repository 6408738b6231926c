# Treewidth heuristics: the elimination game, its heuristics and tree decompositions

This project models the core of a Java program that estimates the treewidth of
simple undirected graphs. It proves properties of the model in Dafny.

What the program does:

- It plays the **elimination game**. It removes a vertex, then makes all of that
  vertex's former neighbours pairwise adjacent with "fill" edges.
- It chooses elimination orderings with three heuristics:
  - **minimum degree**;
  - **minimum fill**;
  - **maximum cardinality search**.
- Each heuristic exists twice:
  - as a stepping object, driven by a framework that produces an ordering or a width;
  - as a one-shot legacy routine that destructively empties the caller's graph.
- From an elimination it builds a **tree decomposition**. It records every vertex with
  the neighbours it had just before its elimination. It then turns the records into
  bags, last-eliminated first, and hangs each bag off an earlier bag that holds its
  neighbours.
- It **verifies** a decomposition: a forest, vertex coverage, edge coverage, and
  connected subtrees.
- It reads and writes graphs and decompositions as comma-separated lines. `Vector2`
  is a small pair utility.

How the library types are modelled:

- The graph library's simple graph is the class `Graphs.SimpleGraph`. Its value is
  `Graphs.Graph`: a vertex set plus a set of oriented edges, with no loop and no edge
  stored in both orientations.
- The Fibonacci heap is a map from vertex to key. Every heuristic inserts a vertex
  only when it has no entry. `DeleteMin` picks any entry of smallest key.
- Iterating a hash set is a listing of the set whose order the model never fixes
  (`Seqs.Lists`, `Seqs.ListOf`).

Specification functions state what each operation must compute:

- `GraphExtensions.Eliminated` is one elimination step.
- `Replays.After` and `Replays.Width` replay an ordering and give its width.
- `Fills.Fill` is the number of fill edges.
- `MinFillSpec.Scan` is the outcome of the minimum-fill scan.
- `Decompositions.Assemble` is processing records into a decomposition.
- `CsvGraphParser.Build` and `LinePairs` are the parsing of a text.

The methods that change state are proved against these functions. The lemmas prove
what the program promises about them, chiefly:

- eliminating vertices in any order and recording them yields a tree decomposition
  (`OrderingDecomposition.EliminationDecomposes`,
  `EliminationDecomposition.FilledDecomposition`);
- its width is the width of the ordering (`OrderingDecomposition.RecordsTreewidth`).

Two behaviours of the code that its names do not suggest:

- **Isolated vertices.** The encoder writes an isolated vertex as "v,,"
  (`io/CsvGraphParser.java:39`). The parser splits that line into "v" and the empty
  string and adds an edge between them (`io/CsvGraphParser.java:19-24`), so a decoded
  isolated vertex gains a neighbour named "" (`CsvGraphParser.IsolatedReadsAsEdge`).
- **Forests.** The tree check restarts its depth-first search at every unvisited bag
  (`TreeDecomposition.java:162-163`), so it accepts exactly the forests, not only the
  trees (`DecompositionChecks.AssertTree`).

The stepping framework and `TreeDecomposition.fromHeuristic` run the corrected
minimum-fill elimination; the as-written one is modelled beside it (see Findings).

## Model

All source paths below are relative to the repository root.

| member | source | states |
|---|---|---|
| Graphs.NeighborsBound | src/main/java/at/mategka/sda/elimination/MinDegreeHeuristic.java:38 | in a simple graph a vertex is not its own neighbour, so its degree is at most \|V\| - 1, the largest key the heuristics test for |
| Graphs.RemoveVertexNeighbors | src/main/java/at/mategka/sda/GraphExtensions.java:27 | removing a vertex keeps the graph simple and removes only that vertex from every other neighbourhood |
| Graphs.SimpleGraph.constructor | src/main/java/at/mategka/sda/TreeDecomposition.java:69 | a new library graph is valid and empty |
| Graphs.SimpleGraph.Clone | src/main/java/at/mategka/sda/GraphExtensions.java:18-20 | the clone is a distinct valid object with the same vertices and edges |
| Graphs.SimpleGraph.AddVertex | src/main/java/at/mategka/sda/TreeDecomposition.java:81 | adds the vertex, reports whether it was new, leaves the edges alone |
| Graphs.SimpleGraph.AddEdge | src/main/java/at/mategka/sda/GraphExtensions.java:32-34 | adds (u, v) exactly when u and v are not adjacent in either orientation, otherwise changes nothing; validity is kept |
| Graphs.SimpleGraph.NeighborListOf | src/main/java/at/mategka/sda/GraphExtensions.java:23 | the list holds every neighbour exactly once |
| Graphs.SimpleGraph.VertexList | src/main/java/at/mategka/sda/heuristics/MinDegreeHeuristic.java:34 | the list holds every vertex exactly once |
| Graphs.SimpleGraph.RemoveVertex | src/main/java/at/mategka/sda/GraphExtensions.java:27 | removes the vertex with all its edges, reports whether it was present, keeps validity |
| Graphs.SimpleGraph.RemoveAllVertices | src/main/java/at/mategka/sda/heuristics/MinDegreeHeuristic.java:36 | removes exactly the listed vertices and every edge touching them |
| GraphExtensions.EliminateVertexWith | src/main/java/at/mategka/sda/GraphExtensions.java:26-37 | the graph becomes `Eliminated(old, x, ns)`: x removed, then each listed pair (ns[i], ns[j]), i < j, added when not yet adjacent; validity kept |
| GraphExtensions.EliminateVertex | src/main/java/at/mategka/sda/GraphExtensions.java:22-24 | the two-argument overload is the three-argument one called with a listing of x's current neighbours |
| GraphExtensions.EliminatedAdjacent | src/main/java/at/mategka/sda/GraphExtensions.java:27-36 | afterwards two vertices are adjacent exactly when neither is x and they were adjacent before or both are listed neighbours |
| GraphExtensions.EliminatedIsSimple | src/main/java/at/mategka/sda/GraphExtensions.java:27-36 | the step keeps a graph simple: no loop and no parallel edge is ever added |
| GraphExtensions.EliminatedRemovesAndCloses | src/main/java/at/mategka/sda/GraphExtensions.java:27-36 | x is no longer a vertex, no edge touches it, and every two distinct listed neighbours are adjacent |
| GraphExtensions.EliminatedFrame | src/main/java/at/mategka/sda/GraphExtensions.java:27-36 | every edge not at x survives, and every new edge joins two listed neighbours that were not adjacent |
| GraphExtensions.EliminatedClique | src/main/java/at/mategka/sda/GraphExtensions.java:32-34 | on a neighbourhood that is already a clique the step only removes x |
| GraphExtensions.EliminatedNeighbors | src/main/java/at/mategka/sda/GraphExtensions.java:27-36 | a listed neighbour loses x and gains the other listed neighbours; any other vertex's neighbourhood is unchanged |
| GraphExtensions.SameEliminated | src/main/java/at/mategka/sda/GraphExtensions.java:26-37 | whatever the order of the neighbour list, the result has the same vertices and adjacency; only the orientation of fill edges depends on it |
| GraphExtensions.ShallowCopy | src/main/java/at/mategka/sda/GraphExtensions.java:18-20 | the copy is a fresh valid graph with the same vertices and edges |
| GraphExtensions.EdgeVectorSetExact | src/main/java/at/mategka/sda/GraphExtensions.java:39-43 | exactly one (source, target) vector per edge; a vector is present exactly when that orientation is stored; never both orientations |
| Replays.StepFacts | src/main/java/at/mategka/sda/elimination/EliminationHeuristic.java:16-18 | one elimination, with or without fill edges, removes exactly its vertex and keeps the graph simple |
| Replays.AfterFacts | src/main/java/at/mategka/sda/elimination/EliminationHeuristic.java:61-72 | replaying an ordering leaves exactly the vertices not in it, in a simple graph |
| Replays.WidthDefined | src/main/java/at/mategka/sda/elimination/EliminationHeuristic.java:61-72 | the replay succeeds exactly when the ordering names distinct vertices of the graph; otherwise the neighbour lookup throws |
| Replays.WidthOfListing | src/main/java/at/mategka/sda/elimination/EliminationHeuristic.java:61-72 | a successful replay's width is below the number of vertices, or 0 |
| Replays.WidthSnoc | src/main/java/at/mategka/sda/elimination/EliminationHeuristic.java:63-71 | the width of a longer ordering is the maximum of the width so far and the last vertex's degree at its turn |
| Replays.TurnWithinWidth | src/main/java/at/mategka/sda/elimination/EliminationHeuristic.java:63-71 | no vertex has more neighbours at its turn than the width |
| Replays.WidthAttained | src/main/java/at/mategka/sda/elimination/EliminationHeuristic.java:63-71 | some vertex has exactly the width as degree at its turn; the empty ordering has width 0 |
| Replays.WidthNoneExtends | src/main/java/at/mategka/sda/elimination/EliminationHeuristic.java:63-69 | once a vertex is missing at its turn, every longer ordering fails too |
| Replays.WidthStep | src/main/java/at/mategka/sda/elimination/EliminationHeuristic.java:55-56 | eliminating one more vertex in a working graph with the replay's adjacency folds its degree into the width and keeps the two in step |
| Replays.WidthBatch | src/main/java/at/mategka/sda/elimination/EliminationHeuristic.java:49-51 | eliminating a batch of the remaining vertices, in any order, raises the width to at most the number left minus one |
| Replays.WidthOfBatch | src/main/java/at/mategka/sda/elimination/EliminationHeuristic.java:49-51 | a batch listing all remaining vertices completes the ordering, and its width is at most the running maximum with remaining - 1 |
| Replays.WidthComplete | src/main/java/at/mategka/sda/elimination/EliminationHeuristic.java:44-59 | when no vertex is left, the ordering lists all vertices and the width is below their number, or 0 |
| Heaps.DeleteMin | src/main/java/at/mategka/sda/elimination/MinDegreeHeuristic.java:31 | removes an entry of smallest key and returns its vertex and key |
| Runs.TraceSnoc | src/main/java/at/mategka/sda/elimination/EliminationHeuristic.java:24-39 | one more result extends the hand-out order, the placement (tail for an append, head for a prepend) and the degree fold, and keeps the trace legal exactly when it is a legal answer on the replay |
| Runs.PlayedHanded | src/main/java/at/mategka/sda/elimination/EliminationHeuristic.java:24-32 | in a legal trace every result is a single vertex, and the i-th vertex handed out is the i-th result's |
| Runs.PlayedWidth | src/main/java/at/mategka/sda/elimination/EliminationHeuristic.java:52-56 | the running maximum of the reported degrees is the replay width of the hand-out order |
| Runs.PlayedPlacement | src/main/java/at/mategka/sda/elimination/EliminationHeuristic.java:25-32 | the placement is the hand-out order when the heuristic appends and its reversal when it prepends |
| Runs.PlayedLists | src/main/java/at/mategka/sda/elimination/EliminationHeuristic.java:24-32 | a legal trace hands out each vertex at most once, exactly those its replay removed |
| EliminationHeuristic.Next | src/main/java/at/mategka/sda/elimination/EliminationHeuristic.java:14 | nothing is left exactly on the empty graph; a batch is all vertices and only from the fill-in heuristics; a single vertex comes with its current degree, appended by the fill-in heuristics and prepended by maximum cardinality |
| EliminationHeuristic.Eliminate | src/main/java/at/mategka/sda/elimination/EliminationHeuristic.java:16-18 | removes exactly the proposed vertex; the result has the adjacency of one elimination step, with fill edges except for maximum cardinality |
| EliminationHeuristic.EliminateBatched | src/main/java/at/mategka/sda/TreeDecomposition.java:40-44 | a batch member is eliminated with fill edges |
| EliminationHeuristic.EliminationOrder | src/main/java/at/mategka/sda/elimination/EliminationHeuristic.java:20-42 | on a copy, the results `next` handed out form a legal trace (each a vertex left with its current degree); the result is the trace placed at the tail or head, plus the batch: every vertex exactly once, the hand-out order for the fill-in heuristics and its reversal for maximum cardinality |
| EliminationHeuristic.Turn | src/main/java/at/mategka/sda/elimination/EliminationHeuristic.java:24-31 | one call of `next` on the working graph: empty exactly when nothing is left; a batch is everything left; a single vertex is a legal answer, extends the trace and is eliminated, the working graph shrinking and keeping the replay's adjacency |
| EliminationHeuristic.PlayTurn | src/main/java/at/mategka/sda/elimination/EliminationHeuristic.java:27-31 | eliminating the handed-out vertex keeps the working graph equal to the replay of the extended trace |
| EliminationHeuristic.ProposedStep | src/main/java/at/mategka/sda/elimination/EliminationHeuristic.java:24-31 | the same step on graph values: the answer is legal on the replay and the replay advances by its vertex |
| EliminationHeuristic.OrderDone | src/main/java/at/mategka/sda/elimination/EliminationHeuristic.java:33-38 | when the loop stops, the trace placement plus the batch lists every vertex once, and is the hand-out order or its reversal |
| EliminationHeuristic.HandOutBatch | src/main/java/at/mategka/sda/elimination/EliminationHeuristic.java:33-36 | appending the remaining vertices as a batch completes the ordering |
| EliminationHeuristic.Treewidth | src/main/java/at/mategka/sda/elimination/EliminationHeuristic.java:44-59 | on a copy, the results handed out form a legal trace; w is the largest reported degree, raised to the batch size minus one on a batch; 0 <= w <= max(0, \|V\| - 1); without a batch w is exactly the replay width of the hand-out order, with one at least that |
| EliminationHeuristic.TreewidthFinish | src/main/java/at/mategka/sda/elimination/EliminationHeuristic.java:49-53 | folding the batch size minus one into the degree fold gives the promised width bounds for the whole run |
| EliminationHeuristic.TreewidthOf | src/main/java/at/mategka/sda/elimination/EliminationHeuristic.java:61-72 | the static width of an ordering is the replay width: the largest degree at each vertex's turn, 0 for an empty ordering, on a copy |
| MinDegree.MinDegreeHeuristic.constructor | src/main/java/at/mategka/sda/elimination/MinDegreeHeuristic.java:21-23 | queues every vertex once, keyed by its current degree, with nothing marked outdated |
| MinDegree.MinDegreeHeuristic.Next | src/main/java/at/mategka/sda/elimination/MinDegreeHeuristic.java:25-45 | empty exactly when no vertex is left; an up-to-date minimal entry is handed out with its degree; a batch of all vertices only when a vertex of degree \|V\| - 1 is popped and others remain, clearing the queue; the last vertex always comes singly |
| MinDegree.MinDegreeHeuristic.RefreshTop | src/main/java/at/mategka/sda/elimination/MinDegreeHeuristic.java:30-36 | pops outdated entries, unmarking them and re-queueing them at their current degree, until the smallest entry is up to date |
| MinDegree.MinDegreeHeuristic.Eliminate | src/main/java/at/mategka/sda/elimination/MinDegreeHeuristic.java:47-52 | marks every current neighbour outdated, then runs the elimination step with that same list; the queue invariant is kept |
| MaxCardinality.InducedDegree | src/main/java/at/mategka/sda/elimination/MaxCardinalityHeuristic.java:33-38 | after vertex removals only, current degree minus original degree is minus the number of removed neighbours |
| MaxCardinality.InducedRemove | src/main/java/at/mategka/sda/elimination/MaxCardinalityHeuristic.java:47 | removing a vertex without fill edges keeps the graph a vertex-removal of the original |
| MaxCardinality.RecordDegrees | src/main/java/at/mategka/sda/elimination/MaxCardinalityHeuristic.java:19-22 | records each vertex's degree, so each initial key (degree minus itself) is 0 |
| MaxCardinality.MaxCardinalityHeuristic.constructor | src/main/java/at/mategka/sda/elimination/MaxCardinalityHeuristic.java:19-23 | original degrees are the degrees at construction and every vertex is queued with key 0 |
| MaxCardinality.MaxCardinalityHeuristic.Next | src/main/java/at/mategka/sda/elimination/MaxCardinalityHeuristic.java:25-41 | only prepends or reports empty; the vertex prepended has a fresh key, minus its eliminated neighbours, no larger than any queued key (which may be stale); its reported degree is key plus original degree, its current degree |
| MaxCardinality.MaxCardinalityHeuristic.RefreshTop | src/main/java/at/mategka/sda/elimination/MaxCardinalityHeuristic.java:30-37 | outdated entries are re-queued under current degree minus original degree until the smallest is up to date |
| MaxCardinality.MaxCardinalityHeuristic.Eliminate | src/main/java/at/mategka/sda/elimination/MaxCardinalityHeuristic.java:43-48 | marks the current neighbours outdated, forgets the original degree and removes the vertex without adding any edge |
| Fills.UpperPairCountIsFill | src/main/java/at/mategka/sda/elimination/MinFillHeuristic.java:51-61 | counting non-adjacent pairs row by row over any duplicate-free listing gives the number of fill pairs |
| Fills.FillOfListing | src/main/java/at/mategka/sda/elimination/MinFillHeuristic.java:51-61 | the pair count over a listing of v's neighbours is the fill of v |
| Fills.RowSumTwice | src/main/java/at/mategka/sda/heuristics/MinFillHeuristic.java:48-56 | summing every entry's non-adjacent entries counts each pair twice |
| MinFillSpec.UpdateStep | src/main/java/at/mategka/sda/elimination/MinFillHeuristic.java:74-82 | updating one more neighbour replaces its cached set and drops the fill caches of it and its new neighbours |
| MinFillSpec.DroppedMembers | src/main/java/at/mategka/sda/elimination/MinFillHeuristic.java:74-82 | a fill cache is dropped exactly for the updated neighbours and the members of their updated sets |
| MinFillSpec.DroppedIsWithinTwo | src/main/java/at/mategka/sda/elimination/MinFillHeuristic.java:74-82 | with exact neighbour caches, the dropped fill caches are exactly those of the vertices within distance two of x |
| MinFillSpec.FillUnaffected | src/main/java/at/mategka/sda/elimination/MinFillHeuristic.java:74-82 | a vertex farther than two steps from x keeps its neighbours and its fill, so keeping its cache is sound |
| MinFillSpec.CachedStep | src/main/java/at/mategka/sda/elimination/MinFillHeuristic.java:71-85 | once every listed neighbour was updated, the caches with x's set dropped equal the exact update for x's neighbourhood, the fill caches dropped are exactly those within distance two, and both caches are exact for the graph after the step |
| MinFillSpec.CachesAfterElimination | src/main/java/at/mategka/sda/elimination/MinFillHeuristic.java:71-85 | after the cache update and the elimination step, every cached neighbour set and fill count is exact for the new graph |
| MinFillSpec.ScanEnds | src/main/java/at/mategka/sda/elimination/MinFillHeuristic.java:31-44 | the scan ends empty only at the end of the order with no candidate; a batch only at a vertex of degree \|V\| - 1; every vertex passed had a smaller degree and fill above 0 |
| MinFillSpec.ScanChoice | src/main/java/at/mategka/sda/elimination/MinFillHeuristic.java:37-42 | the vertex handed out is the first of strictly smallest fill among those scanned, and a scan that stops early stops at fill 0 |
| MinFillSpec.ScannedStep | src/main/java/at/mategka/sda/elimination/MinFillHeuristic.java:37-40 | a scanned vertex replaces the candidate exactly when its fill is strictly smaller |
| MinFillSpec.ScanMinimal | src/main/java/at/mategka/sda/elimination/MinFillHeuristic.java:22-45 | over the whole vertex set: empty exactly on the empty graph; a batch only when some vertex has degree \|V\| - 1; otherwise a vertex of minimum fill over the whole graph, with its degree |
| MinFill.MinFillHeuristic.constructor | src/main/java/at/mategka/sda/elimination/MinFillHeuristic.java:18-20 | starts with both caches empty and does not inspect the graph |
| MinFill.MinFillHeuristic.GetNeighbors | src/main/java/at/mategka/sda/elimination/MinFillHeuristic.java:66-68 | returns the current neighbour set and caches it; the fill cache is untouched |
| MinFill.MinFillHeuristic.CountRow | src/main/java/at/mategka/sda/elimination/MinFillHeuristic.java:53-60 | one row of the nested loop counts the later listed vertices outside the cached set of ns[i] |
| MinFill.MinFillHeuristic.CountRows | src/main/java/at/mategka/sda/elimination/MinFillHeuristic.java:53-61 | the outer loop sums the rows of all listed vertices, caching only vertices within the given bound and leaving the fill caches alone |
| MinFill.MinFillHeuristic.CountFill | src/main/java/at/mategka/sda/elimination/MinFillHeuristic.java:51-61 | the nested pair count over the cached neighbour list is the fill of v; only v and its neighbours may get cached |
| MinFill.MinFillHeuristic.GetFillEdgeCount | src/main/java/at/mategka/sda/elimination/MinFillHeuristic.java:47-64 | returns the fill of v, from the cache or counted, and caches it |
| MinFill.MinFillHeuristic.Inspect | src/main/java/at/mategka/sda/elimination/MinFillHeuristic.java:32-37 | a scanned vertex's cached degree, and its fill unless that degree is \|V\| - 1 |
| MinFill.MinFillHeuristic.ScanStep | src/main/java/at/mategka/sda/elimination/MinFillHeuristic.java:31-43 | one pass of the loop either ends the scan with `Scan`'s outcome or moves to the next position without changing it |
| MinFill.MinFillHeuristic.Next | src/main/java/at/mategka/sda/elimination/MinFillHeuristic.java:22-45 | the result, number scanned and position equal `Scan` over the vertex set's iteration order; only the inspected vertices' sets are newly cached |
| MinFill.MinFillHeuristic.UpdateCaches | src/main/java/at/mategka/sda/elimination/MinFillHeuristic.java:75-84 | in list order each neighbour's fill cache is dropped, then its set loses x and gains the other listed neighbours, dropping their fill caches; it stops at the first neighbour without a cached set, exactly when one exists, with the earlier ones updated |
| MinFill.MinFillHeuristic.Eliminate | src/main/java/at/mategka/sda/elimination/MinFillHeuristic.java:71-85 | as written: succeeds exactly when x and all its neighbours have cached sets, and then is one elimination step with x's set dropped, the neighbour sets updated and the fill caches within distance two dropped; fails at once, changing nothing, when x is uncached; otherwise fails at the first uncached neighbour with the earlier neighbours' caches updated, that neighbour's fill cache dropped and the graph untouched |
| MinFill.MinFillHeuristic.EliminateFixed | src/main/java/at/mategka/sda/elimination/MinFillHeuristic.java:71-85 | corrected: always succeeds; one elimination step, fill caches kept exactly outside distance two of x |
| MinFill.PathScanStopsAtLeaf | src/main/java/at/mategka/sda/elimination/MinFillHeuristic.java:31-41 | scanning the path 1-2-3 from leaf 1 hands out 1 at once (fill 0) and may cache only 1's set |
| MinFill.ScanPathFromLeaf | src/main/java/at/mategka/sda/elimination/MinFillHeuristic.java:22-45 | after `Next` on that path, 2's neighbour set is not cached although 2 is 1's neighbour |
| MinFill.LeafScanCaches | src/main/java/at/mategka/sda/elimination/MinFillHeuristic.java:31-43 | what a scan of the path from the leaf leaves in an initially empty cache |
| MinFill.PathScannedFromLeafFails | src/main/java/at/mategka/sda/elimination/MinFillHeuristic.java:72-77 | the step `Next` hands out cannot be eliminated: the lookup of 2's set fails |
| LegacyElimination.Eliminate | src/main/java/at/mategka/sda/heuristics/EliminationHeuristic.java:12-24 | x and its edges are gone; former neighbours are pairwise adjacent; no other edge is removed; every added edge joins two formerly non-adjacent neighbours |
| LegacyElimination.NoVerticesNoEdges | src/main/java/at/mategka/sda/heuristics/MinDegreeHeuristic.java:14-16 | a simple graph without vertices has no edges, so the empty result leaves it empty |
| LegacyElimination.QueueByDegree | src/main/java/at/mategka/sda/heuristics/MinDegreeHeuristic.java:17-18 | every vertex queued once, keyed by its degree |
| LegacyElimination.ReplayedStart | src/main/java/at/mategka/sda/heuristics/MinDegreeHeuristic.java:19-20 | at the start the working graph is the replay of the empty ordering |
| LegacyElimination.ReplayedStep | src/main/java/at/mategka/sda/heuristics/MinDegreeHeuristic.java:39-41 | eliminating a vertex extends the replay; its degree and fill are those in the working graph |
| LegacyElimination.HandOut | src/main/java/at/mategka/sda/heuristics/MinDegreeHeuristic.java:39 | appending one of the remaining vertices keeps the result a listing of the vertices gone |
| LegacyElimination.HandOutRest | src/main/java/at/mategka/sda/heuristics/MinDegreeHeuristic.java:34-35 | appending the remaining vertices completes a listing of all vertices |
| LegacyElimination.LastLeft | src/main/java/at/mategka/sda/heuristics/MinDegreeHeuristic.java:24-27 | handing out the last vertex completes the listing |
| LegacyElimination.UniversalLeft | src/main/java/at/mategka/sda/heuristics/MinDegreeHeuristic.java:33-37 | a vertex of degree remaining - 1 in the working graph is universal in the replayed graph |
| LegacyElimination.NeverUniversalSnoc | src/main/java/at/mategka/sda/heuristics/MinDegreeHeuristic.java:33-41 | a vertex eliminated singly was not adjacent to all others left |
| LegacyElimination.SimplicialSnoc | src/main/java/at/mategka/sda/heuristics/MinFillHeuristic.java:35-43 | a vertex eliminated singly had fill 0 and was not adjacent to all others left |
| LegacyMinDegree.Compute | src/main/java/at/mategka/sda/heuristics/MinDegreeHeuristic.java:13-44 | the result lists every original vertex exactly once; the graph is left empty; each vertex eliminated singly was popped up to date with the smallest key of that turn's queue, whose keys not marked outdated are the current degrees, and was never adjacent to all others left; the rest is the last vertex or all vertices left when one is adjacent to all others |
| LegacyMinDegree.Round | src/main/java/at/mategka/sda/heuristics/MinDegreeHeuristic.java:22-41 | one round keeps the loop state and the trace of popped queues and strictly progresses, or stops with the graph empty and the run finished |
| LegacyMinDegree.LastFacts | src/main/java/at/mategka/sda/heuristics/MinDegreeHeuristic.java:24-28 | the last heap entry is the last vertex, appended without a staleness check |
| LegacyMinDegree.RequeueFacts | src/main/java/at/mategka/sda/heuristics/MinDegreeHeuristic.java:29-32 | a stale pop re-queued at its current degree keeps the loop state and shrinks the outdated set |
| LegacyMinDegree.BatchFacts | src/main/java/at/mategka/sda/heuristics/MinDegreeHeuristic.java:33-38 | a key of remaining - 1 on an up-to-date vertex ends the run with all remaining vertices appended |
| LegacyMinDegree.EliminateOne | src/main/java/at/mategka/sda/heuristics/MinDegreeHeuristic.java:39-41 | appends the vertex, marks its neighbours outdated and eliminates it with fill edges, keeping the keys of unmarked vertices exact |
| LegacyMinDegree.EliminateOneFacts | src/main/java/at/mategka/sda/heuristics/MinDegreeHeuristic.java:39-41 | the same step on graph values: keys stay fresh and the replay is extended |
| LegacyMinDegree.PoppedLowest | src/main/java/at/mategka/sda/heuristics/MinDegreeHeuristic.java:22-32 | a vertex popped up to date has the smallest degree among the vertices left not marked outdated |
| LegacyMinDegree.PoppedSnoc | src/main/java/at/mategka/sda/heuristics/MinDegreeHeuristic.java:22-41 | handing out a vertex popped on the working graph extends the trace of turns |
| LegacyMinFill.Compute | src/main/java/at/mategka/sda/heuristics/MinFillHeuristic.java:15-46 | the result lists every original vertex exactly once; the graph is left empty; each vertex eliminated singly had fill 0, was not universal, and every vertex left of smaller degree had fill above 0 (the first fill-free vertex in degree order); the rest was handed out when a vertex was universal or all but one had fill above 0 |
| LegacyMinFill.Round | src/main/java/at/mategka/sda/heuristics/MinFillHeuristic.java:21-44 | one outer round eliminates a fill-0 vertex, or appends all remaining vertices and empties the graph |
| LegacyMinFill.Scan | src/main/java/at/mategka/sda/heuristics/MinFillHeuristic.java:22-41 | a picked vertex has fill 0, is not universal, and every vertex of smaller degree has fill above 0; nothing is picked only when a vertex is universal or all but one have fill above 0 |
| LegacyMinFill.PickedFacts | src/main/java/at/mategka/sda/heuristics/MinFillHeuristic.java:27-39 | a vertex popped with the smallest degree key, below \|V\| - 1, is not universal and every vertex of smaller degree was already scanned with fill above 0 |
| LegacyMinFill.FirstFillFreeSnoc | src/main/java/at/mategka/sda/heuristics/MinFillHeuristic.java:42-43 | eliminating a vertex first among the fill-free ones by degree extends the run's record of such turns |
| LegacyMinFill.ScanNext | src/main/java/at/mategka/sda/heuristics/MinFillHeuristic.java:35-40 | passing over a vertex with fill above 0 keeps the scan state |
| LegacyMinFill.ScanEndsFacts | src/main/java/at/mategka/sda/heuristics/MinFillHeuristic.java:29-34 | a key of remaining - 1, or an emptied heap, means a universal vertex or all but one vertex with fill above 0 |
| LegacyMinFill.BatchFacts | src/main/java/at/mategka/sda/heuristics/MinFillHeuristic.java:29-33 | appending all remaining vertices then finishes the run |
| LegacyMinFill.SingleFacts | src/main/java/at/mategka/sda/heuristics/MinFillHeuristic.java:42-43 | eliminating the picked vertex extends the run by one simplicial turn |
| LegacyMinFill.FillEdgeCountIsTwiceFill | src/main/java/at/mategka/sda/heuristics/MinFillHeuristic.java:48-56 | the fill-edge count (per neighbour, neighbours outside its neighbourhood, less one) is twice the fill, so it is 0 exactly when the fill is 0 |
| LegacyMinFill.OverIsRowSum | src/main/java/at/mategka/sda/heuristics/MinFillHeuristic.java:50-55 | the stream sum equals the row sum of non-adjacent pairs over a listing |
| LegacyMinFill.Outside | src/main/java/at/mategka/sda/heuristics/MinFillHeuristic.java:52-53 | the neighbours outside u's neighbourhood are u itself plus those not adjacent to u, hence the "- 1" |
| LegacyMinFill.CountNonAdjacent | src/main/java/at/mategka/sda/heuristics/MinFillHeuristic.java:53 | the filtered count over a duplicate-free listing is the non-adjacent count |
| LegacyMaxCardinality.Compute | src/main/java/at/mategka/sda/heuristics/MaxCardinalityHeuristic.java:16-54 | the result lists every vertex once and is the removal order reversed, so the first vertex chosen ends last; the graph is left empty; keys are never positive, exact (minus the removed neighbours) for every vertex but the last; every vertex but the first was popped with the smallest key of that turn's queue |
| LegacyMaxCardinality.QueueByLoss | src/main/java/at/mategka/sda/heuristics/MaxCardinalityHeuristic.java:33-34 | every vertex queued under current degree minus original degree |
| LegacyMaxCardinality.StartFacts | src/main/java/at/mategka/sda/heuristics/MaxCardinalityHeuristic.java:27-34 | after the first removal, original degrees measured before it make every key minus the removed neighbours |
| LegacyMaxCardinality.StartTrace | src/main/java/at/mategka/sda/heuristics/MaxCardinalityHeuristic.java:27-30 | the first vertex is removed under key 0 and heads the result |
| LegacyMaxCardinality.Round | src/main/java/at/mategka/sda/heuristics/MaxCardinalityHeuristic.java:36-52 | one round keeps the trace and queue invariants and progresses, or stops with the graph empty |
| LegacyMaxCardinality.Requeue | src/main/java/at/mategka/sda/heuristics/MaxCardinalityHeuristic.java:44-47 | a stale pop is re-queued with its recomputed key and unmarked |
| LegacyMaxCardinality.RemoveLast | src/main/java/at/mategka/sda/heuristics/MaxCardinalityHeuristic.java:39-43 | the last entry is prepended and removed without a staleness check, leaving the graph empty |
| LegacyMaxCardinality.Prepend | src/main/java/at/mategka/sda/heuristics/MaxCardinalityHeuristic.java:48-51 | an up-to-date entry is prepended, its neighbours marked outdated and it is removed without fill edges |
| LegacyMaxCardinality.LastFacts | src/main/java/at/mategka/sda/heuristics/MaxCardinalityHeuristic.java:39-43 | the last entry is the only vertex left, and prepending it finishes the run |
| LegacyMaxCardinality.StaleFacts | src/main/java/at/mategka/sda/heuristics/MaxCardinalityHeuristic.java:44-47 | a recomputed key keeps the queue invariant |
| LegacyMaxCardinality.QueuePrepend | src/main/java/at/mategka/sda/heuristics/MaxCardinalityHeuristic.java:48-51 | removing an up-to-date vertex changes only its neighbours' losses, which are marked outdated |
| LegacyMaxCardinality.TracePrepend | src/main/java/at/mategka/sda/heuristics/MaxCardinalityHeuristic.java:48-50 | removing a vertex under its exact key extends the trace by one turn at the head |
| LegacyMaxCardinality.KeyedSnoc | src/main/java/at/mategka/sda/heuristics/MaxCardinalityHeuristic.java:44-48 | keys stay non-positive, and exact for vertices popped up to date |
| LegacyMaxCardinality.Search | src/main/java/at/mategka/sda/heuristics/MaxCardinalityHeuristic.java:36-52 | the loop keeps trace, queue and popped-queue trace until the queue is empty, then the run is finished |
| LegacyMaxCardinality.MostRemovedNeighbors | src/main/java/at/mategka/sda/heuristics/MaxCardinalityHeuristic.java:37-48 | every vertex removed between the first and the last had at least as many removed neighbours as every queued vertex not marked outdated |
| LegacyMaxCardinality.PoppedNow | src/main/java/at/mategka/sda/heuristics/MaxCardinalityHeuristic.java:34-45 | the queue on the working graph keys every vertex not marked outdated by minus its removed neighbours |
| LegacyMaxCardinality.PoppedSnoc | src/main/java/at/mategka/sda/heuristics/MaxCardinalityHeuristic.java:37-38 | a pop after the vertices removed extends the trace of turns |
| LegacyMaxCardinality.TurnFacts | src/main/java/at/mategka/sda/heuristics/MaxCardinalityHeuristic.java:37-50 | removing the popped vertex extends the trace of turns |
| Bags.Bag.Named | src/main/java/at/mategka/sda/Bag.java:10-12 | a bag with only a name is empty |
| Bags.Bag.constructor | src/main/java/at/mategka/sda/Bag.java:14-17 | a bag built from a collection holds exactly its elements |
| Bags.Bag.SetName | src/main/java/at/mategka/sda/Bag.java:23-25 | relabels the bag and leaves its members untouched |
| Bags.Bag.Add | src/main/java/at/mategka/sda/Bag.java:6 | the inherited set `add`: true exactly when the element was new; the name is untouched |
| Decompositions.Decimal | src/main/java/at/mategka/sda/TreeDecomposition.java:68 | the supplier's counter as a decimal numeral, one digit exactly below 10 |
| Decompositions.DecimalInjective | src/main/java/at/mategka/sda/TreeDecomposition.java:68 | different counters give different numerals |
| Decompositions.BagNamesDistinct | src/main/java/at/mategka/sda/TreeDecomposition.java:79 | bags made from different records get different names |
| Decompositions.FirstContaining | src/main/java/at/mategka/sda/TreeDecomposition.java:75-78 | the first bag in insertion order that holds all neighbours, or none |
| Decompositions.AssembleFailure | src/main/java/at/mategka/sda/TreeDecomposition.java:72-87 | once processing fails, later records do not change the outcome |
| Decompositions.LargestBag | src/main/java/at/mategka/sda/TreeDecomposition.java:91-97 | the largest bag size, attained by some bag; none exactly without bags |
| Decompositions.Treewidth | src/main/java/at/mategka/sda/TreeDecomposition.java:91-97 | every bag has at most width + 1 members, some bag exactly; 0 without bags |
| Decompositions.RecordsSnoc | src/main/java/at/mategka/sda/TreeDecomposition.java:58-63 | recording one more vertex with its neighbours at its turn extends the records |
| Decompositions.RecordStep | src/main/java/at/mategka/sda/TreeDecomposition.java:58-63 | recording and eliminating one more vertex keeps the working graph in step with the replay |
| Connectivity.ConnectedFromOne | src/main/java/at/mategka/sda/TreeDecomposition.java:123-124 | a vertex that reaches all vertices makes the graph connected, and conversely |
| Connectivity.IsConnected | src/main/java/at/mategka/sda/TreeDecomposition.java:123-124 | the inspector's verdict is exactly connectivity: a vertex and a walk between every two |
| DecompositionChecks.Verify | src/main/java/at/mategka/sda/TreeDecomposition.java:99-104 | no violation exactly when the decomposition is a forest covering every vertex and edge with connected subtrees; `NotATree` exactly when it is no forest; each other violation is the first check that fails |
| DecompositionChecks.AssertTree | src/main/java/at/mategka/sda/TreeDecomposition.java:158-185 | accepts exactly the forests: the bags can be listed with at most one earlier neighbour each |
| DecompositionChecks.Explore | src/main/java/at/mategka/sda/TreeDecomposition.java:162-183 | one depth-first search either extends the visit order with at most one earlier neighbour per vertex and leaves no edge out of the visited bags, or rejects only a graph that is no forest |
| DecompositionChecks.RejectionCycle | src/main/java/at/mategka/sda/TreeDecomposition.java:172-177 | a visited neighbour other than the parent closes a cycle through the search's walks to its root, so the graph is no forest |
| DecompositionChecks.CycleBreaksOrder | src/main/java/at/mategka/sda/TreeDecomposition.java:158-185 | an edge whose ends are joined by a walk avoiding it leaves no listing with at most one earlier neighbour per vertex |
| DecompositionChecks.CycleNotForest | src/main/java/at/mategka/sda/TreeDecomposition.java:158-185 | a graph with such an edge is no forest |
| DecompositionChecks.PathsGrow | src/main/java/at/mategka/sda/TreeDecomposition.java:168-171 | a vertex visited from its parent gets a walk to the root through its parent's walk |
| DecompositionChecks.FrontierVisit | src/main/java/at/mategka/sda/TreeDecomposition.java:172-181 | once the loop over a vertex's neighbours ends, each of them is visited or stacked |
| DecompositionChecks.OrderExtends | src/main/java/at/mategka/sda/TreeDecomposition.java:172-181 | a vertex whose only visited neighbour is its parent keeps the order a forest order |
| DecompositionChecks.AssertVerticesCovered | src/main/java/at/mategka/sda/TreeDecomposition.java:147-156 | passes exactly when every graph vertex is in some bag |
| DecompositionChecks.AssertEdgesCovered | src/main/java/at/mategka/sda/TreeDecomposition.java:130-145 | passes exactly when every edge has a bag with both endpoints; otherwise reports an uncovered edge |
| DecompositionChecks.AssertConnectedSubtrees | src/main/java/at/mategka/sda/TreeDecomposition.java:106-128 | passes exactly when every vertex's bags induce a connected graph; otherwise reports a vertex whose bags do not |
| DecompositionChecks.InducedSubgraph | src/main/java/at/mategka/sda/TreeDecomposition.java:114-122 | a new graph on the given bags, two adjacent exactly when the decomposition joins them |
| DecompositionChecks.AddEdgesFrom | src/main/java/at/mategka/sda/TreeDecomposition.java:117-121 | the inner loop adds every decomposition edge from one bag and nothing else |
| TreeDecomposition.Compute | src/main/java/at/mategka/sda/TreeDecomposition.java:67-89 | the result is `Assemble` of the records processed last first |
| TreeDecomposition.AttachRecord | src/main/java/at/mategka/sda/TreeDecomposition.java:73-86 | one round adds the record's bag and its edge to the first bag holding its neighbours, or to the root; the root is the first bag; a loop edge fails |
| TreeDecomposition.AssemblePop | src/main/java/at/mategka/sda/TreeDecomposition.java:72-74 | popping the next record extends the processing of those after it |
| TreeDecomposition.AssembleStopped | src/main/java/at/mategka/sda/TreeDecomposition.java:85 | a failure while popping is the outcome of the whole run |
| TreeDecomposition.FromOrdering | src/main/java/at/mategka/sda/TreeDecomposition.java:54-65 | an ordering naming distinct vertices yields a decomposition of the graph with one bag per record and the ordering's width; otherwise the first missing vertex fails |
| TreeDecomposition.FromHeuristic | src/main/java/at/mategka/sda/TreeDecomposition.java:21-52 | the results `next` handed out form a legal trace; the records list the trace placement plus the batch, each vertex once with its neighbours at its turn; the result is `Assemble` of the records last first; for the fill-in heuristics it is a decomposition of the graph; for maximum cardinality only the records are stated |
| TreeDecomposition.HeuristicRecords | src/main/java/at/mategka/sda/TreeDecomposition.java:22-50 | the loop: a legal trace, and records of every vertex handed out with its neighbours at its turn, at the tail for the fill-in heuristics and at the head otherwise |
| TreeDecomposition.HeuristicDone | src/main/java/at/mategka/sda/TreeDecomposition.java:51 | for the fill-in heuristics the records of the whole hand-out order assemble into a decomposition of the graph |
| TreeDecomposition.RecordTurn | src/main/java/at/mategka/sda/TreeDecomposition.java:27-38 | recording a legal answer with its current neighbours extends the records of the trace at the tail or the head |
| TreeDecomposition.FromHeuristicOrdering | src/main/java/at/mategka/sda/TreeDecomposition.java:21-65 | corrected: for every heuristic the result is a tree decomposition of the graph built from the heuristic's ordering |
| TreeDecomposition.HeuristicStep | src/main/java/at/mategka/sda/TreeDecomposition.java:26-38 | one round: the answer of `next` extends the trace when it is a single vertex, which is recorded at the tail or head with its neighbours and eliminated, keeping records and replay in step; a batch is everything left; empty exactly when nothing is left |
| TreeDecomposition.EliminateBatch | src/main/java/at/mategka/sda/TreeDecomposition.java:39-45 | each batch member is recorded at the tail with its neighbours and eliminated with fill edges; the trace plus the batch then lists every vertex and the records are those of that order |
| EliminationDecomposition.Parent | src/main/java/at/mategka/sda/TreeDecomposition.java:75-78 | a record's bag hangs off an earlier bag |
| EliminationDecomposition.FreshBagsDistinct | src/main/java/at/mategka/sda/TreeDecomposition.java:79-81 | in fresh records bags from different records differ, so each record adds a vertex |
| EliminationDecomposition.ParentEdgeIn | src/main/java/at/mategka/sda/TreeDecomposition.java:82-86 | every parent edge is an edge |
| EliminationDecomposition.EdgeIsParentEdge | src/main/java/at/mategka/sda/TreeDecomposition.java:82-86 | every edge is a parent edge |
| EliminationDecomposition.AttachNewBag | src/main/java/at/mategka/sda/TreeDecomposition.java:75-86 | a new bag is added with one edge from its parent |
| EliminationDecomposition.AttachFresh | src/main/java/at/mategka/sda/TreeDecomposition.java:72-87 | one more fresh record adds its bag and exactly one edge |
| EliminationDecomposition.AssembleFresh | src/main/java/at/mategka/sda/TreeDecomposition.java:67-89 | fresh records assemble to one named bag per record and one parent edge per record after the first, so edges = bags - 1 |
| EliminationDecomposition.FreshVertices | src/main/java/at/mategka/sda/TreeDecomposition.java:79-81 | the tree's vertices are exactly the records' bags |
| EliminationDecomposition.AdjacentEarlier | src/main/java/at/mategka/sda/TreeDecomposition.java:82-86 | a bag joined to an earlier bag is joined to its parent |
| EliminationDecomposition.FreshEdge | src/main/java/at/mategka/sda/TreeDecomposition.java:85 | each edge joins two different bags of the tree and is not stored in both orientations |
| EliminationDecomposition.FreshWellFormed | src/main/java/at/mategka/sda/TreeDecomposition.java:81-85 | fresh records make a simple graph with no repeated bag |
| EliminationDecomposition.FreshForest | src/main/java/at/mategka/sda/TreeDecomposition.java:82-86 | listed in record order every bag has at most one earlier neighbour |
| EliminationDecomposition.ReachesFirst | src/main/java/at/mategka/sda/TreeDecomposition.java:82-86 | every bag reaches the root along parent edges |
| EliminationDecomposition.FreshTree | src/main/java/at/mategka/sda/TreeDecomposition.java:67-89 | fresh records make a tree: simple, a forest, one bag per record, connected when non-empty |
| EliminationDecomposition.FilledFresh | src/main/java/at/mategka/sda/TreeDecomposition.java:72-81 | records of a complete elimination are fresh |
| EliminationDecomposition.FilledParent | src/main/java/at/mategka/sda/TreeDecomposition.java:75-78 | the bag a record is joined to holds all of its neighbours |
| EliminationDecomposition.FilledSubtrees | src/main/java/at/mategka/sda/TreeDecomposition.java:106-128 | the bags holding any vertex form a connected subtree |
| EliminationDecomposition.FilledCoversEdge | src/main/java/at/mategka/sda/TreeDecomposition.java:130-145 | every edge lies in the bag of its endpoint eliminated first |
| EliminationDecomposition.FilledDecomposition | src/main/java/at/mategka/sda/TreeDecomposition.java:99-104 | records of an elimination of every vertex make a tree decomposition, which `DecompositionChecks.Verify` accepts by its if-and-only-if |
| OrderingDecomposition.StepAdjacent | src/main/java/at/mategka/sda/GraphExtensions.java:27-36 | one elimination with fill edges keeps edges away from x and closes x's neighbourhood |
| OrderingDecomposition.Persist | src/main/java/at/mategka/sda/TreeDecomposition.java:58-63 | an adjacency survives while neither end is eliminated |
| OrderingDecomposition.FillClique | src/main/java/at/mategka/sda/TreeDecomposition.java:62 | eliminating o[i] makes any two of its neighbours adjacent |
| OrderingDecomposition.RecordAt | src/main/java/at/mategka/sda/TreeDecomposition.java:58-61 | record i is o[i] with a listing of its neighbours just before its elimination |
| OrderingDecomposition.NeighborRemains | src/main/java/at/mategka/sda/TreeDecomposition.java:60 | a recorded neighbour is a vertex not yet eliminated |
| OrderingDecomposition.NeighborLater | src/main/java/at/mategka/sda/TreeDecomposition.java:58-63 | a recorded neighbour is eliminated later |
| OrderingDecomposition.EarlierAbsent | src/main/java/at/mategka/sda/TreeDecomposition.java:58-63 | a vertex eliminated before o[b] is in no bag of a later record |
| OrderingDecomposition.FillRecorded | src/main/java/at/mategka/sda/TreeDecomposition.java:58-63 | of two recorded neighbours, the one eliminated last is recorded at the other |
| OrderingDecomposition.EdgeRecorded | src/main/java/at/mategka/sda/TreeDecomposition.java:58-63 | an edge is recorded at its endpoint eliminated first |
| OrderingDecomposition.LaterNeighbor | src/main/java/at/mategka/sda/TreeDecomposition.java:62 | with fill edges, a later neighbour of o[i] is a neighbour of o[i]'s first-eliminated neighbour at its turn |
| OrderingDecomposition.RecordsFresh | src/main/java/at/mategka/sda/TreeDecomposition.java:54-65 | processed last-eliminated first, the records are fresh |
| OrderingDecomposition.RecordsForward | src/main/java/at/mategka/sda/TreeDecomposition.java:54-65 | the records of a complete elimination name their vertices, later neighbours, closed fill and every edge |
| OrderingDecomposition.RecordsFilled | src/main/java/at/mategka/sda/TreeDecomposition.java:54-65 | those records, reversed, are what an elimination of every vertex leaves |
| OrderingDecomposition.RecordBagSize | src/main/java/at/mategka/sda/TreeDecomposition.java:79-80 | record i's bag has one more member than o[i] has neighbours at its turn |
| OrderingDecomposition.RecordsTreewidth | src/main/java/at/mategka/sda/TreeDecomposition.java:91-97 | the decomposition's width is the ordering's width |
| OrderingDecomposition.EliminationDecomposes | src/main/java/at/mategka/sda/TreeDecomposition.java:54-65 | processing the records of any elimination ordering with fill edges succeeds and yields a tree decomposition of the ordering's width |
| RemovalCounterexample.AfterFirst | src/main/java/at/mategka/sda/elimination/MaxCardinalityHeuristic.java:47 | the cycle 1-2-3-4 after removing 1 |
| RemovalCounterexample.AfterSecond | src/main/java/at/mategka/sda/elimination/MaxCardinalityHeuristic.java:47 | after removing 1 and 2 |
| RemovalCounterexample.AfterThird | src/main/java/at/mategka/sda/elimination/MaxCardinalityHeuristic.java:47 | after removing 1, 2 and 3 |
| RemovalCounterexample.NeighborsAtTurns | src/main/java/at/mategka/sda/TreeDecomposition.java:36 | each vertex's neighbours at its turn |
| RemovalCounterexample.CycleRecordsByRemoval | src/main/java/at/mategka/sda/TreeDecomposition.java:33-38 | the records of removing 1, 2, 3, 4 in turn from the cycle |
| RemovalCounterexample.AssembledFirst | src/main/java/at/mategka/sda/TreeDecomposition.java:79-84 | the first record becomes the root bag |
| RemovalCounterexample.AttachSecond | src/main/java/at/mategka/sda/TreeDecomposition.java:75-86 | no bag holds record 2's neighbour, so its bag hangs off the root |
| RemovalCounterexample.AttachThird | src/main/java/at/mategka/sda/TreeDecomposition.java:75-86 | the root holds record 3's neighbour |
| RemovalCounterexample.AttachFourth | src/main/java/at/mategka/sda/TreeDecomposition.java:75-86 | record 4 has no neighbours and hangs off the first bag |
| RemovalCounterexample.CycleAssembled | src/main/java/at/mategka/sda/TreeDecomposition.java:67-89 | processing the records gives a star around {1, 2, 4} |
| RemovalCounterexample.HoldersOfThree | src/main/java/at/mategka/sda/TreeDecomposition.java:106-122 | the bags holding 3 are two, with no edge between them |
| RemovalCounterexample.TwoApart | src/main/java/at/mategka/sda/TreeDecomposition.java:123-124 | two bags and no edge are not connected |
| RemovalCounterexample.RemovalBreaksSubtree | src/main/java/at/mategka/sda/TreeDecomposition.java:21-52 | the decomposition built from a maximum-cardinality run on the cycle fails the connected-subtree check |
| Seqs.ListsLength | src/main/java/at/mategka/sda/GraphExtensions.java:28 | a listing of a set has as many positions as the set has members |
| Seqs.ReverseLists | src/main/java/at/mategka/sda/elimination/EliminationHeuristic.java:29-30 | prepending every vertex in turn still lists the same set |
| Seqs.ListOf | src/main/java/at/mategka/sda/elimination/MinFillHeuristic.java:52 | copying a set into a list enumerates it exactly once, in an order callers may not rely on |
| Util.ReversedTwice | src/main/java/at/mategka/sda/util/Vector2.java:17-19 | reversal swaps the components and applying it twice gives the pair back |
| Util.MinMaxSplit | src/main/java/at/mategka/sda/util/Vector2.java:37-43 | on a tie both return `first`; otherwise `min` returns the smaller and `max` the larger component |
| Util.SortedOrdered | src/main/java/at/mategka/sda/util/Vector2.java:25-27 | `sorted` is the pair or its reversal, starts with the minimum and is in order |
| Util.ReduceWithIdentity | src/main/java/at/mategka/sda/util/Vector2.java:29-35 | with a left identity the seeded reduction equals the unseeded one |
| Util.MatchDuality | src/main/java/at/mategka/sda/util/Vector2.java:45-55 | `noneMatch` is `allMatch` of the negation, `anyMatch` its complement |
| Util.MapComponentwise | src/main/java/at/mategka/sda/util/Vector2.java:57-67 | mapping is componentwise: it commutes with reversal and lists as [f(first), f(second)] |
| Util.ToSetContents | src/main/java/at/mategka/sda/util/Vector2.java:61-63 | `toSet` succeeds exactly for two different components and then holds both |
| CsvGraphParser.LinesJoin | src/main/java/at/mategka/sda/io/CsvGraphParser.java:16 | splitting lines that were joined, none holding a break, gives them back |
| CsvGraphParser.StripLeading | src/main/java/at/mategka/sda/io/CsvGraphParser.java:17 | drops exactly the leading whitespace |
| CsvGraphParser.StripTrailing | src/main/java/at/mategka/sda/io/CsvGraphParser.java:17 | drops exactly the trailing whitespace |
| CsvGraphParser.StripPlain | src/main/java/at/mategka/sda/io/CsvGraphParser.java:17 | a text neither starting nor ending with whitespace is left as it is |
| CsvGraphParser.StripIdempotent | src/main/java/at/mategka/sda/io/CsvGraphParser.java:17 | stripping twice is stripping once |
| CsvGraphParser.EndpointsSpec | src/main/java/at/mategka/sda/io/CsvGraphParser.java:19-20 | no endpoints exactly when there is no ',' or '>'; otherwise the text before the first separator and the text up to the next separator or the end |
| CsvGraphParser.EndpointsOfLine | src/main/java/at/mategka/sda/io/CsvGraphParser.java:19-23 | two separator-free names written with ',' between them are read back |
| CsvGraphParser.LinePairsConcat | src/main/java/at/mategka/sda/io/CsvGraphParser.java:16-20 | the pairs of two runs of lines are those of each, in order |
| CsvGraphParser.AddEdgeKeepsSimple | src/main/java/at/mategka/sda/io/CsvGraphParser.java:24 | adding an edge between two distinct names keeps the graph simple, adds both names and makes them adjacent, nothing else |
| CsvGraphParser.BuildFailureStays | src/main/java/at/mategka/sda/io/CsvGraphParser.java:21-25 | after a failure later lines do not matter |
| CsvGraphParser.BuildFails | src/main/java/at/mategka/sda/io/CsvGraphParser.java:24 | building fails exactly when some line names one vertex twice, and reports the first |
| CsvGraphParser.BuildGraph | src/main/java/at/mategka/sda/io/CsvGraphParser.java:14-27 | a successful parse is a simple graph on the named vertices, two adjacent exactly when a line names them; repeated edges are not duplicated |
| CsvGraphParser.LinePairsStep | src/main/java/at/mategka/sda/io/CsvGraphParser.java:16-20 | a blank line or one without a separator adds nothing; any other adds its endpoints |
| CsvGraphParser.StepSkips | src/main/java/at/mategka/sda/io/CsvGraphParser.java:18-20 | a skipped line leaves the graph as it is |
| CsvGraphParser.StepAdds | src/main/java/at/mategka/sda/io/CsvGraphParser.java:22-24 | an accepted line adds both names, and the edge unless already adjacent |
| CsvGraphParser.StepLoops | src/main/java/at/mategka/sda/io/CsvGraphParser.java:22-24 | a line naming one vertex twice fails with that vertex |
| CsvGraphParser.BuildFailsAt | src/main/java/at/mategka/sda/io/CsvGraphParser.java:21-25 | a loop at line k decides the outcome of the whole parse |
| CsvGraphParser.Parse | src/main/java/at/mategka/sda/io/CsvGraphParser.java:14-27 | the graph object built line by line has the value `Build` gives, or the same self-loop error |
| CsvGraphParser.Untouched | src/main/java/at/mategka/sda/io/CsvGraphParser.java:37-38 | exactly the listed vertices that no edge touches, in order |
| CsvGraphParser.EdgeLines | src/main/java/at/mategka/sda/io/CsvGraphParser.java:34-36 | one "s,t," line per edge vector |
| CsvGraphParser.IsolatedLines | src/main/java/at/mategka/sda/io/CsvGraphParser.java:37-40 | one "v,," line per isolated vertex |
| CsvGraphParser.TouchedAdjacent | src/main/java/at/mategka/sda/io/CsvGraphParser.java:31-33 | the vertices the edge vectors touch are exactly those with a neighbour |
| CsvGraphParser.EdgeLinesUnbroken | src/main/java/at/mategka/sda/io/CsvGraphParser.java:34-36 | edge lines of names without line breaks hold no break |
| CsvGraphParser.IsolatedLinesUnbroken | src/main/java/at/mategka/sda/io/CsvGraphParser.java:37-40 | isolated-vertex lines of names without line breaks hold no break |
| CsvGraphParser.EncodedLinesUnbroken | src/main/java/at/mategka/sda/io/CsvGraphParser.java:34-41 | no encoded line holds a break |
| CsvGraphParser.EncodeLines | src/main/java/at/mategka/sda/io/CsvGraphParser.java:29-42 | the text's lines are one "s,t," line per edge, in stored orientation, then one "v,," line per vertex without edges |
| CsvGraphParser.EdgeTextStripped | src/main/java/at/mategka/sda/io/CsvGraphParser.java:17 | an edge line of plain names has nothing to strip |
| CsvGraphParser.EdgeTextPair | src/main/java/at/mategka/sda/io/CsvGraphParser.java:19-23 | an edge line is read as its pair |
| CsvGraphParser.EdgeTextsPairs | src/main/java/at/mategka/sda/io/CsvGraphParser.java:16-23 | the edge lines are read as one pair per vector, in order |
| CsvGraphParser.BuildEdges | src/main/java/at/mategka/sda/io/CsvGraphParser.java:21-25 | adding each edge of a simple graph without isolated vertices once rebuilds that graph |
| CsvGraphParser.EncodedEdgesOnly | src/main/java/at/mategka/sda/io/CsvGraphParser.java:37-41 | without isolated vertices the encoding is the edge lines only |
| CsvGraphParser.VectorPairsEdges | src/main/java/at/mategka/sda/GraphExtensions.java:39-43 | the pairs of a listing of the edge vectors are exactly the edges |
| CsvGraphParser.ParseEncode | src/main/java/at/mategka/sda/io/CsvGraphParser.java:14-42 | parsing the encoding of a simple graph of plain names without isolated vertices gives the graph back |
| CsvGraphParser.IsolatedReadsAsEdge | src/main/java/at/mategka/sda/io/CsvGraphParser.java:19-39 | the one-vertex graph {a} encodes as "a,,", which parses as the edge from a to the empty name |
| CsvTreeDecompositionEncoder.SplitJoin | src/main/java/at/mategka/sda/io/CsvTreeDecompositionEncoder.java:24-28 | splitting the ';'-joined members gives them back, when there is one at least and none holds a ';' |
| CsvTreeDecompositionEncoder.JoinUnbroken | src/main/java/at/mategka/sda/io/CsvTreeDecompositionEncoder.java:24-28 | the joined field holds a line break only where a member does |
| CsvTreeDecompositionEncoder.Shown | src/main/java/at/mategka/sda/io/CsvTreeDecompositionEncoder.java:25-26 | each member's text, in the iteration order |
| CsvTreeDecompositionEncoder.NameOf | src/main/java/at/mategka/sda/io/CsvTreeDecompositionEncoder.java:15 | the name of the bag with the given contents |
| CsvTreeDecompositionEncoder.TreeEdgeLines | src/main/java/at/mategka/sda/io/CsvTreeDecompositionEncoder.java:14-17 | one line per tree edge, naming the two bags, not their contents |
| CsvTreeDecompositionEncoder.BagLines | src/main/java/at/mategka/sda/io/CsvTreeDecompositionEncoder.java:18-20 | one "name,,members" line per bag |
| CsvTreeDecompositionEncoder.BagLineUnbroken | src/main/java/at/mategka/sda/io/CsvTreeDecompositionEncoder.java:19 | a bag line holds no break when its name and members' texts do not |
| CsvTreeDecompositionEncoder.EdgeLineUnbroken | src/main/java/at/mategka/sda/io/CsvTreeDecompositionEncoder.java:16 | an edge line holds no break when the bag names do not |
| CsvTreeDecompositionEncoder.EncodedUnbroken | src/main/java/at/mategka/sda/io/CsvTreeDecompositionEncoder.java:13-22 | no encoded line holds a break |
| CsvTreeDecompositionEncoder.EncodeLines | src/main/java/at/mategka/sda/io/CsvTreeDecompositionEncoder.java:13-22 | the lines are one per tree edge, then one per bag: all edge lines precede all bag lines |
| CsvTreeDecompositionEncoder.EdgeLinesCover | src/main/java/at/mategka/sda/io/CsvTreeDecompositionEncoder.java:14-17 | every tree edge has its line in the encoding |
| CsvTreeDecompositionEncoder.DecimalDigits | src/main/java/at/mategka/sda/TreeDecomposition.java:79 | a bag's counter is written in decimal digits only |
| CsvTreeDecompositionEncoder.BagNamePlain | src/main/java/at/mategka/sda/TreeDecomposition.java:79 | bag names hold no ',', no ';' and no line break |
| CsvTreeDecompositionEncoder.BagLineRead | src/main/java/at/mategka/sda/io/CsvTreeDecompositionEncoder.java:19-27 | a bag line is read back as its name and its members' texts in order, for non-empty bags whose texts hold no ';' |
| CsvTreeDecompositionEncoder.EmptyBagAmbiguous | src/main/java/at/mategka/sda/io/CsvTreeDecompositionEncoder.java:24-28 | an empty bag and a bag of one member shown as "" are written alike |

## Left out

- The command line (`cli/`, `Main.java`) is not part of this model. It is argument parsing, file and stdin I/O, printing, random graph generation and floating-point statistics. `plot.py` is not part of this model either.
- The heuristic interfaces (`EliminationHeuristic`'s `compute`, the factory interface) have no dispatch here. Each legacy `compute` is its own method, and the stepping heuristics are dispatched through the datatype `EliminationHeuristic.Heuristic`. The results are the datatype `EliminationResults.EliminationResult`.
- Java `int` and `long` arithmetic is modelled unbounded. Degrees, keys and fill counts stay below the number of vertices squared, so overflow would need graphs far beyond memory. The `Integer.MAX_VALUE` sentinel of the minimum-fill scan is a missing candidate (`None`).
- The Fibonacci heap is a map from vertex to key. Which of several minimal entries `deleteMin` returns is left open, as are its amortised costs.
- Hash-set and hash-map iteration orders are never fixed. They are a listing the caller passes in, or an arbitrary listing (`Seqs.ListOf`, `VertexList`, `NeighborListOf`).
- The library's `clone` is modelled as a fresh graph with the same vertex and edge sets. Its internal storage is not modelled.
- The string supplier is a counter printed in decimal. Names are "N" followed by the counter.
- The decomposition holds its bags as values (`Decompositions.NamedBag`), not as `Bag` objects. `Bags.Bag` models the class itself. Bags are never changed after insertion, so the aliasing between the two is not captured.
- Exceptions are values: `Result` and `Option` failures, and `DecompositionChecks.Violation`. Exception messages are not modelled.
- Vertex `toString`, `String.format("%s")` and `Objects::toString` are a `show` function passed in.
  - `Vector2.formatted` is modelled only through the edge lines it produces.
  - `Vector2.mapping` is `Util.Vector2.Map`.
  - `Vector2.sorted()` with the natural order is `sorted` with the natural comparator.
  - `iterator`, `stream` and `Iterable` are left out.
- Strings are sequences of `char`.
  - Stripping uses the characters `Character.isWhitespace` accepts. Supplementary code points are not modelled.
  - `String.lines` treats "\r\n" as one break, while `CsvGraphParser.Lines` yields an extra empty piece there. The parser drops empty lines, so it reads the same pairs either way.
- CsvTreeDecompositionEncoder.BagLineRead: stated only for bags with at least one member, because an empty bag and a bag holding one member shown as "" are written alike (`EmptyBagAmbiguous`).
- MinDegree.MinDegreeHeuristic.Next: the batch is a snapshot of the vertex set when it is handed out. The live vertex set the code passes, and later iterated while eliminating from it, is not modelled.
- EliminationHeuristic.Treewidth: with a batch, it states only that the result is at least the replay width of the run's ordering. The batch condition, one vertex adjacent to all others, does not make the rest a clique, so the replay can be narrower.
- EliminationHeuristic.Treewidth: for maximum cardinality it states the width of the removal replay, not the width of its ordering with fill edges. The two differ, because that heuristic adds no fill edges.
- LegacyMaxCardinality.Compute: the last key is stated only to be at most 0. The last entry is handed out without a staleness check, so its key may be stale.
- EliminationHeuristic.Eliminate: for minimum fill it runs the corrected elimination (`MinFill.MinFillHeuristic.EliminateFixed`), so it succeeds where the code throws on a neighbour whose set was never cached (Findings, row 1).
- EliminationHeuristic.EliminateBatched: runs the corrected minimum-fill elimination on every batch member, so it succeeds where the code throws (Findings, row 1).
- EliminationHeuristic.EliminationOrder: for minimum fill it promises a complete ordering also on inputs where the code throws, such as the path 1-2-3 scanned from 1, because it runs the corrected elimination (Findings, row 1).
- EliminationHeuristic.Treewidth: for minimum fill it promises a width also on inputs where the code throws, because it runs the corrected elimination (Findings, row 1).
- TreeDecomposition.FromHeuristic: for minimum fill it promises records also on inputs where the code throws, such as K2, K3 or the path 1-2-3, because it runs the corrected elimination (Findings, row 1).
- TreeDecomposition.HeuristicStep: its minimum-fill step is the corrected elimination (Findings, row 1).
- TreeDecomposition.EliminateBatch: eliminates a minimum-fill batch with the corrected elimination, where the code throws on the first vertex whose set was never cached (Findings, row 1).
- TreeDecomposition.FromHeuristic: for maximum cardinality it states only the records, not a valid decomposition (see Findings).
- EliminationHeuristic.EliminationOrder: its trace states that each result is a legal answer on what is left, not which legal answer the heuristic picks. That choice is stated by each heuristic's `Next` (`MinDegree.MinDegreeHeuristic.Next`, `MinFill.MinFillHeuristic.Next`, `MaxCardinality.MaxCardinalityHeuristic.Next`), whose state the generic loop does not see.
- EliminationHeuristic.Treewidth: the same holds for its trace; the choice is stated by each heuristic's `Next`.
- TreeDecomposition.FromHeuristic: the same holds for its trace; the choice is stated by each heuristic's `Next`.

## Findings

| source | as written | input that shows it | evidently intended | confidence | as-written member | corrected member |
|---|---|---|---|---|---|---|
| src/main/java/at/mategka/sda/elimination/MinFillHeuristic.java:72-77 | `eliminate` reads the neighbour sets of the vertex and of each neighbour with `get`. Only the scan fills the cache, through `computeIfAbsent`, so a neighbour the scan never inspected has no entry and `n.remove` fails with a null reference. | The path 1-2-3 with the vertex set iterated from 1. The scan caches only 1's set, hands out 1 (one neighbour, fill 0) and stops. Eliminating 1 then looks up 2's set, which is absent. Also K2 or K3 through `fromHeuristic`: the first scanned vertex is adjacent to all others, so `next` returns the whole vertex set with only that vertex cached (MinFillHeuristic.java:34-35), and `fromHeuristic` eliminates every vertex of it (TreeDecomposition.java:40-43), failing at the first whose set or a neighbour's set was never cached. | Look up the vertex and its neighbours through the cache-filling lookup, so every vertex handed out can be eliminated. | not executed | MinFill.MinFillHeuristic.Eliminate, MinFill.PathScannedFromLeafFails | MinFill.MinFillHeuristic.EliminateFixed |
| src/main/java/at/mategka/sda/TreeDecomposition.java:33-38 | `fromHeuristic` records a prepended vertex's neighbours and then calls the heuristic's `eliminate`. For maximum cardinality that only removes the vertex and adds no fill edges, so the recorded neighbourhoods are not those of an elimination, and the bags need not form a tree decomposition. | The cycle 1-2-3-4, with the heuristic handing out 1, 2, 3, 4 (every key ties at some point, so this is one allowed tie order). The bags are a star around {1, 2, 4}. The two bags holding 3, {2, 3} and {3, 4}, are not joined, so `verify` rejects the result. | Build the decomposition from the heuristic's elimination ordering with fill edges, as `fromOrdering` does; it is then valid for every heuristic. | not executed | TreeDecomposition.FromHeuristic, RemovalCounterexample.RemovalBreaksSubtree | TreeDecomposition.FromHeuristicOrdering |
