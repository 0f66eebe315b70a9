# Critical paths of a project network, in Dafny

This project models the Critical Path Method (CPM) scheduler of the
Critical-Paths repository and proves what its results mean. A project is
a directed acyclic graph: vertices are tasks named `1..n`, and each has a
duration `d`. The scheduler works in five steps:

1. The driver makes vertex `n - 1` the start `s` and vertex `n` the end `t`.
   It adds an edge `s -> x` to every other task with no incoming edge. It
   adds an edge `x -> t` to every other task with no outgoing edge.
2. `findCriticalPaths` orders the tasks topologically by depth-first search.
3. It computes the earliest completion time `ec` in a forward pass, and the
   latest completion time `lc` in a backward pass.
4. It computes each task's slack `lc - ec` and counts the zero-slack tasks.
5. It enumerates every critical path from `s` to `t`, one walk along tight
   edges at a time.

The graph container is modelled too:

- vertices in a list whose slot 0 is null;
- `adj` and `revAdj` edge lists, with `addEdge` and `otherEnd`;
- the vertex and graph iterators;
- breadth-first search and the bipartiteness test built on it.

Files (one module each):

| file | module | what it holds |
|---|---|---|
| `graph.dfy` | `Graphs` | Vertex, Edge and Graph; construction, `getVertex`, `addEdge`, `otherEnd`, the iterators |
| `network.dfy` | `Networks` | The integer view the algorithms read: durations, successor names (`otherEnd` over `adj`) and predecessor names (over `revAdj`); walks and their weight |
| `toposort.dfy` | `TopoSort` | `DFS`/`dfsVisit` and the topological order they build |
| `passes.dfy` | `Passes` | The forward and backward passes, slack and the critical count, and what `ec` and `lc` mean in terms of walks |
| `enumerate.dfy` | `Enumerate` | `enumeratePaths`/`visit`, a reference list of tight walks, and the heaviest-walk theorem |
| `cpm.dfy` | `CriticalPathMethod` | `findCriticalPaths` end to end |
| `wiring.dfy` | `Wiring` | The driver's two loops that connect `s` and `t` |
| `bfs.dfy` | `Bipartite` | `bfs` and `isBipartite` |

## Model

| member | source | states |
|---|---|---|
| Graphs.NewVertex | Vertex.java:27-33 | A new task carries its name. It is unseen. Its duration is the `Integer.MAX_VALUE` marker. Both edge lists are empty. |
| Graphs.EdgesIgnoreRevAdj | Vertex.java:35 | Iterating a vertex yields its outgoing list, entry by entry in order. The reverse list plays no part. |
| Graphs.OtherEnd | Edge.java:36-44 | The result is an end of the edge. It equals the given end only when the edge is a self-loop. |
| Graphs.OtherEndSwaps | Edge.java:36-44 | From the tail it gives the head. From the head of a non-loop it gives the tail. Applied twice it returns the vertex it started from. |
| Graphs.NewGraph | Graph.java:25-33 | A new graph is undirected and well formed. Slot 0 is null. Slot `i` holds a fresh vertex named `i` for every `1 <= i <= size`. |
| Graphs.GetVertex | Graph.java:40-42 | Index 0 gives the null slot and only index 0 does. Any other index gives the vertex with that name. |
| Graphs.Vertices | Graph.java:68-72 | The graph iterator yields exactly `size` vertices, named `1..size` in order, skipping the null slot. |
| Graphs.AddEdge | Graph.java:54-63 | The graph stays well formed, and its names, seen flags and durations are unchanged. Directed: the edge is appended to `from.adj` and to `to.revAdj`. Undirected: it is appended to `from.adj` and to `to.adj`, twice to the same list for a self-loop. No other list changes. |
| Networks.Project | CriticalPaths.java:120-122 | Successor `k` of `u` is the other end of the `k`-th edge of `u.adj`, and predecessor `k` is that of `u.revAdj`. In a directed graph `v` is a successor of `u` exactly when `u` is a predecessor of `v`. In an undirected graph adjacency is symmetric. |
| TopoSort.DfsVisit | CriticalPaths.java:52-63 | Visiting a white vertex blackens it and turns no vertex back to white. The order grows at the front only: it ends with the order as it was before the visit, and `u`, finished last, is its new head. The order keeps every edge's tail before its head. |
| TopoSort.TopologicalOrder | CriticalPaths.java:29-43 | On an acyclic network every vertex ends black. The order lists each vertex exactly once, with the tail of every edge before its head. |
| Passes.RelaxSuccessors | CriticalPaths.java:120-124 | Relaxing the edges out of `u` lowers no `ec` and leaves `u` and the vertices before it unchanged. Every successor `v` ends at least `ec(u) + d(v)`. Any value that changed equals exactly that. |
| Passes.ForwardPass | CriticalPaths.java:104-125 | `ec` solves the earliest-time equations. `ec(v)` is at least its start value (0 at `s`, `Integer.MIN_VALUE` elsewhere) and at least `ec(u) + d(v)` for every edge `u -> v`. It equals one of these bounds. |
| Passes.EcIsHeaviestWalk | CriticalPaths.java:114-125 | Over every walk ending at `v`, `ec(v)` is the greatest value of the walk's start value plus its weight, and some walk attains it. |
| Passes.StartAtZero | CriticalPaths.java:113 | When no edge enters `s`, `ec(s)` stays 0. |
| Passes.RelaxPredecessors | CriticalPaths.java:145-149 | Relaxing the reverse edges of `u` raises no `lc` and leaves `u` and the vertices after it unchanged. Every `p` in `u.revAdj` ends at most `lc(u) - d(u)`. Any value that changed equals exactly that. |
| Passes.BackwardPass | CriticalPaths.java:127-150 | `lc` solves the latest-time equations. Every `lc(p)` is at most `ec(t)` and at most `lc(u) - d(u)` whenever `p` is in `u.revAdj`. It equals one of these bounds. |
| Passes.LcIsTopMinusHeaviest | CriticalPaths.java:135-150 | `lc(v)` is `ec(t)` minus the weight of the heaviest walk leaving `v`. No walk leaving `v` gives less than `lc(v)`, and some walk gives exactly `lc(v)`. |
| Passes.SlackAndCount | CriticalPaths.java:152-165 | Every task's slack is `lc - ec`. The count is the number of zero-slack tasks other than `s` and `t`, stated as the size of that set. |
| Passes.SlackNonNegative | CriticalPaths.java:152-165 | Assume durations are non-negative and every task reaches `t`. Then no slack is negative, and `t` has zero slack. |
| Passes.ReachEnd | Driver.java:47-54 | If every vertex other than `t` has an outgoing edge, every vertex has a walk to `t`. |
| Enumerate.EnumeratePaths | CriticalPaths.java:70-96 | Earlier records are kept. The buffer holds the prefix followed by `u`. The records appended, each cut at its recorded index, are exactly the prefix followed by each tight walk from `u` to `t`, in the reference order. |
| Enumerate.PathsFromSound | CriticalPaths.java:81-87 | Every listed walk starts at `u` and ends at `t`, meeting `t` nowhere else, and each of its edges passes the tightness test. |
| Enumerate.PathsFromComplete | CriticalPaths.java:81-87 | Every walk from `u` to `t` whose edges all pass the tightness test is listed. |
| Enumerate.PathsFromDistinct | CriticalPaths.java:81-87 | If no vertex lists a successor twice, no walk is listed twice. |
| Enumerate.CriticalAreHeaviest | CriticalPaths.java:84 | Assume non-negative durations and that every task reaches `t`. Then a walk from `s` is listed if and only if it goes from `s` to `t` with weight `ec(t) - ec(s)`, and no walk from `s` to `t` weighs more. |
| CriticalPathMethod.FindCriticalPaths | CriticalPaths.java:99-168 | End to end, the order is topological and `ec` and `lc` solve their equations. Slack and count are as above. The recorded paths are the reference list of tight walks from `s` to `t`, with no repeats when there are no parallel edges. Under non-negative durations, with every task reaching `t`, they are exactly the heaviest walks from `s` to `t`. |
| CriticalPathMethod.RecordedCritical | CriticalPaths.java:166-168 | Under those hypotheses, the recorded walks are exactly the critical ones: from `s` to `t`, weighing `ec(t) - ec(s)`. |
| CriticalPathMethod.RecordedDistinct | CriticalPaths.java:166-168 | Without parallel edges the recorded walks repeat none. |
| CriticalPathMethod.AcyclicMirrored | Graph.java:54-63 | The network of an acyclic valid graph meets the backward pass's need: `v` is a successor of `u` exactly when `u` is a predecessor of `v`. |
| CriticalPathMethod.WiredReachesEnd | Driver.java:33-54 | After wiring, every task other than `s` and `t` has a successor and a predecessor. If `s` has an edge and the order is topological, every task reaches `t`. |
| Wiring.StartEdgesSpec | Driver.java:37-44 | The first loop adds an edge `s -> x` of weight 1 exactly for the vertices `x` other than `s` and `t` that have no incoming edge, each once and in increasing order. |
| Wiring.EndEdgesSpec | Driver.java:47-54 | The second loop adds an edge `x -> t` of weight 1 exactly for the vertices `x` other than `s` and `t` that have no outgoing edge, each once and in increasing order. |
| Wiring.ConnectStart | Driver.java:37-44 | The first loop appends the start edges to `s.adj`, and the one edge from `s` to each `revAdj` that was empty. Nothing else changes. |
| Wiring.ConnectEnd | Driver.java:47-54 | The second loop appends the end edges to `t.revAdj`, and the one edge to `t` to each `adj` that was empty. Nothing else changes. |
| Wiring.EndEdgesAgree | Driver.java:47-54 | The second loop's tests see the same empty outgoing lists after the first loop as before it. |
| Wiring.Wire | Driver.java:31-54 | Both loops, in driver order, produce the wired graph. Each task other than `s` and `t` gains an edge to `t` if it had no outgoing edge, and an edge from `s` if it had no incoming one. `s` and `t` gain the start and end edges. Afterwards each such task has edges in and out. |
| Bipartite.Scan | Graph.java:82-90 | One turn of the outer loop keeps the search invariant and moves the head on. The queue is only appended to, and every neighbour of the head ends seen. |
| Bipartite.Bfs | Graph.java:76-92 | `src` is seen at level 0. The queue repeats no vertex. A vertex is seen exactly when it was seen before or was enqueued. Levels outside the queue are unchanged. Every enqueued vertex was unseen and is one level below the vertex that found it. Every neighbour of an enqueued vertex ends seen. |
| Bipartite.BfsFindsReachable | Graph.java:76-92 | Started from an unseen vertex, with the seen vertices closed under edges, the search enqueues exactly the unseen vertices reachable from `src`. |
| Bipartite.TreePath | Graph.java:84-88 | Each enqueued vertex is reached from `src` by a walk whose number of edges is its level minus the level of `src`. |
| Bipartite.SearchAll | Graph.java:96-103 | After a search from every unseen vertex, all vertices are seen. Each vertex is the end of a walk with as many edges as its level. On a symmetric graph, a neighbour's walk starts at the same root, and the neighbour is at most one level deeper. |
| Bipartite.IsBipartite | Graph.java:95-113 | The answer is true exactly when no edge joins two vertices of equal level. On an undirected graph it is true exactly when the graph is two-colourable. |
| Bipartite.ColouringFromLevels | Graph.java:104-112 | On a symmetric, fully searched graph, adjacent levels always differ exactly when a proper two-colouring exists. |
| Bipartite.ColourParity | Graph.java:104-112 | Under a proper colouring, the two ends of a walk share a colour exactly when the walk has an even number of edges. |

## Left out

- Input parsing, printing and the timer are not modelled. That covers the reading of the graph, the output of the critical path, the printing of `pathLength`/`allPaths` and the listing of tasks. `Timer.java` is not part of this model.
- The model uses unbounded integers. `Integer.MIN_VALUE` and `Integer.MAX_VALUE` are kept as constants. Java's 32-bit wrap-around is not modelled at four sites: `u.lc + v.d` in the tightness test (CriticalPaths.java:84), `u.ec + v.d` (line 123), `u.lc - u.d` (line 148) and the slack `v.lc - v.ec` (line 159). Each wraps exactly when its true value lies outside `[Integer.MIN_VALUE, Integer.MAX_VALUE]`. Java then stores a value shifted by 2^32, while the model keeps the true one.
  - Line 123 wraps exactly when `ec(u) + d(v)` is below `Integer.MIN_VALUE` or above `Integer.MAX_VALUE`. An example is a `u` still at `Integer.MIN_VALUE` with a negative `d(v)`.
  - Line 159 wraps exactly when `lc - ec` is above `Integer.MAX_VALUE` or below `Integer.MIN_VALUE`. An example is a vertex other than `s` with no predecessor: it keeps `ec = Integer.MIN_VALUE`, so its slack wraps once its `lc` is non-negative. A vertex unreached from `s` does not always wrap: with an unreached predecessor of positive duration its `ec` is above `Integer.MIN_VALUE`.
  - Lines 84 and 148 wrap exactly when `lc(u) + d(v)` and `lc(u) - d(u)` leave the same range.
  - When `ec` and `lc` themselves fit in 32 bits, the zero-slack count is unaffected. A wrapped difference of two such values is off by exactly 2^32, so it is never 0.
- CriticalPathMethod.FindCriticalPaths: runs on the network of the graph (`Networks.Project`), not on the mutable vertex objects. The model keeps `ec`, `lc`, `slack` and the order as sequences indexed by name. It requires the network acyclic (a Gray successor is skipped silently by `dfsVisit`, so on a cycle the order is not topological), mirrored (true of every directed graph, and by `AcyclicMirrored` of every acyclic one) and of at least two vertices (`s` is slot `n - 1`).
- CriticalPathMethod.FindCriticalPaths: distinctness of the recorded paths is proved only without parallel edges. Two equal edges `u -> v` record the same walk twice, as the Java does.
- CriticalPathMethod.FindCriticalPaths: the heaviest-walk reading of the recorded paths is proved under non-negative durations with every task reaching `t`. The driver's wiring gives the second hypothesis when the wired graph is acyclic and `s` has an outgoing edge (`WiredReachesEnd`). It does not always: with `n = 2` the loops add nothing and `s` does not reach `t`; with `n = 3` and input edges `3 -> 1`, `1 -> 2`, every task already has both edges, so `s` gets no outgoing edge.
- Graphs.OtherEnd: the Java `assert from == u || to == u` becomes a precondition.
- Graphs.GetVertex: requires `0 <= n <= size`. Java's `ArrayList.get` throws outside that range, and the exception path is not modelled.
- Edge `weight` is stored but never read by the scheduler. Only the driver's weight-1 edges are stated.
- The vertex colour, `ec`, `lc` and `slack` fields live in the results of the model's methods rather than in the vertex datatype.
- BFS levels: `bfs` overwrites `d`, the same field that holds durations. The model returns the new levels as a separate sequence and does not feed them back into a schedule.
- Wiring.Wire: requires a directed graph of at least one vertex, since the driver only reads directed graphs. With one vertex, `s` is the null slot and the first loop adds nothing.
- Calling `findCriticalPaths` twice on the same object is not modelled. Across calls, the Java keeps adding to `topologicalOrder`, `allPaths` and `pathLength`, and keeps incrementing `numberOfCriticalNodes`.
- The `seen` field reset at the head of `isBipartite` is modelled by starting `SearchAll` from an all-unseen sequence.
