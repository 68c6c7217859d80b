# Depth-first traversal of a directed graph (Gliph `DepthFirst`)

This project models the depth-first traversal of Gliph, a PHP graph library. The model is written in Dafny and its properties are proved.

`DepthFirst::traverse(graph, visitor, start)` first resolves its `start` argument into a queue of vertices:
- no argument: the graph's source vertices, found by `find_sources`;
- a list: that list;
- any other object: that single vertex.

It then visits the queue front to back. A visit keeps two shared sets: `visiting` holds the vertices on the current recursion path, and `visited` holds the finished ones. The visit reports to a visitor object through five hooks:
- `onInitializeVertex`, during source discovery;
- `onStartVertex`, when a vertex is first reached;
- `onExamineEdge`, for each edge out of a started vertex;
- `onBackEdge`, when an edge leads to a vertex on the recursion path;
- `onFinishVertex`, when a vertex's edges are all explored.

`DepthFirst::find_sources(graph, visitor)` scans the edges to find the targets of edges. It then walks the vertices in order, queues every vertex that is not a target, and calls `onInitializeVertex` once per vertex.

## How the model is built

- `graphs.dfy` (module `Graphs`): a graph is a sequence of vertices and an ordered successor list per vertex. The edges (`eachEdge`) are derived from those lists. The module also defines walks, reachability and acyclicity.
- `visitor.dfy` (module `Visitors`): the visitor is a `Recorder` class. Each hook appends one `Event` to the `events` field it updates in place. Every property of a traversal is stated over that log.
- `sources.dfy` (module `SourceDiscovery`) models `find_sources`:
  - `Incomings` is the loop over the edges that builds the incoming map.
  - `FindSources` is the loop over the vertices.
  - Both are proved against the specification functions `SourcesIn` and `InitEventsIn`.
- `search.dfy` (module `Search`): the depth-first visit as functions of a `State`. A state is the two sets plus the visitor's log.
  - `Visit` is the `$visit` closure.
  - `VisitEach` is the `eachAdjacent` loop inside the closure.
  - `Drain` is the loop that shifts the queue.
  - Termination: each start of a vertex lowers the number of edge targets that are neither on the path nor finished.
- `depthfirst.dfy` (module `DepthFirst`) models `traverse` itself:
  - The class `Traversal` holds `visiting` and `visited` as fields that its method `Visit` updates in place. `Visit` is proved to produce exactly the state `Search.Visit` describes.
  - `Traverse` resolves the start argument, raises the two failures, and drains the queue in a `while` loop.
- `facts.dfy` (module `TraversalFacts`) and `runs.dfy` (module `RunFacts`) prove what a traversal guarantees. The first covers a single visit; the second covers a whole drained queue.

## Model

| member | source | states |
|---|---|---|
| Visitors.Recorder.OnInitializeVertex | src/Gliph/Traversal/DepthFirst.php:97-100 | the call appends InitializeVertex(v, isSource, queue) to the log and changes nothing else |
| Visitors.Recorder.OnStartVertex | src/Gliph/Traversal/DepthFirst.php:53 | the call appends StartVertex(v) to the log |
| Visitors.Recorder.OnExamineEdge | src/Gliph/Traversal/DepthFirst.php:56 | the call appends ExamineEdge(from, to) to the log |
| Visitors.Recorder.OnBackEdge | src/Gliph/Traversal/DepthFirst.php:48 | the call appends BackEdge(v) to the log |
| Visitors.Recorder.OnFinishVertex | src/Gliph/Traversal/DepthFirst.php:60 | the call appends FinishVertex(v) to the log |
| Graphs.EdgeMembership | src/Gliph/Traversal/DepthFirst.php:85 | an edge (u, w) is enumerated exactly when u is a vertex and w is among its successors |
| SourceDiscovery.HasIncomingIff | src/Gliph/Traversal/DepthFirst.php:85-94 | a vertex is the target of an enumerated edge exactly when it is a successor of some vertex |
| SourceDiscovery.Incomings | src/Gliph/Traversal/DepthFirst.php:85-90 | the keys of the incoming map are exactly the targets of edges; u is in the entry of t exactly when (u, t) is an edge |
| SourceDiscovery.FindSources | src/Gliph/Traversal/DepthFirst.php:81-105 | returns the queue Sources(g); the log grows by exactly InitEvents(g), one call per vertex in vertex order, each with the queue as it stands at that call |
| SourceDiscovery.SourcesInMembership | src/Gliph/Traversal/DepthFirst.php:93-95 | x is queued from vs exactly when x is in vs and has no incoming edge |
| SourceDiscovery.SourcesMembership | src/Gliph/Traversal/DepthFirst.php:93-95 | the source queue holds exactly the vertices of the graph without an incoming edge |
| SourceDiscovery.SourcesInAppend | src/Gliph/Traversal/DepthFirst.php:93-95 | the sources of a + b are the sources of a followed by those of b, so the queue keeps vertex order |
| SourceDiscovery.SelfLoopIsNotSource | src/Gliph/Traversal/DepthFirst.php:85-94 | a vertex with a self-loop is never a source |
| SourceDiscovery.NoSourcesWhenAllHaveIncoming | src/Gliph/Traversal/DepthFirst.php:93-104 | when every vertex is the target of some edge, as in a pure cycle, the source queue is empty |
| SourceDiscovery.InitEventsAt | src/Gliph/Traversal/DepthFirst.php:93-101 | there is one onInitializeVertex call per vertex, and the i-th call names the i-th vertex. Its flag is set exactly when the vertex has no incoming edge, which is exactly when it was just pushed. The queue passed is the sources among the first i + 1 vertices |
| Search.Visit | src/Gliph/Traversal/DepthFirst.php:46-65 | a visit leaves `visiting` as it found it and only adds to `visited`. No vertex it finishes was on the recursion path. A vertex that was not on the path ends finished. The log only grows |
| Search.VisitEach | src/Gliph/Traversal/DepthFirst.php:55-58 | the adjacency loop leaves `visiting` as it found it, only adds to `visited`, finishes nothing on the path, and only extends the log |
| Search.Run | src/Gliph/Traversal/DepthFirst.php:43-70 | a whole traversal from empty sets ends with nothing on the recursion path and every queued vertex finished, and keeps the events logged before it in front |
| Search.Drain | src/Gliph/Traversal/DepthFirst.php:67-70 | draining the queue leaves `visiting` unchanged, keeps `visiting` and `visited` disjoint, only grows `visited` and the log, and finishes every queued vertex not on the path |
| DepthFirst.Traversal.constructor | src/Gliph/Traversal/DepthFirst.php:43-44 | both sets start empty |
| DepthFirst.Traversal.Visit | src/Gliph/Traversal/DepthFirst.php:46-65 | the in-place closure leaves the sets and the visitor's log exactly as Search.Visit describes |
| DepthFirst.Traverse | src/Gliph/Traversal/DepthFirst.php:24-71 | a non-object start fails with OutOfBounds and no hook call. An empty resolved queue fails with NoStartVertex after source discovery and before any visit. Otherwise the traversal completes and the log is exactly the run of Search.Drain over the resolved queue from empty sets |
| DepthFirst.ResolvedMembership | src/Gliph/Traversal/DepthFirst.php:25-33 | a vertex is in the resolved queue exactly when it is a source of the graph (no start argument), a member of the given list, or the single start object |
| DepthFirst.ResolvedEmpty | src/Gliph/Traversal/DepthFirst.php:25-41 | the resolved queue is empty exactly for an empty list, or for a missing start on a graph where every vertex has an incoming edge |
| TraversalFacts.StepShape | src/Gliph/Traversal/DepthFirst.php:55-58 | unfolds one step of Search.VisitEach in terms of the events it adds: each adjacency step reports ExamineEdge(u, w) immediately before the events of visit(w), then goes on with the next successor |
| TraversalFacts.FreshVisitShape | src/Gliph/Traversal/DepthFirst.php:50-63 | unfolds the fresh branch of Search.Visit in terms of the events it adds: a first visit of v is StartVertex(v), the events of its adjacency loop, then FinishVertex(v). Afterwards v is off the path and finished |
| TraversalFacts.VisitOpens | src/Gliph/Traversal/DepthFirst.php:47-53 | a visit reports exactly [BackEdge(v)] iff v is on the path, nothing at all iff v is finished, and opens with StartVertex(v) iff v is in neither set |
| TraversalFacts.VisitStartsOnce | src/Gliph/Traversal/DepthFirst.php:50-63 | a visit starts and finishes each vertex it newly finishes exactly once, and no other vertex |
| TraversalFacts.VisitEachStartsOnce | src/Gliph/Traversal/DepthFirst.php:55-58 | the same, for the rest of an adjacency loop |
| TraversalFacts.VisitExamines | src/Gliph/Traversal/DepthFirst.php:50-58 | a visit examines, for each vertex it newly finishes, exactly that vertex's successors in adjacency order, and no edge of any other vertex |
| TraversalFacts.VisitEachExamines | src/Gliph/Traversal/DepthFirst.php:55-58 | the rest of the adjacency loop of u from i examines exactly the successors of u from i on, in order, plus the full adjacency of each vertex it finishes |
| TraversalFacts.VisitBrackets | src/Gliph/Traversal/DepthFirst.php:50-63 | the events of a first visit of v open with StartVertex(v) and close with FinishVertex(v). Between them lie all of v's edge examinations in adjacency order, and the start and finish of every other vertex the visit finishes |
| TraversalFacts.VisitBackEdges | src/Gliph/Traversal/DepthFirst.php:47-48 | when every vertex on the path reaches v by at least one edge, every back edge reported is at a vertex on a cycle |
| TraversalFacts.VisitEachBackEdges | src/Gliph/Traversal/DepthFirst.php:55-58 | the same for the adjacency loop of u, when every vertex on the path reaches u |
| TraversalFacts.VisitEachCovers | src/Gliph/Traversal/DepthFirst.php:55-58 | once the loop has passed a successor, that successor is finished or on the path |
| TraversalFacts.VisitKeepsClosed | src/Gliph/Traversal/DepthFirst.php:50-63 | if every edge out of a finished vertex leads to a finished vertex or into the path, a visit keeps it so |
| TraversalFacts.VisitEachKeepsClosed | src/Gliph/Traversal/DepthFirst.php:55-58 | the same, for the adjacency loop |
| TraversalFacts.VisitReachesOnly | src/Gliph/Traversal/DepthFirst.php:50-58 | every vertex a visit of v newly finishes is reachable from v |
| TraversalFacts.VisitEachReachesOnly | src/Gliph/Traversal/DepthFirst.php:55-58 | every vertex the adjacency loop of u newly finishes is reachable from u by at least one edge |
| TraversalFacts.VisitFinishLogged | src/Gliph/Traversal/DepthFirst.php:60-63 | a vertex enters `visited` only together with its FinishVertex event |
| TraversalFacts.VisitEachHandles | src/Gliph/Traversal/DepthFirst.php:55-58 | once the loop has passed a successor w, the log holds FinishVertex(w) or BackEdge(w) |
| TraversalFacts.VisitKeepsOrder | src/Gliph/Traversal/DepthFirst.php:55-60 | a visit keeps this property of the log: each FinishVertex(u) comes after a FinishVertex or a BackEdge for every successor of u |
| TraversalFacts.VisitEachKeepsOrder | src/Gliph/Traversal/DepthFirst.php:55-58 | the same, for the adjacency loop |
| RunFacts.DrainAppend | src/Gliph/Traversal/DepthFirst.php:67-70 | draining a + b is draining a and then b from the state a leaves, so the queue is consumed first in, first out |
| RunFacts.DrainStartsOnce | src/Gliph/Traversal/DepthFirst.php:67-70 | across the whole queue, each newly finished vertex is started and finished exactly once, and no other vertex |
| RunFacts.DrainExamines | src/Gliph/Traversal/DepthFirst.php:67-70 | across the whole queue, each newly finished vertex has its successors examined exactly once, in order |
| RunFacts.DrainKeepsClosed | src/Gliph/Traversal/DepthFirst.php:67-70 | draining keeps edges out of finished vertices inside the finished set or the path |
| RunFacts.DrainBackEdges | src/Gliph/Traversal/DepthFirst.php:67-70 | starting with an empty path, every back edge reported is at a vertex on a cycle |
| RunFacts.DrainReachesOnly | src/Gliph/Traversal/DepthFirst.php:67-70 | every vertex newly finished is reachable from some queued vertex |
| RunFacts.DrainKeepsOrder | src/Gliph/Traversal/DepthFirst.php:67-70 | draining keeps the finish-after-successors property of the log |
| RunFacts.RunStartsOnce | src/Gliph/Traversal/DepthFirst.php:43-70 | a traversal starts and finishes each finished vertex exactly once, and no other vertex |
| RunFacts.RunExamines | src/Gliph/Traversal/DepthFirst.php:43-70 | a traversal examines the edges of exactly the finished vertices, each adjacency in order, once |
| RunFacts.RunVisitsReachable | src/Gliph/Traversal/DepthFirst.php:43-70 | at the end nothing is on the path, and a vertex is finished iff it is reachable from some vertex of the start queue |
| RunFacts.RunBackEdges | src/Gliph/Traversal/DepthFirst.php:43-70 | every back edge a traversal reports is at a vertex on a cycle |
| RunFacts.AcyclicNoBackEdges | src/Gliph/Traversal/DepthFirst.php:47-48 | on an acyclic graph a traversal reports no back edge |
| RunFacts.CycleNeedsBackEdge | src/Gliph/Traversal/DepthFirst.php:47-60 | in a log where each finish follows a finish or a back edge of every successor, the finish of a vertex on a cycle is preceded by a back edge at a vertex of that cycle |
| RunFacts.CycleReportsBackEdge | src/Gliph/Traversal/DepthFirst.php:43-70 | the converse of RunBackEdges: a traversal whose queue reaches a vertex on a cycle reports a back edge |
| RunFacts.RunFinishOrder | src/Gliph/Traversal/DepthFirst.php:55-63 | each FinishVertex(u) of a traversal comes after a FinishVertex or a BackEdge for every successor of u |
| RunFacts.AcyclicFinishOrder | src/Gliph/Traversal/DepthFirst.php:55-63 | on an acyclic graph every vertex is finished after all its successors: the finish order is a reverse topological order |
| RunFacts.SourceReaches | src/Gliph/Traversal/DepthFirst.php:93-95 | on an acyclic graph every vertex is reachable from some source (by induction on the number of its ancestors, which shrinks along every edge) |
| RunFacts.AcyclicHasSources | src/Gliph/Traversal/DepthFirst.php:25-26 | an acyclic graph with a vertex has a source, so a traversal without a start argument does not fail with NoStartVertex |
| RunFacts.AcyclicFromSourcesVisitsAll | src/Gliph/Traversal/DepthFirst.php:25-26 | a traversal of an acyclic graph from its sources finishes every vertex of the graph |

## Left out

- The visit callback handed to the hooks. Every hook receives `$visit` and could call it on any vertex. The model's visitor only records calls and never calls back, so re-entrant visits are not modelled.
- The live queue handed to `onInitializeVertex`. The visitor receives a snapshot of the queue as it stands at the call, a value. A visitor that changes the queue is not modelled.
- `DirectedAdjacencyGraph` is not part of this model. The graph is a vertex sequence with an ordered successor list per vertex. A vertex without a list has no successors. `eachEdge` enumerates edges vertex by vertex in list order; only which edges exist matters to `find_sources`.
- Run-time type tests and object identity. The start argument is a datatype with one case per branch: no argument, a list, another object, a non-object. Vertices are compared by value rather than by `SplObjectStorage` identity.
- Exception messages and the `E_WARNING` code. Only which failure is raised is modelled.
- Exceptions thrown from visitor hooks, and the depth of PHP's call stack.
- Aliasing of a caller's list. When `start` is a list, `traverse` shifts that very object empty. The model drains its own copy, so the caller's list is not emptied.
- The two sets are local to `traverse` and disappear when it returns. The model's `Traverse` states only what the visitor saw; the RunFacts lemmas state what the sets held at the end.
