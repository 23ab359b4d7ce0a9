# Graph traversal and bounded queue: a Dafny model

This project models the graph component of the `algos` Go repository and the
bounded FIFO queue it depends on:

- `graph/graph.go`: the `Node`, `Kind`, `AdjacencyList` and `Graph` types,
  `FromAdjacencyList`, the depth-first traversal `DFS`/`dfs` with its cycle
  flag, the breadth-first traversal `BFS`, and `HasCycles`.
- `common/queue.go`: `Queue`, `NewQueue`, `Enqueue`, `Dequeue`, `Peek`,
  `IsEmpty`, `IsFull` and `QueueFullError`.

Modules, one per file:

| file | module | contents |
|---|---|---|
| wrappers.dfy | Wrappers | `Option` |
| queue.dfy | BoundedQueue | the queue as a pure value; FIFO round trip |
| graph.dfy | GraphModel | the data model, walks, reachability, distance, cycles |
| builder.dfy | Builder | `FromAdjacencyList` over an arbitrary iteration order, and the order-independent graph it always builds |
| dfs.dfy | Dfs | `DFS` and `dfs` as written, with the exact meaning of the cycle flag |
| bfs.dfy | Bfs | `BFS` on the bounded queue, with discovery levels equal to distances |
| fixed_dfs.dfy | FixedDfs | `dfs` with the `visited` bookkeeping its comment describes (see Findings) |
| scenarios.dfy | Scenarios | the concrete graphs of `graph/graph_test.go` and small graphs showing the cycle flag |

Modelling conventions:

- Every value is immutable. An operation that mutates the Go graph or queue
  returns the updated value instead.
- The `visit` callback becomes the returned sequence of vertex keys, in call
  order.
- Go map iteration order is unspecified. Inside the traversals, the next
  child is picked by arbitrary choice (`:|`). `FromAdjacencyList` takes the
  order of the vertex map as a parameter, and the proofs cover every order.
- The source's panics become preconditions. These are: a start name that is
  not a vertex, a child name that resolves to no node, and a failed enqueue
  in `BFS`.
- `discovered`, `visited` and `hasCycles` stay fields of the graph, as in the
  source. Both traversals reset the first two. Neither resets `hasCycles`.

Where the documented intent and the code disagree, the model follows the
code:

- The comment at `graph/graph.go:95-96` says that only a child discovered
  but not yet visited reveals a cycle. But `dfs` never marks anything
  visited, and `DFS` has just cleared the visited set. So in a directed
  graph, every already-discovered child raises the flag, cross and forward
  edges included. `Dfs.DFS` states the exact result: the flag becomes true
  precisely when the part reachable from the start is not an out-tree
  rooted at the start. `FixedDfs` models the evidently intended version.
- The cycle flag is never reset by `DFS` or `BFS`, so it stays raised
  across traversals. `Dfs.DFS` states this as `old flag || ...`, and
  `Bfs.BFS` leaves the flag as it found it.
- In an undirected graph, the edge back to the parent counts as a
  rediscovery. So any undirected graph in which the start has a neighbour
  is flagged, trees included. This is modelled as written
  (`Dfs.UndirectedEdgeNotOutTree`).

## Model

| member | source | states |
|---|---|---|
| BoundedQueue.NewQueue | common/queue.go:23-25 | a new queue is empty, satisfies the capacity invariant, and has the requested capacity |
| BoundedQueue.Enqueue | common/queue.go:27-33 | refuses with QueueFullError exactly when the queue is full, and then leaves it unchanged; otherwise appends the item at the tail and returns no error; the capacity never changes, and the item count stays within it |
| BoundedQueue.Dequeue | common/queue.go:35-42 | returns nothing exactly when the queue is empty, and then changes nothing; otherwise returns the head, and head plus remaining items are the old items; the item count stays within capacity |
| BoundedQueue.Peek | common/queue.go:44-49 | returns nothing exactly when the queue is empty, and the head otherwise: the item the next Dequeue returns |
| BoundedQueue.IsEmpty | common/queue.go:51-53 | true exactly when the queue holds no item |
| BoundedQueue.IsFull | common/queue.go:55-57 | on a queue within its capacity, true exactly when there is no room for one more item; a full queue is always within its capacity |
| BoundedQueue.EnqueueDequeueCommute | common/queue.go:27-42 | on a non-empty queue with room, enqueue-then-dequeue gives the same head and the same queue as dequeue-then-enqueue |
| BoundedQueue.DrainAllItems | common/queue.go:35-42 | dequeuing until empty yields the items head first |
| BoundedQueue.FifoRoundTrip | common/queue.go:17-42 | items enqueued into a queue with room for them all come out after the old items, in the order they went in |
| BoundedQueue.EnqueueAllLength | common/queue.go:27-33 | with enough room, every enqueue in a row succeeds |
| BoundedQueue.NewQueueRoundTrip | common/queue.go:23-42 | n items fill a new queue of capacity n exactly and drain back out unchanged |
| GraphModel.HasCycles | graph/graph.go:66-71 | returns the stored flag without changing it; the traversal contracts say when a traversal raises it, and `Builder.BuiltShape` shows it is down before any traversal |
| Builder.AddVertex | graph/graph.go:176-181 | creates an empty node named after the key and counts it only for an unknown name; known nodes are untouched |
| Builder.AddEdgeEffect | graph/graph.go:183-196 | the effect of `Builder.AddEdge`: recording edge name→adj makes adj a vertex, counted only when new; name's node gains exactly the child adj; in an undirected graph adj's node gains the child name; every other node, and every field but the vertex map and Size, is unchanged |
| Builder.AddEdgeGrows | graph/graph.go:183-196 | about `Builder.AddEdge`: recording an edge removes no vertex and no child, and in an undirected graph puts name among adj's children |
| Builder.AddNeighboursEffect | graph/graph.go:183-197 | the effect of `Builder.AddNeighbours`: recording a neighbour list adds exactly the listed names as vertices, and exactly those names to `name`'s children |
| Builder.AddNeighboursKeeps | graph/graph.go:183-197 | about `Builder.AddNeighbours`: recording a neighbour list removes no child anywhere, and in an undirected graph gives each listed name the child `name` |
| Builder.VertexEffect | graph/graph.go:175-197 | one step of `Builder.BuildFrom`: one round of the outer loop, from any graph, declares the vertex and records each listed neighbour as its child (both ways when undirected), removing nothing |
| Builder.BuildFromEffect | graph/graph.go:175-198 | the effect of `Builder.BuildFrom`: processing the vertices of any order, from any graph, keeps every vertex and child, declares every processed name, and records every listed edge, both ways when undirected |
| Builder.AddVertexPartial | graph/graph.go:176-181 | declaring a name moves the reference graph to the one with that name declared |
| Builder.AddEdgePartial | graph/graph.go:183-196 | recording one listed edge moves the reference graph to the one with that edge listed |
| Builder.AddNeighboursPartial | graph/graph.go:183-197 | recording a vertex's neighbour list in list order gives the reference graph with all those edges listed |
| Builder.VertexStep | graph/graph.go:175-197 | one round of the outer loop moves the vertex into the set of processed vertices |
| Builder.BuildFromPartial | graph/graph.go:175-198 | processing the vertices in any order without repetition gives the reference graph of the processed vertices |
| Builder.FromAdjacencyList | graph/graph.go:172-200 | the error is always nil, and for every iteration order of the vertex map the graph equals the order-independent reference `Built` |
| Builder.BuiltNames | graph/graph.go:175-189 | every declared name and every listed neighbour becomes a vertex, and nothing else does |
| Builder.BuiltShape | graph/graph.go:173-189 | each node is stored under its own name, Size equals the number of vertices, the kind is the document's, and the cycle flag is down |
| Builder.BuiltClosed | graph/graph.go:183-192 | every child of every node is itself a vertex |
| Builder.BuiltEdges | graph/graph.go:190-196 | each listed edge name→w puts w among name's children, and in an undirected graph also name among w's children |
| Builder.BuiltNotUndirectedExact | graph/graph.go:190-196 | for any kind other than undirected, a node's children are exactly its listed neighbours |
| Builder.BuiltSymmetric | graph/graph.go:193-196 | an undirected graph's child relation is symmetric |
| Builder.AddEdgeIdempotent | graph/graph.go:184-196 | recording the same edge twice gives the same graph as recording it once |
| Builder.SingleDirectedEdge | graph/graph_test.go:76-84 | the directed document {node1: [node2]} builds vertices node1 and node2, Size 2, with node2 the only child of node1 |
| Builder.SingleUndirectedEdge | graph/graph.go:193-196 | the undirected document {A: [B]} makes A and B each other's only child |
| Dfs.StartState | graph/graph.go:75-80 | `DFS` starts from fresh sets holding only the start as discovered; on a closed graph of a named kind that contains the start, this is a valid entry state for `dfs` |
| Dfs.DfsFrom | graph/graph.go:86-107 | one call visits every vertex it newly discovers exactly once and the node itself last, in post-order; it returns the discovery tree (each visited node's parent is the node whose loop discovered it, is visited after it, calls nest, so each call's visits form one contiguous block ending at its node, and every child visited later than its parent node is that node's ancestor in the tree, its call still open when the edge was examined); the node reaches everything the call visits, and every edge from a visited node to one visited later leads back to a node that reaches it; the flag becomes its old value or'd with "some visited node has a child discovered before the call, or two visited nodes share a child" |
| Dfs.DFS | graph/graph.go:74-82 | visits exactly the vertices reachable from start, each once, in post-order ending at start and depth-first (some discovery tree explains the order: each call's visits are one contiguous block, and a child visited later than its parent node is that node's tree ancestor); whenever a node visited later is a child of one visited earlier, the child reaches the earlier node (a back edge); visited stays empty; the flag becomes old flag or "the reachable part is not an out-tree rooted at start" |
| Dfs.OutTreeIffQuiet | graph/graph.go:88-100 | the out-tree condition is, by definition, the absence of a rediscovery on the reachable set; this lemma records that equivalence, and `Dfs.DfsFrom`'s contract is what shows a run meets an already-discovered child exactly when a rediscovery exists |
| Dfs.ChildrenFirst | graph/graph.go:86-106 | when the flag stays down, every child is visited strictly before its parent |
| Dfs.UnflaggedMeansAcyclic | graph/graph.go:95-99 | when the flag stays down, no cycle passes through a vertex reachable from the start |
| Dfs.UndirectedEdgeNotOutTree | graph/graph.go:88-93 | in a symmetric graph, any neighbour of the start makes DFS raise the flag |
| Bfs.Start | graph/graph.go:111-121 | the queue of capacity Size holds just the start, which is discovered at level 0, and the enqueue cannot fail |
| Bfs.Expand | graph/graph.go:127-136 | every undiscovered child of the dequeued node is discovered and queued one level below it, and no enqueue fails |
| Bfs.Step | graph/graph.go:122-139 | one round appends the queue's head to the visit order, keeps the traversal invariant, and decreases the progress measure |
| Bfs.BFS | graph/graph.go:110-140 | visits start first, then every reachable vertex exactly once and no other, in non-decreasing distance from start; the queue never overflows; visited holds the visited nodes' names; the cycle flag is unchanged |
| FixedDfs.FixedDfsFrom | graph/graph.go:86-107 | with visited nodes skipped and marked, one call visits each newly discovered vertex once in post-order, returns its discovery tree with nested calls and every later-visited child a tree ancestor, and marks exactly those visited; it never lowers the flag; if the flag stays down, every child of a visited node was finished before that node; in a directed graph it raises the flag only on a cycle through a vertex reachable from the root |
| FixedDfs.SettledNoCycle | graph/graph.go:95-99 | when every child is finished before its parent across the whole run, no cycle passes through a vertex reachable from the start |
| FixedDfs.DFS | graph/graph.go:74-107 | the corrected traversal visits exactly the reachable vertices once each, in a depth-first post-order, and marks them visited; the flag ends up raised if it was raised before or a cycle is reachable from start, and on a directed graph only then |
| Scenarios.TestGraph | graph/graph_test.go:18-28 | the hand-built test graph has vertices node1 and node2, is directed, and has its flag down |
| Scenarios.DfsTestOrder | graph/graph_test.go:26-33 | DFS from node1 visits node2 then node1 and leaves the flag down |
| Scenarios.DirectedCycleFlagged | graph/graph.go:95-99 | DFS on the directed two-cycle A↔B raises the flag |
| Scenarios.DirectedCycleFixed | graph/graph.go:95-99 | the corrected DFS on the directed two-cycle A↔B visits B then A and raises the flag |
| Scenarios.InterleavedNotDepthFirst | graph/graph.go:86-106 | on r→{a, b}, a→a1, b→b1 the post-order [a1, b1, a, b, r] is not depth-first: the call on a finishes before b's begins, so no discovery tree explains it |
| Scenarios.FinishedBeforeUndiscoveredChild | graph/graph.go:86-106 | on r→{a, b}, a→x, x→b, b→x the post-order [x, a, b, r] is not depth-first: x's child b comes later but is no ancestor of x, so it was undiscovered when x's loop met it and would have been visited before x |
| Scenarios.CrossEdgeAsWritten | graph/graph.go:95-100 | DFS as written raises the flag on the acyclic graph A→B, A→C, B→C |
| Scenarios.CrossEdgeCorrected | graph/graph.go:95-100 | the corrected DFS visits A, B and C and leaves the flag down on the same graph |
| Scenarios.UndirectedEdgeFlagged | graph/graph.go:88-93 | DFS on the undirected single edge A - B raises the flag |
| Scenarios.SingleEdgeBuilt | graph/graph_test.go:76-84 | building {node1: [node2]} gives the hand-built test graph with Size 2 |
| Scenarios.BfsSingleEdge | graph/graph.go:110-140 | BFS from node1 on the built single-edge graph visits node1 then node2, marks both visited, and leaves the flag down |

## Left out

- `LoadGraphs` (graph/graph.go:146-169): reading a file and parsing YAML are I/O and a foreign library. The model starts from a parsed `AdjacencyList`.
- `Node.String` and `Graph.String` (graph/graph.go:23-32, 58-64): diagnostic text whose content depends on map iteration order.
- main.go, common/random.go and common/common_suite_test.go: command-line plumbing, random numbers with floating point and printing, and test bootstrap. None of them is part of this model.
- The tests that load `testdata/*.yaml` (graph/graph_test.go:38-72, 88-93): the data files are not part of this model. The general contracts of `Dfs.DFS` and `Bfs.BFS` cover what those tests check.
- Iteration order: no particular order of Go map iteration is modelled. Every property holds for every order.
- The `visit` callback: it is replaced by the returned visit sequence. A callback that modifies the graph during the traversal is not modelled.
- Dfs.DFS: requires the kind to be directed or undirected. For any other kind, the source re-descends into already-discovered children (graph/graph.go:102-104), which need not terminate on a cyclic graph. That behaviour is not modelled.
- Dfs.DFS: the visit sequence holds vertex keys, while the callback receives nodes and the test collects `node.Name`. The two agree on every built graph (`Builder.BuiltShape`) and on the hand-built test graph.
- Bfs.BFS: its visit sequence holds vertex keys too, for the same reason and with the same agreement; only `visited` records `Name` fields, as the source does.
- Dfs.DfsFrom: requires an empty visited set. Its only caller, `DFS`, has just cleared it.
- Bfs.BFS: requires Size to be at least the number of vertices. This is enough for the queue never to fill, and every built graph meets it. A smaller Size can make the source panic on a full queue: a hand-built graph left at Size 0 panics on the first enqueue (graph/graph.go:118-121). That panic path is not modelled.
- Closure of the child relation (every child name is a vertex) is a precondition of both traversals. The source crashes only when a dangling child name is reached from the start: looking it up yields a nil node, and using that node fails. So on a hand-built graph the precondition is stronger than the source needs. Every graph `FromAdjacencyList` builds meets it (`Builder.BuiltClosed`).
- BoundedQueue.Dequeue: the source returns a nil `interface{}` both for an empty queue and for a stored nil item. The model returns `None` only for an empty queue.
- BoundedQueue.NewQueue: requires a non-negative capacity, because `make` panics on a negative one. The slice's spare backing capacity is a performance detail and is not modelled.

## Findings

| source | as written | input that shows it | evidently intended | confidence | as-written member | corrected member |
|---|---|---|---|---|---|---|
| graph/graph.go:95-100 | `dfs` never sets `visited`, so in a directed graph every already-discovered child raises the cycle flag, cross and forward edges included | directed A→{B, C}, B→{C}, DFS from A: C is met a second time, and the flag goes up on an acyclic graph | a child that is discovered and already visited is skipped without raising the flag, and a node is marked visited once `visit` has been called on it | not executed; high | Scenarios.CrossEdgeAsWritten | FixedDfs.DFS |
