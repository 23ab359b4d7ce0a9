/**
 * Concrete graphs from graph/graph_test.go and small graphs that show the
 * cycle flag's behaviour. Each method runs a traversal and proves, from the
 * traversal's contract alone, the exact outcome.
 */
module Scenarios {
  import opened GraphModel
  import Builder
  import Dfs
  import Bfs
  import FixedDfs

  /** The graph built by hand in graph_test.go:19-28: node1 -> node2, Size left at 0. */
  function TestGraph(): (g: Graph)
    ensures g.vertices.Keys == {"node1", "node2"} && g.kind == Directed && !HasCycles(g)
  {
    Graph(map["node1" := Node("node1", {"node2"}), "node2" := Node("node2", {})], 0, Directed, {}, {}, false)
  }

  /** From `a`, exactly `a` and `b` are reachable when b is a's child and nothing leaves {a, b}. */
  lemma ReachPair(g: Vertices, a: string, b: string)
    requires b in Children(g, a)
    requires Children(g, a) <= {a, b} && Children(g, b) <= {a, b}
    ensures forall v :: Reachable(g, a, v) <==> v == a || v == b
  {
    ReachableRefl(g, a);
    ReachableStep(g, a, a, b);
    ClosedSetContainsReachable(g, {a, b}, a);
  }

  /** An order holding exactly the names reachable from `a` in such a pair holds `a` and `b`. */
  lemma ReachedPair(g: Vertices, a: string, b: string, order: seq<string>)
    requires b in Children(g, a)
    requires Children(g, a) <= {a, b} && Children(g, b) <= {a, b}
    requires forall v :: v in order <==> Reachable(g, a, v)
    ensures Elems(order) == {a, b}
  {
    ReachPair(g, a, b);
  }

  /** A visit order over exactly two names, ending at `last`, is the other name then `last`. */
  lemma PairOrder(order: seq<string>, first: string, last: string)
    requires first != last
    requires Distinct(order) && |order| > 0 && order[|order| - 1] == last
    requires Elems(order) == {first, last}
    ensures order == [first, last]
  {
    DistinctElems(order);
    assert |{first, last}| == 2;
    assert order[0] in Elems(order);
  }

  /** graph_test.go:27-33: DFS from node1 visits node2 then node1, and finds no cycle. */
  method DfsTestOrder() returns (h: Graph, order: seq<string>)
    ensures order == ["node2", "node1"]
    ensures !HasCycles(h)
  {
    var g := TestGraph();
    h, order := Dfs.DFS(g, "node1");
    ReachedPair(g.vertices, "node1", "node2", order);
    PairOrder(order, "node2", "node1");
    assert Dfs.IsOutTree(g.vertices, Elems(order), "node1");
  }

  /** A directed two-cycle A <-> B is flagged. */
  method DirectedCycleFlagged() returns (h: Graph, order: seq<string>)
    ensures HasCycles(h)
  {
    var g := Graph(map["A" := Node("A", {"B"}), "B" := Node("B", {"A"})], 2, Directed, {}, {}, false);
    h, order := Dfs.DFS(g, "A");
    ReachPair(g.vertices, "A", "B");
    assert "B" in order && "A" in Children(g.vertices, "B");
  }

  /** The corrected traversal flags the directed two-cycle A <-> B as well: the cycle is reachable from A. */
  method DirectedCycleFixed() returns (h: Graph, order: seq<string>)
    ensures HasCycles(h)
    ensures order == ["B", "A"]
  {
    var g := Graph(map["A" := Node("A", {"B"}), "B" := Node("B", {"A"})], 2, Directed, {}, {}, false);
    h, order := FixedDfs.DFS(g, "A");
    ReachableRefl(g.vertices, "B");
    ReachableStep(g.vertices, "B", "B", "A");
    ReachPair(g.vertices, "A", "B");
    assert Reachable(g.vertices, "A", "A") && "B" in Children(g.vertices, "A") && Reachable(g.vertices, "B", "A");
    assert CycleFrom(g.vertices, "A");
    ReachedPair(g.vertices, "A", "B", order);
    PairOrder(order, "B", "A");
  }

  /** r -> {a, b}, a -> a1, b -> b1: two branches of depth two. */
  function TwoBranches(): (g: Vertices)
    ensures Children(g, "a") == {"a1"} && Children(g, "b") == {"b1"}
  {
    map["r" := Node("r", {"a", "b"}), "a" := Node("a", {"a1"}), "b" := Node("b", {"b1"}),
        "a1" := Node("a1", {}), "b1" := Node("b1", {})]
  }

  /**
   * Visiting both leaves before either branch node is a post-order, but no
   * depth-first run produces it: the call on `a` must finish before `b`'s
   * begins, so `b1` cannot come between `a1` and `a`.
   */
  lemma InterleavedNotDepthFirst()
    ensures !Dfs.DepthFirst(TwoBranches(), ["a1", "b1", "a", "b", "r"])
  {
    var g, s := TwoBranches(), ["a1", "b1", "a", "b", "r"];
    if Dfs.DepthFirst(g, s) {
      var up :| Dfs.DiscoveryTree(g, s, up);
      Dfs.TreeParent(g, s, up, 0);
      Dfs.TreeParent(g, s, up, 1);
      assert false;
    }
  }

  /** r -> {a, b}, a -> x, and the cycle x <-> b. */
  function CrossingBranches(): (g: Vertices)
    ensures Children(g, "r") == {"a", "b"} && Children(g, "a") == {"x"}
    ensures Children(g, "x") == {"b"} && Children(g, "b") == {"x"}
  {
    map["r" := Node("r", {"a", "b"}), "a" := Node("a", {"x"}), "x" := Node("x", {"b"}), "b" := Node("b", {"x"})]
  }

  /**
   * Visiting `x` before its child `b` is a post-order in which `b` still
   * reaches `x`, but no depth-first run produces it: `b` is not an ancestor
   * of `x`, so it was undiscovered when `x`'s loop met it and would have been
   * visited first.
   */
  lemma FinishedBeforeUndiscoveredChild()
    ensures !Dfs.DepthFirst(CrossingBranches(), ["x", "a", "b", "r"])
  {
    var g, s := CrossingBranches(), ["x", "a", "b", "r"];
    if Dfs.DepthFirst(g, s) {
      var up :| Dfs.DiscoveryTree(g, s, up);
      Dfs.TreeAncestor(g, s, up, 0, 2);
      Dfs.TreeParent(g, s, up, 1);
      assert false;
    }
  }

  /** The cross-edge graph A -> B, A -> C, B -> C: no cycle, C has two parents. */
  function CrossEdgeGraph(): (g: Graph)
    ensures Closed(g) && g.kind == Directed && !HasCycles(g)
    ensures !Cyclic(g.vertices)
  {
    var g := Graph(map["A" := Node("A", {"B", "C"}), "B" := Node("B", {"C"}), "C" := Node("C", {})],
                   3, Directed, {}, {}, false);
    RankedIsAcyclic(g.vertices, map["A" := 2, "B" := 1, "C" := 0]);
    g
  }

  lemma CrossEdgeReach(g: Graph)
    requires g == CrossEdgeGraph()
    ensures forall v :: Reachable(g.vertices, "A", v) <==> v in {"A", "B", "C"}
  {
    ReachableRefl(g.vertices, "A");
    ReachableStep(g.vertices, "A", "A", "B");
    ReachableStep(g.vertices, "A", "A", "C");
    ClosedSetContainsReachable(g.vertices, {"A", "B", "C"}, "A");
  }

  /**
   * As written, DFS from A on the acyclic cross-edge graph raises the cycle
   * flag: C is met a second time from B (or B from A after C), and nothing
   * was ever marked visited.
   */
  method CrossEdgeAsWritten() returns (h: Graph, order: seq<string>)
    ensures HasCycles(h)
    ensures !Cyclic(h.vertices)
  {
    var g := CrossEdgeGraph();
    h, order := Dfs.DFS(g, "A");
    CrossEdgeReach(g);
    assert "A" in order && "B" in order;
    assert "C" in Children(g.vertices, "A") && "C" in Children(g.vertices, "B");
  }

  /** With `visited` maintained, the same traversal leaves the flag down. */
  method CrossEdgeCorrected() returns (h: Graph, order: seq<string>)
    ensures !HasCycles(h)
    ensures Elems(order) == {"A", "B", "C"}
  {
    var g := CrossEdgeGraph();
    h, order := FixedDfs.DFS(g, "A");
    CrossEdgeReach(g);
    CycleFromIsCyclic(g.vertices, "A");
  }

  /**
   * As written, an undirected graph with a single edge A - B is flagged as
   * cyclic: the edge back to the parent counts as a rediscovery.
   */
  method UndirectedEdgeFlagged() returns (h: Graph, order: seq<string>)
    ensures HasCycles(h)
  {
    var adj := AdjacencyList(map["A" := ["B"]], Undirected, "");
    Builder.SingleUndirectedEdge();
    Builder.BuiltClosed(adj);
    Builder.BuiltSymmetric(adj);
    var g := Builder.Built(adj);
    h, order := Dfs.DFS(g, "A");
    Dfs.UndirectedEdgeNotOutTree(g, order, "A", "B");
  }

  /** A graph with the test graph's two nodes, counted, and fresh bookkeeping is the test graph with Size 2. */
  lemma IsTestGraph(g: Graph)
    requires g.vertices.Keys == {"node1", "node2"} && NamesMatch(g)
    requires g.vertices["node1"].children == {"node2"} && g.vertices["node2"].children == {}
    requires g.size == 2 && g.kind == Directed && g.discovered == {} && g.visited == {} && !g.hasCycles
    ensures g == TestGraph().(size := 2)
  {
    assert g.vertices["node1"] == Node("node1", {"node2"});
    assert g.vertices["node2"] == Node("node2", {});
    assert g.vertices == TestGraph().vertices;
  }

  /** graph_test.go:77-84: the built graph is the hand-built test graph with Size counted. */
  lemma SingleEdgeBuilt()
    ensures Builder.Built(AdjacencyList(map["node1" := ["node2"]], Directed, "")) == TestGraph().(size := 2)
  {
    var adj := AdjacencyList(map["node1" := ["node2"]], Directed, "");
    Builder.SingleDirectedEdge();
    Builder.BuiltShape(adj);
    IsTestGraph(Builder.Built(adj));
  }

  /** A BFS order over exactly two names starting at `first` is `first` then the other. */
  lemma PairOrderFirst(order: seq<string>, first: string, second: string)
    requires first != second
    requires Distinct(order) && |order| > 0 && order[0] == first
    requires Elems(order) == {first, second}
    ensures order == [first, second]
  {
    DistinctElems(order);
    assert |{first, second}| == 2;
    assert order[1] in Elems(order);
  }

  /** BFS from node1 over the built graph of graph_test.go:77-83 visits node1 then node2. */
  method BfsSingleEdge() returns (h: Graph, order: seq<string>)
    ensures order == ["node1", "node2"]
    ensures !HasCycles(h) && h.visited == {"node1", "node2"}
  {
    SingleEdgeBuilt();
    var g := TestGraph().(size := 2);
    ghost var level;
    h, order, level := Bfs.BFS(g, "node1");
    ReachedPair(g.vertices, "node1", "node2", order);
    PairOrderFirst(order, "node1", "node2");
    TestNames();
  }

  lemma TestNames()
    ensures Bfs.Names(TestGraph().vertices, ["node1", "node2"]) == {"node1", "node2"}
  {
    var g := TestGraph().vertices;
    assert g["node1"].name == "node1" && g["node2"].name == "node2";
    assert "node1" in ["node1", "node2"] && "node2" in ["node1", "node2"];
  }
}
