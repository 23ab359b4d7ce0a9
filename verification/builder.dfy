/**
 * FromAdjacencyList (graph/graph.go:172-200). The source walks the vertex
 * map in Go's unspecified order; the method below picks each next vertex by
 * arbitrary choice and is proved to produce the same graph as `Built`, an
 * order-independent description of the result.
 */
module Builder {
  import opened Wrappers
  import opened GraphModel

  /** The error type of the builder; no value of it is ever produced. */
  datatype BuildError = BuildError(message: string)

  /** An edge as listed in the document: source name, neighbour name. */
  type Edge = (string, string)

  /** Creates an empty node for `name` and counts it, unless it is already known (lines 176-181, 184-189). */
  function AddVertex(g: Graph, name: string): (r: Graph)
    ensures r.vertices.Keys == g.vertices.Keys + {name}
    ensures name in g.vertices ==> r == g
    ensures name !in g.vertices ==> r.vertices[name] == Node(name, {}) && r.size == g.size + 1
    ensures forall v :: v in g.vertices ==> r.vertices[v] == g.vertices[v]
    ensures r.kind == g.kind && r.hasCycles == g.hasCycles
  {
    if name in g.vertices then g
    else g.(vertices := g.vertices[name := Node(name, {})], size := g.size + 1)
  }

  /** Adds `w` to the children of `n`; copies `n`'s node with one more child. */
  function AddChild(m: map<string, Node>, n: string, w: string): map<string, Node>
    requires n in m
  {
    m[n := m[n].(children := m[n].children + {w})]
  }

  /**
   * Records the edge name -> adj (lines 184-196): creates `adj` if needed,
   * adds it to `name`'s children and, in an undirected graph, adds `name`
   * to `adj`'s children.
   */
  function AddEdge(g: Graph, name: string, adj: string): (r: Graph)
    requires name in g.vertices
  {
    var g1 := AddVertex(g, adj);
    var g2 := g1.(vertices := AddChild(g1.vertices, name, adj));
    if g.kind == Undirected then g2.(vertices := AddChild(g2.vertices, adj, name)) else g2
  }

  /**
   * What recording one edge does: `adj` becomes a vertex (counted when new),
   * `name` gains `adj` as a child, an undirected graph also gives `adj` the
   * child `name`, and nothing else changes.
   */
  lemma AddEdgeEffect(g: Graph, name: string, adj: string)
    requires name in g.vertices
    ensures var r := AddEdge(g, name, adj);
            && r == g.(vertices := r.vertices, size := r.size)
            && r.vertices.Keys == g.vertices.Keys + {adj}
            && r.size == (if adj in g.vertices then g.size else g.size + 1)
            && r.vertices[name] == g.vertices[name].(children := g.vertices[name].children + {adj})
            && (adj != name ==> r.vertices[adj].name == (if adj in g.vertices then g.vertices[adj].name else adj))
            && (adj != name ==> r.vertices[adj].children
                                == (if adj in g.vertices then g.vertices[adj].children else {})
                                   + (if g.kind == Undirected then {name} else {}))
            && forall v :: v in g.vertices && v != name && v != adj ==> r.vertices[v] == g.vertices[v]
  {
    var g1 := AddVertex(g, adj);
    AddChildAt(g1.vertices, name, adj, adj);
    AddChildAt(g1.vertices, name, adj, name);
    if g.kind == Undirected {
      var m2 := AddChild(g1.vertices, name, adj);
      AddChildAt(m2, adj, name, name);
      AddChildAt(m2, adj, name, adj);
    }
  }

  /** Recording an edge only adds vertices and children. */
  lemma AddEdgeGrows(g: Graph, name: string, adj: string)
    requires name in g.vertices
    ensures var r := AddEdge(g, name, adj);
            && r.kind == g.kind && adj in r.vertices && name in r.vertices
            && (forall v :: v in g.vertices ==> v in r.vertices && g.vertices[v].children <= r.vertices[v].children)
            && (g.kind == Undirected ==> name in r.vertices[adj].children)
  {
    AddEdgeEffect(g, name, adj);
  }

  /** The neighbour names of the listed edges. */
  function Targets(es: set<Edge>): set<string>
  {
    set e | e in es :: e.1
  }

  /** The names listed as neighbours of `v`. */
  function Out(es: set<Edge>, v: string): set<string>
  {
    set e | e in es && e.0 == v :: e.1
  }

  /** The names that list `v` as a neighbour. */
  function In(es: set<Edge>, v: string): set<string>
  {
    set e | e in es && e.1 == v :: e.0
  }

  /**
   * Reference description of the vertex map after declaring the names `vs`
   * and the edges `es`: one node per declared or referenced name, whose
   * children are its listed neighbours plus, when undirected, every name
   * listing it.
   */
  function Expected(kind: Kind, vs: set<string>, es: set<Edge>): map<string, Node>
  {
    map v | v in vs + Targets(es) :: Node(v, Out(es, v) + (if kind == Undirected then In(es, v) else {}))
  }

  /** The graph in which `vs` and `es` have been recorded. */
  function Partial(kind: Kind, vs: set<string>, es: set<Edge>): Graph
  {
    var m := Expected(kind, vs, es);
    Graph(m, |m|, kind, {}, {}, false)
  }

  /** Every edge listed by the vertices in `done`. */
  function ListedEdges(adj: AdjacencyList, done: set<string>): set<Edge>
    requires done <= adj.vertices.Keys
  {
    set u, w | u in done && w in adj.vertices[u] :: (u, w)
  }

  /** The graph FromAdjacencyList produces, independent of iteration order. */
  function Built(adj: AdjacencyList): Graph
  {
    Partial(adj.kind, adj.vertices.Keys, ListedEdges(adj, adj.vertices.Keys))
  }

  /** Every listed edge starts at a declared name. */
  predicate SourcesIn(es: set<Edge>, vs: set<string>)
  {
    forall e :: e in es ==> e.0 in vs
  }

  /** The node the reference description holds for a name it knows. */
  lemma ExpectedAt(kind: Kind, vs: set<string>, es: set<Edge>, v: string)
    requires v in vs + Targets(es)
    ensures v in Expected(kind, vs, es)
    ensures Expected(kind, vs, es)[v] == Node(v, Out(es, v) + (if kind == Undirected then In(es, v) else {}))
  {
  }

  lemma AddVertexPartial(kind: Kind, vs: set<string>, es: set<Edge>, name: string)
    requires SourcesIn(es, vs)
    ensures AddVertex(Partial(kind, vs, es), name) == Partial(kind, vs + {name}, es)
  {
    var m := Expected(kind, vs, es);
    var m' := Expected(kind, vs + {name}, es);
    if name in m {
      assert m'.Keys == m.Keys;
      assert m' == m;
    } else {
      assert name !in Targets(es);
      var r := m[name := Node(name, {})];
      assert m'.Keys == r.Keys;
      forall v | v in m'
        ensures m'[v] == r[v]
      {
        ExpectedAt(kind, vs + {name}, es, v);
        if v == name {
          assert Out(es, name) == {};
          assert In(es, name) == {};
        } else {
          ExpectedAt(kind, vs, es, v);
        }
      }
      assert m' == r;
    }
  }

  /** Declaring a name that is already referenced changes nothing. */
  lemma ExpectedAbsorb(kind: Kind, vs: set<string>, es: set<Edge>, a: string)
    requires a in vs + Targets(es)
    ensures Expected(kind, vs + {a}, es) == Expected(kind, vs, es)
  {
    assert vs + {a} + Targets(es) == vs + Targets(es);
  }

  lemma OutIn(es: set<Edge>, n: string, a: string, v: string)
    ensures Out(es + {(n, a)}, v) == Out(es, v) + (if v == n then {a} else {})
    ensures In(es + {(n, a)}, v) == In(es, v) + (if v == a then {n} else {})
  {
  }

  lemma AddChildAt(m: map<string, Node>, n: string, w: string, v: string)
    requires n in m
    ensures AddChild(m, n, w).Keys == m.Keys
    ensures v in m ==> AddChild(m, n, w)[v] == if v == n then m[n].(children := m[n].children + {w}) else m[v]
  {
  }

  /** The node a name gets once one more edge is recorded. */
  function WithEdge(kind: Kind, node: Node, v: string, n: string, a: string): Node
  {
    var c1 := if v == n then node.children + {a} else node.children;
    Node(node.name, if kind == Undirected && v == a then c1 + {n} else c1)
  }

  /** The reference description after one more edge, name by name. */
  lemma ExpectedWithEdge(kind: Kind, vs: set<string>, es: set<Edge>, n: string, a: string)
    requires n in vs && a in vs
    ensures Expected(kind, vs, es + {(n, a)}).Keys == Expected(kind, vs, es).Keys
    ensures forall v :: v in Expected(kind, vs, es) ==>
      Expected(kind, vs, es + {(n, a)})[v] == WithEdge(kind, Expected(kind, vs, es)[v], v, n, a)
  {
    var es' := es + {(n, a)};
    var m := Expected(kind, vs, es);
    var m' := Expected(kind, vs, es');
    assert Targets(es') == Targets(es) + {a};
    forall v | v in m
      ensures m'[v] == WithEdge(kind, m[v], v, n, a)
    {
      ExpectedAt(kind, vs, es, v);
      ExpectedAt(kind, vs, es', v);
      OutIn(es, n, a, v);
    }
  }

  /** The one or two AddChild updates of AddEdge, name by name. */
  lemma AddChildrenWithEdge(kind: Kind, m: map<string, Node>, n: string, a: string)
    requires n in m && a in m
    ensures a in AddChild(m, n, a)
    ensures var m2 := AddChild(m, n, a);
            var r := if kind == Undirected then AddChild(m2, a, n) else m2;
            r.Keys == m.Keys && forall v :: v in m ==> r[v] == WithEdge(kind, m[v], v, n, a)
  {
    var m2 := AddChild(m, n, a);
    AddChildAt(m, n, a, a);
    var r := if kind == Undirected then AddChild(m2, a, n) else m2;
    forall v | v in m
      ensures r[v] == WithEdge(kind, m[v], v, n, a)
    {
      AddChildAt(m, n, a, v);
      if kind == Undirected {
        AddChildAt(m2, a, n, v);
      }
    }
  }

  /** Recording one more edge between two known names is one or two AddChild updates. */
  lemma ExpectedAddEdge(kind: Kind, vs: set<string>, es: set<Edge>, n: string, a: string)
    requires n in vs && a in vs
    ensures n in Expected(kind, vs, es) && a in AddChild(Expected(kind, vs, es), n, a)
    ensures Expected(kind, vs, es + {(n, a)})
         == var m2 := AddChild(Expected(kind, vs, es), n, a);
            if kind == Undirected then AddChild(m2, a, n) else m2
  {
    var m := Expected(kind, vs, es);
    ExpectedAt(kind, vs, es, n);
    ExpectedAt(kind, vs, es, a);
    ExpectedWithEdge(kind, vs, es, n, a);
    AddChildrenWithEdge(kind, m, n, a);
  }

  lemma AddEdgePartial(kind: Kind, vs: set<string>, es: set<Edge>, name: string, adj: string)
    requires name in vs && SourcesIn(es, vs)
    ensures name in Partial(kind, vs, es).vertices
    ensures AddEdge(Partial(kind, vs, es), name, adj) == Partial(kind, vs, es + {(name, adj)})
  {
    var es' := es + {(name, adj)};
    var g1 := AddVertex(Partial(kind, vs, es), adj);
    AddVertexPartial(kind, vs, es, adj);
    ExpectedAddEdge(kind, vs + {adj}, es, name, adj);
    assert adj in vs + Targets(es');
    ExpectedAbsorb(kind, vs, es', adj);
  }

  /** The edges one vertex lists. */
  function EdgesOf(name: string, ns: seq<string>): set<Edge>
  {
    set w | w in ns :: (name, w)
  }

  /** Lines 183-197 for one vertex: records each of its listed edges in list order. */
  function AddNeighbours(g: Graph, name: string, ns: seq<string>): (r: Graph)
    requires name in g.vertices
    ensures r.kind == g.kind && r.hasCycles == g.hasCycles
    ensures g.vertices.Keys <= r.vertices.Keys
    decreases |ns|
  {
    if ns == [] then g else AddNeighbours(AddEdge(g, name, ns[0]), name, ns[1..])
  }

  /** What recording a vertex's neighbour list adds: every listed name becomes a vertex and a child of `name`. */
  lemma {:induction false} AddNeighboursEffect(g: Graph, name: string, ns: seq<string>)
    requires name in g.vertices
    ensures var r := AddNeighbours(g, name, ns);
            && r.vertices.Keys == g.vertices.Keys + Elems(ns)
            && r.vertices[name].children == g.vertices[name].children + Elems(ns)
    decreases |ns|
  {
    if ns == [] {
      assert Elems(ns) == {};
    } else {
      AddEdgeEffect(g, name, ns[0]);
      AddNeighboursEffect(AddEdge(g, name, ns[0]), name, ns[1..]);
      ElemsCons(ns);
    }
  }

  /**
   * Recording a neighbour list never removes a child, and in an undirected
   * graph gives each listed name the child `name`.
   */
  lemma {:induction false} AddNeighboursKeeps(g: Graph, name: string, ns: seq<string>)
    requires name in g.vertices
    ensures var r := AddNeighbours(g, name, ns);
            && (forall v :: v in g.vertices ==> v in r.vertices && g.vertices[v].children <= r.vertices[v].children)
            && (g.kind == Undirected ==> forall w :: w in ns ==> w in r.vertices && name in r.vertices[w].children)
    decreases |ns|
  {
    if ns != [] {
      var g1 := AddEdge(g, name, ns[0]);
      AddEdgeGrows(g, name, ns[0]);
      AddNeighboursKeeps(g1, name, ns[1..]);
    }
  }

  lemma ElemsCons(ns: seq<string>)
    requires ns != []
    ensures Elems(ns) == {ns[0]} + Elems(ns[1..])
  {
    assert forall w :: w in ns <==> w == ns[0] || w in ns[1..];
  }

  lemma EdgesOfCons(name: string, ns: seq<string>)
    requires ns != []
    ensures EdgesOf(name, ns) == {(name, ns[0])} + EdgesOf(name, ns[1..])
  {
    assert forall w :: w in ns <==> w == ns[0] || w in ns[1..];
  }

  /** Unfolding AddNeighbours once: the first edge is recorded, the rest of the list remains. */
  lemma AddNeighboursUnfold(kind: Kind, vs: set<string>, es: set<Edge>, name: string, ns: seq<string>)
    requires name in vs && SourcesIn(es, vs) && ns != []
    ensures name in Partial(kind, vs, es).vertices
    ensures SourcesIn(es + {(name, ns[0])}, vs)
    ensures AddNeighbours(Partial(kind, vs, es), name, ns)
         == AddNeighbours(Partial(kind, vs, es + {(name, ns[0])}), name, ns[1..])
    ensures es + {(name, ns[0])} + EdgesOf(name, ns[1..]) == es + EdgesOf(name, ns)
  {
    AddEdgePartial(kind, vs, es, name, ns[0]);
    EdgesOfCons(name, ns);
  }

  lemma {:induction false} AddNeighboursPartial(kind: Kind, vs: set<string>, es: set<Edge>, name: string, ns: seq<string>)
    requires name in vs && SourcesIn(es, vs)
    ensures name in Partial(kind, vs, es).vertices
    ensures AddNeighbours(Partial(kind, vs, es), name, ns) == Partial(kind, vs, es + EdgesOf(name, ns))
    decreases |ns|
  {
    ExpectedAt(kind, vs, es, name);
    if ns == [] {
      assert EdgesOf(name, ns) == {};
      assert es + EdgesOf(name, ns) == es;
    } else {
      AddNeighboursUnfold(kind, vs, es, name, ns);
      AddNeighboursPartial(kind, vs, es + {(name, ns[0])}, name, ns[1..]);
    }
  }

  /** Lines 175-198: each vertex of `order` in turn, declared and then its edges recorded. */
  function BuildFrom(g: Graph, adj: AdjacencyList, order: seq<string>): (r: Graph)
    requires forall n :: n in order ==> n in adj.vertices
    ensures r.kind == g.kind && r.hasCycles == g.hasCycles
    decreases |order|
  {
    if order == [] then g
    else
      var name := order[0];
      BuildFrom(AddNeighbours(AddVertex(g, name), name, adj.vertices[name]), adj, order[1..])
  }

  /**
   * Processing the vertices of `order` from any starting graph keeps every
   * existing vertex and child, declares every processed name, and records
   * each edge it lists, in both directions when the graph is undirected.
   */
  lemma {:induction false} BuildFromEffect(g: Graph, adj: AdjacencyList, order: seq<string>)
    requires forall n :: n in order ==> n in adj.vertices
    ensures var r := BuildFrom(g, adj, order);
            && (forall v :: v in g.vertices ==> v in r.vertices && g.vertices[v].children <= r.vertices[v].children)
            && (forall n :: n in order ==> n in r.vertices)
            && (forall n, w :: n in order && w in adj.vertices[n] ==> w in r.vertices && w in r.vertices[n].children)
            && (g.kind == Undirected ==>
                  forall n, w :: n in order && w in adj.vertices[n] ==> n in r.vertices[w].children)
    decreases |order|
  {
    if order != [] {
      var name := order[0];
      var g1 := AddNeighbours(AddVertex(g, name), name, adj.vertices[name]);
      VertexEffect(g, adj, name);
      BuildFromEffect(g1, adj, order[1..]);
      assert forall n :: n in order ==> n == name || n in order[1..];
    }
  }

  /** One round of the outer loop, from any graph: the vertex and all its listed edges are recorded. */
  lemma VertexEffect(g: Graph, adj: AdjacencyList, name: string)
    requires name in adj.vertices
    ensures var r := AddNeighbours(AddVertex(g, name), name, adj.vertices[name]);
            && r.kind == g.kind && name in r.vertices
            && (forall v :: v in g.vertices ==> v in r.vertices && g.vertices[v].children <= r.vertices[v].children)
            && (forall w :: w in adj.vertices[name] ==> w in r.vertices && w in r.vertices[name].children)
            && (g.kind == Undirected ==> forall w :: w in adj.vertices[name] ==> name in r.vertices[w].children)
  {
    var g0 := AddVertex(g, name);
    AddNeighboursEffect(g0, name, adj.vertices[name]);
    AddNeighboursKeeps(g0, name, adj.vertices[name]);
  }

  /** `order` lists every name of `names` exactly once: one possible Go map iteration order. */
  predicate IsEnumeration(order: seq<string>, names: set<string>)
  {
    Distinct(order) && Elems(order) == names
  }

  lemma ListedEdgesStep(adj: AdjacencyList, done: set<string>, name: string)
    requires done <= adj.vertices.Keys && name in adj.vertices
    ensures SourcesIn(ListedEdges(adj, done), done + {name})
    ensures ListedEdges(adj, done) + EdgesOf(name, adj.vertices[name]) == ListedEdges(adj, done + {name})
  {
  }

  /** The graph after the outer loop has processed exactly the vertices in `done`. */
  function Stage(adj: AdjacencyList, done: set<string>): Graph
    requires done <= adj.vertices.Keys
  {
    Partial(adj.kind, done, ListedEdges(adj, done))
  }

  /** Processing one more vertex of the outer loop moves it into the declared set. */
  lemma VertexStep(adj: AdjacencyList, done: set<string>, name: string)
    requires done <= adj.vertices.Keys && name in adj.vertices
    ensures name in AddVertex(Stage(adj, done), name).vertices
    ensures AddNeighbours(AddVertex(Stage(adj, done), name), name, adj.vertices[name]) == Stage(adj, done + {name})
  {
    ListedEdgesStep(adj, done, name);
    AddVertexPartial(adj.kind, done, ListedEdges(adj, done), name);
    AddNeighboursPartial(adj.kind, done + {name}, ListedEdges(adj, done), name, adj.vertices[name]);
  }

  /** The rest of the order after its first vertex meets the loop's precondition again. */
  lemma OrderTail(adj: AdjacencyList, done: set<string>, order: seq<string>)
    requires done <= adj.vertices.Keys && order != []
    requires forall n :: n in order ==> n in adj.vertices && n !in done
    requires Distinct(order)
    ensures done + {order[0]} <= adj.vertices.Keys
    ensures forall n :: n in order[1..] ==> n in adj.vertices && n !in done + {order[0]}
    ensures Distinct(order[1..])
    ensures done + {order[0]} + Elems(order[1..]) == done + Elems(order)
  {
    assert order == [order[0]] + order[1..];
  }

  lemma {:induction false} BuildFromPartial(adj: AdjacencyList, done: set<string>, order: seq<string>)
    requires done <= adj.vertices.Keys
    requires forall n :: n in order ==> n in adj.vertices && n !in done
    requires Distinct(order)
    ensures done + Elems(order) <= adj.vertices.Keys
    ensures BuildFrom(Stage(adj, done), adj, order) == Stage(adj, done + Elems(order))
    decreases |order|
  {
    if order == [] {
      assert done + Elems(order) == done;
    } else {
      var name := order[0];
      VertexStep(adj, done, name);
      OrderTail(adj, done, order);
      BuildFromPartial(adj, done + {name}, order[1..]);
    }
  }

  /**
   * FromAdjacencyList: builds the graph visiting the document's vertices in
   * `order`, an arbitrary enumeration of its keys, and returns a nil error.
   * Whatever the order, the graph is `Built(adj)`.
   */
  function FromAdjacencyList(adj: AdjacencyList, order: seq<string>): (r: (Graph, Option<BuildError>))
    requires IsEnumeration(order, adj.vertices.Keys)
    ensures r.1 == None
    ensures r.0 == Built(adj)
  {
    var g := Graph(map[], 0, adj.kind, {}, {}, false);
    assert ListedEdges(adj, {}) == {};
    assert g == Partial(adj.kind, {}, {});
    assert g == Stage(adj, {});
    BuildFromPartial(adj, {}, order);
    assert {} + Elems(order) == adj.vertices.Keys;
    (BuildFrom(g, adj, order), None)
  }

  /** The names of the built graph are exactly the declared vertices and their listed neighbours. */
  lemma BuiltNames(adj: AdjacencyList)
    ensures forall name :: name in adj.vertices ==> name in Built(adj).vertices
    ensures forall name, w :: name in adj.vertices && w in adj.vertices[name] ==> w in Built(adj).vertices
    ensures forall v :: v in Built(adj).vertices ==>
      v in adj.vertices || exists name :: name in adj.vertices && v in adj.vertices[name]
  {
    var es := ListedEdges(adj, adj.vertices.Keys);
    forall name, w | name in adj.vertices && w in adj.vertices[name]
      ensures w in Built(adj).vertices
    {
      assert (name, w) in es;
      assert w in Targets(es);
    }
    forall v | v in Built(adj).vertices && v !in adj.vertices
      ensures exists name :: name in adj.vertices && v in adj.vertices[name]
    {
      assert v in Targets(es);
      var e :| e in es && e.1 == v;
    }
  }

  /** Every node is stored under its own name, and Size counts the nodes. */
  lemma BuiltShape(adj: AdjacencyList)
    ensures NamesMatch(Built(adj))
    ensures Built(adj).size == |Built(adj).vertices|
    ensures Built(adj).kind == adj.kind && !HasCycles(Built(adj))
  {
  }

  /** Closure: every child of every built node is itself a vertex. */
  lemma BuiltClosed(adj: AdjacencyList)
    ensures Closed(Built(adj))
  {
    var es := ListedEdges(adj, adj.vertices.Keys);
    var g := Built(adj);
    forall v, c | v in g.vertices && c in g.vertices[v].children
      ensures c in g.vertices
    {
      ExpectedAt(adj.kind, adj.vertices.Keys, es, v);
      if c in Out(es, v) {
        var e :| e in es && e.0 == v && e.1 == c;
        assert c in Targets(es);
      } else {
        var e :| e in es && e.1 == v && e.0 == c;
      }
    }
  }

  /**
   * Each listed edge name -> w puts w among name's children and, in an
   * undirected graph, name among w's children.
   */
  lemma BuiltEdges(adj: AdjacencyList, name: string, w: string)
    requires name in adj.vertices && w in adj.vertices[name]
    ensures name in Built(adj).vertices && w in Built(adj).vertices
    ensures w in Built(adj).vertices[name].children
    ensures adj.kind == Undirected ==> name in Built(adj).vertices[w].children
  {
    var es := ListedEdges(adj, adj.vertices.Keys);
    assert (name, w) in es;
    ExpectedAt(adj.kind, adj.vertices.Keys, es, name);
    ExpectedAt(adj.kind, adj.vertices.Keys, es, w);
    assert w in Out(es, name);
    assert name in In(es, w);
  }

  /** A graph of any other kind than undirected gets exactly the listed edges and nothing else. */
  lemma BuiltNotUndirectedExact(adj: AdjacencyList, v: string)
    requires adj.kind != Undirected
    requires v in Built(adj).vertices
    ensures Built(adj).vertices[v].children
         == if v in adj.vertices then Elems(adj.vertices[v]) else {}
  {
    var es := ListedEdges(adj, adj.vertices.Keys);
    ExpectedAt(adj.kind, adj.vertices.Keys, es, v);
    if v in adj.vertices {
      forall c | c in Elems(adj.vertices[v])
        ensures c in Out(es, v)
      {
        assert (v, c) in es;
      }
    }
  }

  /** An undirected graph's child relation is symmetric. */
  lemma BuiltSymmetric(adj: AdjacencyList)
    requires adj.kind == Undirected
    ensures Symmetric(Built(adj))
  {
    var es := ListedEdges(adj, adj.vertices.Keys);
    var g := Built(adj);
    BuiltClosed(adj);
    forall v, c | v in g.vertices && c in g.vertices[v].children
      ensures v in g.vertices[c].children
    {
      ExpectedAt(adj.kind, adj.vertices.Keys, es, v);
      ExpectedAt(adj.kind, adj.vertices.Keys, es, c);
      if c in Out(es, v) {
        var e :| e in es && e.0 == v && e.1 == c;
        assert v in In(es, c);
      } else {
        var e :| e in es && e.1 == v && e.0 == c;
        assert v in Out(es, c);
      }
    }
  }

  /** Adding a child that is already there leaves the map as it was. */
  lemma AddChildPresent(m: map<string, Node>, n: string, w: string)
    requires n in m && w in m[n].children
    ensures AddChild(m, n, w) == m
  {
    assert m[n].(children := m[n].children + {w}) == m[n];
  }

  /** Recording an edge that is already recorded changes nothing. */
  lemma AddEdgeIdempotent(g: Graph, name: string, adj: string)
    requires name in g.vertices
    ensures name in AddEdge(g, name, adj).vertices
    ensures AddEdge(AddEdge(g, name, adj), name, adj) == AddEdge(g, name, adj)
  {
    var g1 := AddEdge(g, name, adj);
    assert AddVertex(g1, adj) == g1;
    AddChildPresent(g1.vertices, name, adj);
    if g1.kind == Undirected {
      AddChildPresent(g1.vertices, adj, name);
    }
  }

  /** A document with a single vertex listing a single neighbour lists one edge. */
  lemma SingleEdgeListed(name: string, w: string, kind: Kind)
    ensures var adj := AdjacencyList(map[name := [w]], kind, "");
            adj.vertices.Keys == {name}
            && ListedEdges(adj, {name}) == {(name, w)}
            && Targets({(name, w)}) == {w}
  {
    var adj := AdjacencyList(map[name := [w]], kind, "");
    assert adj.vertices.Keys == {name};
    assert (name, w) in ListedEdges(adj, {name});
  }

  /** The nodes recorded for a single edge between two distinct names. */
  lemma SingleEdgeNodes(kind: Kind, a: string, b: string)
    requires a != b
    ensures Expected(kind, {a}, {(a, b)}).Keys == {a, b}
    ensures Expected(kind, {a}, {(a, b)})[a] == Node(a, {b})
    ensures Expected(kind, {a}, {(a, b)})[b] == Node(b, if kind == Undirected then {a} else {})
  {
    var es := {(a, b)};
    assert Targets(es) == {b};
    ExpectedAt(kind, {a}, es, a);
    ExpectedAt(kind, {a}, es, b);
    assert Out(es, a) == {b} && In(es, a) == {};
    assert Out(es, b) == {} && In(es, b) == {a};
  }

  /** The document {node1: [node2]} of kind directed: node1 gets the single child node2. */
  lemma SingleDirectedEdge()
    ensures var g := Built(AdjacencyList(map["node1" := ["node2"]], Directed, ""));
            g.vertices.Keys == {"node1", "node2"} && g.size == 2
            && g.vertices["node1"].children == {"node2"} && g.vertices["node2"].children == {}
  {
    SingleEdgeListed("node1", "node2", Directed);
    SingleEdgeNodes(Directed, "node1", "node2");
    assert |{"node1", "node2"}| == 2;
  }

  /** The document {A: [B]} of kind undirected: A and B become each other's children. */
  lemma SingleUndirectedEdge()
    ensures var g := Built(AdjacencyList(map["A" := ["B"]], Undirected, ""));
            g.vertices.Keys == {"A", "B"} && g.size == 2
            && g.vertices["A"].children == {"B"} && g.vertices["B"].children == {"A"}
  {
    SingleEdgeListed("A", "B", Undirected);
    SingleEdgeNodes(Undirected, "A", "B");
    assert |{"A", "B"}| == 2;
  }
}
