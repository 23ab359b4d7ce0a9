/**
 * The graph data model of graph/graph.go: named nodes whose children are a
 * set of names resolved through the graph's vertex map, the graph kind, the
 * node counter, and the traversal bookkeeping that the source stores on the
 * graph itself. Also the path vocabulary (walks, reachability, distance) in
 * which the traversals are specified.
 */
module GraphModel {

  /** Go's `Kind` is a string type; any string can appear, only two are named. */
  type Kind = string

  const Directed: Kind := "directed"
  const Undirected: Kind := "undirected"

  /** A node: its name and the set of its children's names (a map with ignored values in the source). */
  datatype Node = Node(name: string, children: set<string>)

  /** One parsed document: vertex name to neighbour names, the kind, and an optional root ("" when absent). */
  datatype AdjacencyList = AdjacencyList(vertices: map<string, seq<string>>, kind: Kind, root: string)

  /**
   * The graph. `discovered`, `visited` and `hasCycles` are the source's
   * traversal fields; the first two are reset by every traversal, the last
   * one never is.
   */
  datatype Graph = Graph(
    vertices: map<string, Node>,
    size: int,
    kind: Kind,
    discovered: set<string>,
    visited: set<string>,
    hasCycles: bool)

  /**
   * HasCycles: the flag left by earlier traversals, read without change. It
   * is down on a freshly built graph; the traversal contracts say when a
   * traversal raises it.
   */
  function HasCycles(g: Graph): (flagged: bool)
    ensures flagged <==> g.hasCycles
  {
    g.hasCycles
  }

  /** The names a sequence mentions. */
  function Elems(s: seq<string>): set<string>
  {
    set x | x in s
  }

  /** The vertex map: name to node. */
  type Vertices = map<string, Node>

  /** The children of `v`, or none when `v` is not a vertex. */
  function Children(g: Vertices, v: string): set<string>
  {
    if v in g then g[v].children else {}
  }

  /** Every child name resolves to a vertex, so no lookup yields a nil node. */
  predicate Closed(g: Graph)
  {
    forall v, c :: v in g.vertices && c in g.vertices[v].children ==> c in g.vertices
  }

  /** Every node is stored under its own name. */
  predicate NamesMatch(g: Graph)
  {
    forall v :: v in g.vertices ==> g.vertices[v].name == v
  }

  /** The child relation is symmetric, as an undirected graph's must be. */
  predicate Symmetric(g: Graph)
  {
    forall v, c :: v in g.vertices && c in g.vertices[v].children ==> c in g.vertices && v in g.vertices[c].children
  }

  /** `p` is a walk from `a` to `b` following child edges. */
  ghost predicate Walk(g: Vertices, a: string, b: string, p: seq<string>)
  {
    && |p| >= 1
    && p[0] == a
    && p[|p| - 1] == b
    && forall i :: 0 <= i < |p| - 1 ==> p[i + 1] in Children(g, p[i])
  }

  ghost predicate Reachable(g: Vertices, a: string, b: string)
  {
    exists p :: Walk(g, a, b, p)
  }

  /** `d` is the least number of edges on a walk from `a` to `b`. */
  ghost predicate IsDistance(g: Vertices, a: string, b: string, d: nat)
  {
    && (exists p :: Walk(g, a, b, p) && |p| == d + 1)
    && (forall p :: Walk(g, a, b, p) ==> |p| >= d + 1)
  }

  /** Some vertex lies on a closed walk of at least one edge. */
  ghost predicate Cyclic(g: Vertices)
  {
    exists u, c :: u in g && c in Children(g, u) && Reachable(g, c, u)
  }

  /** Some vertex reachable from `root` lies on a closed walk of at least one edge. */
  ghost predicate CycleFrom(g: Vertices, root: string)
  {
    exists u, c :: Reachable(g, root, u) && c in Children(g, u) && Reachable(g, c, u)
  }

  lemma ReachableRefl(g: Vertices, a: string)
    ensures Reachable(g, a, a)
  {
    assert Walk(g, a, a, [a]);
  }

  /** Extending a walk by one child edge. */
  lemma ReachableStep(g: Vertices, a: string, b: string, c: string)
    requires Reachable(g, a, b)
    requires c in Children(g, b)
    ensures Reachable(g, a, c)
  {
    var p :| Walk(g, a, b, p);
    assert Walk(g, a, c, p + [c]);
  }

  /** Joining a walk from `a` to `b` with one from `b` to `c`. */
  lemma ReachableTrans(g: Vertices, a: string, b: string, c: string)
    requires Reachable(g, a, b) && Reachable(g, b, c)
    ensures Reachable(g, a, c)
  {
    var p :| Walk(g, a, b, p);
    var q :| Walk(g, b, c, q);
    var r := p + q[1..];
    forall i | 0 <= i < |r| - 1
      ensures r[i + 1] in Children(g, r[i])
    {
      if i < |p| - 1 {
        assert r[i] == p[i] && r[i + 1] == p[i + 1];
      } else {
        var k := i - |p| + 1;
        assert r[i] == q[k] && r[i + 1] == q[k + 1];
      }
    }
    assert Walk(g, a, c, r);
  }

  /**
   * A set that contains `a` and is closed under children contains every
   * vertex reachable from `a`.
   */
  lemma {:induction false} ClosedSetContainsWalk(g: Vertices, s: set<string>, a: string, b: string, p: seq<string>)
    requires a in s
    requires forall v, c :: v in s && c in Children(g, v) ==> c in s
    requires Walk(g, a, b, p)
    ensures b in s
    decreases |p|
  {
    if |p| > 1 {
      var q := p[..|p| - 1];
      assert Walk(g, a, q[|q| - 1], q);
      ClosedSetContainsWalk(g, s, a, q[|q| - 1], q);
    }
  }

  lemma ClosedSetContainsReachable(g: Vertices, s: set<string>, a: string)
    requires a in s
    requires forall v, c :: v in s && c in Children(g, v) ==> c in s
    ensures forall b :: Reachable(g, a, b) ==> b in s
  {
    forall b | Reachable(g, a, b)
      ensures b in s
    {
      var p :| Walk(g, a, b, p);
      ClosedSetContainsWalk(g, s, a, b, p);
    }
  }

  /**
   * A ranking that strictly decreases along every edge rules out cycles:
   * walks never climb in rank.
   */
  lemma {:induction false} RankedWalk(g: Vertices, rank: map<string, nat>, a: string, b: string, p: seq<string>)
    requires forall v, c :: v in rank && c in Children(g, v) ==> c in rank && rank[c] < rank[v]
    requires a in rank
    requires Walk(g, a, b, p)
    ensures b in rank && rank[b] <= rank[a]
    ensures |p| > 1 ==> rank[b] < rank[a]
    decreases |p|
  {
    if |p| > 1 {
      var q := p[..|p| - 1];
      assert Walk(g, a, q[|q| - 1], q);
      RankedWalk(g, rank, a, q[|q| - 1], q);
    }
  }

  lemma RankedIsAcyclic(g: Vertices, rank: map<string, nat>)
    requires g.Keys <= rank.Keys
    requires forall v, c :: v in rank && c in Children(g, v) ==> c in rank && rank[c] < rank[v]
    ensures !Cyclic(g)
  {
    if Cyclic(g) {
      var u, c :| u in g && c in Children(g, u) && Reachable(g, c, u);
      var p :| Walk(g, c, u, p);
      RankedWalk(g, rank, c, u, p);
      assert false;
    }
  }

  /** A cycle reachable from some root is a cycle of the graph. */
  lemma CycleFromIsCyclic(g: Vertices, root: string)
    ensures CycleFrom(g, root) ==> Cyclic(g)
  {
    if CycleFrom(g, root) {
      var u, c :| Reachable(g, root, u) && c in Children(g, u) && Reachable(g, c, u);
      assert u in g;
    }
  }

  /** No name occurs twice. */
  predicate Distinct(s: seq<string>)
  {
    forall i, j :: 0 <= i < j < |s| ==> s[i] != s[j]
  }

  lemma DistinctElems(s: seq<string>)
    requires Distinct(s)
    ensures |Elems(s)| == |s|
  {
    if s != [] {
      var t := s[..|s| - 1];
      assert Distinct(t);
      DistinctElems(t);
      assert Elems(s) == Elems(t) + {s[|s| - 1]};
      assert s[|s| - 1] !in Elems(t);
    }
  }

  lemma SubsetCard(a: set<string>, b: set<string>)
    requires a <= b
    ensures |a| <= |b|
    ensures a != b ==> |a| < |b|
  {
    assert b == a + (b - a);
    if a != b {
      var x :| x in b - a;
    }
  }

  lemma DistinctAppend(s: seq<string>, sub: seq<string>)
    requires Distinct(s) && Distinct(sub) && Elems(s) !! Elems(sub)
    ensures Distinct(s + sub)
    ensures Elems(s + sub) == Elems(s) + Elems(sub)
  {
    var t := s + sub;
    forall i, j | 0 <= i < j < |t|
      ensures t[i] != t[j]
    {
      if j < |s| {
        assert t[i] == s[i] && t[j] == s[j];
      } else if i >= |s| {
        assert t[i] == sub[i - |s|] && t[j] == sub[j - |s|];
      } else {
        assert t[i] in Elems(s) && t[j] in Elems(sub);
      }
    }
  }

  /** A traversal changes only the bookkeeping fields. */
  predicate SameStructure(g: Graph, h: Graph)
  {
    h.vertices == g.vertices && h.size == g.size && h.kind == g.kind
  }

  lemma {:induction false} ElemsCard(s: seq<string>)
    ensures |Elems(s)| <= |s|
  {
    if s != [] {
      var t := s[..|s| - 1];
      ElemsCard(t);
      assert Elems(s) == Elems(t) + {s[|s| - 1]};
    }
  }

  /** The converse of DistinctElems: as many names as positions means no repetition. */
  lemma {:induction false} CardDistinct(s: seq<string>)
    requires |Elems(s)| == |s|
    ensures Distinct(s)
  {
    if s != [] {
      var t := s[..|s| - 1];
      var x := s[|s| - 1];
      ElemsCard(t);
      assert Elems(s) == Elems(t) + {x};
      if x in Elems(t) {
        assert false;
      }
      CardDistinct(t);
      forall i, j | 0 <= i < j < |s|
        ensures s[i] != s[j]
      {
        if j < |s| - 1 {
          assert s[i] == t[i] && s[j] == t[j];
        } else {
          assert s[i] in Elems(t);
        }
      }
    }
  }

  lemma ElemsAppend(s: seq<string>, x: string)
    ensures Elems(s + [x]) == Elems(s) + {x}
  {
  }
}
