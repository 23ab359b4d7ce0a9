/**
 * Depth-first traversal with the `visited` bookkeeping that graph/graph.go
 * describes but never performs: the comment at lines 95-96 says a child that
 * is discovered but not yet visited reveals a cycle, so a node must be marked
 * visited once `visit` has been called on it (as BFS does at line 138), and a
 * child that is already visited must be skipped rather than descended into
 * again. With those two changes a directed graph is flagged exactly when a
 * cycle is reachable from the start.
 */
module FixedDfs {
  import opened GraphModel
  import opened Dfs

  /** Every vertex in `open` (the calls still running) reaches `node`. */
  ghost predicate OpenReach(g: Vertices, open: set<string>, node: string)
  {
    forall a :: a in open ==> Reachable(g, a, node)
  }

  /**
   * Every child of a node in `s` was already finished when that node was
   * visited: it is in `done` (finished before this call) or earlier in `s`.
   */
  ghost predicate Settled(g: Vertices, s: seq<string>, done: set<string>)
  {
    forall i :: 0 <= i < |s| ==> Children(g, s[i]) <= done + Elems(s[..i])
  }

  lemma SettledAppend(g: Vertices, s: seq<string>, sub: seq<string>, done: set<string>)
    requires Settled(g, s, done) && Settled(g, sub, done + Elems(s))
    ensures Settled(g, s + sub, done)
  {
    var t := s + sub;
    forall i | 0 <= i < |t|
      ensures Children(g, t[i]) <= done + Elems(t[..i])
    {
      if i < |s| {
        assert t[i] == s[i] && t[..i] == s[..i];
      } else {
        var k := i - |s|;
        assert t[i] == sub[k] && t[..i] == s + sub[..k];
        assert Elems(s + sub[..k]) == Elems(s) + Elems(sub[..k]);
      }
    }
  }

  lemma SettledFinish(g: Vertices, s: seq<string>, node: string, done: set<string>)
    requires Settled(g, s, done) && Children(g, node) <= done + Elems(s)
    ensures Settled(g, s + [node], done)
  {
    var t := s + [node];
    forall i | 0 <= i < |t|
      ensures Children(g, t[i]) <= done + Elems(t[..i])
    {
      if i < |s| {
        assert t[i] == s[i] && t[..i] == s[..i];
      } else {
        assert t[..i] == s;
      }
    }
  }

  /**
   * A settled order with nothing finished beforehand ranks every vertex it
   * holds above its children, so no vertex it holds lies on a cycle.
   */
  lemma SettledNoCycle(g: Vertices, order: seq<string>, start: string)
    requires Distinct(order) && Settled(g, order, {})
    requires forall v :: v in order <==> Reachable(g, start, v)
    ensures !CycleFrom(g, start)
  {
    if CycleFrom(g, start) {
      var u, c :| Reachable(g, start, u) && c in Children(g, u) && Reachable(g, c, u);
      assert u in order;
      SettledEdgeNotOnCycle(g, order, u, c);
      assert false;
    }
  }

  lemma SettledEdgeNotOnCycle(g: Vertices, order: seq<string>, u: string, c: string)
    requires Distinct(order) && Settled(g, order, {})
    requires u in order && c in Children(g, u)
    ensures !Reachable(g, c, u)
  {
    SettledRank(g, order);
    if Reachable(g, c, u) {
      var p :| Walk(g, c, u, p);
      RankedWalk(g, Positions(order), c, u, p);
      assert false;
    }
  }

  /** A vertex listed before position `j` sits at some smaller index. */
  lemma PositionBefore(s: seq<string>, j: int, x: string) returns (i: int)
    requires 0 <= j <= |s| && x in Elems(s[..j])
    ensures 0 <= i < j && s[i] == x
  {
    assert x in s[..j];
    i :| 0 <= i < j && s[..j][i] == x;
  }

  /** In a settled order, a vertex's position exceeds the positions of all its children. */
  lemma SettledRank(g: Vertices, order: seq<string>)
    requires Distinct(order) && Settled(g, order, {})
    ensures forall v, w :: v in Positions(order) && w in Children(g, v) ==>
      w in Positions(order) && Positions(order)[w] < Positions(order)[v]
  {
    var rank := Positions(order);
    forall v, w | v in rank && w in Children(g, v)
      ensures w in rank && rank[w] < rank[v]
    {
      var j :| 0 <= j < |order| && order[j] == v;
      var i := PositionBefore(order, j, w);
      assert order[i] == w;
    }
  }

  /** What the corrected `dfs` may assume on entry: `node` discovered, not visited, reached by every open call. */
  ghost predicate FixPre(g: Graph, node: string, root: string)
  {
    && Closed(g) && (g.kind == Directed || g.kind == Undirected)
    && node in g.discovered && node !in g.visited
    && g.visited <= g.discovered <= g.vertices.Keys
    && AllReachable(g.vertices, root, g.discovered)
    && OpenReach(g.vertices, g.discovered - g.visited, node)
  }

  /**
   * What one corrected call on `node` achieves: it visits `node` last and
   * every vertex it discovers once, marks exactly those visited, never lowers
   * the flag, leaves it down only when every child was finished before its
   * parent, and in a directed graph raises it only for a cycle reachable
   * from `root`.
   */
  ghost predicate FixPost(g: Graph, node: string, root: string, h: Graph, s: seq<string>)
  {
    && SameStructure(g, h)
    && g.discovered <= h.discovered <= g.vertices.Keys
    && AllReachable(g.vertices, root, h.discovered)
    && |s| > 0 && s[|s| - 1] == node && Distinct(s)
    && Elems(s) == h.discovered - g.discovered + {node}
    && h.visited == g.visited + Elems(s)
    && PostOrder(g.vertices, s)
    && ChildrenWithin(g.vertices, Elems(s), h.discovered)
    && (g.hasCycles ==> h.hasCycles)
    && (!h.hasCycles ==> Settled(g.vertices, s, g.visited))
    && (g.kind == Directed && h.hasCycles ==> g.hasCycles || CycleFrom(g.vertices, root))
  }

  ghost predicate FixLoop(g: Graph, node: string, root: string, h: Graph, s: seq<string>,
                          examined: set<string>, todo: set<string>)
  {
    && FixPre(g, node, root)
    && SameStructure(g, h)
    && g.discovered <= h.discovered <= g.vertices.Keys
    && AllReachable(g.vertices, root, h.discovered)
    && Distinct(s) && Elems(s) == h.discovered - g.discovered
    && h.visited == g.visited + Elems(s)
    && todo == Children(g.vertices, node) - examined && examined <= Children(g.vertices, node)
    && examined <= h.discovered
    && ParentsLater(g.vertices, s, examined)
    && ChildrenWithin(g.vertices, Elems(s), h.discovered)
    && (g.hasCycles ==> h.hasCycles)
    && (!h.hasCycles ==> Settled(g.vertices, s, g.visited) && examined <= g.visited + Elems(s))
    && (g.kind == Directed && h.hasCycles ==> g.hasCycles || CycleFrom(g.vertices, root))
  }

  lemma FixInit(g: Graph, node: string, root: string)
    requires FixPre(g, node, root)
    ensures node in g.vertices
    ensures FixLoop(g, node, root, g, [], {}, g.vertices[node].children)
  {
    assert Elems([]) == {};
    assert Settled(g.vertices, [], g.visited);
  }

  /** A discovered child that is not visited is an open call, so it reaches `node`: a real cycle. */
  lemma FixRediscover(g: Graph, node: string, root: string, h: Graph, s: seq<string>,
                      examined: set<string>, todo: set<string>, child: string)
    requires FixLoop(g, node, root, h, s, examined, todo)
    requires child in todo && child in h.discovered
    requires h.kind == Directed ==> child !in h.visited
    ensures FixLoop(g, node, root, h.(hasCycles := true), s, examined + {child}, todo - {child})
  {
    if g.kind == Directed {
      assert child in g.discovered - g.visited;
      assert node in g.vertices && child in Children(g.vertices, node);
      assert Reachable(g.vertices, child, node);
      assert Reachable(g.vertices, root, node);
      assert CycleFrom(g.vertices, root);
    }
  }

  /** A child already visited is skipped without touching the flag. */
  lemma FixSkip(g: Graph, node: string, root: string, h: Graph, s: seq<string>,
                examined: set<string>, todo: set<string>, child: string)
    requires FixLoop(g, node, root, h, s, examined, todo)
    requires child in todo && child in h.visited
    ensures FixLoop(g, node, root, h, s, examined + {child}, todo - {child})
  {
  }

  lemma FixDescendPre(g: Graph, node: string, root: string, h: Graph, s: seq<string>,
                      examined: set<string>, todo: set<string>, child: string)
    requires FixLoop(g, node, root, h, s, examined, todo)
    requires child in todo && child !in h.discovered
    ensures FixPre(h.(discovered := h.discovered + {child}), child, root)
    ensures |h.vertices.Keys - (h.discovered + {child})| < |g.vertices.Keys - g.discovered|
  {
    DiscoverReachable(g.vertices, root, h.discovered, node, child);
    Progress(g.vertices.Keys, g.discovered, h.discovered, child);
    var h' := h.(discovered := h.discovered + {child});
    forall a | a in h'.discovered - h'.visited
      ensures Reachable(g.vertices, a, child)
    {
      if a == child {
        ReachableRefl(g.vertices, child);
      } else {
        assert a in g.discovered - g.visited;
        ReachableStep(g.vertices, a, node, child);
      }
    }
  }

  lemma FixDescendPost(g: Graph, node: string, root: string, h: Graph, s: seq<string>,
                       examined: set<string>, todo: set<string>, child: string, h2: Graph, sub: seq<string>)
    requires FixLoop(g, node, root, h, s, examined, todo)
    requires child in todo && child !in h.discovered
    requires FixPost(h.(discovered := h.discovered + {child}), child, root, h2, sub)
    ensures FixLoop(g, node, root, h2, s + sub, examined + {child}, todo - {child})
    ensures ChildrenWithin(g.vertices, Elems(s), h.discovered) && Elems(sub) !! h.discovered
  {
    DistinctAppend(s, sub);
    AppendCall(g.vertices, s, examined, child, sub);
    if !h2.hasCycles {
      SettledAppend(g.vertices, s, sub, g.visited);
      assert child in Elems(sub);
    }
  }

  lemma FixExit(g: Graph, node: string, root: string, h: Graph, s: seq<string>, examined: set<string>)
    requires FixLoop(g, node, root, h, s, examined, {})
    ensures FixPost(g, node, root, h.(visited := h.visited + {node}), s + [node])
  {
    CloseCall(g.vertices, s, node, examined, g.visited, !h.hasCycles);
  }

  /** Once every child is examined, `node` closes its call in both orders. */
  lemma CloseCall(g: Vertices, s: seq<string>, node: string, examined: set<string>, done: set<string>, settled: bool)
    requires Children(g, node) - examined == {} && examined <= Children(g, node)
    requires ParentsLater(g, s, examined) && Distinct(s) && node !in Elems(s)
    requires settled ==> Settled(g, s, done) && examined <= done + Elems(s)
    ensures Distinct(s + [node]) && PostOrder(g, s + [node]) && Elems(s + [node]) == Elems(s) + {node}
    ensures settled ==> Settled(g, s + [node], done)
  {
    forall x | x in Children(g, node)
      ensures x in examined
    {
      assert x !in Children(g, node) - examined;
    }
    assert examined == Children(g, node);
    FinishNode(g, s, node);
    if settled {
      SettledFinish(g, s, node, done);
    }
  }

  /**
   * The corrected recursive `dfs`: as at lines 86-107, but a directed child
   * that is already visited is skipped, and `node` is marked visited after
   * its visit.
   */
  method FixedDfsFrom(g: Graph, node: string, ghost root: string) returns (h: Graph, s: seq<string>, ghost up: seq<int>)
    requires FixPre(g, node, root)
    ensures FixPost(g, node, root, h, s)
    ensures DiscoveryTree(g.vertices, s, up)
    decreases |g.vertices.Keys - g.discovered|
  {
    FixInit(g, node, root);
    h := g;
    s := [];
    var todo := g.vertices[node].children;
    ghost var examined: set<string> := {};
    ghost var open: seq<int> := [];
    while todo != {}
      invariant FixLoop(g, node, root, h, s, examined, todo)
      invariant OpenTree(g.vertices, node, s, open)
      decreases todo
    {
      var child :| child in todo;
      if child in h.discovered {
        if h.kind == Undirected || child !in h.visited {
          FixRediscover(g, node, root, h, s, examined, todo, child);
          h := h.(hasCycles := true);
        } else {
          FixSkip(g, node, root, h, s, examined, todo, child);
        }
        examined := examined + {child};
        todo := todo - {child};
        continue;
      }
      FixDescendPre(g, node, root, h, s, examined, todo, child);
      var h2, sub, subUp := FixedDfsFrom(h.(discovered := h.discovered + {child}), child, root);
      FixDescendPost(g, node, root, h, s, examined, todo, child, h2, sub);
      TreeAppend(g.vertices, node, s, open, sub, subUp, h.discovered);
      open := open + Graft(subUp, |s|);
      h := h2;
      s := s + sub;
      examined := examined + {child};
      todo := todo - {child};
    }
    FixExit(g, node, root, h, s, examined);
    TreeClose(g.vertices, node, s, open);
    up := Close(open, |s|);
    s := s + [node];
    h := h.(visited := h.visited + {node});
  }

  lemma FixResult(g: Graph, start: string, h: Graph, order: seq<string>)
    requires start in g.vertices
    requires FixPost(g.(discovered := {start}, visited := {}), start, start, h, order)
    ensures SameStructure(g, h) && h.discovered == Elems(order) && h.visited == Elems(order)
    ensures Distinct(order) && |order| > 0 && order[|order| - 1] == start
    ensures forall v :: v in order <==> Reachable(g.vertices, start, v)
    ensures PostOrder(g.vertices, order)
    ensures g.kind == Directed && h.hasCycles ==> g.hasCycles || CycleFrom(g.vertices, start)
    ensures g.hasCycles || CycleFrom(g.vertices, start) ==> h.hasCycles
  {
    var r := Elems(order);
    assert start in r;
    ClosedSetContainsReachable(g.vertices, r, start);
    if !h.hasCycles {
      SettledNoCycle(g.vertices, order, start);
    }
  }

  /**
   * The corrected `DFS`: every vertex reachable from `start` is visited
   * exactly once, in post-order, and marked visited; on a directed graph the
   * cycle flag ends up raised exactly when it was already raised or a cycle
   * is reachable from `start`.
   */
  method DFS(g: Graph, start: string) returns (h: Graph, order: seq<string>)
    requires start in g.vertices
    requires Closed(g) && (g.kind == Directed || g.kind == Undirected)
    ensures SameStructure(g, h) && h.discovered == Elems(order) && h.visited == Elems(order)
    ensures Distinct(order) && |order| > 0 && order[|order| - 1] == start
    ensures forall v :: v in order <==> Reachable(g.vertices, start, v)
    ensures PostOrder(g.vertices, order) && DepthFirst(g.vertices, order)
    ensures g.kind == Directed ==> (h.hasCycles <==> g.hasCycles || CycleFrom(g.vertices, start))
    ensures g.hasCycles || CycleFrom(g.vertices, start) ==> h.hasCycles
  {
    var g0 := g.(discovered := {start}, visited := {});
    ReachableRefl(g.vertices, start);
    ghost var up;
    h, order, up := FixedDfsFrom(g0, start, start);
    FixResult(g, start, h, order);
  }
}
