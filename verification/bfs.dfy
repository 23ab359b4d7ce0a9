/**
 * Breadth-first traversal as written in graph/graph.go:110-140, driven by
 * the bounded queue of common/queue.go with the graph's `Size` as capacity.
 * The visit callback becomes the returned sequence of vertex keys; the
 * iteration over a node's children, a Go map, is an arbitrary choice.
 *
 * The proof carries a ghost map `level` from each discovered vertex to the
 * level at which it was discovered; at the end every level is the distance
 * from the start and the visit order never goes back to a lower level.
 */
module Bfs {
  import opened Wrappers
  import opened GraphModel
  import opened BoundedQueue

  /** Some walk from `a` to `b` has exactly `n` edges. */
  ghost predicate WalkOfLen(g: Vertices, a: string, b: string, n: nat)
  {
    exists p :: Walk(g, a, b, p) && |p| == n + 1
  }

  /** Every levelled vertex is reachable from `start` in exactly its level's number of edges. */
  ghost predicate Levelled(g: Vertices, start: string, level: map<string, nat>)
  {
    forall v :: v in level ==> WalkOfLen(g, start, v, level[v])
  }

  /** Levels never decrease along `s`. */
  ghost predicate Layered(level: map<string, nat>, s: seq<string>)
  {
    forall i, j :: 0 <= i <= j < |s| && s[i] in level && s[j] in level ==> level[s[i]] <= level[s[j]]
  }

  /** Every child of a vertex in `done` is levelled at most one level below it. */
  ghost predicate Expanded(g: Vertices, level: map<string, nat>, done: set<string>)
  {
    && (forall v :: v in done ==> v in level)
    && (forall v, c :: v in done && c in Children(g, v) ==> c in level)
    && (forall v, c :: v in done && c in Children(g, v) && v in level && c in level ==> level[c] <= level[v] + 1)
  }

  /** The names the visited nodes carry (`visited` is keyed by `node.Name`, line 138). */
  function Names(g: Vertices, s: seq<string>): set<string>
  {
    set v | v in s && v in g :: g[v].name
  }

  /** What `BFS` demands of its caller: a start vertex, no nil lookups, and room in the queue. */
  predicate BfsPre(g: Graph, start: string)
  {
    start in g.vertices && Closed(g) && g.size >= |g.vertices|
  }

  /**
   * The facts every state of the traversal keeps. `all` lists every
   * discovered vertex once: first the visited ones, then `mid` (the node
   * being expanded, if any), then the queue.
   */
  ghost predicate Common(g: Graph, start: string, h: Graph, q: Queue<string>, all: seq<string>,
                         level: map<string, nat>)
  {
    && BfsPre(g, start)
    && SameStructure(g, h) && h.hasCycles == g.hasCycles
    && q.capacity == g.size
    && |Elems(all)| == |all| && Elems(all) == h.discovered && level.Keys == h.discovered
    && h.discovered <= g.vertices.Keys
    && |all| > 0 && all[0] == start
    && start in level && level[start] == 0
    && Levelled(g.vertices, start, level)
    && Layered(level, all)
  }

  /** The invariant of the outer loop (lines 122-139). */
  ghost predicate BfsInv(g: Graph, start: string, h: Graph, q: Queue<string>, order: seq<string>,
                         level: map<string, nat>)
  {
    && Common(g, start, h, q, order + q.items, level)
    && (|q.items| > 0 ==> forall x :: x in q.items ==> x in level && level[x] <= level[q.items[0]] + 1)
    && Expanded(g.vertices, level, Elems(order))
    && h.visited == Names(g.vertices, order)
  }

  /** The invariant of the inner loop (lines 127-136) over the children of `u`. */
  ghost predicate InnerInv(g: Graph, start: string, h: Graph, q: Queue<string>, order: seq<string>,
                           level: map<string, nat>, u: string, todo: set<string>)
  {
    && Common(g, start, h, q, order + [u] + q.items, level)
    && u in g.vertices && u in level
    && (forall x :: x in q.items ==> x in level && level[x] <= level[u] + 1)
    && Expanded(g.vertices, level, Elems(order))
    && todo <= Children(g.vertices, u)
    && (forall c :: c in Children(g.vertices, u) && c !in todo ==> c in level && level[c] <= level[u] + 1)
    && h.visited == Names(g.vertices, order)
  }

  lemma WalkExtend(g: Vertices, a: string, b: string, c: string, n: nat)
    requires WalkOfLen(g, a, b, n) && c in Children(g, b)
    ensures WalkOfLen(g, a, c, n + 1)
  {
    var p :| Walk(g, a, b, p) && |p| == n + 1;
    var p' := p + [c];
    assert Walk(g, a, c, p');
  }

  /** The facts of Common for the state after line 118. */
  lemma InitCommon(g: Graph, start: string)
    requires BfsPre(g, start)
    ensures Common(g, start, g.(discovered := {start}, visited := {}),
                   Enqueue(NewQueue<string>(g.size), start).0, [start], map[start := 0])
  {
    assert Elems([start]) == {start};
    assert Walk(g.vertices, start, start, [start]);
  }

  /** The state after line 118: the start discovered, levelled 0 and queued. */
  lemma BfsInit(g: Graph, start: string)
    requires BfsPre(g, start)
    ensures !IsFull(NewQueue<string>(g.size))
    ensures BfsInv(g, start, g.(discovered := {start}, visited := {}),
                   Enqueue(NewQueue<string>(g.size), start).0, [], map[start := 0])
  {
    InitCommon(g, start);
    var q := Enqueue(NewQueue<string>(g.size), start).0;
    assert [] + q.items == [start];
    assert Elems([]) == {};
    assert Names(g.vertices, []) == {};
  }

  /** Dequeuing the head starts the expansion of its children (lines 123-127). */
  lemma BfsDequeue(g: Graph, start: string, h: Graph, q: Queue<string>, order: seq<string>,
                   level: map<string, nat>)
    requires BfsInv(g, start, h, q, order, level)
    requires !IsEmpty(q)
    ensures q.items[0] in g.vertices
    ensures InnerInv(g, start, h, Dequeue(q).0, order, level, q.items[0],
                     g.vertices[q.items[0]].children)
  {
    var u := q.items[0];
    var q' := Dequeue(q).0;
    assert order + q.items == order + [u] + q'.items;
    assert (order + q.items)[|order|] == u;
    forall x | x in q'.items
      ensures x in level && level[x] <= level[u] + 1
    {
      assert x in q.items;
    }
  }

  /** An already discovered child is skipped (lines 128-130); it sits at most one level below. */
  lemma BfsSkip(g: Graph, start: string, h: Graph, q: Queue<string>, order: seq<string>,
                level: map<string, nat>, u: string, todo: set<string>, c: string)
    requires InnerInv(g, start, h, q, order, level, u, todo)
    requires c in todo && c in h.discovered
    ensures InnerInv(g, start, h, q, order, level, u, todo - {c})
  {
    var all := order + [u] + q.items;
    assert c in Elems(all);
    var k :| 0 <= k < |all| && all[k] == c;
    assert all[|order|] == u;
    if k <= |order| {
      assert level[c] <= level[u];
    } else {
      assert c in q.items;
    }
  }

  /** A new child is a vertex outside the discovered set, so the queue still has room for it. */
  lemma DiscoverRoom(g: Graph, start: string, h: Graph, q: Queue<string>, all: seq<string>,
                     level: map<string, nat>, c: string)
    requires Common(g, start, h, q, all, level)
    requires |q.items| <= |all|
    requires c in g.vertices && c !in h.discovered
    ensures |q.items| < q.capacity
    ensures |g.vertices.Keys - (h.discovered + {c})| + 1 == |g.vertices.Keys - h.discovered|
  {
    SubsetCard(h.discovered + {c}, g.vertices.Keys);
    assert g.vertices.Keys - h.discovered == (g.vertices.Keys - (h.discovered + {c})) + {c};
  }

  /** Appending a child levelled one below `u` keeps the levels non-decreasing. */
  lemma DiscoverLayered(level: map<string, nat>, all: seq<string>, k: nat, u: string, c: string)
    requires Layered(level, all) && k < |all| && all[k] == u && u in level
    requires forall i :: k < i < |all| ==> all[i] in level && level[all[i]] <= level[u] + 1
    requires c !in Elems(all)
    ensures Layered(level[c := level[u] + 1], all + [c])
  {
    var level' := level[c := level[u] + 1];
    var all' := all + [c];
    forall i, j | 0 <= i <= j < |all'| && all'[i] in level' && all'[j] in level'
      ensures level'[all'[i]] <= level'[all'[j]]
    {
      if j < |all| {
        assert all'[i] == all[i] && all'[j] == all[j];
        assert all[i] != c && all[j] != c;
      } else if i < j {
        assert all'[i] == all[i] && all[i] != c;
        if i <= k {
          assert level[all[i]] <= level[all[k]];
        }
      }
    }
  }

  /** The facts of `Common` survive discovering and queuing `c` as a child of `u`. */
  lemma DiscoverCommon(g: Graph, start: string, h: Graph, q: Queue<string>, all: seq<string>,
                       level: map<string, nat>, k: nat, u: string, c: string)
    requires Common(g, start, h, q, all, level)
    requires !IsFull(q)
    requires k < |all| && all[k] == u && u in level && c in Children(g.vertices, u)
    requires forall i :: k < i < |all| ==> all[i] in level && level[all[i]] <= level[u] + 1
    requires c in g.vertices && c !in h.discovered
    ensures Common(g, start, h.(discovered := h.discovered + {c}), Enqueue(q, c).0, all + [c],
                   level[c := level[u] + 1])
  {
    ElemsAppend(all, c);
    WalkExtend(g.vertices, start, u, c, level[u]);
    LevelledExtend(g.vertices, start, level, c, level[u] + 1);
    DiscoverLayered(level, all, k, u, c);
  }

  lemma LevelledExtend(g: Vertices, start: string, level: map<string, nat>, c: string, n: nat)
    requires Levelled(g, start, level) && WalkOfLen(g, start, c, n)
    ensures Levelled(g, start, level[c := n])
  {
  }

  /** InnerInv is the conjunction of these facts. */
  lemma InnerAssemble(g: Graph, start: string, h: Graph, q: Queue<string>, order: seq<string>,
                      level: map<string, nat>, u: string, todo: set<string>)
    requires Common(g, start, h, q, order + [u] + q.items, level)
    requires u in g.vertices && u in level
    requires forall x :: x in q.items ==> x in level && level[x] <= level[u] + 1
    requires Expanded(g.vertices, level, Elems(order))
    requires todo <= Children(g.vertices, u)
    requires forall c :: c in Children(g.vertices, u) && c !in todo ==> c in level && level[c] <= level[u] + 1
    requires h.visited == Names(g.vertices, order)
    ensures InnerInv(g, start, h, q, order, level, u, todo)
  {
  }

  /** The facts of InnerInv about `u`'s children and the queue, after discovering `c`. */
  lemma DiscoverLocal(g: Graph, start: string, h: Graph, q: Queue<string>, order: seq<string>,
                      level: map<string, nat>, u: string, todo: set<string>, c: string)
    requires InnerInv(g, start, h, q, order, level, u, todo)
    requires c in todo && c !in h.discovered
    ensures c in g.vertices && !IsFull(q) ==> Enqueue(q, c).0.items == q.items + [c]
    ensures forall x :: x in Children(g.vertices, u) && x !in todo - {c} ==>
      x in level[c := level[u] + 1] && level[c := level[u] + 1][x] <= level[c := level[u] + 1][u] + 1
    ensures todo - {c} <= Children(g.vertices, u)
    ensures !IsFull(q) ==> forall x :: x in Enqueue(q, c).0.items ==>
      x in level[c := level[u] + 1] && level[c := level[u] + 1][x] <= level[c := level[u] + 1][u] + 1
  {
  }

  /** A new child is discovered, levelled one below `u` and queued (lines 131-135); the queue has room. */
  lemma BfsDiscover(g: Graph, start: string, h: Graph, q: Queue<string>, order: seq<string>,
                    level: map<string, nat>, u: string, todo: set<string>, c: string)
    requires InnerInv(g, start, h, q, order, level, u, todo)
    requires c in todo && c !in h.discovered
    ensures !IsFull(q)
    ensures |g.vertices.Keys - (h.discovered + {c})| + 1 == |g.vertices.Keys - h.discovered|
    ensures InnerInv(g, start, h.(discovered := h.discovered + {c}), Enqueue(q, c).0, order,
                     level[c := level[u] + 1], u, todo - {c})
  {
    var all := order + [u] + q.items;
    DiscoverRoom(g, start, h, q, all, level, c);
    QueueAfter(order, u, q.items, level);
    DiscoverCommon(g, start, h, q, all, level, |order|, u, c);
    ExpandedExtend(g.vertices, level, Elems(order), c, level[u] + 1);
    DiscoverLocal(g, start, h, q, order, level, u, todo, c);
    var q' := Enqueue(q, c).0;
    AppendQueued(order, u, q.items, c);
    InnerAssemble(g, start, h.(discovered := h.discovered + {c}), q', order, level[c := level[u] + 1], u, todo - {c});
  }

  lemma AppendQueued(order: seq<string>, u: string, items: seq<string>, c: string)
    ensures order + [u] + (items + [c]) == order + [u] + items + [c]
  {
  }

  /** The queue's bound on levels, restated by position in the list of discovered vertices. */
  lemma QueueAfter(order: seq<string>, u: string, items: seq<string>, level: map<string, nat>)
    requires u in level
    requires forall x :: x in items ==> x in level && level[x] <= level[u] + 1
    ensures (order + [u] + items)[|order|] == u
    ensures forall i :: |order| < i < |order + [u] + items| ==>
      (order + [u] + items)[i] in level && level[(order + [u] + items)[i]] <= level[u] + 1
  {
    var all := order + [u] + items;
    forall i | |order| < i < |all|
      ensures all[i] in level && level[all[i]] <= level[u] + 1
    {
      assert all[i] == items[i - |order| - 1];
    }
  }

  /** Levelling a new vertex leaves the expansion facts about the others intact. */
  lemma ExpandedExtend(g: Vertices, level: map<string, nat>, done: set<string>, c: string, n: nat)
    requires Expanded(g, level, done) && c !in level
    ensures Expanded(g, level[c := n], done)
  {
  }

  /** After the children are handled, `u` is visited and marked by name (lines 137-138). */
  lemma BfsVisit(g: Graph, start: string, h: Graph, q: Queue<string>, order: seq<string>,
                 level: map<string, nat>, u: string)
    requires InnerInv(g, start, h, q, order, level, u, {})
    ensures BfsInv(g, start, h.(visited := h.visited + {g.vertices[u].name}), q, order + [u], level)
  {
    assert order + [u] + q.items == (order + [u]) + q.items;
    assert Elems(order + [u]) == Elems(order) + {u};
    assert Names(g.vertices, order + [u]) == Names(g.vertices, order) + {g.vertices[u].name};
    if |q.items| > 0 {
      var all := order + [u] + q.items;
      assert all[|order|] == u && all[|order| + 1] == q.items[0];
    }
  }

  /** Along a walk from the start, levels grow by at most one per edge. */
  lemma {:induction false} LevelBound(g: Vertices, start: string, level: map<string, nat>, b: string, p: seq<string>)
    requires Expanded(g, level, level.Keys)
    requires start in level && level[start] == 0
    requires Walk(g, start, b, p)
    ensures b in level && level[b] <= |p| - 1
    decreases |p|
  {
    if |p| > 1 {
      var p' := p[..|p| - 1];
      assert Walk(g, start, p'[|p'| - 1], p');
      LevelBound(g, start, level, p'[|p'| - 1], p');
    }
  }

  /** When the queue runs dry, every visited vertex is levelled at its distance and the visited set is closed. */
  lemma BfsExit(g: Graph, start: string, h: Graph, q: Queue<string>, order: seq<string>,
                level: map<string, nat>)
    requires BfsInv(g, start, h, q, order, level)
    requires IsEmpty(q)
    ensures SameStructure(g, h) && h.hasCycles == g.hasCycles
    ensures Distinct(order) && |order| > 0 && order[0] == start
    ensures forall v :: v in order <==> Reachable(g.vertices, start, v)
    ensures h.discovered == Elems(order) && h.visited == Names(g.vertices, order)
    ensures level.Keys == Elems(order)
    ensures forall v :: v in level ==> IsDistance(g.vertices, start, v, level[v])
    ensures Layered(level, order)
  {
    assert order + q.items == order;
    CardDistinct(order);
    var r := Elems(order);
    ClosedSetContainsReachable(g.vertices, r, start);
    forall v | v in order
      ensures Reachable(g.vertices, start, v)
    {
      assert WalkOfLen(g.vertices, start, v, level[v]);
    }
    forall v | v in level
      ensures IsDistance(g.vertices, start, v, level[v])
    {
      assert WalkOfLen(g.vertices, start, v, level[v]);
      forall p | Walk(g.vertices, start, v, p)
        ensures |p| >= level[v] + 1
      {
        LevelBound(g.vertices, start, level, v, p);
      }
    }
  }

  /**
   * The inner loop (lines 127-136): every undiscovered child of `u` is
   * discovered and queued. The traversal's progress measure does not grow.
   */
  method Expand(g: Graph, start: string, h: Graph, q: Queue<string>, order: seq<string>,
                ghost level: map<string, nat>, u: string)
    returns (h': Graph, q': Queue<string>, ghost level': map<string, nat>)
    requires u in g.vertices
    requires InnerInv(g, start, h, q, order, level, u, g.vertices[u].children)
    ensures InnerInv(g, start, h', q', order, level', u, {})
    ensures 2 * |g.vertices.Keys - h'.discovered| + |q'.items| <= 2 * |g.vertices.Keys - h.discovered| + |q.items|
  {
    h', q', level' := h, q, level;
    var todo := g.vertices[u].children;
    while todo != {}
      invariant InnerInv(g, start, h', q', order, level', u, todo)
      invariant 2 * |g.vertices.Keys - h'.discovered| + |q'.items| <= 2 * |g.vertices.Keys - h.discovered| + |q.items|
      decreases todo
    {
      var c :| c in todo;
      if c in h'.discovered {
        BfsSkip(g, start, h', q', order, level', u, todo, c);
        todo := todo - {c};
        continue;
      }
      BfsDiscover(g, start, h', q', order, level', u, todo, c);
      h' := h'.(discovered := h'.discovered + {c});
      var e := Enqueue(q', c);
      if e.1.Some? {
        assert false;
      }
      q' := e.0;
      level' := level'[c := level'[u] + 1];
      todo := todo - {c};
    }
  }

  /** One round of the outer loop (lines 123-138): dequeue a node, expand it, visit it. */
  method Step(g: Graph, start: string, h: Graph, q: Queue<string>, order: seq<string>,
              ghost level: map<string, nat>)
    returns (h': Graph, q': Queue<string>, order': seq<string>, ghost level': map<string, nat>)
    requires BfsInv(g, start, h, q, order, level)
    requires !IsEmpty(q)
    ensures BfsInv(g, start, h', q', order', level')
    ensures order' == order + [q.items[0]]
    ensures 2 * |g.vertices.Keys - h'.discovered| + |q'.items| < 2 * |g.vertices.Keys - h.discovered| + |q.items|
  {
    BfsDequeue(g, start, h, q, order, level);
    var d := Dequeue(q);
    if d.1.None? {
      assert false;
    }
    var u := d.1.value;
    h', q', level' := Expand(g, start, h, d.0, order, level, u);
    BfsVisit(g, start, h', q', order, level', u);
    order' := order + [u];
    h' := h'.(visited := h'.visited + {g.vertices[u].name});
  }

  /** Lines 111-121: a queue of capacity `Size`, the bookkeeping reset, the start discovered and queued. */
  method Start(g: Graph, start: string)
    returns (h: Graph, q: Queue<string>, order: seq<string>, ghost level: map<string, nat>)
    requires BfsPre(g, start)
    ensures BfsInv(g, start, h, q, order, level)
    ensures q.items == [start] && order == []
  {
    q := NewQueue<string>(g.size);
    h := g.(discovered := {start}, visited := {});
    BfsInit(g, start);
    var r := Enqueue(q, start);
    if r.1.Some? {
      assert false;
    }
    q := r.0;
    order := [];
    level := map[start := 0];
  }

  /**
   * `BFS` (lines 110-140) from `start`. The queue is created with the
   * graph's `Size` as capacity; both panics on a failed enqueue are shown
   * unreachable. The start is visited first, every vertex reachable from it
   * exactly once and no other, in order of non-decreasing distance; the
   * cycle flag is left as it was. The ghost result `level` gives each
   * visited vertex's distance from `start`.
   */
  method BFS(g: Graph, start: string) returns (h: Graph, order: seq<string>, ghost level: map<string, nat>)
    requires start in g.vertices && Closed(g) && g.size >= |g.vertices|
    ensures SameStructure(g, h) && h.hasCycles == g.hasCycles
    ensures Distinct(order) && |order| > 0 && order[0] == start
    ensures forall v :: v in order <==> Reachable(g.vertices, start, v)
    ensures h.discovered == Elems(order) && h.visited == Names(g.vertices, order)
    ensures level.Keys == Elems(order)
    ensures forall v :: v in level ==> IsDistance(g.vertices, start, v, level[v])
    ensures Layered(level, order)
  {
    var q;
    h, q, order, level := Start(g, start);
    while !IsEmpty(q)
      invariant BfsInv(g, start, h, q, order, level)
      decreases 2 * |g.vertices.Keys - h.discovered| + |q.items|
    {
      h, q, order, level := Step(g, start, h, q, order, level);
    }
    BfsExit(g, start, h, q, order, level);
  }
}
