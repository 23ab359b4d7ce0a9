/**
 * Depth-first traversal as written in graph/graph.go:73-107. The visit
 * callback becomes the returned sequence of visited vertex keys; the
 * iteration over a node's children, a Go map, is an arbitrary choice.
 *
 * As written, `dfs` never marks anything visited, so for both named kinds
 * every child that is already discovered sets the cycle flag and is skipped.
 * The flag is therefore set exactly when the part of the graph reachable from
 * the start is not an out-tree rooted at the start (see `IsOutTree`).
 */
module Dfs {
  import opened GraphModel

  ghost predicate AllReachable(g: Vertices, root: string, d: set<string>)
  {
    forall v :: v in d ==> Reachable(g, root, v)
  }

  /** Every child of a node in `s` lies in `d`. */
  predicate ChildrenWithin(g: Vertices, s: set<string>, d: set<string>)
  {
    forall v, c :: v in s && c in Children(g, v) ==> c in d
  }

  /**
   * Post-order on the traversal tree: every visited node but the last is a
   * child of some node visited after it (the node whose loop discovered it).
   */
  ghost predicate PostOrder(g: Vertices, s: seq<string>)
  {
    forall i :: 0 <= i < |s| - 1 ==> ParentAfter(g, s, i)
  }

  /** `s[i]` is a child of a node visited after it. */
  ghost predicate ParentAfter(g: Vertices, s: seq<string>, i: int)
    requires 0 <= i < |s|
  {
    exists j :: i < j < |s| && s[i] in Children(g, s[j])
  }

  /** The loop form of PostOrder: nodes not yet covered are children of the current node. */
  ghost predicate ParentsLater(g: Vertices, s: seq<string>, e: set<string>)
  {
    forall i :: 0 <= i < |s| ==> s[i] in e || ParentAfter(g, s, i)
  }

  /**
   * The reachable set `r` forms an out-tree rooted at `root`: no edge of `r`
   * leads back to the root and no vertex has two parents in `r`.
   */
  ghost predicate IsOutTree(g: Vertices, r: set<string>, root: string)
  {
    && (forall v :: v in r ==> root !in Children(g, v))
    && (forall v1, v2, c :: v1 in r && v2 in r && c in Children(g, v1) && c in Children(g, v2) ==> v1 == v2)
  }

  /**
   * Some node of `s` has a child that was discovered before the call started
   * (in `d0`), or two distinct nodes of `s` share a child: exactly the
   * situations in which a call of `dfs` meets an already discovered child.
   */
  ghost predicate Rediscovers(g: Vertices, s: set<string>, d0: set<string>)
  {
    || (exists v, c :: v in s && c in Children(g, v) && c in d0)
    || (exists v1, v2, c :: v1 in s && v2 in s && v1 != v2 && c in Children(g, v1) && c in Children(g, v2))
  }

  /** Rediscovers with the current node's examined children `e` kept apart from the finished nodes `f`. */
  ghost predicate Flagged(g: Vertices, f: set<string>, e: set<string>, d0: set<string>)
  {
    || Rediscovers(g, f, d0)
    || (exists c :: c in e && c in d0)
    || (exists c, v :: c in e && v in f && c in Children(g, v))
  }


  /** Discovering one more vertex shrinks the undiscovered part. */
  lemma Progress(keys: set<string>, d0: set<string>, d: set<string>, c: string)
    requires d0 <= d && c in keys && c !in d
    ensures |keys - (d + {c})| < |keys - d0|
  {
    SubsetCard(keys - (d + {c}), keys - d0);
    assert c in keys - d0;
  }

  /** Descending into an undiscovered child keeps every discovered vertex reachable from the root. */
  lemma DiscoverReachable(g: Vertices, root: string, d: set<string>, node: string, c: string)
    requires AllReachable(g, root, d) && node in d
    requires c in Children(g, node)
    ensures AllReachable(g, root, d + {c})
  {
    ReachableStep(g, root, node, c);
  }

  /** A child met for the second time makes the loop's cycle condition hold. */
  lemma FlagOnDiscovered(g: Vertices, s: seq<string>, e: set<string>, d0: set<string>, d: set<string>, c: string)
    requires Elems(s) == d - d0
    requires ParentsLater(g, s, e)
    requires c in d && c !in e
    ensures Flagged(g, Elems(s), e + {c}, d0)
  {
    if c !in d0 {
      assert c in Elems(s);
      var i :| 0 <= i < |s| && s[i] == c;
      var j :| i < j < |s| && s[i] in Children(g, s[j]);
      assert c in e + {c} && s[j] in Elems(s) && c in Children(g, s[j]);
    }
  }

  /** A rediscovery inside the child's call is one for the enclosing loop too. */
  lemma FlagFromCall(g: Vertices, f: set<string>, e: set<string>, d0: set<string>, d: set<string>,
                     c: string, f2: set<string>)
    requires f == d - d0 && d0 <= d
    requires e <= d && c !in d
    requires forall x :: x in f ==> x in e || exists v :: v in f && x in Children(g, v)
    requires f2 !! d
    requires Rediscovers(g, f2, d + {c})
    ensures Flagged(g, f + f2, e + {c}, d0)
  {
    var F := f + f2;
    var E := e + {c};
    if v, x :| v in f2 && x in Children(g, v) && x in d + {c} {
      if x in d0 {
        assert Rediscovers(g, F, d0);
      } else if x == c || x in e {
        assert x in E && v in F && x in Children(g, v);
      } else {
        assert x in f;
        var w :| w in f && x in Children(g, w);
        assert v != w;
        assert Rediscovers(g, F, d0);
      }
    } else {
      var v1, v2, x :| v1 in f2 && v2 in f2 && v1 != v2 && x in Children(g, v1) && x in Children(g, v2);
      assert Rediscovers(g, F, d0);
    }
  }

  /** The loop's cycle condition only grows with the sets it ranges over. */
  lemma FlagMonotone(g: Vertices, f: set<string>, e: set<string>, d0: set<string>, F: set<string>, E: set<string>)
    requires f <= F && e <= E
    requires Flagged(g, f, e, d0)
    ensures Flagged(g, F, E, d0)
  {
    if v, x :| v in f && x in Children(g, v) && x in d0 {
      assert Rediscovers(g, F, d0);
    } else if v1, v2, x :| v1 in f && v2 in f && v1 != v2 && x in Children(g, v1) && x in Children(g, v2) {
      assert Rediscovers(g, F, d0);
    } else if x :| x in e && x in d0 {
      assert x in E;
    } else {
      var x, v :| x in e && v in f && x in Children(g, v);
      assert x in E && v in F;
    }
  }

  /** A rediscovery over the larger sets was one before the call or one inside it. */
  lemma FlagSplit(g: Vertices, f: set<string>, e: set<string>, d0: set<string>, d: set<string>,
                  c: string, f2: set<string>)
    requires f == d - d0 && d0 <= d
    requires e <= d && c !in d
    requires ChildrenWithin(g, f, d)
    requires c in f2 && f2 !! d
    requires Flagged(g, f + f2, e + {c}, d0)
    ensures Flagged(g, f, e, d0) || Rediscovers(g, f2, d + {c})
  {
    var F := f + f2;
    var E := e + {c};
    if v, x :| v in F && x in Children(g, v) && x in d0 {
      if v in f2 {
        assert Rediscovers(g, f2, d + {c});
      } else {
        assert Rediscovers(g, f, d0);
      }
    } else if v1, v2, x :| v1 in F && v2 in F && v1 != v2 && x in Children(g, v1) && x in Children(g, v2) {
      if v1 in f && v2 in f {
        assert Rediscovers(g, f, d0);
      } else if v1 in f2 && v2 in f2 {
        assert Rediscovers(g, f2, d + {c});
      } else if v1 in f {
        assert v2 in f2 && x in Children(g, v2) && x in d + {c};
      } else {
        assert v1 in f2 && x in Children(g, v1) && x in d + {c};
      }
    } else if x :| x in E && x in d0 {
      assert x in e;
    } else {
      var x, v :| x in E && v in F && x in Children(g, v);
      if v in f2 {
        assert x in d + {c};
      } else if x == c {
        assert false;
      } else {
        assert Flagged(g, f, e, d0);
      }
    }
  }

  /**
   * After descending into child `c`, whose call finished the nodes `f2`, the
   * loop's cycle condition over the larger sets is the old one or the call's.
   */
  lemma FlagAfterDescend(g: Vertices, f: set<string>, e: set<string>, d0: set<string>, d: set<string>,
                         c: string, f2: set<string>)
    requires f == d - d0 && d0 <= d
    requires e <= d && c !in d
    requires ChildrenWithin(g, f, d)
    requires forall x :: x in f ==> x in e || exists v :: v in f && x in Children(g, v)
    requires c in f2 && f2 !! d
    ensures Flagged(g, f + f2, e + {c}, d0)
        <==> Flagged(g, f, e, d0) || Rediscovers(g, f2, d + {c})
  {
    if Rediscovers(g, f2, d + {c}) {
      FlagFromCall(g, f, e, d0, d, c, f2);
    }
    if Flagged(g, f, e, d0) {
      FlagMonotone(g, f, e, d0, f + f2, e + {c});
    }
    if Flagged(g, f + f2, e + {c}, d0) {
      FlagSplit(g, f, e, d0, d, c, f2);
    }
  }

  /** Once every child of `node` has been examined, the loop's condition is Rediscovers over all finished nodes. */
  lemma FlagComplete(g: Vertices, f: set<string>, node: string, d0: set<string>)
    requires node in d0 && node !in f
    ensures Flagged(g, f, Children(g, node), d0) <==> Rediscovers(g, f + {node}, d0)
  {
    var e := Children(g, node);
    var F := f + {node};
    if Flagged(g, f, e, d0) {
      if Rediscovers(g, f, d0) {
        if v, x :| v in f && x in Children(g, v) && x in d0 {
          assert v in F;
        } else {
          var v1, v2, x :| v1 in f && v2 in f && v1 != v2 && x in Children(g, v1) && x in Children(g, v2);
          assert v1 in F && v2 in F;
        }
      } else if x :| x in e && x in d0 {
        assert node in F && x in Children(g, node);
      } else {
        var x, v :| x in e && v in f && x in Children(g, v);
        assert v != node && v in F && node in F;
      }
    }
    if Rediscovers(g, F, d0) {
      if v, x :| v in F && x in Children(g, v) && x in d0 {
        if v == node {
          assert x in e;
        } else {
          assert Rediscovers(g, f, d0);
        }
      } else {
        var v1, v2, x :| v1 in F && v2 in F && v1 != v2 && x in Children(g, v1) && x in Children(g, v2);
        if v1 == node {
          assert x in e && v2 in f;
        } else if v2 == node {
          assert x in e && v1 in f;
        } else {
          assert Rediscovers(g, f, d0);
        }
      }
    }
  }

  /** The visit sequence after one more descent still satisfies the loop's ordering facts. */
  lemma AppendCall(g: Vertices, s: seq<string>, e: set<string>, c: string, sub: seq<string>)
    requires ParentsLater(g, s, e)
    requires |sub| > 0 && sub[|sub| - 1] == c && PostOrder(g, sub)
    ensures ParentsLater(g, s + sub, e + {c})
  {
    var t := s + sub;
    forall i | 0 <= i < |t|
      ensures t[i] in e + {c} || ParentAfter(g, t, i)
    {
      if i < |s| {
        assert t[i] == s[i];
        if s[i] !in e {
          var j :| i < j < |s| && s[i] in Children(g, s[j]);
          assert t[j] == s[j];
        }
      } else if i == |t| - 1 {
        assert t[i] == c;
      } else {
        var k := i - |s|;
        assert t[i] == sub[k];
        assert ParentAfter(g, sub, k);
        var j :| k < j < |sub| && sub[k] in Children(g, sub[j]);
        assert t[j + |s|] == sub[j];
      }
    }
  }

  /** Closing the loop: appending the node itself turns ParentsLater into PostOrder. */
  lemma FinishNode(g: Vertices, s: seq<string>, node: string)
    requires ParentsLater(g, s, Children(g, node))
    requires Distinct(s) && node !in Elems(s)
    ensures Distinct(s + [node])
    ensures PostOrder(g, s + [node])
    ensures Elems(s + [node]) == Elems(s) + {node}
  {
    var t := s + [node];
    forall i | 0 <= i < |t| - 1
      ensures ParentAfter(g, t, i)
    {
      assert t[i] == s[i];
      if s[i] in Children(g, node) {
        assert t[|s|] == node;
        assert i < |s| < |t| && t[i] in Children(g, t[|s|]);
      } else {
        var j :| i < j < |s| && s[i] in Children(g, s[j]);
        assert t[j] == s[j];
      }
    }
  }

  /** ParentsLater read as a statement about sets. */
  lemma ParentsLaterSets(g: Vertices, s: seq<string>, e: set<string>)
    requires ParentsLater(g, s, e)
    ensures forall x :: x in Elems(s) ==> x in e || exists v :: v in Elems(s) && x in Children(g, v)
  {
    forall x | x in Elems(s) && x !in e
      ensures exists v :: v in Elems(s) && x in Children(g, v)
    {
      var i :| 0 <= i < |s| && s[i] == x;
      var j :| i < j < |s| && s[i] in Children(g, s[j]);
      assert s[j] in Elems(s);
    }
  }

  /**
   * Every edge from a node to one visited after it is a back edge: the later
   * node reaches the earlier one, as an ancestor whose call was still open
   * when the edge was examined.
   */
  ghost predicate BackEdges(g: Vertices, s: seq<string>)
  {
    forall i, j :: 0 <= i < j < |s| && s[j] in Children(g, s[i]) ==> Reachable(g, s[j], s[i])
  }

  /** The nodes of a later call are undiscovered when an earlier node finished, so no edge joins them forwards. */
  lemma BackEdgesAppend(g: Vertices, s: seq<string>, sub: seq<string>, d: set<string>)
    requires BackEdges(g, s) && BackEdges(g, sub)
    requires ChildrenWithin(g, Elems(s), d) && Elems(sub) !! d
    ensures BackEdges(g, s + sub)
  {
    var t := s + sub;
    forall i, j | 0 <= i < |s| <= j < |t|
      ensures t[j] !in Children(g, t[i])
    {
      assert t[i] == s[i] && s[i] in Elems(s);
      assert t[j] == sub[j - |s|] && t[j] in Elems(sub);
    }
    forall i, j | 0 <= i < j < |t| && t[j] in Children(g, t[i])
      ensures Reachable(g, t[j], t[i])
    {
      if j < |s| {
        assert t[i] == s[i] && t[j] == s[j];
      } else if i >= |s| {
        assert t[i] == sub[i - |s|] && t[j] == sub[j - |s|];
      }
    }
  }

  /** The node of a call is visited last, and it reaches everything its call visited. */
  lemma BackEdgesFinish(g: Vertices, s: seq<string>, node: string)
    requires BackEdges(g, s) && AllReachable(g, node, Elems(s))
    ensures BackEdges(g, s + [node])
  {
    var t := s + [node];
    forall i, j | 0 <= i < j < |t| && t[j] in Children(g, t[i])
      ensures Reachable(g, t[j], t[i])
    {
      assert t[i] == s[i] && s[i] in Elems(s);
      if j < |s| {
        assert t[j] == s[j];
      }
    }
  }

  /** What a child's call reaches, its parent reaches too. */
  lemma ReachedThrough(g: Vertices, node: string, c: string, r: set<string>)
    requires c in Children(g, node) && AllReachable(g, c, r)
    ensures AllReachable(g, node, r)
  {
    ReachableRefl(g, node);
    ReachableStep(g, node, node, c);
    forall v | v in r
      ensures Reachable(g, node, v)
    {
      ReachableTrans(g, node, c, v);
    }
  }

  /** The ordering facts the loop keeps after a descent into `c`, whose call visited `sub`. */
  lemma DescendOrder(g: Vertices, node: string, s: seq<string>, d: set<string>, c: string, sub: seq<string>)
    requires BackEdges(g, s) && AllReachable(g, node, Elems(s))
    requires ChildrenWithin(g, Elems(s), d) && Elems(sub) !! d
    requires c in Children(g, node)
    requires BackEdges(g, sub) && AllReachable(g, c, Elems(sub))
    ensures BackEdges(g, s + sub)
    ensures AllReachable(g, node, Elems(s + sub))
  {
    BackEdgesAppend(g, s, sub, d);
    ReachedThrough(g, node, c, Elems(sub));
    assert Elems(s + sub) == Elems(s) + Elems(sub);
  }

  /** The ordering facts of a finished call. */
  lemma FinishOrder(g: Vertices, node: string, s: seq<string>)
    requires BackEdges(g, s) && AllReachable(g, node, Elems(s))
    ensures BackEdges(g, s + [node])
    ensures AllReachable(g, node, Elems(s + [node]))
  {
    BackEdgesFinish(g, s, node);
    ReachableRefl(g, node);
    assert Elems(s + [node]) == Elems(s) + {node};
  }

  /**
   * `up` is the discovery tree of a finished call that visited `s`, by
   * position: `s[up[i]]` is the node whose loop discovered `s[i]`, so `s[i]`
   * is its child and is visited before it. The last node, the call's own, has
   * no parent. Calls nest: a node visited between `s[i]` and its parent has
   * its own parent no later than that parent, so every call's visits form one
   * contiguous block ending at the call's node. An edge to a node visited
   * later leads to an ancestor.
   */
  ghost predicate DiscoveryTree(g: Vertices, s: seq<string>, up: seq<int>)
  {
    && |up| + 1 == |s|
    && (forall i :: 0 <= i < |up| ==> i < up[i] < |s| && s[i] in Children(g, s[up[i]]))
    && (forall i, j :: 0 <= i < j < |up| && j < up[i] ==> up[j] <= up[i])
    && EdgesToAncestors(g, s, up)
  }

  /**
   * In the tree of parent positions `up`, the node at `j` is an ancestor of
   * the node at `i`: every node from `i` up to `j` has its parent in the tree
   * and no later than `j`, so climbing from `i` reaches `j`.
   */
  ghost predicate Ancestor(up: seq<int>, i: int, j: int)
    requires 0 <= i <= j <= |up|
  {
    forall m :: i <= m < j ==> 0 <= up[m] <= j
  }

  /**
   * Every edge from a node to one visited after it leads to an ancestor: a
   * child still undiscovered when the edge was examined would have had its
   * call, and its visit, first, so the child's own call was still open.
   */
  ghost predicate EdgesToAncestors(g: Vertices, s: seq<string>, up: seq<int>)
    requires |s| <= |up| + 1
  {
    forall i, j :: 0 <= i < j < |s| && s[j] in Children(g, s[i]) ==> Ancestor(up, i, j)
  }

  /** The parent of the node at position `i` in a discovery tree, and the nesting of the arcs over it. */
  lemma TreeParent(g: Vertices, s: seq<string>, up: seq<int>, i: int)
    requires DiscoveryTree(g, s, up) && 0 <= i < |up|
    ensures i < up[i] < |s| && s[i] in Children(g, s[up[i]])
    ensures forall j :: i < j < up[i] ==> up[j] <= up[i]
  {
  }

  /** An edge from position `i` to the later position `j` climbs the tree from `i` to `j`. */
  lemma TreeAncestor(g: Vertices, s: seq<string>, up: seq<int>, i: int, j: int)
    requires DiscoveryTree(g, s, up) && 0 <= i < j < |s| && s[j] in Children(g, s[i])
    ensures forall m :: i <= m < j ==> 0 <= up[m] <= j
  {
  }

  /** The visit order comes from depth-first calls: some discovery tree explains it. */
  ghost predicate DepthFirst(g: Vertices, s: seq<string>)
  {
    exists up :: DiscoveryTree(g, s, up)
  }

  /**
   * The discovery tree while `node`'s loop runs: a parent of -1 stands for
   * `node` itself, which is visited after everything in `s`.
   */
  ghost predicate OpenTree(g: Vertices, node: string, s: seq<string>, up: seq<int>)
  {
    && |up| == |s|
    && (forall i :: 0 <= i < |s| ==>
          if up[i] == -1 then s[i] in Children(g, node) else i < up[i] < |s| && s[i] in Children(g, s[up[i]]))
    && (forall i, j :: 0 <= i < j < |s| && up[i] != -1 && j < up[i] ==> up[j] != -1 && up[j] <= up[i])
    && EdgesToAncestors(g, s, up)
  }

  /** A finished child call's tree, moved to start at position `n`, its root's parent being `node` (-1). */
  ghost function Graft(up: seq<int>, n: int): (r: seq<int>)
    ensures |r| == |up| + 1 && r[|up|] == -1
    ensures forall k :: 0 <= k < |up| ==> r[k] == up[k] + n
  {
    seq(|up|, k requires 0 <= k < |up| => up[k] + n) + [-1]
  }

  /** The loop's tree once `node` is appended at position `n`. */
  ghost function Close(up: seq<int>, n: int): (r: seq<int>)
    ensures |r| == |up|
    ensures forall i :: 0 <= i < |up| ==> r[i] == if up[i] == -1 then n else up[i]
  {
    seq(|up|, i requires 0 <= i < |up| => if up[i] == -1 then n else up[i])
  }

  /**
   * Appending a finished child call that visited `sub`: its nodes were
   * undiscovered (outside `d`) while every child of the nodes in `s` was
   * discovered.
   */
  lemma TreeAppend(g: Vertices, node: string, s: seq<string>, up: seq<int>, sub: seq<string>, subUp: seq<int>,
                   d: set<string>)
    requires OpenTree(g, node, s, up)
    requires DiscoveryTree(g, sub, subUp) && sub[|sub| - 1] in Children(g, node)
    requires ChildrenWithin(g, Elems(s), d) && Elems(sub) !! d
    ensures OpenTree(g, node, s + sub, up + Graft(subUp, |s|))
  {
    AppendParents(g, node, s, up, sub, subUp);
    AppendNested(s, up, subUp);
    AppendAncestors(g, s, up, sub, subUp, d);
  }

  /** No edge leads from `s` forwards into the appended call, and edges inside either part keep their ancestors. */
  lemma AppendAncestors(g: Vertices, s: seq<string>, up: seq<int>, sub: seq<string>, subUp: seq<int>, d: set<string>)
    requires |up| == |s| && EdgesToAncestors(g, s, up)
    requires |subUp| + 1 == |sub| && EdgesToAncestors(g, sub, subUp)
    requires ChildrenWithin(g, Elems(s), d) && Elems(sub) !! d
    ensures EdgesToAncestors(g, s + sub, up + Graft(subUp, |s|))
  {
    var t, tu := s + sub, up + Graft(subUp, |s|);
    forall i, j | 0 <= i < |s| <= j < |t|
      ensures t[j] !in Children(g, t[i])
    {
      assert t[i] == s[i] && s[i] in Elems(s);
      assert t[j] == sub[j - |s|] && t[j] in Elems(sub);
    }
    forall i, j | 0 <= i < j < |t| && t[j] in Children(g, t[i])
      ensures Ancestor(tu, i, j)
    {
      if j < |s| {
        assert t[i] == s[i] && t[j] == s[j];
        assert Ancestor(up, i, j);
        forall m | i <= m < j
          ensures 0 <= tu[m] <= j
        {
          assert tu[m] == up[m];
        }
      } else if i >= |s| {
        assert t[i] == sub[i - |s|] && t[j] == sub[j - |s|];
        assert Ancestor(subUp, i - |s|, j - |s|);
        forall m | i <= m < j
          ensures 0 <= tu[m] <= j
        {
          assert tu[m] == subUp[m - |s|] + |s|;
        }
      }
    }
  }

  lemma AppendParents(g: Vertices, node: string, s: seq<string>, up: seq<int>, sub: seq<string>, subUp: seq<int>)
    requires OpenTree(g, node, s, up)
    requires DiscoveryTree(g, sub, subUp) && sub[|sub| - 1] in Children(g, node)
    ensures var t, tu := s + sub, up + Graft(subUp, |s|);
            && |tu| == |t|
            && forall i :: 0 <= i < |t| ==>
                 if tu[i] == -1 then t[i] in Children(g, node) else i < tu[i] < |t| && t[i] in Children(g, t[tu[i]])
  {
    var t, tu := s + sub, up + Graft(subUp, |s|);
    forall i | 0 <= i < |t|
      ensures if tu[i] == -1 then t[i] in Children(g, node) else i < tu[i] < |t| && t[i] in Children(g, t[tu[i]])
    {
      if i < |s| {
        assert t[i] == s[i] && tu[i] == up[i];
        if up[i] != -1 {
          assert t[up[i]] == s[up[i]];
        }
      } else {
        var k := i - |s|;
        assert t[i] == sub[k];
        if k < |subUp| {
          assert tu[i] == subUp[k] + |s| && t[tu[i]] == sub[subUp[k]];
        }
      }
    }
  }

  lemma AppendNested(s: seq<string>, up: seq<int>, subUp: seq<int>)
    requires |up| == |s|
    requires forall i :: 0 <= i < |s| && up[i] != -1 ==> i < up[i] < |s|
    requires forall i, j :: 0 <= i < j < |s| && up[i] != -1 && j < up[i] ==> up[j] != -1 && up[j] <= up[i]
    requires forall i :: 0 <= i < |subUp| ==> i < subUp[i] <= |subUp|
    requires forall i, j :: 0 <= i < j < |subUp| && j < subUp[i] ==> subUp[j] <= subUp[i]
    ensures var tu := up + Graft(subUp, |s|);
            forall i, j :: 0 <= i < j < |tu| && tu[i] != -1 && j < tu[i] ==> tu[j] != -1 && tu[j] <= tu[i]
  {
    var tu := up + Graft(subUp, |s|);
    forall i, j | 0 <= i < j < |tu| && tu[i] != -1 && j < tu[i]
      ensures tu[j] != -1 && tu[j] <= tu[i]
    {
      if i < |s| {
        assert tu[i] == up[i];
        assert tu[j] == up[j];
      } else {
        assert tu[i] == subUp[i - |s|] + |s|;
        assert tu[j] == subUp[j - |s|] + |s|;
      }
    }
  }

  lemma TreeClose(g: Vertices, node: string, s: seq<string>, up: seq<int>)
    requires OpenTree(g, node, s, up)
    ensures DiscoveryTree(g, s + [node], Close(up, |s|))
  {
    var t, tu := s + [node], Close(up, |s|);
    forall i | 0 <= i < |tu|
      ensures i < tu[i] < |t| && t[i] in Children(g, t[tu[i]])
    {
      assert t[i] == s[i];
      if up[i] != -1 {
        assert t[up[i]] == s[up[i]];
      }
    }
    forall i, j | 0 <= i < j < |t| && t[j] in Children(g, t[i])
      ensures Ancestor(tu, i, j)
    {
      if j < |s| {
        assert t[i] == s[i] && t[j] == s[j];
        assert Ancestor(up, i, j);
      }
    }
  }

  /** What `dfs` may assume on entry: a closed graph of a named kind, `node` discovered, nothing visited. */
  ghost predicate DfsPre(g: Graph, node: string, root: string)
  {
    && Closed(g) && (g.kind == Directed || g.kind == Undirected)
    && g.visited == {}
    && node in g.discovered && g.discovered <= g.vertices.Keys
    && AllReachable(g.vertices, root, g.discovered)
  }

  /**
   * What one call of `dfs` on `node` achieves, from bookkeeping `g` to `h`,
   * visiting `s`: the nodes it visits are `node` (last) and exactly the ones
   * it discovers, each once, in post-order; every child of a visited node is
   * discovered; the cycle flag is raised exactly when the call meets a child
   * that is already discovered.
   */
  ghost predicate DfsPost(g: Graph, node: string, root: string, h: Graph, s: seq<string>)
  {
    && SameStructure(g, h) && h.visited == {}
    && g.discovered <= h.discovered <= g.vertices.Keys
    && AllReachable(g.vertices, root, h.discovered)
    && |s| > 0 && s[|s| - 1] == node && Distinct(s)
    && Elems(s) == h.discovered - g.discovered + {node}
    && PostOrder(g.vertices, s)
    && BackEdges(g.vertices, s) && AllReachable(g.vertices, node, Elems(s))
    && ChildrenWithin(g.vertices, Elems(s), h.discovered)
    && h.hasCycles == (g.hasCycles || Rediscovers(g.vertices, Elems(s), g.discovered))
  }

  /** The invariant of the loop over `node`'s children; `examined` are the children already handled. */
  ghost predicate LoopInv(g: Graph, node: string, root: string, h: Graph, s: seq<string>,
                          examined: set<string>, todo: set<string>)
  {
    && DfsPre(g, node, root)
    && SameStructure(g, h) && h.visited == {}
    && g.discovered <= h.discovered <= g.vertices.Keys
    && AllReachable(g.vertices, root, h.discovered)
    && todo == Children(g.vertices, node) - examined && examined <= Children(g.vertices, node)
    && examined <= h.discovered
    && Distinct(s) && Elems(s) == h.discovered - g.discovered
    && ParentsLater(g.vertices, s, examined)
    && BackEdges(g.vertices, s) && AllReachable(g.vertices, node, Elems(s))
    && ChildrenWithin(g.vertices, Elems(s), h.discovered)
    && h.hasCycles == (g.hasCycles || Flagged(g.vertices, Elems(s), examined, g.discovered))
  }

  lemma LoopInit(g: Graph, node: string, root: string)
    requires DfsPre(g, node, root)
    ensures node in g.vertices
    ensures LoopInv(g, node, root, g, [], {}, g.vertices[node].children)
  {
    assert Elems([]) == {};
  }

  /** A child that is already discovered: the flag is raised and the child skipped (lines 88-100). */
  lemma LoopRediscover(g: Graph, node: string, root: string, h: Graph, s: seq<string>,
                       examined: set<string>, todo: set<string>, child: string)
    requires LoopInv(g, node, root, h, s, examined, todo)
    requires child in todo && child in h.discovered
    ensures LoopInv(g, node, root, h.(hasCycles := true), s, examined + {child}, todo - {child})
  {
    FlagOnDiscovered(g.vertices, s, examined, g.discovered, h.discovered, child);
  }

  /** An undiscovered child: marking it discovered sets up the recursive call (lines 102-104). */
  lemma LoopDescendPre(g: Graph, node: string, root: string, h: Graph, s: seq<string>,
                       examined: set<string>, todo: set<string>, child: string)
    requires LoopInv(g, node, root, h, s, examined, todo)
    requires child in todo && child !in h.discovered
    ensures DfsPre(h.(discovered := h.discovered + {child}), child, root)
    ensures |h.vertices.Keys - (h.discovered + {child})| < |g.vertices.Keys - g.discovered|
  {
    DiscoverReachable(g.vertices, root, h.discovered, node, child);
    Progress(g.vertices.Keys, g.discovered, h.discovered, child);
  }

  lemma LoopDescendPost(g: Graph, node: string, root: string, h: Graph, s: seq<string>,
                        examined: set<string>, todo: set<string>, child: string, h2: Graph, sub: seq<string>)
    requires LoopInv(g, node, root, h, s, examined, todo)
    requires child in todo && child !in h.discovered
    requires DfsPost(h.(discovered := h.discovered + {child}), child, root, h2, sub)
    ensures LoopInv(g, node, root, h2, s + sub, examined + {child}, todo - {child})
    ensures ChildrenWithin(g.vertices, Elems(s), h.discovered) && Elems(sub) !! h.discovered
  {
    ParentsLaterSets(g.vertices, s, examined);
    FlagAfterDescend(g.vertices, Elems(s), examined, g.discovered, h.discovered, child, Elems(sub));
    DistinctAppend(s, sub);
    AppendCall(g.vertices, s, examined, child, sub);
    DescendOrder(g.vertices, node, s, h.discovered, child, sub);
  }

  lemma LoopExit(g: Graph, node: string, root: string, h: Graph, s: seq<string>, examined: set<string>)
    requires LoopInv(g, node, root, h, s, examined, {})
    ensures DfsPost(g, node, root, h, s + [node])
  {
    forall x | x in Children(g.vertices, node)
      ensures x in examined
    {
      assert x !in Children(g.vertices, node) - examined;
    }
    assert examined == Children(g.vertices, node);
    FlagComplete(g.vertices, Elems(s), node, g.discovered);
    FinishNode(g.vertices, s, node);
    FinishOrder(g.vertices, node, s);
  }

  /**
   * The recursive `dfs` (lines 86-107) on `node`, already discovered. It
   * returns the graph with its bookkeeping updated and the nodes it passed
   * to `visit`, in order. `root` is the start of the whole traversal.
   */
  method DfsFrom(g: Graph, node: string, ghost root: string) returns (h: Graph, s: seq<string>, ghost up: seq<int>)
    requires DfsPre(g, node, root)
    ensures DfsPost(g, node, root, h, s)
    ensures DiscoveryTree(g.vertices, s, up)
    decreases |g.vertices.Keys - g.discovered|
  {
    LoopInit(g, node, root);
    h := g;
    s := [];
    var todo := g.vertices[node].children;
    ghost var examined: set<string> := {};
    ghost var open: seq<int> := [];
    while todo != {}
      invariant LoopInv(g, node, root, h, s, examined, todo)
      invariant OpenTree(g.vertices, node, s, open)
      decreases todo
    {
      var child :| child in todo;
      if child in h.discovered {
        if h.kind == Undirected {
          LoopRediscover(g, node, root, h, s, examined, todo, child);
          h := h.(hasCycles := true);
          examined := examined + {child};
          todo := todo - {child};
          continue;
        }
        if h.kind == Directed && child !in h.visited {
          LoopRediscover(g, node, root, h, s, examined, todo, child);
          h := h.(hasCycles := true);
          examined := examined + {child};
          todo := todo - {child};
          continue;
        }
      }
      LoopDescendPre(g, node, root, h, s, examined, todo, child);
      var h2, sub, subUp := DfsFrom(h.(discovered := h.discovered + {child}), child, root);
      LoopDescendPost(g, node, root, h, s, examined, todo, child, h2, sub);
      TreeAppend(g.vertices, node, s, open, sub, subUp, h.discovered);
      open := open + Graft(subUp, |s|);
      h := h2;
      s := s + sub;
      examined := examined + {child};
      todo := todo - {child};
    }
    LoopExit(g, node, root, h, s, examined);
    TreeClose(g.vertices, node, s, open);
    up := Close(open, |s|);
    s := s + [node];
  }

  /**
   * The bookkeeping `DFS` sets up before calling `dfs` (lines 75-80): fresh
   * sets with only `start` discovered. On a closed graph of a named kind
   * holding `start`, that is a valid entry state for `dfs` from `start`.
   */
  function StartState(g: Graph, start: string): (r: Graph)
    ensures SameStructure(g, r) && r.hasCycles == g.hasCycles
    ensures r.discovered == {start} && r.visited == {}
    ensures start in g.vertices && Closed(g) && (g.kind == Directed || g.kind == Undirected) ==> DfsPre(r, start, start)
  {
    ReachableRefl(g.vertices, start);
    g.(discovered := {start}, visited := {})
  }

  /** The reachable set is an out-tree exactly when no node meets an already discovered child. */
  lemma OutTreeIffQuiet(g: Vertices, r: set<string>, root: string)
    requires root in r
    ensures Rediscovers(g, r, {root}) <==> !IsOutTree(g, r, root)
  {
  }

  lemma DfsResult(g: Graph, start: string, h: Graph, order: seq<string>)
    requires start in g.vertices
    requires DfsPost(StartState(g, start), start, start, h, order)
    ensures SameStructure(g, h) && h.visited == {} && h.discovered == Elems(order)
    ensures Distinct(order) && |order| > 0 && order[|order| - 1] == start
    ensures forall v :: v in order <==> Reachable(g.vertices, start, v)
    ensures PostOrder(g.vertices, order) && BackEdges(g.vertices, order)
    ensures h.hasCycles == (g.hasCycles || !IsOutTree(g.vertices, Elems(order), start))
  {
    var r := Elems(order);
    assert start in r;
    ClosedSetContainsReachable(g.vertices, r, start);
    OutTreeIffQuiet(g.vertices, r, start);
  }

  /**
   * `DFS` (lines 74-82) from `start`, which must be a vertex (the source
   * panics otherwise). Every vertex reachable from `start` is visited exactly
   * once, and no other; the visit order is a post-order ending at `start`.
   * The cycle flag is never cleared: it becomes true exactly when the
   * reachable part is not an out-tree rooted at `start`.
   */
  method DFS(g: Graph, start: string) returns (h: Graph, order: seq<string>)
    requires start in g.vertices
    requires Closed(g) && (g.kind == Directed || g.kind == Undirected)
    ensures SameStructure(g, h) && h.visited == {} && h.discovered == Elems(order)
    ensures Distinct(order) && |order| > 0 && order[|order| - 1] == start
    ensures forall v :: v in order <==> Reachable(g.vertices, start, v)
    ensures PostOrder(g.vertices, order) && BackEdges(g.vertices, order) && DepthFirst(g.vertices, order)
    ensures h.hasCycles == (g.hasCycles || !IsOutTree(g.vertices, Elems(order), start))
  {
    var g0 := StartState(g, start);
    ghost var up;
    h, order, up := DfsFrom(g0, start, start);
    DfsResult(g, start, h, order);
  }

  /** The positions of a sequence without repetitions. */
  ghost function Positions(s: seq<string>): (r: map<string, nat>)
    requires Distinct(s)
    ensures r.Keys == Elems(s)
    ensures forall i :: 0 <= i < |s| ==> s[i] in r && r[s[i]] == i
  {
    map i | 0 <= i < |s| :: s[i] := i
  }

  /**
   * When the visited set is an out-tree, a post-order visits every child
   * strictly before its parent: the order is a reverse topological order.
   */
  lemma ChildrenFirst(g: Vertices, order: seq<string>, root: string)
    requires Distinct(order) && |order| > 0 && order[|order| - 1] == root
    requires PostOrder(g, order)
    requires IsOutTree(g, Elems(order), root)
    ensures forall i, j :: 0 <= i < |order| && 0 <= j < |order| && order[i] in Children(g, order[j]) ==> i < j
  {
    forall i, j | 0 <= i < |order| && 0 <= j < |order| && order[i] in Children(g, order[j])
      ensures i < j
    {
      assert order[j] in Elems(order);
      assert i < |order| - 1;
      assert ParentAfter(g, order, i);
      var k :| i < k < |order| && order[i] in Children(g, order[k]);
      assert order[k] in Elems(order);
    }
  }

  /** The positions of an out-tree post-order decrease along every edge. */
  lemma PositionsRank(g: Vertices, order: seq<string>, root: string)
    requires Distinct(order) && |order| > 0 && order[|order| - 1] == root
    requires PostOrder(g, order)
    requires IsOutTree(g, Elems(order), root)
    requires ChildrenWithin(g, Elems(order), Elems(order))
    ensures forall v, w :: v in Positions(order) && w in Children(g, v) ==>
      w in Positions(order) && Positions(order)[w] < Positions(order)[v]
  {
    ChildrenFirst(g, order, root);
    var rank := Positions(order);
    forall v, w | v in rank && w in Children(g, v)
      ensures w in rank && rank[w] < rank[v]
    {
      var j :| 0 <= j < |order| && order[j] == v;
      assert w in Elems(order);
      var i :| 0 <= i < |order| && order[i] == w;
    }
  }

  /**
   * A cycle through a vertex reachable from `start` is always flagged: if
   * `DFS` leaves the flag down, the reachable part of the graph is acyclic.
   */
  lemma UnflaggedMeansAcyclic(g: Vertices, order: seq<string>, start: string, u: string, c: string)
    requires Distinct(order) && |order| > 0 && order[|order| - 1] == start
    requires PostOrder(g, order)
    requires forall v :: v in order <==> Reachable(g, start, v)
    requires IsOutTree(g, Elems(order), start)
    requires Reachable(g, start, u) && c in Children(g, u)
    ensures !Reachable(g, c, u)
  {
    forall v, w | v in Elems(order) && w in Children(g, v)
      ensures w in Elems(order)
    {
      ReachableStep(g, start, v, w);
      assert w in order;
    }
    PositionsRank(g, order, start);
    if Reachable(g, c, u) {
      var p :| Walk(g, c, u, p);
      ReachableStep(g, start, u, c);
      assert c in order && u in order;
      RankedWalk(g, Positions(order), c, u, p);
      assert false;
    }
  }

  /**
   * In a symmetric (undirected) graph, any edge out of the start makes the
   * reachable part fail to be an out-tree, since the edge leads back: `DFS`
   * as written flags every undirected graph in which `start` has a neighbour.
   */
  lemma UndirectedEdgeNotOutTree(g: Graph, order: seq<string>, start: string, c: string)
    requires Symmetric(g) && start in g.vertices
    requires forall v :: v in order <==> Reachable(g.vertices, start, v)
    requires c in g.vertices[start].children
    ensures !IsOutTree(g.vertices, Elems(order), start)
  {
    ReachableRefl(g.vertices, start);
    ReachableStep(g.vertices, start, start, c);
    assert c in order;
    assert c in Elems(order) && start in Children(g.vertices, c);
  }
}
