/**
 * The bookkeeping of `getDFSi_FromGraph` of Graph.java as pure values: the stack `por_visitar`
 * (with, as ghost data, the index in `visitados` of the node that pushed each entry), the path
 * `visitados`, the explored set, and the tree links made so far.
 */
module DfsBookkeeping {
  import opened AdjacencyMaps
  import opened Sets
  import opened SearchTrees

  /** `n` copies of `d`: the pusher index of a batch of entries pushed together. */
  ghost function Repeat(d: int, n: nat): seq<int>
  {
    seq(n, _ => d)
  }

  /** The stack entries pushed by the path node at index `p`. */
  ghost function Pending(stack: seq<int>, depth: seq<int>, p: int): set<int>
  {
    set k | 0 <= k < |stack| && k < |depth| && depth[k] == p :: stack[k]
  }

  /** An entry not yet explored was pushed as a neighbour of a node still on the path. */
  ghost predicate StackEntries(s: Adjacency, seen: set<int>, stack: seq<int>, depth: seq<int>, path: seq<int>)
  {
    && |stack| == |depth|
    && forall k :: 0 <= k < |stack| && stack[k] !in seen ==>
         0 <= depth[k] < |path| && HasArc(s, path[depth[k]], stack[k])
  }

  /** Among entries not yet explored, deeper path nodes pushed theirs higher up the stack. */
  ghost predicate DepthsSorted(seen: set<int>, stack: seq<int>, depth: seq<int>)
  {
    && |stack| == |depth|
    && forall k1, k2 :: 0 <= k1 < k2 < |stack| && stack[k1] !in seen && stack[k2] !in seen ==> depth[k1] <= depth[k2]
  }

  /** Every unexplored neighbour of a path node is on the stack, pushed by that node. */
  ghost predicate Covered(s: Adjacency, seen: set<int>, stack: seq<int>, depth: seq<int>, path: seq<int>)
  {
    forall p :: 0 <= p < |path| ==> NeighboursOr(s, path[p]) - seen <= Pending(stack, depth, p)
  }

  /** `visitados`: distinct explored nodes from the root, each the discovery child of the one before. */
  ghost predicate PathShape(root: int, seen: set<int>, parent: map<int, int>, path: seq<int>)
  {
    && |path| > 0 && path[0] == root
    && (forall k1, k2 :: 0 <= k1 < k2 < |path| ==> path[k1] != path[k2])
    && (forall k :: 0 <= k < |path| ==> path[k] in seen)
    && (forall k :: 0 < k < |path| ==> path[k] in parent && parent[path[k]] == path[k - 1])
  }

  /** A node that has left the path has no unexplored neighbour. */
  ghost predicate FinishedClosed(s: Adjacency, seen: set<int>, path: seq<int>)
  {
    forall v :: v in seen && v !in path ==> NeighboursOr(s, v) <= seen
  }

  /** The explored nodes, in exploration order, each reached along an arc from its discoverer. */
  ghost predicate Discovered(s: Adjacency, root: int, seen: set<int>, parent: map<int, int>, order: seq<int>)
  {
    && DiscoveryOrder(root, parent, order)
    && seen == (set k | k in order)
    && parent.Keys == seen - {root}
    && (forall v :: v in parent ==> HasArc(s, parent[v], v))
    && (forall v :: v in seen ==> Reachable(s, root, v))
  }

  /** The tree links of the nodes that have left the path. */
  ghost function Linked(parent: map<int, int>, path: seq<int>): map<int, int>
  {
    map v | v in parent && v !in path :: parent[v]
  }

  /** The result graph holds the root and exactly the links of finished nodes. */
  ghost predicate LinkedTree(root: int, seen: set<int>, parent: map<int, int>, path: seq<int>, adj: Adjacency)
  {
    && HoldsTreeEdges(adj, Linked(parent, path))
    && root in adj
    && adj.Keys <= seen
    && (forall v :: v in seen && v !in path ==> v in adj)
  }

  /** Everything the iterative search keeps true, whatever the state of the `backwards` flag. */
  ghost predicate DfsCore(s: Adjacency, root: int, seen: set<int>, stack: seq<int>, depth: seq<int>, path: seq<int>,
                          parent: map<int, int>, order: seq<int>, adj: Adjacency)
  {
    && StackEntries(s, seen, stack, depth, path)
    && DepthsSorted(seen, stack, depth)
    && Covered(s, seen, stack, depth, path)
    && PathShape(root, seen, parent, path)
    && FinishedClosed(s, seen, path)
    && Discovered(s, root, seen, parent, order)
    && LinkedTree(root, seen, parent, path, adj)
  }

  /** The state at the head of the main loop: the path stops at a node with something left to explore. */
  ghost predicate DfsState(s: Adjacency, root: int, seen: set<int>, stack: seq<int>, depth: seq<int>, path: seq<int>,
                           parent: map<int, int>, order: seq<int>, adj: Adjacency)
  {
    && DfsCore(s, root, seen, stack, depth, path, parent, order, adj)
    && (|path| > 1 ==> !(NeighboursOr(s, path[|path| - 1]) <= seen))
  }

  /**
   * The state at the head of the main loop, including the start: before anything is explored the
   * stack holds just the root, and the result graph just the root.
   */
  ghost predicate DfsLoop(s: Adjacency, root: int, seen: set<int>, stack: seq<int>, depth: seq<int>, path: seq<int>,
                          parent: map<int, int>, order: seq<int>, adj: Adjacency)
  {
    if path == [] then
      stack == [root] && |depth| == 1 && seen == {} && adj == map[root := {}] && parent == map[] && order == []
    else
      DfsState(s, root, seen, stack, depth, path, parent, order, adj)
  }

  /**
   * Exploring the unexplored top entry `x` -- the root at the start, otherwise an unexplored neighbour
   * of the last path node -- and pushing `ext`, the neighbours of `x` still unexplored.
   */
  lemma Explore(s: Adjacency, root: int, seen: set<int>, stack: seq<int>, depth: seq<int>, path: seq<int>,
                parent: map<int, int>, order: seq<int>, adj: Adjacency, x: int, d: int, ext: seq<int>)
    returns (depth': seq<int>, parent': map<int, int>, order': seq<int>)
    requires DfsLoop(s, root, seen, stack + [x], depth + [d], path, parent, order, adj)
    requires x !in seen
    requires forall j :: 0 <= j < |ext| ==> HasArc(s, x, ext[j])
    requires forall v :: v in NeighboursOr(s, x) && v !in seen + {x} ==> v in ext
    ensures DfsCore(s, root, seen + {x}, stack + ext, depth', path + [x], parent', order', adj)
  {
    if path == [] {
      assert |stack| == 0 && x == (stack + [x])[0] == root;
      assert stack + ext == ext && seen + {x} == {root};
      DfsStart(s, root, ext);
      depth', parent', order' := Repeat(0, |ext|), map[], [root];
    } else {
      ExploreStep(s, root, seen, stack, depth, path, parent, order, adj, x, d, ext);
      depth', parent', order' := depth + Repeat(|path|, |ext|), parent[x := path[|path| - 1]], order + [x];
    }
  }

  /** Popping the top of a non-empty stack and its depth. */
  lemma PopLast(stack: seq<int>, depth: seq<int>)
    requires |stack| == |depth| > 0
    ensures stack == stack[..|stack| - 1] + [stack[|stack| - 1]]
    ensures depth == depth[..|depth| - 1] + [depth[|depth| - 1]]
  {
  }

  /** An unexplored entry at the top of the stack was pushed by the last node of the path. */
  lemma PopTarget(s: Adjacency, seen: set<int>, stack: seq<int>, depth: seq<int>, path: seq<int>, x: int, d: int)
    requires StackEntries(s, seen, stack + [x], depth + [d], path)
    requires DepthsSorted(seen, stack + [x], depth + [d])
    requires Covered(s, seen, stack + [x], depth + [d], path)
    requires |path| > 0 && (|path| > 1 ==> !(NeighboursOr(s, path[|path| - 1]) <= seen))
    requires x !in seen
    ensures d == |path| - 1 && HasArc(s, path[|path| - 1], x)
  {
    var st, dp := stack + [x], depth + [d];
    assert st[|stack|] == x && dp[|stack|] == d;
    if |path| > 1 {
      var top := |path| - 1;
      NotIncluded(NeighboursOr(s, path[top]), seen);
      HasMember(NeighboursOr(s, path[top]) - seen);
      var u :| u in NeighboursOr(s, path[top]) - seen;
      assert u in Pending(st, dp, top);
      var k :| 0 <= k < |st| && k < |dp| && dp[k] == top && st[k] == u;
      if k < |stack| {
        assert dp[k] <= dp[|stack|];
      }
    }
  }

  /** Popping an entry leaves the other entries with their pushers. */
  lemma PendingPop(stack: seq<int>, depth: seq<int>, x: int, d: int, p: int)
    requires |stack| == |depth|
    ensures Pending(stack + [x], depth + [d], p) <= Pending(stack, depth, p) + {x}
  {
    forall v | v in Pending(stack + [x], depth + [d], p)
      ensures v in Pending(stack, depth, p) + {x}
    {
      var k :| 0 <= k < |stack| + 1 && (depth + [d])[k] == p && (stack + [x])[k] == v;
      if k < |stack| {
        assert stack[k] == v && depth[k] == p;
      }
    }
  }

  /** Pushing entries keeps the old ones, and the new ones belong to the index they were pushed with. */
  lemma PendingPush(stack: seq<int>, depth: seq<int>, ext: seq<int>, q: int, p: int)
    requires |stack| == |depth|
    ensures Pending(stack, depth, p) <= Pending(stack + ext, depth + Repeat(q, |ext|), p)
    ensures p == q ==> forall j :: 0 <= j < |ext| ==> ext[j] in Pending(stack + ext, depth + Repeat(q, |ext|), p)
  {
    var st, dp := stack + ext, depth + Repeat(q, |ext|);
    forall v | v in Pending(stack, depth, p)
      ensures v in Pending(st, dp, p)
    {
      var k :| 0 <= k < |stack| && depth[k] == p && stack[k] == v;
      assert st[k] == v && dp[k] == p;
    }
    if p == q {
      forall j | 0 <= j < |ext|
        ensures ext[j] in Pending(st, dp, p)
      {
        assert st[|stack| + j] == ext[j] && dp[|stack| + j] == q;
      }
    }
  }

  /** Popping an explored entry changes nothing that matters. */
  lemma StalePop(s: Adjacency, root: int, seen: set<int>, stack: seq<int>, depth: seq<int>, path: seq<int>,
                 parent: map<int, int>, order: seq<int>, adj: Adjacency, x: int, d: int)
    requires DfsLoop(s, root, seen, stack + [x], depth + [d], path, parent, order, adj)
    requires x in seen
    ensures DfsLoop(s, root, seen, stack, depth, path, parent, order, adj)
  {
    assert path != [];
    forall k | 0 <= k < |stack|
      ensures stack[k] == (stack + [x])[k] && depth[k] == (depth + [d])[k]
    {
    }
    forall p | 0 <= p < |path|
      ensures NeighboursOr(s, path[p]) - seen <= Pending(stack, depth, p)
    {
      PendingPop(stack, depth, x, d, p);
    }
  }

  /** The stack after exploring `x` and pushing its unexplored neighbours `ext`. */
  lemma StackAfterExplore(s: Adjacency, seen: set<int>, stack: seq<int>, depth: seq<int>, path: seq<int>,
                          x: int, d: int, ext: seq<int>)
    requires StackEntries(s, seen, stack + [x], depth + [d], path)
    requires forall j :: 0 <= j < |ext| ==> HasArc(s, x, ext[j])
    ensures StackEntries(s, seen + {x}, stack + ext, depth + Repeat(|path|, |ext|), path + [x])
  {
    var st, dp, path' := stack + ext, depth + Repeat(|path|, |ext|), path + [x];
    forall k | 0 <= k < |st| && st[k] !in seen + {x}
      ensures 0 <= dp[k] < |path'| && HasArc(s, path'[dp[k]], st[k])
    {
      if k < |stack| {
        assert (stack + [x])[k] == st[k] && (depth + [d])[k] == dp[k];
        assert path'[dp[k]] == path[dp[k]];
      } else {
        assert st[k] == ext[k - |stack|] && dp[k] == |path|;
      }
    }
  }

  /** The entries pushed for `x` carry the deepest index, so the order of indices is kept. */
  lemma DepthsAfterExplore(s: Adjacency, seen: set<int>, stack: seq<int>, depth: seq<int>, path: seq<int>,
                           x: int, d: int, ext: seq<int>)
    requires StackEntries(s, seen, stack + [x], depth + [d], path)
    requires DepthsSorted(seen, stack + [x], depth + [d])
    ensures DepthsSorted(seen + {x}, stack + ext, depth + Repeat(|path|, |ext|))
  {
    var st, dp := stack + ext, depth + Repeat(|path|, |ext|);
    forall k1, k2 | 0 <= k1 < k2 < |st| && st[k1] !in seen + {x} && st[k2] !in seen + {x}
      ensures dp[k1] <= dp[k2]
    {
      if k2 < |stack| {
        assert (stack + [x])[k1] == st[k1] && (depth + [d])[k1] == dp[k1];
        assert (stack + [x])[k2] == st[k2] && (depth + [d])[k2] == dp[k2];
      } else if k1 < |stack| {
        assert (stack + [x])[k1] == st[k1] && (depth + [d])[k1] == dp[k1];
        assert dp[k2] == |path|;
      } else {
        assert dp[k1] == |path| == dp[k2];
      }
    }
  }

  /** Every unexplored neighbour is still covered once `x` is explored and its neighbours pushed. */
  lemma CoveredAfterExplore(s: Adjacency, seen: set<int>, stack: seq<int>, depth: seq<int>, path: seq<int>,
                            x: int, d: int, ext: seq<int>)
    requires |stack| == |depth|
    requires Covered(s, seen, stack + [x], depth + [d], path)
    requires forall v :: v in NeighboursOr(s, x) && v !in seen + {x} ==> v in ext
    ensures Covered(s, seen + {x}, stack + ext, depth + Repeat(|path|, |ext|), path + [x])
  {
    var st, dp, path' := stack + ext, depth + Repeat(|path|, |ext|), path + [x];
    forall p | 0 <= p < |path'|
      ensures NeighboursOr(s, path'[p]) - (seen + {x}) <= Pending(st, dp, p)
    {
      PendingPush(stack, depth, ext, |path|, p);
      if p < |path| {
        PendingPop(stack, depth, x, d, p);
        assert path'[p] == path[p];
        assert NeighboursOr(s, path[p]) - seen <= Pending(stack + [x], depth + [d], p);
        forall v | v in NeighboursOr(s, path[p]) - (seen + {x})
          ensures v in Pending(stack, depth, p)
        {
          assert v in NeighboursOr(s, path[p]) - seen;
        }
      } else {
        assert path'[p] == x;
        forall v | v in NeighboursOr(s, x) - (seen + {x})
          ensures v in Pending(st, dp, p)
        {
          var j :| 0 <= j < |ext| && ext[j] == v;
        }
      }
    }
  }

  /** Exploring `x` from the last path node extends the path by a child of its last node. */
  lemma PathAfterExplore(root: int, seen: set<int>, path: seq<int>, parent: map<int, int>, x: int)
    requires PathShape(root, seen, parent, path) && x !in seen
    ensures PathShape(root, seen + {x}, parent[x := path[|path| - 1]], path + [x])
  {
    var parent', path' := parent[x := path[|path| - 1]], path + [x];
    forall k | 0 <= k < |path'|
      ensures path'[k] in seen + {x}
      ensures 0 < k ==> path'[k] in parent' && parent'[path'[k]] == path'[k - 1]
    {
      if k < |path| {
        assert path'[k] == path[k] && path[k] in seen;
        if 0 < k {
          assert path'[k - 1] == path[k - 1];
        }
      }
    }
  }

  /** The newly explored node joins the path, so the finished nodes are the same. */
  lemma FinishedAfterExplore(s: Adjacency, seen: set<int>, path: seq<int>, x: int)
    requires FinishedClosed(s, seen, path)
    ensures FinishedClosed(s, seen + {x}, path + [x])
  {
    assert forall v :: v in seen && v !in path + [x] ==> v !in path;
  }

  /** `x` is discovered from the last path node, along an arc of `s`. */
  lemma DiscoveredAfterExplore(s: Adjacency, root: int, seen: set<int>, parent: map<int, int>, order: seq<int>,
                               u: int, x: int)
    requires Discovered(s, root, seen, parent, order)
    requires u in seen && x !in seen && HasArc(s, u, x)
    ensures Discovered(s, root, seen + {x}, parent[x := u], order + [x])
  {
    assert root == order[0] && root in seen;
    OrderGrows(root, parent, order, u, x);
    OrderSetGrows(order, x);
    ParentsGrow(s, root, seen, parent, u, x, parent[x := u]);
    ReachGrows(s, root, seen, u, x);
  }

  /** Linking a newly explored `x` to its explorer `u` keeps every link an arc of `s`. */
  lemma ParentsGrow(s: Adjacency, root: int, seen: set<int>, parent: map<int, int>, u: int, x: int,
                    parent': map<int, int>)
    requires parent.Keys == seen - {root} && forall v :: v in parent ==> HasArc(s, parent[v], v)
    requires root in seen && x !in seen && HasArc(s, u, x) && parent' == parent[x := u]
    ensures parent'.Keys == (seen + {x}) - {root}
    ensures forall v :: v in parent' ==> HasArc(s, parent'[v], v)
  {
    forall v | v in parent'
      ensures HasArc(s, parent'[v], v)
    {
      if v != x {
        assert parent'[v] == parent[v];
      }
    }
  }

  /** A node explored from a reachable node is reachable. */
  lemma ReachGrows(s: Adjacency, root: int, seen: set<int>, u: int, x: int)
    requires forall v :: v in seen ==> Reachable(s, root, v)
    requires u in seen && HasArc(s, u, x)
    ensures forall v :: v in seen + {x} ==> Reachable(s, root, v)
  {
    ReachableStep(s, root, u, x);
  }

  /** The nodes of a sequence grown by one element. */
  lemma OrderSetGrows(order: seq<int>, x: int)
    ensures (set k | k in order + [x]) == (set k | k in order) + {x}
  {
  }

  /** Exploring makes no link: the node explored is on the path. */
  lemma LinksAfterExplore(root: int, seen: set<int>, parent: map<int, int>, path: seq<int>, adj: Adjacency,
                          u: int, x: int)
    requires LinkedTree(root, seen, parent, path, adj) && x !in seen && x !in parent
    ensures LinkedTree(root, seen + {x}, parent[x := u], path + [x], adj)
  {
    assert Linked(parent[x := u], path + [x]) == Linked(parent, path);
  }

  /**
   * Exploring the unexplored top entry `x` and pushing `ext`, the neighbours of `x` still unexplored,
   * keeps everything but possibly the rule that the path ends at a node with something left to explore.
   */
  lemma ExploreStep(s: Adjacency, root: int, seen: set<int>, stack: seq<int>, depth: seq<int>, path: seq<int>,
                    parent: map<int, int>, order: seq<int>, adj: Adjacency, x: int, d: int, ext: seq<int>)
    requires DfsState(s, root, seen, stack + [x], depth + [d], path, parent, order, adj)
    requires x !in seen
    requires forall j :: 0 <= j < |ext| ==> HasArc(s, x, ext[j])
    requires forall v :: v in NeighboursOr(s, x) && v !in seen + {x} ==> v in ext
    ensures HasArc(s, path[|path| - 1], x)
    ensures DfsCore(s, root, seen + {x}, stack + ext, depth + Repeat(|path|, |ext|), path + [x],
                    parent[x := path[|path| - 1]], order + [x], adj)
  {
    PopTarget(s, seen, stack, depth, path, x, d);
    StackAfterExplore(s, seen, stack, depth, path, x, d, ext);
    DepthsAfterExplore(s, seen, stack, depth, path, x, d, ext);
    CoveredAfterExplore(s, seen, stack, depth, path, x, d, ext);
    PathAfterExplore(root, seen, path, parent, x);
    FinishedAfterExplore(s, seen, path, x);
    DiscoveredAfterExplore(s, root, seen, parent, order, path[|path| - 1], x);
    LinksAfterExplore(root, seen, parent, path, adj, path[|path| - 1], x);
  }

  /** Exploring the root, the first entry popped, and pushing its other neighbours `ext`. */
  lemma DfsStart(s: Adjacency, root: int, ext: seq<int>)
    requires forall j :: 0 <= j < |ext| ==> HasArc(s, root, ext[j])
    requires forall v :: v in NeighboursOr(s, root) && v != root ==> v in ext
    ensures DfsCore(s, root, {root}, ext, Repeat(0, |ext|), [root], map[], [root], map[root := {}])
  {
    PendingPush([], [], ext, 0, 0);
    assert [] + ext == ext && [] + Repeat(0, |ext|) == Repeat(0, |ext|);
    forall v | v in NeighboursOr(s, root) - {root}
      ensures v in Pending(ext, Repeat(0, |ext|), 0)
    {
      var j :| 0 <= j < |ext| && ext[j] == v;
    }
    ReachableRoot(s, root);
    assert Linked(map[], [root]) == map[];
    assert HoldsTreeEdges(map[root := {}], map[]);
  }

  /** Adding the link of a node `v` that had none yet. */
  lemma LinkGrows(adj: Adjacency, links: map<int, int>, v: int, u: int)
    requires HoldsTreeEdges(adj, links) && v !in links
    ensures HoldsTreeEdges(AddEdge(adj, false, v, u), links[v := u])
  {
    var adj', links' := AddEdge(adj, false, v, u), links[v := u];
    forall x, y
      ensures HasArc(adj', x, y) <==> TreeEdge(links', x, y)
    {
      assert TreeEdge(links', x, y) <==> TreeEdge(links, x, y) || (x == v && y == u) || (x == u && y == v);
      assert HasArc(adj, x, y) <==> TreeEdge(links, x, y);
    }
  }

  /**
   * Backtracking from the last path node, all of whose neighbours are explored: it is linked to the
   * node before it (`linkNodes(visitados.get(i), j)`) and leaves the path.
   */
  lemma BackStep(s: Adjacency, root: int, seen: set<int>, stack: seq<int>, depth: seq<int>, path: seq<int>,
                 parent: map<int, int>, order: seq<int>, adj: Adjacency)
    requires DfsCore(s, root, seen, stack, depth, path, parent, order, adj)
    requires |path| > 1 && NeighboursOr(s, path[|path| - 1]) <= seen
    ensures DfsCore(s, root, seen, stack, depth, path[..|path| - 1], parent, order,
                    AddEdge(adj, false, path[|path| - 1], path[|path| - 2]))
  {
    StackAfterBack(s, seen, stack, depth, path);
    PathAfterBack(s, root, seen, stack, depth, parent, path);
    LinksAfterBack(root, seen, parent, path, adj);
  }

  /** No unexplored entry was pushed by a node with no unexplored neighbour. */
  lemma StackAfterBack(s: Adjacency, seen: set<int>, stack: seq<int>, depth: seq<int>, path: seq<int>)
    requires StackEntries(s, seen, stack, depth, path)
    requires |path| > 1 && NeighboursOr(s, path[|path| - 1]) <= seen
    ensures StackEntries(s, seen, stack, depth, path[..|path| - 1])
  {
    var top := |path| - 1;
    forall k | 0 <= k < |stack| && stack[k] !in seen
      ensures 0 <= depth[k] < top && HasArc(s, path[..top][depth[k]], stack[k])
    {
      assert depth[k] != top;
      assert path[..top][depth[k]] == path[depth[k]];
    }
  }

  /** Dropping the last path node keeps the rest of the path, which is now finished and closed. */
  lemma PathAfterBack(s: Adjacency, root: int, seen: set<int>, stack: seq<int>, depth: seq<int>,
                      parent: map<int, int>, path: seq<int>)
    requires Covered(s, seen, stack, depth, path) && PathShape(root, seen, parent, path)
    requires FinishedClosed(s, seen, path)
    requires |path| > 1 && NeighboursOr(s, path[|path| - 1]) <= seen
    ensures Covered(s, seen, stack, depth, path[..|path| - 1])
    ensures PathShape(root, seen, parent, path[..|path| - 1])
    ensures FinishedClosed(s, seen, path[..|path| - 1])
  {
    var top := |path| - 1;
    var path' := path[..top];
    forall p | 0 <= p < |path'|
      ensures path'[p] == path[p]
    {
    }
    forall w | w in seen && w !in path'
      ensures NeighboursOr(s, w) <= seen
    {
      if w in path {
        var k :| 0 <= k < |path| && path[k] == w;
        assert k == top;
      }
    }
  }

  /** The link made while backtracking is the parent link of the node that leaves the path. */
  lemma LinksAfterBack(root: int, seen: set<int>, parent: map<int, int>, path: seq<int>, adj: Adjacency)
    requires LinkedTree(root, seen, parent, path, adj) && PathShape(root, seen, parent, path)
    requires |path| > 1
    ensures LinkedTree(root, seen, parent, path[..|path| - 1], AddEdge(adj, false, path[|path| - 1], path[|path| - 2]))
  {
    var top := |path| - 1;
    var path' := path[..top];
    var v, u := path[top], path[top - 1];
    assert v !in Linked(parent, path);
    assert path == path' + [v];
    assert Linked(parent, path') == Linked(parent, path)[v := u];
    LinkGrows(adj, Linked(parent, path), v, u);
  }

  /**
   * With the stack empty the path is just the root, every explored node has all its neighbours
   * explored, and the result graph is a search tree over exactly the nodes reachable from the root.
   */
  lemma Finish(s: Adjacency, root: int, seen: set<int>, depth: seq<int>, path: seq<int>,
               parent: map<int, int>, order: seq<int>, adj: Adjacency)
    requires DfsLoop(s, root, seen, [], depth, path, parent, order, adj)
    ensures SearchTree(s, root, adj, parent, order)
    ensures forall v :: v in adj <==> Reachable(s, root, v)
  {
    assert path != [];
    forall p, v | 0 <= p < |path| && v in NeighboursOr(s, path[p])
      ensures v in seen
    {
      assert Pending([], depth, p) == {};
      assert v !in NeighboursOr(s, path[p]) - seen;
    }
    assert path == [root];
    assert adj.Keys == seen;
    assert Linked(parent, path) == parent;
    forall w | w in adj.Keys
      ensures NeighboursOr(s, w) <= adj.Keys
    {
      if w == root {
        assert path[0] == w;
      }
    }
    PartialTreeComplete(s, root, adj, parent, order);
  }
}
