/** `getDFSi_FromGraph` of Graph.java: depth-first search tree with an explicit stack. */
module IterativeDepthFirst {
  import opened AdjacencyMaps
  import opened Sets
  import opened Graphs
  import opened SearchTrees
  import opened DfsBookkeeping
  import BreadthFirst

  /** `explorados[v]` is set exactly for the explored nodes. */
  ghost predicate Explored(explored: array<bool>, seen: set<int>)
    reads explored
  {
    forall v :: 0 <= v < explored.Length ==> (explored[v] <==> v in seen)
  }

  /**
   * `getDFSi_FromGraph(S, n)`: null (`NodeNotFound`) when the root is absent. Otherwise the root is
   * pushed on `por_visitar`; each popped node is skipped if explored, else marked, appended to the
   * path `visitados`, and its unexplored neighbours are pushed. When none were pushed the search
   * backtracks, linking each path node to the one before it, until it reaches a node with an
   * unexplored neighbour. The result holds exactly the nodes reachable from the root; each is linked
   * to the path node it was explored from, so it is a search tree of `S` in exploration order.
   */
  method DfsiFromGraph(S: Graph, root: int) returns (result: Search, ghost parent: map<int, int>, ghost order: seq<int>)
    requires root in S.nodes ==> IndexedFrom(S.nodes, root)
    ensures result.NodeNotFound? <==> root !in S.nodes
    ensures result.Tree? ==> fresh(result.graph) && !result.graph.directed
    ensures result.Tree? ==> SearchTree(S.nodes, root, result.graph.nodes, parent, order)
    ensures result.Tree? ==> forall v :: v in result.graph.nodes <==> Reachable(S.nodes, root, v)
  {
    parent, order := map[], [];
    if !S.ExistsNode(root) {
      return NodeNotFound, parent, order;
    }
    var explored := new bool[S.Size()];
    for k := 0 to explored.Length
      invariant forall j :: 0 <= j < k ==> !explored[j]
    {
      explored[k] := false;
    }
    ghost var s := S.nodes;
    ReachableRoot(s, root);
    var stack := [root];
    var path: seq<int> := [];
    var G := new Graph();
    G.AddNode(root);
    ghost var seen: set<int> := {};
    ghost var depth: seq<int> := [-1];
    while stack != []
      invariant fresh(explored) && fresh(G) && !G.directed && explored.Length == |s|
      invariant Explored(explored, seen) && seen <= s.Keys && |depth| == |stack|
      invariant forall k :: 0 <= k < |stack| ==> Reachable(s, root, stack[k])
      invariant DfsLoop(s, root, seen, stack, depth, path, parent, order, G.nodes)
      decreases s.Keys - seen, |stack|
    {
      ghost var seen0 := seen;
      stack, path, depth, seen, parent, order := Step(S, root, explored, G, stack, path, depth, seen, parent, order);
      if seen != seen0 {
        BreadthFirst.DifferenceShrinks(s.Keys, seen0, seen);
      }
    }
    Finish(s, root, seen, depth, path, parent, order, G.nodes);
    result := Tree(G);
  }

  /** One turn of the main loop: pop the top entry; skip it if explored, otherwise visit it. */
  method Step(S: Graph, ghost root: int, explored: array<bool>, G: Graph, stack: seq<int>, path: seq<int>,
              ghost depth: seq<int>, ghost seen: set<int>, ghost parent: map<int, int>, ghost order: seq<int>)
    returns (stack': seq<int>, path': seq<int>, ghost depth': seq<int>, ghost seen': set<int>,
             ghost parent': map<int, int>, ghost order': seq<int>)
    modifies explored, G
    requires G != S && !G.directed && explored.Length == |S.nodes| && IndexedFrom(S.nodes, root)
    requires Explored(explored, seen) && seen <= S.nodes.Keys && |depth| == |stack| && stack != []
    requires forall k :: 0 <= k < |stack| ==> Reachable(S.nodes, root, stack[k])
    requires DfsLoop(S.nodes, root, seen, stack, depth, path, parent, order, G.nodes)
    ensures !G.directed && Explored(explored, seen') && seen <= seen' <= S.nodes.Keys && |depth'| == |stack'|
    ensures forall k :: 0 <= k < |stack'| ==> Reachable(S.nodes, root, stack'[k])
    ensures DfsLoop(S.nodes, root, seen', stack', depth', path', parent', order', G.nodes)
    ensures seen' == seen ==> |stack'| < |stack|
  {
    var top := |stack| - 1;
    var i := stack[top];
    ghost var d := depth[top];
    PopLast(stack, depth);
    stack', path' := stack[..top], path;
    depth', seen', parent', order' := depth[..top], seen, parent, order;
    if explored[i] {
      StalePop(S.nodes, root, seen, stack', depth', path, parent, order, G.nodes, i, d);
      return;
    }
    path', stack', depth', seen', parent', order' := Visit(S, root, i, explored, G, path, stack', d, depth', seen, parent, order);
  }

  /**
   * An unexplored node `i` popped from the stack: mark it explored, append it to the path, push its
   * unexplored neighbours, then backtrack if there were none.
   */
  method Visit(S: Graph, ghost root: int, i: int, explored: array<bool>, G: Graph, path: seq<int>, stack: seq<int>,
               ghost d: int, ghost depth: seq<int>, ghost seen: set<int>, ghost parent: map<int, int>, ghost order: seq<int>)
    returns (path': seq<int>, stack': seq<int>, ghost depth': seq<int>, ghost seen': set<int>,
             ghost parent': map<int, int>, ghost order': seq<int>)
    modifies explored, G
    requires G != S && !G.directed && explored.Length == |S.nodes| && IndexedFrom(S.nodes, root)
    requires Explored(explored, seen) && seen <= S.nodes.Keys && |depth| == |stack|
    requires Reachable(S.nodes, root, i) && i !in seen
    requires forall k :: 0 <= k < |stack| ==> Reachable(S.nodes, root, stack[k])
    requires DfsLoop(S.nodes, root, seen, stack + [i], depth + [d], path, parent, order, G.nodes)
    ensures !G.directed && Explored(explored, seen') && seen' == seen + {i} && seen' <= S.nodes.Keys
    ensures |depth'| == |stack'| && |stack| <= |stack'| && stack'[..|stack|] == stack
    ensures forall k :: 0 <= k < |stack'| ==> Reachable(S.nodes, root, stack'[k])
    ensures path' != [] && DfsState(S.nodes, root, seen', stack', depth', path', parent', order', G.nodes)
  {
    ghost var s := S.nodes;
    var backwards;
    stack', backwards := Expand(S, root, i, explored, stack, seen);
    seen' := seen + {i};
    ghost var ext := stack'[|stack|..];
    depth', parent', order' := Explore(s, root, seen, stack, depth, path, parent, order, G.nodes, i, d, ext);
    path' := path + [i];
    path' := Backtrack(S, root, explored, G, path', backwards, stack', depth', seen', parent', order');
  }

  /**
   * Exploring `i`: mark it in `explorados`, then push its unexplored neighbours; `backwards` tells
   * whether all of its neighbours were already explored.
   */
  method Expand(S: Graph, ghost root: int, i: int, explored: array<bool>, stack: seq<int>, ghost seen: set<int>)
    returns (stack': seq<int>, backwards: bool)
    modifies explored
    requires explored.Length == |S.nodes| && IndexedFrom(S.nodes, root)
    requires Explored(explored, seen) && seen <= S.nodes.Keys
    requires Reachable(S.nodes, root, i) && i !in seen
    requires forall k :: 0 <= k < |stack| ==> Reachable(S.nodes, root, stack[k])
    ensures Explored(explored, seen + {i}) && seen + {i} <= S.nodes.Keys
    ensures |stack| <= |stack'| && stack' == stack + stack'[|stack|..]
    ensures forall k :: |stack| <= k < |stack'| ==> HasArc(S.nodes, i, stack'[k])
    ensures forall v :: v in NeighboursOr(S.nodes, i) && v !in seen + {i} ==> v in stack'[|stack|..]
    ensures forall k :: 0 <= k < |stack'| ==> Reachable(S.nodes, root, stack'[k])
    ensures backwards <==> NeighboursOr(S.nodes, i) <= seen + {i}
  {
    ghost var s := S.nodes;
    NeighboursIndexed(s, root, i);
    explored[i] := true;
    assert Explored(explored, seen + {i});
    stack', backwards := PushUnexplored(S, i, explored, stack);
    assert stack' == stack + stack'[|stack|..];
    forall k | 0 <= k < |stack'|
      ensures Reachable(s, root, stack'[k])
    {
      if k < |stack| {
        assert stack'[k] == stack[k];
      }
    }
    FlagMeansExplored(explored, seen + {i}, s[i]);
  }

  /**
   * The inner `while (visitados.size() > 1 && backwards)` loop: while the last path node has no
   * unexplored neighbour, link it to the node before it and drop it from the path.
   */
  method Backtrack(S: Graph, ghost root: int, explored: array<bool>, G: Graph, path: seq<int>, backwards: bool,
                   ghost stack: seq<int>, ghost depth: seq<int>, ghost seen: set<int>,
                   ghost parent: map<int, int>, ghost order: seq<int>)
    returns (path': seq<int>)
    modifies G
    requires G != S && !G.directed && explored.Length == |S.nodes| && Explored(explored, seen)
    requires IndexedFrom(S.nodes, root)
    requires DfsCore(S.nodes, root, seen, stack, depth, path, parent, order, G.nodes)
    requires backwards <==> NeighboursOr(S.nodes, path[|path| - 1]) <= seen
    ensures !G.directed
    ensures DfsState(S.nodes, root, seen, stack, depth, path', parent, order, G.nodes)
  {
    ghost var s := S.nodes;
    path' := path;
    var back := backwards;
    while |path'| > 1 && back
      invariant !G.directed
      invariant DfsCore(s, root, seen, stack, depth, path', parent, order, G.nodes)
      invariant back <==> NeighboursOr(s, path'[|path'| - 1]) <= seen
      decreases |path'|
    {
      var i := |path'| - 1;
      var j := path'[i - 1];
      BackStep(s, root, seen, stack, depth, path', parent, order, G.nodes);
      var linked := G.LinkNodes(path'[i], j);
      path' := path'[..i];
      NeighboursIndexed(s, root, j);
      back := AllExplored(S, j, explored);
      FlagMeansExplored(explored, seen, s[j]);
      assert path'[|path'| - 1] == j;
    }
  }

  /**
   * The neighbour scan after exploring `x`: every neighbour not yet explored is pushed, in no particular
   * order; `backwards` stays true exactly when nothing was pushed.
   */
  method PushUnexplored(S: Graph, x: int, explored: array<bool>, stack: seq<int>) returns (stack': seq<int>, backwards: bool)
    requires x in S.nodes
    requires forall v :: v in S.nodes[x] ==> 0 <= v < explored.Length
    ensures |stack| <= |stack'| && stack'[..|stack|] == stack
    ensures forall k :: |stack| <= k < |stack'| ==> stack'[k] in S.nodes[x] && !explored[stack'[k]]
    ensures forall v :: v in S.nodes[x] && !explored[v] ==> v in stack'[|stack|..]
    ensures backwards <==> |stack'| == |stack|
    ensures backwards <==> forall v :: v in S.nodes[x] ==> explored[v]
  {
    stack', backwards := stack, true;
    ghost var ext: seq<int> := [];
    var rest := S.Neighbors(x).value;
    while rest != {}
      invariant rest <= S.nodes[x]
      invariant stack' == stack + ext
      invariant forall k :: 0 <= k < |ext| ==> ext[k] in S.nodes[x] && !explored[ext[k]]
      invariant forall v :: v in S.nodes[x] - rest && !explored[v] ==> v in ext
      invariant backwards <==> ext == []
      invariant backwards <==> forall v :: v in S.nodes[x] - rest ==> explored[v]
      decreases rest
    {
      HasMember(rest);
      var value :| value in rest;
      rest := rest - {value};
      if !explored[value] {
        backwards := false;
        stack', ext := stack' + [value], ext + [value];
      }
    }
    assert stack'[|stack|..] == ext;
  }

  /** The scan of `j`'s neighbours while backtracking: true exactly when all of them are explored. */
  method AllExplored(S: Graph, j: int, explored: array<bool>) returns (backwards: bool)
    requires j in S.nodes
    requires forall v :: v in S.nodes[j] ==> 0 <= v < explored.Length
    ensures backwards <==> forall v :: v in S.nodes[j] ==> explored[v]
  {
    backwards := true;
    var rest := S.Neighbors(j).value;
    while rest != {}
      invariant rest <= S.nodes[j]
      invariant backwards <==> forall v :: v in S.nodes[j] - rest ==> explored[v]
      decreases rest
    {
      HasMember(rest);
      var value :| value in rest;
      rest := rest - {value};
      if !explored[value] {
        backwards := false;
      }
    }
  }

  /** Through `explorados`, "every neighbour is explored" is inclusion in the explored set. */
  lemma FlagMeansExplored(explored: array<bool>, seen: set<int>, nbrs: set<int>)
    requires Explored(explored, seen)
    requires forall v :: v in nbrs ==> 0 <= v < explored.Length
    ensures (forall v :: v in nbrs ==> explored[v]) <==> nbrs <= seen
  {
    if forall v :: v in nbrs ==> explored[v] {
      assert forall v :: v in nbrs ==> v in seen;
    }
    if nbrs <= seen {
      assert forall v :: v in nbrs ==> explored[v];
    }
  }
}
