/** `getDFSFromGraph` and `getDFSr` of Graph.java: recursive depth-first search tree from a root. */
module RecursiveDepthFirst {
  import opened AdjacencyMaps
  import opened Sets
  import opened Graphs
  import opened SearchTrees
  import BreadthFirst

  /**
   * `getDFSFromGraph(S, n)`: null (`NodeNotFound`) when the root is absent; otherwise the root is
   * marked and added to a new undirected graph and `getDFSr` grows the tree from it. The result holds
   * exactly the nodes reachable from the root; each is linked to the node whose scan discovered it.
   */
  method DfsFromGraph(S: Graph, root: int) returns (result: Search, ghost parent: map<int, int>, ghost order: seq<int>)
    requires root in S.nodes ==> IndexedFrom(S.nodes, root)
    ensures result.NodeNotFound? <==> root !in S.nodes
    ensures result.Tree? ==> fresh(result.graph) && !result.graph.directed
    ensures result.Tree? ==> SearchTree(S.nodes, root, result.graph.nodes, parent, order)
    ensures result.Tree? ==> forall v :: v in result.graph.nodes <==> Reachable(S.nodes, root, v)
  {
    parent, order := map[], [];
    if !S.ExistsNode(root) {
      return NodeNotFound, parent, order;
    }
    var explored := new bool[S.Size()];
    for k := 0 to explored.Length
      invariant forall j :: 0 <= j < k ==> !explored[j]
    {
      explored[k] := false;
    }
    PartialTreeStart(S.nodes, root);
    explored[root] := true;
    var G := new Graph();
    G.AddNode(root);
    assert G.nodes == map[root := {}];
    order := [root];
    parent, order := DfsVisit(S, root, root, G, explored, parent, order);
    PartialTreeComplete(S.nodes, root, G.nodes, parent, order);
    result := Tree(G);
  }

  /**
   * `getDFSr(n, S, G, explorados)` for a node `n` already marked and in the tree: each neighbour still
   * unexplored when the scan reaches it is marked, linked to `n`, and explored recursively. On return
   * `n` and every node discovered during the call have all their neighbours in the tree.
   */
  method DfsVisit(S: Graph, ghost root: int, n: int, G: Graph, explored: array<bool>,
                  ghost parent: map<int, int>, ghost order: seq<int>)
    returns (ghost parent': map<int, int>, ghost order': seq<int>)
    modifies G, explored
    requires G != S && !G.directed && explored.Length == |S.nodes|
    requires IndexedFrom(S.nodes, root)
    requires BreadthFirst.Marks(explored, G)
    requires PartialTree(S.nodes, root, G.nodes, parent, order)
    requires n in G.nodes
    ensures !G.directed && BreadthFirst.Marks(explored, G)
    ensures PartialTree(S.nodes, root, G.nodes, parent', order')
    ensures old(G.nodes).Keys <= G.nodes.Keys
    ensures NeighboursOr(S.nodes, n) <= G.nodes.Keys
    ensures forall u :: u in G.nodes.Keys - old(G.nodes).Keys ==> NeighboursOr(S.nodes, u) <= G.nodes.Keys
    decreases S.nodes.Keys - G.nodes.Keys
  {
    ghost var s := S.nodes;
    ghost var keys0 := G.nodes.Keys;
    parent', order' := parent, order;
    ReachableIn(s, root, G.nodes, parent, order, n);
    var rest := S.Neighbors(n).value;
    while rest != {}
      invariant !G.directed && BreadthFirst.Marks(explored, G)
      invariant PartialTree(s, root, G.nodes, parent', order')
      invariant keys0 <= G.nodes.Keys
      invariant rest <= s[n] && s[n] - rest <= G.nodes.Keys
      invariant forall u :: u in G.nodes.Keys - keys0 ==> NeighboursOr(s, u) <= G.nodes.Keys
      decreases rest
    {
      HasMember(rest);
      var value :| value in rest;
      rest := rest - {value};
      ReachableStep(s, root, n, value);
      if !explored[value] {
        parent', order' := MarkAndLink(s, root, n, value, G, explored, parent', order');
        TreeInSource(s, root, G.nodes, parent', order');
        BreadthFirst.DifferenceShrinks(s.Keys, keys0, G.nodes.Keys);
        parent', order' := DfsVisit(S, root, value, G, explored, parent', order');
      }
    }
  }

  /** The body of the `if` in `getDFSr`: mark `value` explored, then link it to `n`. */
  method MarkAndLink(ghost s: Adjacency, ghost root: int, n: int, value: int, G: Graph, explored: array<bool>,
                     ghost parent: map<int, int>, ghost order: seq<int>)
    returns (ghost parent': map<int, int>, ghost order': seq<int>)
    modifies G, explored
    requires !G.directed && 0 <= value < explored.Length && BreadthFirst.Marks(explored, G)
    requires PartialTree(s, root, G.nodes, parent, order)
    requires n in G.nodes && value !in G.nodes && HasArc(s, n, value)
    ensures !G.directed && BreadthFirst.Marks(explored, G)
    ensures G.nodes.Keys == old(G.nodes).Keys + {value}
    ensures PartialTree(s, root, G.nodes, parent', order')
  {
    explored[value] := true;
    PartialTreeGrows(s, root, G.nodes, parent, order, n, value);
    var linked := G.LinkNodes(n, value);
    parent', order' := parent[value := n], order + [value];
  }

  /** A node of a partial tree is reachable, so it is a key of the source. */
  lemma ReachableIn(s: Adjacency, root: int, adj: Adjacency, parent: map<int, int>, order: seq<int>, n: int)
    requires PartialTree(s, root, adj, parent, order) && IndexedFrom(s, root) && n in adj
    ensures n in s && 0 <= n < |s|
  {
  }

  /** Every node of a partial tree is a key of the source. */
  lemma TreeInSource(s: Adjacency, root: int, adj: Adjacency, parent: map<int, int>, order: seq<int>)
    requires PartialTree(s, root, adj, parent, order) && IndexedFrom(s, root)
    ensures adj.Keys <= s.Keys
  {
  }
}
