/** `getBFSFromGraph` of Graph.java: breadth-first search tree from a root. */
module BreadthFirst {
  import opened AdjacencyMaps
  import opened Sets
  import opened Graphs
  import opened SearchTrees

  /**
   * `getBFSFromGraph(S, n)`: null (`NodeNotFound`) when the root is absent; otherwise a new
   * undirected graph holding exactly the nodes reachable from the root, each linked to the node
   * whose neighbour scan discovered it. `order` is the order in which nodes were enqueued: every
   * node is marked explored before it is enqueued, so it is enqueued exactly once.
   */
  method BfsFromGraph(S: Graph, root: int) returns (result: Search, ghost parent: map<int, int>, ghost order: seq<int>)
    requires root in S.nodes ==> IndexedFrom(S.nodes, root)
    ensures result.NodeNotFound? <==> root !in S.nodes
    ensures result.Tree? ==> fresh(result.graph) && !result.graph.directed
    ensures result.Tree? ==> SearchTree(S.nodes, root, result.graph.nodes, parent, order)
    ensures result.Tree? ==> forall v :: v in result.graph.nodes <==> Reachable(S.nodes, root, v)
  {
    parent, order := map[], [];
    if !S.ExistsNode(root) {
      return NodeNotFound, parent, order;
    }
    var explored := new bool[S.Size()];
    for k := 0 to explored.Length
      invariant forall j :: 0 <= j < k ==> !explored[j]
    {
      explored[k] := false;
    }
    ghost var s := S.nodes;
    var queue := [root];
    explored[root] := true;
    var G := new Graph();
    G.AddNode(root);
    order := [root];
    ghost var head := 0;
    PartialTreeStart(s, root);
    while queue != []
      invariant fresh(explored) && fresh(G) && !G.directed
      invariant explored.Length == |s|
      invariant Marks(explored, G)
      invariant G.nodes.Keys <= s.Keys
      invariant BfsInvariant(s, root, G.nodes, parent, order, head)
      invariant queue == order[head..]
      decreases s.Keys - G.nodes.Keys, |queue|
    {
      var i := queue[0];
      queue := queue[1..];
      ghost var keys0 := G.nodes.Keys;
      queue, parent, order := DiscoverNeighbours(S, root, i, explored, G, queue, parent, order, head);
      head := head + 1;
      if G.nodes.Keys != keys0 {
        DifferenceShrinks(s.Keys, keys0, G.nodes.Keys);
      }
    }
    ScannedAllClosed(s, G.nodes, order);
    PartialTreeComplete(s, root, G.nodes, parent, order);
    result := Tree(G);
  }

  /**
   * The `for (Integer value : neighbors)` scan of the node `i` just dequeued: every neighbour not yet
   * explored is linked to `i`, marked explored and enqueued, in no particular order.
   */
  method DiscoverNeighbours(S: Graph, ghost root: int, i: int, explored: array<bool>, G: Graph, queue: seq<int>,
                            ghost parent: map<int, int>, ghost order: seq<int>, ghost head: int)
    returns (queue': seq<int>, ghost parent': map<int, int>, ghost order': seq<int>)
    modifies explored, G
    requires G != S && !G.directed && explored.Length == |S.nodes|
    requires IndexedFrom(S.nodes, root)
    requires Marks(explored, G)
    requires G.nodes.Keys <= S.nodes.Keys
    requires BfsInvariant(S.nodes, root, G.nodes, parent, order, head)
    requires head < |order| && i == order[head] && queue == order[head + 1..]
    ensures !G.directed
    ensures Marks(explored, G)
    ensures old(G.nodes).Keys <= G.nodes.Keys <= S.nodes.Keys
    ensures G.nodes.Keys == old(G.nodes).Keys ==> queue' == queue
    ensures BfsInvariant(S.nodes, root, G.nodes, parent', order', head + 1)
    ensures queue' == order'[head + 1..]
  {
    ghost var s := S.nodes;
    ghost var keys0 := G.nodes.Keys;
    queue', parent', order' := queue, parent, order;
    var rest := S.Neighbors(i).value;
    while rest != {}
      invariant !G.directed
      invariant Marks(explored, G)
      invariant keys0 <= G.nodes.Keys <= s.Keys
      invariant G.nodes.Keys == keys0 ==> queue' == queue
      invariant BfsInvariant(s, root, G.nodes, parent', order', head)
      invariant head < |order'| && i == order'[head] && queue' == order'[head + 1..]
      invariant rest <= s[i] && s[i] - rest <= G.nodes.Keys
      decreases rest
    {
      HasMember(rest);
      var value :| value in rest;
      rest := rest - {value};
      ReachableStep(s, root, i, value);
      if !explored[value] {
        queue', parent', order' := Discover(s, root, i, value, explored, G, queue', parent', order', head);
      }
    }
    ScannedNext(s, G.nodes, order', head);
  }

  /** `explorados[v]` is set exactly for the nodes already in the tree under construction. */
  predicate Marks(explored: array<bool>, G: Graph)
    reads explored, G
  {
    forall v :: 0 <= v < explored.Length ==> (explored[v] <==> v in G.nodes)
  }

  /** One unexplored neighbour `value` of `i`: linked to `i`, marked explored, enqueued. */
  method Discover(ghost s: Adjacency, ghost root: int, i: int, value: int, explored: array<bool>, G: Graph,
                  queue: seq<int>, ghost parent: map<int, int>, ghost order: seq<int>, ghost head: int)
    returns (queue': seq<int>, ghost parent': map<int, int>, ghost order': seq<int>)
    modifies explored, G
    requires !G.directed && 0 <= value < explored.Length && Marks(explored, G)
    requires BfsInvariant(s, root, G.nodes, parent, order, head)
    requires head < |order| && i == order[head] && queue == order[head + 1..]
    requires value !in G.nodes && HasArc(s, i, value)
    ensures !G.directed && Marks(explored, G)
    ensures G.nodes.Keys == old(G.nodes).Keys + {value}
    ensures BfsInvariant(s, root, G.nodes, parent', order', head)
    ensures head < |order'| && i == order'[head] && queue' == order'[head + 1..]
  {
    BfsDiscover(s, root, G.nodes, parent, order, head, i, value);
    var linked := G.LinkNodes(i, value);
    explored[value] := true;
    AppendDrop(order, head + 1, value);
    queue' := queue + [value];
    parent', order' := parent[value := i], order + [value];
  }

  /** The nodes `order[..upTo]` have had all their neighbours discovered. */
  ghost predicate Scanned(s: Adjacency, adj: Adjacency, order: seq<int>, upTo: int)
  {
    0 <= upTo <= |order| && forall k :: 0 <= k < upTo ==> NeighboursOr(s, order[k]) <= adj.Keys
  }

  /**
   * The state of the breadth-first search after `head` dequeues: a search tree of discovered nodes,
   * all reachable from the root, whose first `head` nodes have been scanned.
   */
  ghost predicate BfsInvariant(s: Adjacency, root: int, adj: Adjacency, parent: map<int, int>, order: seq<int>, head: int)
  {
    && PartialTree(s, root, adj, parent, order)
    && Scanned(s, adj, order, head)
  }

  /** Discovering `v` from the node `u` being scanned keeps the invariant. */
  lemma BfsDiscover(s: Adjacency, root: int, adj: Adjacency, parent: map<int, int>, order: seq<int>, head: int,
                    u: int, v: int)
    requires BfsInvariant(s, root, adj, parent, order, head)
    requires u in adj && v !in adj && HasArc(s, u, v)
    ensures BfsInvariant(s, root, AddEdge(adj, false, u, v), parent[v := u], order + [v], head)
  {
    PartialTreeGrows(s, root, adj, parent, order, u, v);
    ScannedGrows(s, adj, AddEdge(adj, false, u, v), order, v, head);
  }

  /** Scanned nodes stay scanned as the tree and the discovery order grow. */
  lemma ScannedGrows(s: Adjacency, adj: Adjacency, adj': Adjacency, order: seq<int>, v: int, head: int)
    requires Scanned(s, adj, order, head) && adj.Keys <= adj'.Keys
    ensures Scanned(s, adj', order + [v], head)
  {
    forall k | 0 <= k < head
      ensures NeighboursOr(s, (order + [v])[k]) <= adj'.Keys
    {
      assert (order + [v])[k] == order[k];
    }
  }

  /** Once every neighbour of `order[h]` is discovered, one more node counts as scanned. */
  lemma ScannedNext(s: Adjacency, adj: Adjacency, order: seq<int>, h: int)
    requires Scanned(s, adj, order, h) && h < |order|
    requires NeighboursOr(s, order[h]) <= adj.Keys
    ensures Scanned(s, adj, order, h + 1)
  {
  }

  /** When every discovered node is scanned, the discovered set is closed under arcs. */
  lemma ScannedAllClosed(s: Adjacency, adj: Adjacency, order: seq<int>)
    requires Scanned(s, adj, order, |order|) && adj.Keys == (set k | k in order)
    ensures forall u :: u in adj.Keys ==> NeighboursOr(s, u) <= adj.Keys
  {
    forall u | u in adj.Keys
      ensures NeighboursOr(s, u) <= adj.Keys
    {
      var k :| 0 <= k < |order| && order[k] == u;
    }
  }

  /** Growing `b` strictly shrinks what of `all` it leaves out. */
  lemma DifferenceShrinks(all: set<int>, a: set<int>, b: set<int>)
    requires a <= b <= all && a != b
    ensures all - b < all - a
  {
    assert b == a + (b - a);
  }
}
