/**
 * What the traversals of Graph.java promise: reachability in the source graph, and the shape of
 * the tree they build (each discovered node linked to the node it was discovered from).
 */
module SearchTrees {
  import opened AdjacencyMaps
  import Graphs

  /** Outcome of `getBFSFromGraph`, `getDFSFromGraph` and `getDFSi_FromGraph`: null becomes `NodeNotFound`. */
  datatype Search = NodeNotFound | Tree(graph: Graphs.Graph)

  /** `p` is a non-empty walk along arcs of `m`. */
  ghost predicate IsPath(m: Adjacency, p: seq<int>)
  {
    |p| > 0 && forall i :: 0 <= i < |p| - 1 ==> HasArc(m, p[i], p[i + 1])
  }

  /** Some walk along arcs of `m` leads from `root` to `v`. */
  ghost predicate Reachable(m: Adjacency, root: int, v: int)
  {
    exists p :: IsPath(m, p) && p[0] == root && p[|p| - 1] == v
  }

  /**
   * What the traversals need to run without an exception: every node reachable from `root` has a
   * neighbour set, and its id indexes `explorados`, an array of `getSize()` entries.
   */
  ghost predicate IndexedFrom(m: Adjacency, root: int)
  {
    forall v :: Reachable(m, root, v) ==> v in m && 0 <= v < |m|
  }

  /** `u` and `w` are joined by the tree link of one of them. */
  ghost predicate TreeEdge(parent: map<int, int>, u: int, w: int)
  {
    (u in parent && parent[u] == w) || (w in parent && parent[w] == u)
  }

  /** The arcs of `adj` are exactly the tree links of `parent`, in both directions. */
  ghost predicate HoldsTreeEdges(adj: Adjacency, parent: map<int, int>)
  {
    forall u, w :: HasArc(adj, u, w) <==> TreeEdge(parent, u, w)
  }

  /** `order` lists distinct nodes, starting at `root`; every later node's parent comes before it. */
  ghost predicate DiscoveryOrder(root: int, parent: map<int, int>, order: seq<int>)
  {
    && |order| > 0
    && order[0] == root
    && (forall i, j :: 0 <= i < j < |order| ==> order[i] != order[j])
    && (forall k :: 0 < k < |order| ==> order[k] in parent && parent[order[k]] in order[..k])
  }

  /**
   * `adj` is a search tree of `s` rooted at `root`: its nodes were discovered in `order`, every node
   * but the root is linked (in both directions) to its discoverer `parent[v]` and to nothing else,
   * and every such link `parent[v] -> v` is an arc of `s`.
   */
  ghost predicate SearchTree(s: Adjacency, root: int, adj: Adjacency, parent: map<int, int>, order: seq<int>)
  {
    && DiscoveryOrder(root, parent, order)
    && adj.Keys == (set k | k in order)
    && parent.Keys == adj.Keys - {root}
    && (forall v :: v in parent ==> HasArc(s, parent[v], v))
    && HoldsTreeEdges(adj, parent)
  }

  /** A search tree of `s` built so far, all of whose nodes are reachable from the root in `s`. */
  ghost predicate PartialTree(s: Adjacency, root: int, adj: Adjacency, parent: map<int, int>, order: seq<int>)
  {
    SearchTree(s, root, adj, parent, order) && forall v :: v in adj ==> Reachable(s, root, v)
  }

  /** Linking a newly discovered `v` to the tree node `u` keeps a partial tree. */
  lemma PartialTreeGrows(s: Adjacency, root: int, adj: Adjacency, parent: map<int, int>, order: seq<int>, u: int, v: int)
    requires PartialTree(s, root, adj, parent, order)
    requires u in adj && v !in adj && HasArc(s, u, v)
    ensures PartialTree(s, root, AddEdge(adj, false, u, v), parent[v := u], order + [v])
  {
    SearchTreeGrows(s, root, adj, parent, order, u, v);
    ReachableStep(s, root, u, v);
  }

  /** The one-node tree of the root. */
  lemma PartialTreeStart(s: Adjacency, root: int)
    ensures PartialTree(s, root, map[root := {}], map[], [root])
  {
    ReachableRoot(s, root);
    assert HoldsTreeEdges(map[root := {}], map[]);
  }

  /** A partial tree whose node set is closed under the arcs of `s` holds every reachable node. */
  lemma PartialTreeComplete(s: Adjacency, root: int, adj: Adjacency, parent: map<int, int>, order: seq<int>)
    requires PartialTree(s, root, adj, parent, order)
    requires forall u :: u in adj.Keys ==> NeighboursOr(s, u) <= adj.Keys
    ensures forall v :: v in adj <==> Reachable(s, root, v)
  {
    ClosedHoldsReachable(s, root, adj.Keys);
  }

  /** The root reaches itself by the one-node walk. */
  lemma ReachableRoot(m: Adjacency, root: int)
    ensures Reachable(m, root, root)
  {
    assert IsPath(m, [root]);
  }

  /** Reachability extends along one arc. */
  lemma ReachableStep(m: Adjacency, root: int, u: int, v: int)
    requires Reachable(m, root, u) && HasArc(m, u, v)
    ensures Reachable(m, root, v)
  {
    var p :| IsPath(m, p) && p[0] == root && p[|p| - 1] == u;
    var q := p + [v];
    assert IsPath(m, q);
  }

  /** A reachable node is a key, and its neighbours are valid indexes of `explorados`. */
  lemma NeighboursIndexed(m: Adjacency, root: int, u: int)
    requires IndexedFrom(m, root) && Reachable(m, root, u)
    ensures u in m && forall v :: v in m[u] ==> 0 <= v < |m| && Reachable(m, root, v)
  {
    forall v | v in m[u]
      ensures 0 <= v < |m| && Reachable(m, root, v)
    {
      ReachableStep(m, root, u, v);
    }
  }

  /** A walk that starts in a set closed under arcs stays in it. */
  lemma {:induction false} PathStaysIn(m: Adjacency, p: seq<int>, s: set<int>)
    requires IsPath(m, p) && p[0] in s
    requires forall u :: u in s ==> NeighboursOr(m, u) <= s
    ensures p[|p| - 1] in s
  {
    if |p| > 1 {
      var q := p[..|p| - 1];
      assert IsPath(m, q);
      PathStaysIn(m, q, s);
      assert HasArc(m, q[|q| - 1], p[|p| - 1]);
    }
  }

  /** A set holding the root and closed under arcs holds every reachable node. */
  lemma ClosedHoldsReachable(m: Adjacency, root: int, s: set<int>)
    requires root in s
    requires forall u :: u in s ==> NeighboursOr(m, u) <= s
    ensures forall v :: Reachable(m, root, v) ==> v in s
  {
    forall v | Reachable(m, root, v)
      ensures v in s
    {
      var p :| IsPath(m, p) && p[0] == root && p[|p| - 1] == v;
      PathStaysIn(m, p, s);
    }
  }

  /**
   * A search tree is a tree: it is symmetric, every node is reachable from the root along tree links,
   * and it has one link per non-root node, i.e. |nodes| - 1 undirected edges.
   */
  lemma SearchTreeIsTree(s: Adjacency, root: int, adj: Adjacency, parent: map<int, int>, order: seq<int>)
    requires SearchTree(s, root, adj, parent, order)
    ensures Symmetric(adj)
    ensures forall v :: v in adj ==> Reachable(adj, root, v)
    ensures |parent| + 1 == |adj|
  {
    forall u, w | HasArc(adj, u, w)
      ensures HasArc(adj, w, u)
    {
      assert TreeEdge(parent, u, w);
      assert TreeEdge(parent, w, u);
    }
    forall v | v in adj
      ensures Reachable(adj, root, v)
    {
      var k :| 0 <= k < |order| && order[k] == v;
      OrderPrefixReachable(adj, root, parent, order, k);
    }
    assert adj.Keys - {root} + {root} == adj.Keys;
  }

  /** Every node of a discovery order is reachable from the root along tree links. */
  lemma {:induction false} OrderPrefixReachable(adj: Adjacency, root: int, parent: map<int, int>, order: seq<int>, k: nat)
    requires DiscoveryOrder(root, parent, order) && HoldsTreeEdges(adj, parent)
    requires adj.Keys == (set x | x in order)
    requires k < |order|
    ensures Reachable(adj, root, order[k])
    decreases k
  {
    if k == 0 {
      ReachableRoot(adj, root);
    } else {
      var v := order[k];
      var j :| 0 <= j < k && order[j] == parent[v];
      OrderPrefixReachable(adj, root, parent, order, j);
      assert TreeEdge(parent, parent[v], v);
      assert parent[v] in adj;
      ReachableStep(adj, root, parent[v], v);
    }
  }

  /** Linking a newly discovered `v` to the node `u` it was discovered from keeps a search tree. */
  lemma SearchTreeGrows(s: Adjacency, root: int, adj: Adjacency, parent: map<int, int>, order: seq<int>, u: int, v: int)
    requires SearchTree(s, root, adj, parent, order)
    requires u in adj && v !in adj && HasArc(s, u, v)
    ensures SearchTree(s, root, AddEdge(adj, false, u, v), parent[v := u], order + [v])
  {
    OrderGrows(root, parent, order, u, v);
    TreeEdgesGrow(adj, parent, u, v);
    NodesGrow(s, root, adj, parent, order, u, v, parent[v := u]);
  }

  /** The node set, the parent map's domain and the arcs behind the links grow by `v` alone. */
  lemma NodesGrow(s: Adjacency, root: int, adj: Adjacency, parent: map<int, int>, order: seq<int>, u: int, v: int,
                  parent': map<int, int>)
    requires parent' == parent[v := u]
    requires adj.Keys == (set k | k in order) && parent.Keys == adj.Keys - {root} && root in adj
    requires forall x :: x in parent ==> HasArc(s, parent[x], x)
    requires u in adj && v !in adj && HasArc(s, u, v)
    ensures AddEdge(adj, false, u, v).Keys == (set k | k in order + [v])
    ensures parent'.Keys == AddEdge(adj, false, u, v).Keys - {root}
    ensures forall x :: x in parent' ==> HasArc(s, parent'[x], x)
  {
    assert (set k | k in order + [v]) == (set k | k in order) + {v};
  }

  /** Appending a new node whose parent is already listed keeps a discovery order. */
  lemma OrderGrows(root: int, parent: map<int, int>, order: seq<int>, u: int, v: int)
    requires DiscoveryOrder(root, parent, order)
    requires u in order && v !in order
    ensures DiscoveryOrder(root, parent[v := u], order + [v])
  {
    var parent' := parent[v := u];
    var order' := order + [v];
    forall k | 0 < k < |order'|
      ensures order'[k] in parent' && parent'[order'[k]] in order'[..k]
    {
      if k < |order| {
        assert order'[..k] == order[..k];
      } else {
        assert order'[..k] == order;
      }
    }
  }

  /** Adding the two arcs between a fresh `v` and a tree node `u` adds exactly the tree link of `v`. */
  lemma TreeEdgesGrow(adj: Adjacency, parent: map<int, int>, u: int, v: int)
    requires HoldsTreeEdges(adj, parent)
    requires u in adj && v !in adj
    ensures HoldsTreeEdges(AddEdge(adj, false, u, v), parent[v := u])
  {
    var adj' := AddEdge(adj, false, u, v);
    var parent' := parent[v := u];
    assert v !in parent by {
      if v in parent {
        assert TreeEdge(parent, v, parent[v]);
      }
    }
    forall x, y | HasArc(adj', x, y)
      ensures TreeEdge(parent', x, y)
    {
      if HasArc(adj, x, y) {
        assert TreeEdge(parent, x, y);
      }
    }
    forall x, y | TreeEdge(parent', x, y)
      ensures HasArc(adj', x, y)
    {
      if x != v && y != v {
        assert TreeEdge(parent, x, y);
      } else if y == v && x in parent && parent[x] == v {
        assert TreeEdge(parent, x, v);
        assert HasArc(adj, v, x);
      }
    }
  }
}
