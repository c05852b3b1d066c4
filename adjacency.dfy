/**
 * The adjacency map of Graph.java (`HashMap<Integer, Set<Integer>> nodes`) as a value,
 * and the pure effect of each of its mutation primitives on that value.
 */
module AdjacencyMaps {

  /** Node id -> set of ids it points to. */
  type Adjacency = map<int, set<int>>

  /** The neighbour set of `id`, or the empty set when `id` is not a key. */
  function NeighboursOr(m: Adjacency, id: int): set<int>
  {
    if id in m then m[id] else {}
  }

  /** `u -> w` is recorded in `m`. */
  predicate HasArc(m: Adjacency, u: int, w: int)
  {
    u in m && w in m[u]
  }

  /** Every neighbour id is itself a key (no dangling references). */
  ghost predicate Closed(m: Adjacency)
  {
    forall u, w :: HasArc(m, u, w) ==> w in m
  }

  /** The undirected-mode invariant: every arc has its mirror. */
  ghost predicate Symmetric(m: Adjacency)
  {
    forall u, w :: HasArc(m, u, w) ==> HasArc(m, w, u)
  }

  /** No node lists itself as a neighbour. */
  ghost predicate Loopless(m: Adjacency)
  {
    forall u :: u in m ==> u !in m[u]
  }

  /** Effect of `addNode(id)`: a new key with no neighbours, unless `id` is already a key. */
  function AddVertex(m: Adjacency, id: int): (r: Adjacency)
    ensures r.Keys == m.Keys + {id}
    ensures forall k :: k in m ==> r[k] == m[k]
    ensures id !in m ==> r[id] == {}
  {
    if id in m then m else m[id := {}]
  }

  /**
   * Effect of `linkNodes(a, b)`: both endpoints become keys, `b` joins the neighbours of `a`,
   * and in undirected mode `a` joins the neighbours of `b`. Nothing else changes.
   */
  function AddEdge(m: Adjacency, directed: bool, a: int, b: int): (r: Adjacency)
    ensures r.Keys == m.Keys + {a, b}
    ensures forall u, w :: HasArc(r, u, w) <==>
      HasArc(m, u, w) || (u == a && w == b) || (!directed && u == b && w == a)
  {
    var m1 := AddVertex(AddVertex(m, a), b);
    var m2 := m1[a := m1[a] + {b}];
    if directed then m2 else m2[b := m2[b] + {a}]
  }

  /**
   * Effect of `addNode(id, neighbors)` on values: the neighbour set is installed as it is, and each
   * `linkNodes(id, n)` it then performs creates `n` if absent and, in undirected mode, adds `id` to `n`'s set.
   */
  ghost function Install(m: Adjacency, directed: bool, id: int, nbrs: set<int>): Adjacency
  {
    InstallUpTo(m, directed, id, nbrs, nbrs)
  }

  /** `Install` after only the neighbours in `done` have been linked back. */
  ghost function InstallUpTo(m: Adjacency, directed: bool, id: int, nbrs: set<int>, done: set<int>): Adjacency
  {
    map k | k in m.Keys + {id} + done ::
      if k == id then nbrs
      else NeighboursOr(m, k) + (if !directed && k in done then {id} else {})
  }

  /** Every id that occurs as a neighbour of a key in `from`. */
  ghost function TargetsOf(m: Adjacency, from: set<int>): set<int>
  {
    set u, w | u in from && u in m && w in m[u] :: w
  }

  /** In undirected mode, linking keeps adjacency symmetric. */
  lemma LinkPreservesSymmetry(m: Adjacency, a: int, b: int)
    requires Symmetric(m)
    ensures Symmetric(AddEdge(m, false, a, b))
  {
    var r := AddEdge(m, false, a, b);
    forall u, w | HasArc(r, u, w)
      ensures HasArc(r, w, u)
    {
      if HasArc(m, u, w) {
        assert HasArc(m, w, u);
      }
    }
  }

  /**
   * Under symmetry the undirected result of `linkNodes` (`a` was not a neighbour of `b`, and the
   * link is not a self-loop) means exactly that `a` and `b` were not linked before.
   */
  lemma UndirectedResultMeansNew(m: Adjacency, a: int, b: int)
    requires Symmetric(m)
    ensures (a != b && a !in NeighboursOr(m, b)) <==> (a != b && !HasArc(m, a, b))
  {
    if HasArc(m, a, b) {
      assert HasArc(m, b, a);
    }
    if a in NeighboursOr(m, b) {
      assert HasArc(m, b, a);
      assert HasArc(m, a, b);
    }
  }
}
