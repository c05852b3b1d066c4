/**
 * The class `Graph` of Graph.java: a directedness flag and an adjacency map that the
 * mutation primitives update in place.
 */
module Graphs {
  import opened Wrappers
  import opened AdjacencyMaps
  import opened Sets
  import opened JavaText
  import opened GraphVizFormat

  class Graph {
    /** `dirigido`: fixed when the graph is built. */
    var directed: bool
    /** `nodes`: id -> ids of its neighbours. */
    var nodes: Adjacency

    /** `Graph()`: an empty undirected graph. */
    constructor ()
      ensures !directed && nodes == map[]
    {
      directed := false;
      nodes := map[];
    }

    /** `Graph(dirigido)`. */
    constructor WithDirection(directed: bool)
      ensures this.directed == directed && nodes == map[]
    {
      this.directed := directed;
      nodes := map[];
    }

    /** `addNode(id)`: a no-op when `id` is a key, otherwise a new key with no neighbours. */
    method AddNode(id: int)
      modifies this
      ensures directed == old(directed)
      ensures nodes == AddVertex(old(nodes), id)
    {
      if id !in nodes {
        nodes := nodes[id := {}];
      }
    }

    /**
     * `addNode(id, neighbors)`: installs the given set as the neighbours of `id`, then links
     * `id` to each of them, one at a time in no particular order.
     */
    method AddNodeWith(id: int, neighbors: set<int>)
      modifies this
      ensures directed == old(directed)
      ensures nodes == Install(old(nodes), directed, id, neighbors)
    {
      ghost var m0 := nodes;
      nodes := nodes[id := neighbors];
      InstallNothing(m0, directed, id, neighbors);
      var rest := neighbors;
      while rest != {}
        invariant rest <= neighbors
        invariant directed == old(directed)
        invariant nodes == InstallUpTo(m0, directed, id, neighbors, neighbors - rest)
        decreases rest
      {
        HasMember(rest);
        var n :| n in rest;
        ghost var done := neighbors - rest;
        rest := rest - {n};
        assert neighbors - rest == done + {n};
        var linked := LinkNodes(id, n);
        InstallStep(m0, directed, id, neighbors, done, n);
      }
    }

    /** `dropNode(id)`: removes the key only; other neighbour sets may still mention `id`. */
    method DropNode(id: int)
      modifies this
      ensures directed == old(directed)
      ensures nodes.Keys == old(nodes).Keys - {id}
      ensures forall k :: k in nodes ==> nodes[k] == old(nodes)[k]
    {
      nodes := nodes - {id};
    }

    /** `getSize()`: the number of nodes. */
    function Size(): (n: nat)
      reads this
      ensures n == |nodes.Keys|
    {
      |nodes|
    }

    /** `getNeighbors(id)`: the neighbour set, or null (`None`) for an absent id. */
    function Neighbors(id: int): (r: Option<set<int>>)
      reads this
      ensures r.Some? <==> id in nodes
      ensures r.Some? ==> r.value == nodes[id]
    {
      if id in nodes then Some(nodes[id]) else None
    }

    /** `existsNode(id)`: `getNeighbors` did not return null. */
    function ExistsNode(id: int): (b: bool)
      reads this
      ensures b <==> id in nodes
    {
      Neighbors(id) != None
    }

    /**
     * `isLinked(a, b)`: whether `a -> b` is recorded. The set of `a` is dereferenced, so an absent `a`
     * raises a NullPointerException.
     */
    function IsLinked(a: int, b: int): (r: Result<bool, Failure>)
      reads this
      ensures r.Err? <==> a !in nodes
      ensures r.Err? ==> r.error == NullPointer
      ensures r.Ok? ==> (r.value <==> HasArc(nodes, a, b))
    {
      match Neighbors(a)
      case None => Err(NullPointer)
      case Some(s) => Ok(b in s)
    }

    /**
     * `linkNodes(a, b)`: creates missing endpoints and records `a -> b` (and `b -> a` when undirected).
     * The result is what `Set.add` returned last: in directed mode whether `b` was new for `a`, in
     * undirected mode whether `a` was new for `b` -- which is false for a self-link `a == b`, because
     * the first `add` already put `a` into that same set.
     */
    method LinkNodes(a: int, b: int) returns (added: bool)
      modifies this
      ensures directed == old(directed)
      ensures nodes == AddEdge(old(nodes), directed, a, b)
      ensures directed ==> (added <==> b !in NeighboursOr(old(nodes), a))
      ensures !directed ==> (added <==> a != b && a !in NeighboursOr(old(nodes), b))
    {
      if a !in nodes {
        AddNode(a);
      }
      if b !in nodes {
        AddNode(b);
      }
      if directed {
        added := b !in nodes[a];
        nodes := nodes[a := nodes[a] + {b}];
      } else {
        nodes := nodes[a := nodes[a] + {b}];
        added := a !in nodes[b];
        nodes := nodes[b := nodes[b] + {a}];
      }
    }

    /**
     * `clone()`: a new graph of the same directedness, built by `addNode(id, neighbors)` for every key.
     * Every original arc is kept; an arc of the copy is an original arc or, when undirected, the mirror
     * of one; ids that only occur as neighbours become keys. A symmetric graph, or a directed graph
     * without dangling ids, is copied exactly.
     */
    method Clone() returns (g: Graph)
      ensures fresh(g)
      ensures g.directed == directed
      ensures g.nodes.Keys == nodes.Keys + TargetsOf(nodes, nodes.Keys)
      ensures forall k :: k in nodes ==> nodes[k] <= g.nodes[k]
      ensures forall u, w :: HasArc(g.nodes, u, w) ==>
        HasArc(nodes, u, w) || (!directed && HasArc(nodes, w, u))
      ensures Symmetric(nodes) || (directed && Closed(nodes)) ==> g.nodes == nodes
    {
      g := new Graph.WithDirection(directed);
      var rest := nodes.Keys;
      while rest != {}
        invariant rest <= nodes.Keys
        invariant fresh(g) && g.directed == directed
        invariant CopiedSoFar(nodes, directed, nodes.Keys - rest, g.nodes)
        decreases rest
      {
        HasMember(rest);
        var node :| node in rest;
        ghost var done := nodes.Keys - rest;
        rest := rest - {node};
        assert nodes.Keys - rest == done + {node};
        CloneStep(nodes, directed, done, g.nodes, node);
        g.AddNodeWith(node, nodes[node]);
      }
      if Symmetric(nodes) || (directed && Closed(nodes)) {
        CopyIsExact(nodes, g.nodes, directed);
      }
    }

    /**
     * `toGrahpViz()`: one `"  id;"` line per key, then the header in front, then one line per arc
     * (only `node < value` when undirected), then `"}"`. Keys and neighbours come out in hash order,
     * returned as `keys` and `arcs`: each key and each written arc exactly once.
     */
    method ToGraphViz() returns (res: string, ghost keys: seq<int>, ghost arcs: seq<(int, int)>)
      ensures Listing(directed, nodes, keys, arcs)
      ensures res == Render(directed, keys, arcs)
    {
      res, keys := "", [];
      var rest := nodes.Keys;
      while rest != {}
        invariant rest <= nodes.Keys
        invariant Distinct(keys) && (set k | k in keys) == nodes.Keys - rest
        invariant res == Unlines(NodeLines(keys))
        decreases rest
      {
        HasMember(rest);
        var node :| node in rest;
        KeyListed(keys, nodes.Keys, rest, node);
        NodeWritten(keys, node);
        rest := rest - {node};
        res := res + "  " + IntToString(node) + ";\n";
        keys := keys + [node];
      }
      var arista := if directed then " -> " else " -- ";
      HeaderWritten(directed, NodeLines(keys));
      res := (if directed then "digraph {\n" else "graph {\n") + res;
      res, arcs := WriteEdges(arista, res, [HeaderLine(directed)] + NodeLines(keys));
      res := res + "}";
    }

    /** The `for (Map.Entry ... : nodes.entrySet())` loop: the lines of every key's arcs. */
    method WriteEdges(arista: string, res0: string, ghost lines: seq<string>) returns (res: string, ghost arcs: seq<(int, int)>)
      requires arista == Arrow(directed) && res0 == Unlines(lines)
      ensures Distinct(arcs) && (set p | p in arcs) == ArcsFrom(nodes, directed, nodes.Keys)
      ensures res == Unlines(lines + EdgeLines(directed, arcs))
    {
      res, arcs := res0, [];
      assert lines + EdgeLines(directed, arcs) == lines;
      var rest := nodes.Keys;
      while rest != {}
        invariant rest <= nodes.Keys
        invariant Distinct(arcs) && (set p | p in arcs) == ArcsFrom(nodes, directed, nodes.Keys - rest)
        invariant res == Unlines(lines + EdgeLines(directed, arcs))
        decreases rest
      {
        HasMember(rest);
        var node :| node in rest;
        ghost var done := nodes.Keys - rest;
        res, arcs := WriteArcsOf(arista, node, res, lines, arcs, done);
        Shift(nodes.Keys, rest, node);
        rest := rest - {node};
      }
    }

    /** The inner `for (Integer value : n.getValue())` loop over the neighbours of one key. */
    method WriteArcsOf(arista: string, node: int, res0: string, ghost lines: seq<string>,
                       ghost arcs0: seq<(int, int)>, ghost done: set<int>)
      returns (res: string, ghost arcs: seq<(int, int)>)
      requires arista == Arrow(directed) && node in nodes && node !in done
      requires Distinct(arcs0) && (set p | p in arcs0) == ArcsFrom(nodes, directed, done)
      requires res0 == Unlines(lines + EdgeLines(directed, arcs0))
      ensures Distinct(arcs) && (set p | p in arcs) == ArcsFrom(nodes, directed, done + {node})
      ensures res == Unlines(lines + EdgeLines(directed, arcs))
    {
      res, arcs := res0, arcs0;
      var rest := nodes[node];
      while rest != {}
        invariant rest <= nodes[node]
        invariant Distinct(arcs)
        invariant (set p | p in arcs) == ArcsFrom(nodes, directed, done) + ArcsOf(directed, node, nodes[node] - rest)
        invariant res == Unlines(lines + EdgeLines(directed, arcs))
        decreases rest
      {
        HasMember(rest);
        var value :| value in rest;
        ghost var seenValues := nodes[node] - rest;
        rest := rest - {value};
        assert nodes[node] - rest == seenValues + {value};
        if directed || node < value {
          EdgeWritten(lines, arcs, directed, node, value);
          NewArc(arcs, nodes, directed, done, node, seenValues, value);
          res := res + "  " + IntToString(node) + arista + IntToString(value) + ";\n";
          arcs := arcs + [(node, value)];
        } else {
          SkippedArc(arcs, nodes, directed, done, node, seenValues, value);
        }
      }
      ArcsFromGrows(nodes, directed, done, node);
    }
  }

  /** Before any back-link, `addNode(id, neighbors)` has only overwritten the entry of `id`. */
  lemma InstallNothing(m: Adjacency, directed: bool, id: int, nbrs: set<int>)
    ensures InstallUpTo(m, directed, id, nbrs, {}) == m[id := nbrs]
  {
    var r := InstallUpTo(m, directed, id, nbrs, {});
    assert r.Keys == m[id := nbrs].Keys;
    forall k | k in r
      ensures r[k] == m[id := nbrs][k]
    {
    }
  }

  /** One back-link of `addNode(id, neighbors)` extends the installed prefix by one neighbour. */
  lemma InstallStep(m: Adjacency, directed: bool, id: int, nbrs: set<int>, done: set<int>, n: int)
    requires n in nbrs && done <= nbrs
    ensures AddEdge(InstallUpTo(m, directed, id, nbrs, done), directed, id, n)
         == InstallUpTo(m, directed, id, nbrs, done + {n})
  {
    var before := InstallUpTo(m, directed, id, nbrs, done);
    var after := InstallUpTo(m, directed, id, nbrs, done + {n});
    var r := LinkInstalled(before, directed, id, nbrs, n);
    assert r.Keys == after.Keys;
    forall k | k in r
      ensures r[k] == after[k]
    {
      InstallStepAt(m, directed, id, nbrs, done, n, r, k);
    }
  }

  /** The entry of one key after the back-link to `n`. */
  lemma InstallStepAt(m: Adjacency, directed: bool, id: int, nbrs: set<int>, done: set<int>, n: int,
                      r: Adjacency, k: int)
    requires n in nbrs && done <= nbrs
    requires r == (var m1 := AddVertex(InstallUpTo(m, directed, id, nbrs, done), n)[id := nbrs];
                   if directed then m1 else m1[n := m1[n] + {id}])
    requires k in r
    ensures k in InstallUpTo(m, directed, id, nbrs, done + {n})
    ensures r[k] == InstallUpTo(m, directed, id, nbrs, done + {n})[k]
  {
    var before := InstallUpTo(m, directed, id, nbrs, done);
    var after := InstallUpTo(m, directed, id, nbrs, done + {n});
    if k == id {
      assert r[k] == nbrs == after[k];
    } else if k == n {
      assert r[k] == NeighboursOr(m, k) + (if !directed then {id} else {}) == after[k];
    } else {
      assert k in before && after[k] == before[k];
    }
  }

  /** `linkNodes(id, n)` when `id` already holds a set containing `n`: only `n`'s entry can change. */
  lemma LinkInstalled(before: Adjacency, directed: bool, id: int, nbrs: set<int>, n: int) returns (r: Adjacency)
    requires id in before && before[id] == nbrs && n in nbrs
    ensures r == AddEdge(before, directed, id, n)
    ensures r == (var m1 := AddVertex(before, n)[id := nbrs];
                  if directed then m1 else m1[n := m1[n] + {id}])
  {
    assert AddVertex(before, id) == before;
    assert nbrs + {n} == nbrs;
    r := AddEdge(before, directed, id, n);
  }

  /**
   * What `clone()` has built after the keys in `done` were installed: those keys and their
   * neighbours are keys of the copy, each installed key keeps all its neighbours, and every arc of
   * the copy is an arc of an installed key or, when undirected, the mirror of one.
   */
  ghost predicate CopiedSoFar(m: Adjacency, directed: bool, done: set<int>, c: Adjacency)
  {
    && done <= m.Keys
    && c.Keys == done + TargetsOf(m, done)
    && (forall k :: k in done ==> m[k] <= c[k])
    && (forall u, w :: HasArc(c, u, w) ==>
          (u in done && HasArc(m, u, w)) || (!directed && w in done && HasArc(m, w, u)))
  }

  /** Installing one more key keeps `CopiedSoFar`. */
  lemma CloneStep(m: Adjacency, directed: bool, done: set<int>, c: Adjacency, x: int)
    requires CopiedSoFar(m, directed, done, c)
    requires x in m && x !in done
    ensures CopiedSoFar(m, directed, done + {x}, Install(c, directed, x, m[x]))
  {
    var c' := Install(c, directed, x, m[x]);
    assert TargetsOf(m, done + {x}) == TargetsOf(m, done) + m[x] by {
      forall w | w in m[x]
        ensures w in TargetsOf(m, done + {x})
      {
        assert x in done + {x} && x in m && w in m[x];
      }
    }
    assert c'.Keys == (done + {x}) + TargetsOf(m, done + {x});
    forall u, w | HasArc(c', u, w)
      ensures (u in done + {x} && HasArc(m, u, w)) || (!directed && w in done + {x} && HasArc(m, w, u))
    {
      if u != x && !HasArc(c, u, w) {
        assert !directed && u in m[x] && w == x;
      }
    }
  }

  /** The copy made by `Clone` equals the original when nothing needs mirroring or creating. */
  lemma CopyIsExact(m: Adjacency, c: Adjacency, directed: bool)
    requires Symmetric(m) || (directed && Closed(m))
    requires CopiedSoFar(m, directed, m.Keys, c)
    ensures c == m
  {
    assert TargetsOf(m, m.Keys) <= m.Keys by {
      forall w | w in TargetsOf(m, m.Keys)
        ensures w in m
      {
        var u :| u in m && w in m[u];
        assert HasArc(m, u, w);
        if Symmetric(m) {
          assert HasArc(m, w, u);
        }
      }
    }
    forall k | k in c
      ensures c[k] == m[k]
    {
      forall w | w in c[k]
        ensures w in m[k]
      {
        assert HasArc(c, k, w);
        if !directed && HasArc(m, w, k) {
          assert HasArc(m, k, w);
        }
      }
    }
  }

  /** Writing one more node line, in the shape of the writer's `res += "  " + node + ";\n"`. */
  lemma NodeWritten(keys: seq<int>, k: int)
    ensures Unlines(NodeLines(keys + [k])) == Unlines(NodeLines(keys)) + "  " + IntToString(k) + ";\n"
  {
    NodeLinesSnoc(keys, k);
    UnlinesSnoc(NodeLines(keys), NodeText(k));
    NodeLineAppended(Unlines(NodeLines(keys)), "  ", IntToString(k));
  }

  /** Listing one more key. */
  lemma KeyListed(keys: seq<int>, all: set<int>, rest: set<int>, k: int)
    requires Distinct(keys) && (set x | x in keys) == all - rest && k in rest && rest <= all
    ensures Distinct(keys + [k]) && (set x | x in keys + [k]) == all - (rest - {k})
  {
    assert k !in keys by {
      assert k !in all - rest;
    }
    assert (set x | x in keys + [k]) == (set x | x in keys) + {k};
  }

  /** Writing the header in front of the node lines, as `"digraph {\n" + res` or `"graph {\n" + res`. */
  lemma HeaderWritten(directed: bool, ls: seq<string>)
    ensures Unlines([HeaderLine(directed)] + ls) == (if directed then "digraph {\n" else "graph {\n") + Unlines(ls)
  {
    PrependLine(HeaderLine(directed), ls);
  }

  /** Writing one more edge line, in the shape of `res += "  " + node + arista + value + ";\n"`. */
  lemma EdgeWritten(lines: seq<string>, arcs: seq<(int, int)>, directed: bool, a: int, b: int)
    ensures Unlines(lines + EdgeLines(directed, arcs + [(a, b)]))
         == Unlines(lines + EdgeLines(directed, arcs)) + "  " + IntToString(a) + Arrow(directed) + IntToString(b) + ";\n"
  {
    var e := EdgeText(directed, a, b);
    EdgeLinesSnoc(directed, arcs, a, b);
    SnocAssoc(lines, EdgeLines(directed, arcs), e);
    UnlinesSnoc(lines + EdgeLines(directed, arcs), e);
    EdgeLineAppended(Unlines(lines + EdgeLines(directed, arcs)), "  ", IntToString(a), Arrow(directed), IntToString(b));
  }

  /** A terminated node line written after `r`, piece by piece. */
  lemma NodeLineAppended(r: string, a: string, b: string)
    ensures r + (a + b + ";") + "\n" == r + a + b + ";\n"
  {
  }

  /** A terminated edge line written after `r`, piece by piece. */
  lemma EdgeLineAppended(r: string, a: string, b: string, c: string, d: string)
    ensures r + (a + b + c + d + ";") + "\n" == r + a + b + c + d + ";\n"
  {
  }

  /** Listing an arc of the key being written, towards a neighbour not visited yet. */
  lemma NewArc(arcs: seq<(int, int)>, m: Adjacency, directed: bool, done: set<int>, u: int, ws: set<int>, w: int)
    requires Distinct(arcs) && u !in done && w !in ws && (directed || u < w)
    requires (set p | p in arcs) == ArcsFrom(m, directed, done) + ArcsOf(directed, u, ws)
    ensures Distinct(arcs + [(u, w)])
    ensures (set p | p in arcs + [(u, w)]) == ArcsFrom(m, directed, done) + ArcsOf(directed, u, ws + {w})
  {
    assert (u, w) !in ArcsFrom(m, directed, done);
    assert (u, w) !in ArcsOf(directed, u, ws);
    assert (u, w) !in arcs;
    assert (set p | p in arcs + [(u, w)]) == (set p | p in arcs) + {(u, w)};
    ArcsOfGrows(directed, u, ws, w);
  }

  /** Skipping a neighbour whose arc gets no line (`node >= value` when undirected). */
  lemma SkippedArc(arcs: seq<(int, int)>, m: Adjacency, directed: bool, done: set<int>, u: int, ws: set<int>, w: int)
    requires !(directed || u < w)
    requires (set p | p in arcs) == ArcsFrom(m, directed, done) + ArcsOf(directed, u, ws)
    ensures (set p | p in arcs) == ArcsFrom(m, directed, done) + ArcsOf(directed, u, ws + {w})
  {
    ArcsOfGrows(directed, u, ws, w);
  }
}
