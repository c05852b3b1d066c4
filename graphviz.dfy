/**
 * The GraphViz text that `toGrahpViz` of Graph.java writes: a header line, one line per node, one
 * line per listed arc, and a closing brace.
 */
module GraphVizFormat {
  import opened AdjacencyMaps
  import opened JavaText

  /** `"digraph {"` or `"graph {"`. */
  function HeaderLine(directed: bool): string
  {
    if directed then "digraph {" else "graph {"
  }

  /** `arista`: the edge operator of the DOT language for each mode. */
  function Arrow(directed: bool): string
  {
    if directed then " -> " else " -- "
  }

  /** The line `"  " + node + ";"`. */
  function NodeText(id: int): string
  {
    "  " + IntToString(id) + ";"
  }

  /** The line `"  " + node + arista + value + ";"`. */
  function EdgeText(directed: bool, a: int, b: int): string
  {
    "  " + IntToString(a) + Arrow(directed) + IntToString(b) + ";"
  }

  /** The node lines for the keys in the order they were listed. */
  function NodeLines(keys: seq<int>): seq<string>
  {
    seq(|keys|, i requires 0 <= i < |keys| => NodeText(keys[i]))
  }

  /** The edge lines for the arcs in the order they were listed. */
  function EdgeLines(directed: bool, arcs: seq<(int, int)>): seq<string>
  {
    seq(|arcs|, i requires 0 <= i < |arcs| => EdgeText(directed, arcs[i].0, arcs[i].1))
  }

  /** The lines before the closing brace. */
  function Body(directed: bool, keys: seq<int>, arcs: seq<(int, int)>): seq<string>
  {
    [HeaderLine(directed)] + NodeLines(keys) + EdgeLines(directed, arcs)
  }

  /** The whole text: every body line terminated by `'\n'`, then `"}"` without terminator. */
  function Render(directed: bool, keys: seq<int>, arcs: seq<(int, int)>): string
  {
    Unlines(Body(directed, keys, arcs)) + "}"
  }

  ghost predicate Distinct<T>(s: seq<T>)
  {
    forall i, j :: 0 <= i < j < |s| ==> s[i] != s[j]
  }

  /** The arcs leaving `from` that get a line: all of them when directed, those with `u < w` otherwise. */
  ghost function ArcsFrom(m: Adjacency, directed: bool, from: set<int>): set<(int, int)>
  {
    set u, w | u in from && u in m && w in m[u] && (directed || u < w) :: (u, w)
  }

  /** The arcs of one node `u` towards the ids in `ws` that get a line. */
  ghost function ArcsOf(directed: bool, u: int, ws: set<int>): set<(int, int)>
  {
    set w | w in ws && (directed || u < w) :: (u, w)
  }

  /**
   * What the writer lists, in whatever order the hash map and hash sets are iterated: every key once,
   * and every arc that gets a line once.
   */
  ghost predicate Listing(directed: bool, m: Adjacency, keys: seq<int>, arcs: seq<(int, int)>)
  {
    && Distinct(keys) && (set k | k in keys) == m.Keys
    && Distinct(arcs) && (set p | p in arcs) == ArcsFrom(m, directed, m.Keys)
  }

  /**
   * The graphs whose text reads back as the same graph: ids are non-negative `int`s (a `-` would
   * turn a node line into an edge line), every neighbour is a key, and an undirected graph is
   * symmetric without self-loops (only `u < w` arcs are written).
   */
  ghost predicate Writable(directed: bool, m: Adjacency)
  {
    && (forall u :: u in m ==> 0 <= u <= INT_MAX)
    && Closed(m)
    && (!directed ==> Symmetric(m) && Loopless(m))
  }

  /** One more key listed adds its node line at the end. */
  lemma NodeLinesSnoc(keys: seq<int>, k: int)
    ensures NodeLines(keys + [k]) == NodeLines(keys) + [NodeText(k)]
  {
  }

  /** One more arc listed adds its edge line at the end. */
  lemma EdgeLinesSnoc(directed: bool, arcs: seq<(int, int)>, a: int, b: int)
    ensures EdgeLines(directed, arcs + [(a, b)]) == EdgeLines(directed, arcs) + [EdgeText(directed, a, b)]
  {
  }

  /** Appending a line to the text terminates it with `'\n'`. */
  lemma UnlinesSnoc(ls: seq<string>, x: string)
    ensures Unlines(ls + [x]) == Unlines(ls) + x + "\n"
  {
    UnlinesConcat(ls, [x]);
    assert Unlines([x]) == x + "\n" + Unlines([]);
  }

  /** Prepending the header line. */
  lemma PrependLine(h: string, ls: seq<string>)
    ensures Unlines([h] + ls) == h + "\n" + Unlines(ls)
  {
    assert ([h] + ls)[1..] == ls;
  }

  /** The arcs of the keys `from + {u}` are those of `from` and those of `u`. */
  lemma ArcsFromGrows(m: Adjacency, directed: bool, from: set<int>, u: int)
    requires u in m && u !in from
    ensures ArcsFrom(m, directed, from + {u}) == ArcsFrom(m, directed, from) + ArcsOf(directed, u, m[u])
  {
  }

  /** The arcs of `u` towards `ws + {w}`. */
  lemma ArcsOfGrows(directed: bool, u: int, ws: set<int>, w: int)
    ensures ArcsOf(directed, u, ws + {w}) == ArcsOf(directed, u, ws) + (if directed || u < w then {(u, w)} else {})
  {
  }
}
