/**
 * `loadFile` reads back what `toGrahpViz` writes: for a graph whose ids are non-negative `int`s and
 * whose undirected adjacency is symmetric and loop-free, the written text loads as the same graph,
 * whatever order the writer listed its nodes and arcs in.
 */
module GraphVizRoundTrip {
  import opened Wrappers
  import opened AdjacencyMaps
  import opened JavaText
  import opened GraphVizFormat
  import opened GraphLoader
  import opened Graphs

  /** The header line decides the mode: it contains `digraph` exactly when the graph is directed. */
  lemma HeaderParses(directed: bool)
    ensures Contains(HeaderLine(directed), "digraph") == directed
  {
    if directed {
      assert HeaderLine(directed)[..7] == "digraph";
    } else {
      assert HeaderLine(directed)[..7] != "digraph" by {
        assert HeaderLine(directed)[0] == 'g';
      }
    }
  }

  /** The closing brace holds no `;` and is skipped. */
  lemma ClosingParses(directed: bool)
    ensures ClassifyLine(directed, "}") == Ok(Skip)
  {
    TrimPadded("", "}", "");
    assert "" + "}" + "" == "}";
  }

  /** `";"` without its `;`. */
  lemma RemoveSemicolon(x: string)
    requires ';' !in x
    ensures RemoveChar(x + ";", ';') == x
  {
    RemoveConcat(x, ";", ';');
    RemoveAbsent(x, ';');
    assert RemoveChar(";", ';') == [];
  }

  /** A line indented by two blanks and ended by `;`, trimmed. */
  lemma IndentedLine(x: string)
    requires x != [] && !Blank(x[0])
    ensures Trim("  " + x + ";") == x + ";"
  {
    assert "  " + x + ";" == "  " + (x + ";") + "";
    TrimPadded("  ", x + ";", "");
  }

  /** One blank after a trimmed string, trimmed. */
  lemma PaddedRight(s: string)
    requires Trimmed(s)
    ensures Trim(s + " ") == s
  {
    assert s + " " == "" + s + " ";
    TrimPadded("", s, " ");
  }

  /** One blank before a trimmed string, trimmed. */
  lemma PaddedLeft(s: string)
    requires Trimmed(s)
    ensures Trim(" " + s) == s
  {
    assert " " + s == " " + s + "";
    TrimPadded(" ", s, "");
  }

  /** Five pieces of text, the middle three grouped. */
  lemma Regroup(p: string, a: string, b: string, c: string, q: string)
    ensures p + a + b + c + q == p + (a + b + c) + q
  {
  }

  /** A node line written for a non-negative id is read as `addNode` of that id. */
  lemma NodeLineParses(directed: bool, id: int)
    requires 0 <= id <= INT_MAX
    ensures ClassifyLine(directed, NodeText(id)) == Ok(NodeLine(id))
  {
    var s := IntToString(id);
    IndentedLine(s);
    RemoveSemicolon(s);
    ParseIntToString(id);
  }

  /** The two endpoints with the edge operator between them: the edge line once trimmed, without `;`. */
  function EdgeCore(directed: bool, a: int, b: int): string
  {
    IntToString(a) + Arrow(directed) + IntToString(b)
  }

  /** The core holds no `;`, holds a `-`, and is the separator between two blank-padded endpoints. */
  lemma CoreShape(sa: string, sep: string, sb: string)
    requires |sep| == 2 && sep[0] == '-' && ';' !in sep && ';' !in sa && ';' !in sb
    ensures ';' !in sa + (" " + sep + " ") + sb && '-' in sa + (" " + sep + " ") + sb
    ensures sa + (" " + sep + " ") + sb == (sa + " ") + sep + (" " + sb)
  {
    assert (sa + (" " + sep + " ") + sb)[|sa| + 1] == '-';
  }

  /** Trimming an edge line leaves the core and its `;`, and the core holds no `;` but a `-`. */
  lemma EdgeTrimmed(directed: bool, a: int, b: int)
    requires 0 <= a && 0 <= b
    ensures Trim(EdgeText(directed, a, b)) == EdgeCore(directed, a, b) + ";"
    ensures ';' !in EdgeCore(directed, a, b) && '-' in EdgeCore(directed, a, b)
  {
    var sa, sb := IntToString(a), IntToString(b);
    Regroup("  ", sa, Arrow(directed), sb, ";");
    assert EdgeCore(directed, a, b)[0] == sa[0];
    IndentedLine(EdgeCore(directed, a, b));
    assert Arrow(directed) == " " + Separator(directed) + " ";
    CoreShape(sa, Separator(directed), sb);
  }

  /** The core splits at the separator into the two endpoints, each padded by one blank. */
  lemma EdgeSplit(directed: bool, a: int, b: int)
    requires 0 <= a && 0 <= b
    ensures JavaSplit(EdgeCore(directed, a, b), Separator(directed)) == [IntToString(a) + " ", " " + IntToString(b)]
  {
    var sa, sb := IntToString(a), IntToString(b);
    var sep := Separator(directed);
    assert Arrow(directed) == " " + sep + " ";
    CoreShape(sa, sep, sb);
    SplitPair(sa + " ", sep, " " + sb);
  }

  /** The padded endpoints trim back to their digits. */
  lemma EndpointsTrimmed(a: int, b: int)
    requires 0 <= a && 0 <= b
    ensures Trim(IntToString(a) + " ") == IntToString(a) && Trim(" " + IntToString(b)) == IntToString(b)
  {
    PaddedRight(IntToString(a));
    PaddedLeft(IntToString(b));
  }

  /** An edge line written for non-negative ids is read as `linkNodes` of those ids. */
  lemma EdgeLineParses(directed: bool, a: int, b: int)
    requires 0 <= a <= INT_MAX && 0 <= b <= INT_MAX
    ensures ClassifyLine(directed, EdgeText(directed, a, b)) == Ok(EdgeLine(a, b))
  {
    EdgeTrimmed(directed, a, b);
    RemoveSemicolon(EdgeCore(directed, a, b));
    EdgeCoreParses(directed, a, b);
  }

  /** The core of an edge line, read as an edge. */
  lemma EdgeCoreParses(directed: bool, a: int, b: int)
    requires 0 <= a <= INT_MAX && 0 <= b <= INT_MAX
    ensures ClassifyContent(directed, EdgeCore(directed, a, b)) == Ok(EdgeLine(a, b))
  {
    assert '-' in EdgeCore(directed, a, b) by {
      EdgeTrimmed(directed, a, b);
    }
    EdgeSplit(directed, a, b);
    EndpointsTrimmed(a, b);
    ParseIntToString(a);
    ParseIntToString(b);
  }

  /** A non-empty list is its prefix and its last element. */
  lemma SplitLast<T>(s: seq<T>)
    requires s != []
    ensures s == s[..|s| - 1] + [s[|s| - 1]]
    ensures s[|s| - 1] in s && forall x :: x in s[..|s| - 1] ==> x in s
  {
  }

  /** The map after `addNode` of each listed id in turn. */
  ghost function AddVertices(m: Adjacency, keys: seq<int>): Adjacency
  {
    if keys == [] then m else AddVertex(AddVertices(m, keys[..|keys| - 1]), keys[|keys| - 1])
  }

  /** The map after `linkNodes` of each listed arc in turn. */
  ghost function AddArcs(directed: bool, m: Adjacency, arcs: seq<(int, int)>): Adjacency
  {
    if arcs == [] then m
    else
      var p := arcs[|arcs| - 1];
      AddEdge(AddArcs(directed, m, arcs[..|arcs| - 1]), directed, p.0, p.1)
  }

  /** Reading one more node line: `addNode` of its id. */
  lemma NodeLineRead(directed: bool, m: Adjacency, a: seq<string>, m0: Adjacency, id: int)
    requires Run(directed, m, a) == Ok(m0) && 0 <= id <= INT_MAX
    ensures Run(directed, m, a + [NodeText(id)]) == Ok(AddVertex(m0, id))
  {
    RunStep(directed, m, a, NodeText(id), m0);
    NodeLineParses(directed, id);
  }

  /** Reading one more edge line: `linkNodes` of its endpoints. */
  lemma EdgeLineRead(directed: bool, m: Adjacency, a: seq<string>, m0: Adjacency, x: int, y: int)
    requires Run(directed, m, a) == Ok(m0) && 0 <= x <= INT_MAX && 0 <= y <= INT_MAX
    ensures Run(directed, m, a + [EdgeText(directed, x, y)]) == Ok(AddEdge(m0, directed, x, y))
  {
    RunStep(directed, m, a, EdgeText(directed, x, y), m0);
    EdgeLineParses(directed, x, y);
  }

  /** Reading the node lines performs `addNode` for each key in the order written. */
  lemma {:induction false} RunNodes(directed: bool, m: Adjacency, keys: seq<int>)
    requires forall i :: 0 <= i < |keys| ==> 0 <= keys[i] <= INT_MAX
    ensures Run(directed, m, NodeLines(keys)) == Ok(AddVertices(m, keys))
  {
    if keys != [] {
      var init, k := keys[..|keys| - 1], keys[|keys| - 1];
      SplitLast(keys);
      RunNodes(directed, m, init);
      NodeLinesSnoc(init, k);
      NodeLineRead(directed, m, NodeLines(init), AddVertices(m, init), k);
    }
  }

  /** Reading the edge lines performs `linkNodes` for each arc in the order written. */
  lemma {:induction false} RunEdges(directed: bool, m: Adjacency, arcs: seq<(int, int)>)
    requires forall i :: 0 <= i < |arcs| ==> 0 <= arcs[i].0 <= INT_MAX && 0 <= arcs[i].1 <= INT_MAX
    ensures Run(directed, m, EdgeLines(directed, arcs)) == Ok(AddArcs(directed, m, arcs))
  {
    if arcs != [] {
      var init, p := arcs[..|arcs| - 1], arcs[|arcs| - 1];
      SplitLast(arcs);
      assert arcs == init + [(p.0, p.1)];
      RunEdges(directed, m, init);
      EdgeLinesSnoc(directed, init, p.0, p.1);
      EdgeLineRead(directed, m, EdgeLines(directed, init), AddArcs(directed, m, init), p.0, p.1);
    }
  }

  /** `addNode` of every listed id on an empty map: exactly those keys, none with neighbours. */
  lemma {:induction false} VerticesListed(keys: seq<int>)
    ensures forall k :: k in AddVertices(map[], keys) <==> k in keys
    ensures forall k :: k in AddVertices(map[], keys) ==> AddVertices(map[], keys)[k] == {}
  {
    if keys != [] {
      var init := keys[..|keys| - 1];
      VerticesListed(init);
      assert keys == init + [keys[|keys| - 1]];
    }
  }

  /**
   * `linkNodes` of every listed arc between existing keys: the keys stay, and an arc is present
   * exactly when it was before, it is listed, or (undirected) its mirror is listed.
   */
  lemma {:induction false} ArcsAdded(directed: bool, m: Adjacency, arcs: seq<(int, int)>)
    requires forall p :: p in arcs ==> p.0 in m && p.1 in m
    ensures AddArcs(directed, m, arcs).Keys == m.Keys
    ensures forall u, w :: HasArc(AddArcs(directed, m, arcs), u, w) <==>
      HasArc(m, u, w) || (u, w) in arcs || (!directed && (w, u) in arcs)
  {
    if arcs != [] {
      var init, p := arcs[..|arcs| - 1], arcs[|arcs| - 1];
      assert arcs == init + [p];
      ArcsAdded(directed, m, init);
      var r0 := AddArcs(directed, m, init);
      var r := AddArcs(directed, m, arcs);
      assert r == AddEdge(r0, directed, p.0, p.1);
      forall u, w
        ensures HasArc(r, u, w) <==> HasArc(m, u, w) || (u, w) in arcs || (!directed && (w, u) in arcs)
      {
        assert (u, w) in arcs <==> (u, w) in init || (u, w) == p;
        assert (w, u) in arcs <==> (w, u) in init || (w, u) == p;
      }
    }
  }

  /** A listing holds exactly the arcs that get a line. */
  lemma ArcListed(directed: bool, m: Adjacency, keys: seq<int>, arcs: seq<(int, int)>, u: int, w: int)
    requires Listing(directed, m, keys, arcs)
    ensures (u, w) in arcs <==> HasArc(m, u, w) && (directed || u < w)
  {
    assert (u, w) in arcs <==> (u, w) in (set q | q in arcs);
    assert (u, w) in ArcsFrom(m, directed, m.Keys) <==> HasArc(m, u, w) && (directed || u < w);
  }

  /** Every listed arc joins two keys of a closed map. */
  lemma ListedArcsJoinKeys(directed: bool, m: Adjacency, keys: seq<int>, arcs: seq<(int, int)>)
    requires Closed(m) && Listing(directed, m, keys, arcs)
    ensures forall p :: p in arcs ==> p.0 in m && p.1 in m && p.1 in m[p.0]
  {
    forall p | p in arcs
      ensures p.0 in m && p.1 in m && p.1 in m[p.0]
    {
      assert p == (p.0, p.1);
      ArcListed(directed, m, keys, arcs, p.0, p.1);
    }
  }

  /** `addNode` of every listed key gives exactly the keys of the listed map. */
  lemma VerticesAreKeys(directed: bool, m: Adjacency, keys: seq<int>, arcs: seq<(int, int)>)
    requires Listing(directed, m, keys, arcs)
    ensures AddVertices(map[], keys).Keys == m.Keys
  {
    VerticesListed(keys);
    forall k
      ensures k in AddVertices(map[], keys) <==> k in m
    {
      assert k in keys <==> k in (set j | j in keys);
    }
  }

  /**
   * The map rebuilt from the listing is the original one: every listed key, and every arc either
   * listed or, in undirected mode, the mirror of a listed one.
   */
  lemma Rebuilt(directed: bool, m: Adjacency, keys: seq<int>, arcs: seq<(int, int)>)
    requires Writable(directed, m) && Listing(directed, m, keys, arcs)
    ensures AddArcs(directed, AddVertices(map[], keys), arcs) == m
  {
    var v := AddVertices(map[], keys);
    VerticesListed(keys);
    VerticesAreKeys(directed, m, keys, arcs);
    ListedArcsJoinKeys(directed, m, keys, arcs);
    ArcsAdded(directed, v, arcs);
    var r := AddArcs(directed, v, arcs);
    forall u | u in m
      ensures r[u] == m[u]
    {
      forall w
        ensures w in r[u] <==> w in m[u]
      {
        assert !HasArc(v, u, w);
        ArcListed(directed, m, keys, arcs, u, w);
        ArcListed(directed, m, keys, arcs, w, u);
        if !directed && HasArc(m, u, w) {
          assert HasArc(m, w, u);
          assert u != w;
        }
        if !directed && HasArc(m, w, u) {
          assert HasArc(m, u, w);
        }
      }
    }
  }

  /** A node line holds no terminator. */
  lemma NodeTextSingle(id: int)
    ensures '\n' !in NodeText(id)
  {
    var s := IntToString(id);
    assert NodeText(id) == "  " + s + ";";
  }

  /** An edge line holds no terminator. */
  lemma EdgeTextSingle(directed: bool, a: int, b: int)
    ensures '\n' !in EdgeText(directed, a, b)
  {
    var sa, sb := IntToString(a), IntToString(b);
    assert '\n' !in Arrow(directed);
    assert EdgeText(directed, a, b) == "  " + sa + Arrow(directed) + sb + ";";
  }

  /** Two lists of lines without terminators, one after the other. */
  lemma SingleLinesConcat(a: seq<string>, b: seq<string>)
    requires SingleLines(a) && SingleLines(b)
    ensures SingleLines(a + b)
  {
    forall k | 0 <= k < |a + b|
      ensures '\n' !in (a + b)[k]
    {
      if k < |a| {
        assert (a + b)[k] == a[k];
      } else {
        assert (a + b)[k] == b[k - |a|];
      }
    }
  }

  /** No node line holds a terminator. */
  lemma NodeLinesSingle(keys: seq<int>)
    ensures SingleLines(NodeLines(keys))
  {
    forall j | 0 <= j < |keys|
      ensures '\n' !in NodeLines(keys)[j]
    {
      NodeTextSingle(keys[j]);
    }
  }

  /** No edge line holds a terminator. */
  lemma EdgeLinesSingle(directed: bool, arcs: seq<(int, int)>)
    ensures SingleLines(EdgeLines(directed, arcs))
  {
    forall j | 0 <= j < |arcs|
      ensures '\n' !in EdgeLines(directed, arcs)[j]
    {
      EdgeTextSingle(directed, arcs[j].0, arcs[j].1);
    }
  }

  /** No written line holds a terminator. */
  lemma BodySingleLines(directed: bool, keys: seq<int>, arcs: seq<(int, int)>)
    ensures SingleLines(Body(directed, keys, arcs))
  {
    assert SingleLines([HeaderLine(directed)]);
    NodeLinesSingle(keys);
    EdgeLinesSingle(directed, arcs);
    SingleLinesConcat([HeaderLine(directed)], NodeLines(keys));
    SingleLinesConcat([HeaderLine(directed)] + NodeLines(keys), EdgeLines(directed, arcs));
  }

  /** The text `toGrahpViz` writes, read as `BufferedReader` lines. */
  lemma WrittenLines(directed: bool, keys: seq<int>, arcs: seq<(int, int)>)
    ensures Lines(Render(directed, keys, arcs)) == Body(directed, keys, arcs) + ["}"]
  {
    BodySingleLines(directed, keys, arcs);
    LinesUnlines(Body(directed, keys, arcs), "}");
    LastLine("}");
  }

  /** The ids in a listing of a writable graph are non-negative `int`s. */
  lemma ListedInRange(directed: bool, m: Adjacency, keys: seq<int>, arcs: seq<(int, int)>)
    requires Writable(directed, m) && Listing(directed, m, keys, arcs)
    ensures forall i :: 0 <= i < |keys| ==> 0 <= keys[i] <= INT_MAX
    ensures forall i :: 0 <= i < |arcs| ==> 0 <= arcs[i].0 <= INT_MAX && 0 <= arcs[i].1 <= INT_MAX
  {
    forall i | 0 <= i < |keys|
      ensures 0 <= keys[i] <= INT_MAX
    {
      assert keys[i] in (set j | j in keys);
      assert keys[i] in m;
    }
    ListedArcsJoinKeys(directed, m, keys, arcs);
    forall i | 0 <= i < |arcs|
      ensures 0 <= arcs[i].0 <= INT_MAX && 0 <= arcs[i].1 <= INT_MAX
    {
      assert arcs[i] in arcs;
    }
  }

  /** The lines after the header: the node lines, the edge lines, the closing brace. */
  lemma AfterHeader(directed: bool, keys: seq<int>, arcs: seq<(int, int)>)
    ensures (Body(directed, keys, arcs) + ["}"])[0] == HeaderLine(directed)
    ensures (Body(directed, keys, arcs) + ["}"])[1..] == NodeLines(keys) + EdgeLines(directed, arcs) + ["}"]
  {
    DropFirst(HeaderLine(directed), NodeLines(keys), EdgeLines(directed, arcs), ["}"]);
  }

  /** The first element of a concatenation, and what follows it. */
  lemma DropFirst<T>(h: T, a: seq<T>, b: seq<T>, c: seq<T>)
    ensures ([h] + a + b + c)[0] == h && ([h] + a + b + c)[1..] == a + b + c
  {
  }

  /**
   * The round trip: for a writable graph, loading the text written for any listing of its nodes
   * and arcs gives back its mode and its adjacency map.
   */
  lemma RoundTrip(directed: bool, m: Adjacency, keys: seq<int>, arcs: seq<(int, int)>)
    requires Writable(directed, m) && Listing(directed, m, keys, arcs)
    ensures Load(Lines(Render(directed, keys, arcs))) == Ok(Loaded(directed, m))
  {
    var nodes, edges := NodeLines(keys), EdgeLines(directed, arcs);
    WrittenLines(directed, keys, arcs);
    AfterHeader(directed, keys, arcs);
    HeaderParses(directed);
    ListedInRange(directed, m, keys, arcs);
    RunNodes(directed, map[], keys);
    var v := AddVertices(map[], keys);
    RunEdges(directed, v, arcs);
    RunConcat(directed, map[], nodes, edges);
    var r := AddArcs(directed, v, arcs);
    RunStep(directed, map[], nodes + edges, "}", r);
    ClosingParses(directed);
    Rebuilt(directed, m, keys, arcs);
  }

  /**
   * `toGrahpViz` followed by `loadFile` on the file it wrote: a fresh graph in the same mode with
   * the same adjacency map.
   */
  method SaveAndLoad(g: Graph) returns (r: Result<Graph, Failure>)
    requires Writable(g.directed, g.nodes)
    ensures r.Ok? && fresh(r.value)
    ensures r.value.directed == g.directed && r.value.nodes == g.nodes
  {
    var text, keys, arcs := g.ToGraphViz();
    RoundTrip(g.directed, g.nodes, keys, arcs);
    r := LoadLines(Lines(text));
  }

  /** `"-1"` holds a `-` but no separator: `split` returns it whole and `n[1]` is out of bounds. */
  lemma NegativeContent(directed: bool)
    ensures ClassifyContent(directed, "-1") == Err(IndexOutOfBounds(1))
  {
    var sep := Separator(directed);
    assert "-1"[0] == '-';
    assert !Contains("-1", sep) by {
      assert "-1"[..2] != sep by {
        assert "-1"[1] != sep[1];
      }
      assert !Contains("-1"[1..], sep);
    }
    SplitWithoutSeparator("-1", sep);
    assert "-1" == "" + "-1" + "";
    TrimPadded("", "-1", "");
    assert IntToString(-1) == "-1";
    ParseIntToString(-1);
  }

  /**
   * The round trip needs non-negative ids: the line written for node `-1` holds a `-`, so it is
   * split as an edge, and the missing second endpoint raises an index exception.
   */
  lemma NegativeIdNotReadBack(directed: bool)
    ensures ClassifyLine(directed, NodeText(-1)) == Err(IndexOutOfBounds(1))
  {
    NegativeTrimmed();
    RemoveSemicolon("-1");
    NegativeContent(directed);
  }

  /** The line written for node `-1`, trimmed. */
  lemma NegativeTrimmed()
    ensures Trim(NodeText(-1)) == "-1;"
  {
    assert IntToString(-1) == "-1";
    assert NodeText(-1) == "  " + "-1;" + "";
    TrimPadded("  ", "-1;", "");
  }
}
