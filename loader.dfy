/**
 * `loadFile` of Graph.java, from the lines its `BufferedReader` returns: the first line decides the
 * directedness, every later line is trimmed and, when it holds a `;`, read as a node or an edge.
 */
module GraphLoader {
  import opened Wrappers
  import opened AdjacencyMaps
  import opened JavaText
  import opened Graphs

  /** What one line asks of the graph under construction. */
  datatype Command =
    | Skip                                // no `;` in the trimmed line (header, `}`, blank lines)
    | NodeLine(id: int)                   // `addNode(Integer.parseInt(line))`
    | EdgeLine(source: int, target: int)  // `linkNodes(parseInt(n[0].trim()), parseInt(n[1].trim()))`

  /** A loaded graph as a value: its directedness and its adjacency map. */
  datatype Loaded = Loaded(directed: bool, nodes: Adjacency)

  /** The separator `split` is given: `"->"` when directed, `"--"` otherwise. */
  function Separator(directed: bool): (sep: string)
    ensures |sep| == 2 && sep[0] == '-'
  {
    if directed then "->" else "--"
  }

  /**
   * The body of the `while ((line = br.readLine()) != null)` loop for one line. The trimmed line is
   * skipped unless it holds a `;`; with every `;` removed it is an edge when it holds a `-` and a node
   * otherwise. Java evaluates `n[0]`, its `parseInt`, then `n[1]` and its `parseInt`, and the first
   * failure is the exception that leaves `loadFile`.
   */
  function ClassifyLine(directed: bool, line: string): (r: Result<Command, Failure>)
    ensures r == Ok(Skip) <==> ';' !in Trim(line)
    ensures r.Ok? && r.value.NodeLine? ==> 0 <= r.value.id <= INT_MAX
    ensures r.Ok? && r.value.EdgeLine? ==>
      INT_MIN <= r.value.source <= INT_MAX && INT_MIN <= r.value.target <= INT_MAX
    ensures r.Err? && r.error.IndexOutOfBounds? ==> r.error.index < 2
  {
    var t := Trim(line);
    if ';' !in t then Ok(Skip) else ClassifyContent(directed, RemoveChar(t, ';'))
  }

  /** A line that held a `;`, with every `;` removed: an edge when it holds a `-`, a node otherwise. */
  function ClassifyContent(directed: bool, u: string): (r: Result<Command, Failure>)
    ensures r != Ok(Skip)
    ensures r.Ok? && r.value.NodeLine? ==> 0 <= r.value.id <= INT_MAX
    ensures r.Ok? && r.value.EdgeLine? ==>
      INT_MIN <= r.value.source <= INT_MAX && INT_MIN <= r.value.target <= INT_MAX
    ensures r.Err? && r.error.IndexOutOfBounds? ==> r.error.index < 2
  {
    if '-' in u then ClassifyEdge(JavaSplit(u, Separator(directed)))
    else
      assert u != [] ==> u[0] != '-';
      match ParseInt(u)
      case Err(e) => Err(e)
      case Ok(id) => Ok(NodeLine(id))
  }

  /** The pieces `split` returned: `n[0]` and `n[1]` trimmed and parsed, in Java's evaluation order. */
  function ClassifyEdge(n: seq<string>): (r: Result<Command, Failure>)
    ensures r.Ok? ==> r.value.EdgeLine?
    ensures r.Ok? ==> INT_MIN <= r.value.source <= INT_MAX && INT_MIN <= r.value.target <= INT_MAX
    ensures r.Err? && r.error.IndexOutOfBounds? ==> r.error.index == |n| < 2
  {
    if |n| == 0 then Err(IndexOutOfBounds(0))
    else
      match ParseInt(Trim(n[0]))
      case Err(e) => Err(e)
      case Ok(a) =>
        if |n| == 1 then Err(IndexOutOfBounds(1))
        else
          match ParseInt(Trim(n[1]))
          case Err(e) => Err(e)
          case Ok(b) => Ok(EdgeLine(a, b))
  }

  /** The effect of one command: `addNode` / `linkNodes` on the adjacency map. */
  function Apply(directed: bool, m: Adjacency, c: Command): Adjacency
  {
    match c
    case Skip => m
    case NodeLine(id) => AddVertex(m, id)
    case EdgeLine(a, b) => AddEdge(m, directed, a, b)
  }

  /**
   * The map after the given lines, from `m`, or the first exception: the first line's command is
   * applied and reading goes on with the others.
   */
  function Run(directed: bool, m: Adjacency, lines: seq<string>): Result<Adjacency, Failure>
    decreases |lines|, 2
  {
    if lines == [] then Ok(m) else RunLine(directed, m, lines)
  }

  /** Reading the first of the remaining lines, then the others. */
  function RunLine(directed: bool, m: Adjacency, lines: seq<string>): Result<Adjacency, Failure>
    requires lines != []
    decreases |lines|, 1
  {
    Resume(directed, m, lines[0], lines[1..])
  }

  /** Applying one line's command (or raising its exception), then reading the rest. */
  function Resume(directed: bool, m: Adjacency, line: string, rest: seq<string>): Result<Adjacency, Failure>
    decreases |rest| + 1, 0
  {
    match ClassifyLine(directed, line)
    case Err(e) => Err(e)
    case Ok(c) => Run(directed, Apply(directed, m, c), rest)
  }

  /** `Run` one line at a time: the first line's command is applied to `m` before the others. */
  lemma RunFirst(directed: bool, m: Adjacency, lines: seq<string>)
    requires lines != []
    ensures ClassifyLine(directed, lines[0]).Err? ==> Run(directed, m, lines) == Err(ClassifyLine(directed, lines[0]).error)
    ensures ClassifyLine(directed, lines[0]).Ok? ==>
      Run(directed, m, lines) == Run(directed, Apply(directed, m, ClassifyLine(directed, lines[0]).value), lines[1..])
  {
    assert Run(directed, m, lines) == Resume(directed, m, lines[0], lines[1..]);
  }

  /**
   * `loadFile` on a file with these lines: a NullPointerException when there is no first line,
   * otherwise a graph that is directed exactly when the first line contains `digraph`, built by
   * the remaining lines.
   */
  function Load(lines: seq<string>): Result<Loaded, Failure>
  {
    if lines == [] then Err(NullPointer)
    else
      var directed := Contains(lines[0], "digraph");
      match Run(directed, map[], lines[1..])
      case Err(e) => Err(e)
      case Ok(m) => Ok(Loaded(directed, m))
  }

  /**
   * Loading a file in two parts: the second part starts from the map the first part built, and an
   * exception in the first part is never followed by reading the second.
   */
  lemma {:induction false} RunConcat(directed: bool, m: Adjacency, a: seq<string>, b: seq<string>)
    ensures Run(directed, m, a + b) ==
      match Run(directed, m, a)
      case Err(e) => Err(e)
      case Ok(m') => Run(directed, m', b)
    decreases |a|
  {
    if a == [] {
      assert a + b == b;
    } else {
      assert (a + b)[0] == a[0] && (a + b)[1..] == a[1..] + b;
      RunFirst(directed, m, a + b);
      RunFirst(directed, m, a);
      match ClassifyLine(directed, a[0])
      case Err(e) =>
      case Ok(c) => RunConcat(directed, Apply(directed, m, c), a[1..], b);
    }
  }

  /** One more line read: its command applied, or its exception raised. */
  lemma RunStep(directed: bool, m: Adjacency, a: seq<string>, line: string, m0: Adjacency)
    requires Run(directed, m, a) == Ok(m0)
    ensures Run(directed, m, a + [line]) ==
      match ClassifyLine(directed, line)
      case Err(e) => Err(e)
      case Ok(c) => Ok(Apply(directed, m0, c))
  {
    RunConcat(directed, m, a, [line]);
    RunFirst(directed, m0, [line]);
    assert [line][1..] == [];
  }

  /**
   * `loadFile(filename)` over the lines of the file: the graph is created with the directedness of
   * the first line and filled by the remaining lines; an exception on any line abandons it. The
   * result is exactly what `Load` describes.
   */
  method LoadLines(lines: seq<string>) returns (r: Result<Graph, Failure>)
    ensures r.Err? <==> Load(lines).Err?
    ensures r.Err? ==> r.error == Load(lines).error
    ensures r.Ok? ==> fresh(r.value)
    ensures r.Ok? ==> r.value.directed == Load(lines).value.directed && r.value.nodes == Load(lines).value.nodes
  {
    if |lines| == 0 {
      return Err(NullPointer);
    }
    var directed := Contains(lines[0], "digraph");
    r := ReadBody(directed, lines[1..]);
  }

  /** The `while` loop of `loadFile`: `addNode` / `linkNodes` line by line on a new graph. */
  method ReadBody(directed: bool, lines: seq<string>) returns (r: Result<Graph, Failure>)
    ensures r.Err? <==> Run(directed, map[], lines).Err?
    ensures r.Err? ==> r.error == Run(directed, map[], lines).error
    ensures r.Ok? ==> fresh(r.value)
    ensures r.Ok? ==> r.value.directed == directed && r.value.nodes == Run(directed, map[], lines).value
  {
    var g := new Graph.WithDirection(directed);
    var k := 0;
    assert lines[0..] == lines;
    while k < |lines|
      invariant 0 <= k <= |lines|
      invariant fresh(g) && g.directed == directed
      invariant Run(directed, g.nodes, lines[k..]) == Run(directed, map[], lines)
      decreases |lines| - k
    {
      var failure := ReadNext(g, lines, k);
      if failure.Some? {
        return Err(failure.value);
      }
      k := k + 1;
    }
    assert lines[k..] == [];
    r := Ok(g);
  }

  /**
   * One iteration of the loop, on line `k`: the rest of the file is read from the new map, or the
   * line's exception is what reading the rest of the file raises.
   */
  method ReadNext(g: Graph, lines: seq<string>, k: nat) returns (failure: Option<Failure>)
    requires k < |lines|
    modifies g
    ensures g.directed == old(g.directed)
    ensures failure.None? ==> Run(g.directed, g.nodes, lines[k + 1..]) == Run(g.directed, old(g.nodes), lines[k..])
    ensures failure.Some? ==> Run(g.directed, old(g.nodes), lines[k..]) == Err(failure.value)
  {
    assert lines[k..][0] == lines[k] && lines[k..][1..] == lines[k + 1..];
    RunFirst(g.directed, g.nodes, lines[k..]);
    failure := ReadLine(g, lines[k]);
  }

  /** The loop body for one line: `addNode` or `linkNodes` on `g`, or the exception the line raises. */
  method ReadLine(g: Graph, line: string) returns (failure: Option<Failure>)
    modifies g
    ensures g.directed == old(g.directed)
    ensures failure.Some? <==> ClassifyLine(g.directed, line).Err?
    ensures failure.Some? ==> failure.value == ClassifyLine(g.directed, line).error
    ensures failure.None? ==> g.nodes == Apply(g.directed, old(g.nodes), ClassifyLine(g.directed, line).value)
  {
    var c := ClassifyLine(g.directed, line);
    if c.Err? {
      return Some(c.error);
    }
    failure := None;
    match c.value {
      case Skip =>
      case NodeLine(id) =>
        g.AddNode(id);
      case EdgeLine(a, b) =>
        var _ := g.LinkNodes(a, b);
    }
  }
}
