# Adjacency-set graphs of CreandoGrafos, verified

This project models the class `Graph` of `eclipse-workspace/CreandoGrafos/src/Graph.java`:
a graph made of a directedness flag (`dirigido`) and a `HashMap<Integer, Set<Integer>>` of
neighbour sets (`nodes`). It covers:

- the mutation primitives and the queries;
- `clone`;
- the three traversals that build a search tree from a root: breadth-first, recursive
  depth-first and iterative depth-first with an explicit stack and a path;
- the GraphViz writer `toGrahpViz`;
- the line loop of `loadFile`.

The graph is a Dafny `class` whose fields the methods update in place. Each mutator is specified
by a pure function on the adjacency map (`AddVertex`, `AddEdge`, `Install`). The traversals are
methods over a `boolean[]` (`array<bool>`), a queue, a stack and a path. They are proved to build
a search tree over exactly the nodes reachable from the root. The writer and the loader are
loops over strings. Together they are proved to round-trip: loading the written text gives back
the same directedness and the same adjacency for every graph that satisfies `Writable`. That
means every id is in `[0, INT_MAX]` and every neighbour is a key; an undirected graph must also
be symmetric and have no self-loops.

Modules:

| module | file | what it holds |
|---|---|---|
| `Wrappers` | wrappers.dfy | `Option` and `Result` |
| `Sets` | sets.dfy | small facts about picking from a set and appending to a list |
| `AdjacencyMaps` | adjacency.dfy | the adjacency map and the effect of `addNode` and `linkNodes` on it |
| `JavaText` | text.dfy | `trim`, `replace`, `contains`, `split`, `Integer.parseInt`, `Integer.toString`, `readLine` line splitting |
| `GraphVizFormat` | graphviz.dfy | the text `toGrahpViz` writes, as a function of the listing order |
| `Graphs` | graph.dfy | the class `Graph` and its operations |
| `GraphLoader` | loader.dfy | the line loop of `loadFile` |
| `GraphVizRoundTrip` | roundtrip.dfy | writing and loading back give the same graph |
| `SearchTrees` | search_trees.dfy | reachability, and what a search tree of the source is |
| `BreadthFirst` | bfs.dfy | `getBFSFromGraph` |
| `RecursiveDepthFirst` | dfs_recursive.dfy | `getDFSFromGraph` and `getDFSr` |
| `DfsBookkeeping` | dfs_state.dfy | the invariant of the iterative search |
| `IterativeDepthFirst` | dfs_iterative.dfy | `getDFSi_FromGraph` |

Where the Java code and the documented design disagree, the model follows the code:

- In undirected mode, `linkNodes` returns what the second `Set.add` returned. So it returns
  false for a self-link `a == b`, and for an asymmetric map it can return true although `a -> b`
  already existed.

One difference goes the other way: Java's `clone` installs the original's own neighbour sets in
the copy (Graph.java:44 and :65), so the two graphs share them. The model's `Clone` builds a copy
by value and does not capture that sharing (see "Left out").

## Model

| member | source | states |
|---|---|---|
| Graphs.Graph.constructor | eclipse-workspace/CreandoGrafos/src/Graph.java:25-27 | `Graph()` is undirected and has no nodes |
| Graphs.Graph.WithDirection | eclipse-workspace/CreandoGrafos/src/Graph.java:33-35 | `Graph(dirigido)` has the given directedness and no nodes |
| AdjacencyMaps.AddVertex | eclipse-workspace/CreandoGrafos/src/Graph.java:52-56 | the keys grow by `id` alone; every existing neighbour set is unchanged; a new `id` gets an empty set |
| Graphs.Graph.AddNode | eclipse-workspace/CreandoGrafos/src/Graph.java:52-56 | the new map is `AddVertex` of the old one, so an existing id is a no-op; directedness is unchanged |
| Graphs.Graph.AddNodeWith | eclipse-workspace/CreandoGrafos/src/Graph.java:64-69 | installs the given set for `id`, then links `id` to each member one at a time; the result is `Install`, whatever order the set is iterated in |
| Graphs.InstallStep | eclipse-workspace/CreandoGrafos/src/Graph.java:66-68 | one more `linkNodes(id, n)` of the installing loop takes the partial install over `done` to the one over `done + {n}` |
| Graphs.LinkInstalled | eclipse-workspace/CreandoGrafos/src/Graph.java:65-67 | after `put(id, neighbors)`, linking `id` to one of its own neighbours is the map update the loop performs |
| Graphs.InstallNothing | eclipse-workspace/CreandoGrafos/src/Graph.java:65 | before any link, the install is just `put(id, neighbors)` |
| Graphs.Graph.DropNode | eclipse-workspace/CreandoGrafos/src/Graph.java:75-77 | only the key `id` is removed; every other neighbour set is untouched, so references to `id` may dangle |
| Graphs.Graph.Size | eclipse-workspace/CreandoGrafos/src/Graph.java:79-81 | `getSize()` is the number of keys |
| Graphs.Graph.Neighbors | eclipse-workspace/CreandoGrafos/src/Graph.java:88-90 | `getNeighbors(id)` is null (`None`) exactly for an absent id, otherwise that id's neighbour set |
| Graphs.Graph.ExistsNode | eclipse-workspace/CreandoGrafos/src/Graph.java:92-98 | true exactly when `id` is a key |
| Graphs.Graph.IsLinked | eclipse-workspace/CreandoGrafos/src/Graph.java:130-132 | a NullPointerException exactly when `a` is absent; otherwise true exactly when `b` is among `a`'s neighbours |
| AdjacencyMaps.AddEdge | eclipse-workspace/CreandoGrafos/src/Graph.java:108-122 | both endpoints become keys and nothing else does; the arcs afterwards are the old ones plus `a -> b`, plus `b -> a` when undirected |
| Graphs.Graph.LinkNodes | eclipse-workspace/CreandoGrafos/src/Graph.java:108-122 | the new map is `AddEdge` of the old one; directed: true exactly when `b` was not yet a neighbour of `a`; undirected: true exactly when `a != b` and `a` was not yet a neighbour of `b` |
| AdjacencyMaps.LinkPreservesSymmetry | eclipse-workspace/CreandoGrafos/src/Graph.java:115-120 | undirected linking keeps a symmetric map symmetric |
| AdjacencyMaps.UndirectedResultMeansNew | eclipse-workspace/CreandoGrafos/src/Graph.java:117-119 | on a symmetric map, the undirected result means that `a` and `b` are distinct and were not linked before |
| Graphs.Graph.Clone | eclipse-workspace/CreandoGrafos/src/Graph.java:41-47 | a fresh graph with the same directedness; it keeps every original arc; its other arcs are mirrors of original ones (undirected mode); ids that only occur as neighbours become keys; a symmetric map, or a directed map without dangling ids, is copied exactly |
| Graphs.CloneStep | eclipse-workspace/CreandoGrafos/src/Graph.java:43-45 | copying one more key with `addNode(node, nodes.get(node))` keeps the copy invariant |
| Graphs.CopyIsExact | eclipse-workspace/CreandoGrafos/src/Graph.java:41-47 | once every key is copied, a symmetric map (or a directed map whose neighbours are all keys) is reproduced exactly |
| Graphs.Graph.ToGraphViz | eclipse-workspace/CreandoGrafos/src/Graph.java:694-724 | the text is `Render` of a listing that names every key once and every written arc once, in whatever order the hash map and sets are iterated |
| Graphs.Graph.WriteEdges | eclipse-workspace/CreandoGrafos/src/Graph.java:700-720 | the entry loop appends one edge line per arc that gets a line (all arcs when directed, `u < w` otherwise), each exactly once |
| Graphs.Graph.WriteArcsOf | eclipse-workspace/CreandoGrafos/src/Graph.java:703-719 | the inner loop over one node's neighbours appends exactly that node's written arcs |
| Graphs.NodeWritten | eclipse-workspace/CreandoGrafos/src/Graph.java:698 | `res += "  " + node + ";\n"` appends the next node line |
| Graphs.KeyListed | eclipse-workspace/CreandoGrafos/src/Graph.java:697 | iterating the key set lists each key once |
| Graphs.EdgeWritten | eclipse-workspace/CreandoGrafos/src/Graph.java:706 | `res += "  " + node + arista + value + ";\n"` appends the next edge line |
| Graphs.NewArc | eclipse-workspace/CreandoGrafos/src/Graph.java:715-717 | a neighbour that passes the test adds its arc, once, to the listing |
| Graphs.SkippedArc | eclipse-workspace/CreandoGrafos/src/Graph.java:715 | a neighbour that fails `node < value` in undirected mode adds nothing |
| GraphVizFormat.ArcsFromGrows | eclipse-workspace/CreandoGrafos/src/Graph.java:703-708 | the arcs written for one more entry are those of the entries before it plus its own |
| GraphVizFormat.ArcsOfGrows | eclipse-workspace/CreandoGrafos/src/Graph.java:714-717 | the arcs written for one more neighbour are the earlier ones, plus its own when directed or `node < value` |
| JavaText.TrimStart | eclipse-workspace/CreandoGrafos/src/Graph.java:174 | removes exactly the leading characters up to U+0020 |
| JavaText.TrimEnd | eclipse-workspace/CreandoGrafos/src/Graph.java:174 | removes exactly the trailing characters up to U+0020 |
| JavaText.Trim | eclipse-workspace/CreandoGrafos/src/Graph.java:174 | `line.trim()`: no blank at either end, never longer |
| JavaText.TrimPadded | eclipse-workspace/CreandoGrafos/src/Graph.java:180 | `trim` undoes padding with blanks on both sides |
| JavaText.RemoveChar | eclipse-workspace/CreandoGrafos/src/Graph.java:176 | `replace(";", "")`: the result holds exactly the characters of the line other than `;` |
| JavaText.RemoveAbsent | eclipse-workspace/CreandoGrafos/src/Graph.java:176 | removing an absent character changes nothing |
| JavaText.RemoveConcat | eclipse-workspace/CreandoGrafos/src/Graph.java:176 | removal distributes over concatenation |
| JavaText.Contains | eclipse-workspace/CreandoGrafos/src/Graph.java:167 | `contains` is true exactly when the text occurs at some index |
| JavaText.SplitAll | eclipse-workspace/CreandoGrafos/src/Graph.java:179 | the pieces cut at the separator join back to the string |
| JavaText.DropTrailingEmpty | eclipse-workspace/CreandoGrafos/src/Graph.java:179 | `split` drops exactly the trailing empty pieces |
| JavaText.SplitWithoutSeparator | eclipse-workspace/CreandoGrafos/src/Graph.java:182 | without an occurrence of the separator, `split` returns the string itself |
| JavaText.SplitFirst | eclipse-workspace/CreandoGrafos/src/Graph.java:179 | the first cut falls at the first occurrence of the separator |
| JavaText.SplitPair | eclipse-workspace/CreandoGrafos/src/Graph.java:179-183 | `(p + sep + q).split(sep)` is `[p, q]` when neither side holds the separator's first character |
| JavaText.ParseInt | eclipse-workspace/CreandoGrafos/src/Graph.java:186 | `Integer.parseInt`: a value in the `int` range with the sign of its text, or a NumberFormatException carrying the input |
| JavaText.Digits | eclipse-workspace/CreandoGrafos/src/Graph.java:698 | the decimal digits of a natural number denote it, without leading zeros |
| JavaText.IntToString | eclipse-workspace/CreandoGrafos/src/Graph.java:698 | `"" + node` holds no terminator or `;`; for a non-negative id it holds no `-` and no blank at either end |
| JavaText.ParseIntToString | eclipse-workspace/CreandoGrafos/src/Graph.java:186 | `parseInt` reads back what `toString` writes, for every `int` |
| JavaText.LineEnd | eclipse-workspace/CreandoGrafos/src/Graph.java:173 | the index of the first `'\n'`, or the length when there is none |
| JavaText.UnlinesConcat | eclipse-workspace/CreandoGrafos/src/Graph.java:698 | writing lines one after another concatenates their texts |
| JavaText.LinesUnlines | eclipse-workspace/CreandoGrafos/src/Graph.java:173 | `readLine` gives back every written line that holds no terminator, in order |
| GraphLoader.Separator | eclipse-workspace/CreandoGrafos/src/Graph.java:178-183 | `"->"` or `"--"`: two characters starting with `-` |
| GraphLoader.ClassifyLine | eclipse-workspace/CreandoGrafos/src/Graph.java:174-187 | a line is skipped exactly when its trimmed text holds no `;`; a node id is non-negative and an `int`; edge endpoints are `int`s; an index failure is at 0 or 1 |
| GraphLoader.ClassifyContent | eclipse-workspace/CreandoGrafos/src/Graph.java:177-187 | a line that held a `;` is never skipped: it is an edge when it holds a `-`, otherwise a node, or the exception |
| GraphLoader.ClassifyEdge | eclipse-workspace/CreandoGrafos/src/Graph.java:179-183 | evaluates `n[0]`, its `parseInt`, then `n[1]` and its `parseInt`; an ArrayIndexOutOfBounds exception names the first missing piece |
| GraphLoader.RunFirst | eclipse-workspace/CreandoGrafos/src/Graph.java:173-189 | one turn of the `while`: the first line's command applies before the others, and its exception ends the loop |
| GraphLoader.RunConcat | eclipse-workspace/CreandoGrafos/src/Graph.java:173-190 | reading a file in two parts: the second starts from the first's map, and nothing after an exception is read |
| GraphLoader.RunStep | eclipse-workspace/CreandoGrafos/src/Graph.java:173-190 | reading one more line applies its command or raises its exception |
| GraphLoader.LoadLines | eclipse-workspace/CreandoGrafos/src/Graph.java:166-190 | `loadFile` on the lines of a file: a NullPointerException when there is no first line; otherwise a fresh graph, directed exactly when the first line contains `digraph`; the result is exactly `Load` |
| GraphLoader.ReadBody | eclipse-workspace/CreandoGrafos/src/Graph.java:172-190 | the `while` loop fills a new graph line by line; its outcome is exactly `Run` of the remaining lines |
| GraphLoader.ReadNext | eclipse-workspace/CreandoGrafos/src/Graph.java:173-189 | after line `k`, reading the rest from the new map is reading from line `k` on; or line `k` raises the exception that reading from `k` raises |
| GraphLoader.ReadLine | eclipse-workspace/CreandoGrafos/src/Graph.java:174-187 | one line calls `addNode` or `linkNodes` exactly as classified, or fails with the exception the line raises |
| GraphVizRoundTrip.HeaderParses | eclipse-workspace/CreandoGrafos/src/Graph.java:167-171 | the written header contains `digraph` exactly when the graph is directed |
| GraphVizRoundTrip.ClosingParses | eclipse-workspace/CreandoGrafos/src/Graph.java:175 | the closing `}` is skipped |
| GraphVizRoundTrip.NodeLineParses | eclipse-workspace/CreandoGrafos/src/Graph.java:186 | a written node line with a non-negative id reads back as that node |
| GraphVizRoundTrip.EdgeTrimmed | eclipse-workspace/CreandoGrafos/src/Graph.java:174 | a trimmed edge line is its core plus `;`; the core holds a `-` and no `;` |
| GraphVizRoundTrip.EdgeSplit | eclipse-workspace/CreandoGrafos/src/Graph.java:179-182 | splitting a written edge at the separator gives the two endpoint texts with their spaces |
| GraphVizRoundTrip.EndpointsTrimmed | eclipse-workspace/CreandoGrafos/src/Graph.java:180 | `n[0].trim()` and `n[1].trim()` recover the endpoint texts |
| GraphVizRoundTrip.EdgeCoreParses | eclipse-workspace/CreandoGrafos/src/Graph.java:177-183 | the core of a written edge line reads back as that edge |
| GraphVizRoundTrip.EdgeLineParses | eclipse-workspace/CreandoGrafos/src/Graph.java:174-183 | a written edge line with non-negative endpoints reads back as that edge |
| GraphVizRoundTrip.NodeLineRead | eclipse-workspace/CreandoGrafos/src/Graph.java:186 | reading one more node line adds that vertex |
| GraphVizRoundTrip.EdgeLineRead | eclipse-workspace/CreandoGrafos/src/Graph.java:180-183 | reading one more edge line adds that edge |
| GraphVizRoundTrip.RunNodes | eclipse-workspace/CreandoGrafos/src/Graph.java:173-190 | reading the node lines adds the listed vertices, in order |
| GraphVizRoundTrip.RunEdges | eclipse-workspace/CreandoGrafos/src/Graph.java:173-190 | reading the edge lines adds the listed edges, in order |
| GraphVizRoundTrip.VerticesListed | eclipse-workspace/CreandoGrafos/src/Graph.java:186 | the vertices read are exactly the listed keys, each with no neighbours yet |
| GraphVizRoundTrip.ArcsAdded | eclipse-workspace/CreandoGrafos/src/Graph.java:108-122 | linking arcs between existing keys keeps the keys; the arcs afterwards are the old ones plus the listed ones, mirrored when undirected |
| GraphVizRoundTrip.ArcListed | eclipse-workspace/CreandoGrafos/src/Graph.java:703-719 | an arc is written exactly when it is in the map and (directed or `u < w`) |
| GraphVizRoundTrip.ListedArcsJoinKeys | eclipse-workspace/CreandoGrafos/src/Graph.java:703-719 | every written arc joins two keys |
| GraphVizRoundTrip.VerticesAreKeys | eclipse-workspace/CreandoGrafos/src/Graph.java:697-699 | the vertices read from the node lines are exactly the keys |
| GraphVizRoundTrip.Rebuilt | eclipse-workspace/CreandoGrafos/src/Graph.java:697-719 | adding the written vertices, then the written edges, rebuilds the map exactly |
| GraphVizRoundTrip.BodySingleLines | eclipse-workspace/CreandoGrafos/src/Graph.java:698-716 | no written line holds a terminator |
| GraphVizRoundTrip.WrittenLines | eclipse-workspace/CreandoGrafos/src/Graph.java:694-724 | `readLine` on the written text yields the header, the node lines, the edge lines and `}` |
| GraphVizRoundTrip.ListedInRange | eclipse-workspace/CreandoGrafos/src/Graph.java:697-719 | every written id is a non-negative `int` |
| GraphVizRoundTrip.RoundTrip | eclipse-workspace/CreandoGrafos/src/Graph.java:166-190 | loading the text `toGrahpViz` writes gives back the same directedness and the same map, whatever the listing order |
| GraphVizRoundTrip.SaveAndLoad | eclipse-workspace/CreandoGrafos/src/Graph.java:694-724 | running the writer and then the loader on a graph yields a fresh graph with the same directedness and nodes |
| GraphVizRoundTrip.NegativeTrimmed | eclipse-workspace/CreandoGrafos/src/Graph.java:174 | the node line of id -1 trims to `-1;` |
| GraphVizRoundTrip.NegativeContent | eclipse-workspace/CreandoGrafos/src/Graph.java:177-180 | the content `-1` is taken for an edge, and `split` leaves no `n[1]` |
| GraphVizRoundTrip.NegativeIdNotReadBack | eclipse-workspace/CreandoGrafos/src/Graph.java:177-180 | the written node line of id -1 raises ArrayIndexOutOfBounds(1) on loading |
| SearchTrees.PartialTreeStart | eclipse-workspace/CreandoGrafos/src/Graph.java:547-549 | the root alone is a search tree |
| SearchTrees.PartialTreeGrows | eclipse-workspace/CreandoGrafos/src/Graph.java:556-558 | linking a newly discovered neighbour to its discoverer keeps a search tree |
| SearchTrees.SearchTreeGrows | eclipse-workspace/CreandoGrafos/src/Graph.java:557 | one more discovery link keeps the discovery order and the tree links |
| SearchTrees.PartialTreeComplete | eclipse-workspace/CreandoGrafos/src/Graph.java:551-562 | a tree whose nodes are closed under the source's arcs holds exactly the reachable nodes |
| SearchTrees.ClosedHoldsReachable | eclipse-workspace/CreandoGrafos/src/Graph.java:551-562 | a set holding the root and closed under arcs holds every reachable node |
| SearchTrees.SearchTreeIsTree | eclipse-workspace/CreandoGrafos/src/Graph.java:534-564 | a search tree is symmetric, connected from the root and has one link per non-root node (`|nodes| - 1` edges) |
| SearchTrees.OrderPrefixReachable | eclipse-workspace/CreandoGrafos/src/Graph.java:557 | every discovered node is reachable from the root along tree links |
| BreadthFirst.BfsFromGraph | eclipse-workspace/CreandoGrafos/src/Graph.java:534-564 | null (`NodeNotFound`) exactly for an absent root; otherwise a fresh undirected search tree of `S`, each node enqueued once, holding exactly the nodes reachable from the root |
| BreadthFirst.DiscoverNeighbours | eclipse-workspace/CreandoGrafos/src/Graph.java:554-561 | scanning the dequeued node's neighbours keeps the tree and marks; the queue is the undequeued tail of the discovery order |
| BreadthFirst.Discover | eclipse-workspace/CreandoGrafos/src/Graph.java:556-560 | an unexplored neighbour is linked, marked and enqueued, growing the tree by that node alone |
| BreadthFirst.BfsDiscover | eclipse-workspace/CreandoGrafos/src/Graph.java:557-559 | one discovery keeps the breadth-first invariant |
| BreadthFirst.ScannedNext | eclipse-workspace/CreandoGrafos/src/Graph.java:552-561 | once a dequeued node's scan is over, all its neighbours are in the tree |
| BreadthFirst.ScannedAllClosed | eclipse-workspace/CreandoGrafos/src/Graph.java:551-562 | when the queue is empty, the tree is closed under the source's arcs |
| RecursiveDepthFirst.DfsFromGraph | eclipse-workspace/CreandoGrafos/src/Graph.java:655-667 | null exactly for an absent root; otherwise a fresh undirected search tree of `S` holding exactly the nodes reachable from the root |
| RecursiveDepthFirst.DfsVisit | eclipse-workspace/CreandoGrafos/src/Graph.java:678-687 | `getDFSr` keeps a partial search tree; on return, `n` and every node added during the call have all their neighbours in the tree |
| RecursiveDepthFirst.MarkAndLink | eclipse-workspace/CreandoGrafos/src/Graph.java:681-684 | an unexplored neighbour is marked before it is linked, so it gets exactly one parent link |
| RecursiveDepthFirst.ReachableIn | eclipse-workspace/CreandoGrafos/src/Graph.java:679 | a tree node is a key of the source whose id indexes `explorados` |
| RecursiveDepthFirst.TreeInSource | eclipse-workspace/CreandoGrafos/src/Graph.java:660-666 | every tree node is a key of the source |
| IterativeDepthFirst.DfsiFromGraph | eclipse-workspace/CreandoGrafos/src/Graph.java:581-636 | null exactly for an absent root; otherwise a fresh undirected search tree of `S` holding exactly the nodes reachable from the root |
| IterativeDepthFirst.Step | eclipse-workspace/CreandoGrafos/src/Graph.java:603-634 | one turn of the outer loop keeps the search invariant; when it explores nothing, the stack shrinks |
| IterativeDepthFirst.Visit | eclipse-workspace/CreandoGrafos/src/Graph.java:610-633 | exploring an unexplored popped node, then backtracking, keeps the search invariant |
| IterativeDepthFirst.Expand | eclipse-workspace/CreandoGrafos/src/Graph.java:610-620 | the node is marked; exactly its unexplored neighbours are pushed; `backwards` holds exactly when it had none |
| IterativeDepthFirst.Backtrack | eclipse-workspace/CreandoGrafos/src/Graph.java:621-633 | the inner `while` links each finished path node to the node before it, until the path ends at a node with unexplored neighbours |
| IterativeDepthFirst.PushUnexplored | eclipse-workspace/CreandoGrafos/src/Graph.java:614-620 | the pushed entries are exactly the neighbours not yet explored; `backwards` holds exactly when none was pushed |
| IterativeDepthFirst.AllExplored | eclipse-workspace/CreandoGrafos/src/Graph.java:626-631 | `backwards` stays true exactly when every neighbour of `j` is explored |
| IterativeDepthFirst.FlagMeansExplored | eclipse-workspace/CreandoGrafos/src/Graph.java:628 | the `explorados` flags agree with the explored set |
| DfsBookkeeping.DfsStart | eclipse-workspace/CreandoGrafos/src/Graph.java:600-620 | exploring the root and pushing its neighbours establishes the invariant |
| DfsBookkeeping.Explore | eclipse-workspace/CreandoGrafos/src/Graph.java:610-620 | exploring a popped unexplored node extends the path by it and keeps the invariant |
| DfsBookkeeping.ExploreStep | eclipse-workspace/CreandoGrafos/src/Graph.java:610-620 | a popped unexplored entry is a neighbour of the last path node |
| DfsBookkeeping.StalePop | eclipse-workspace/CreandoGrafos/src/Graph.java:607-609 | popping an already explored entry changes nothing else |
| DfsBookkeeping.BackStep | eclipse-workspace/CreandoGrafos/src/Graph.java:621-625 | backtracking links the last two path entries and shortens the path by one |
| DfsBookkeeping.LinksAfterBack | eclipse-workspace/CreandoGrafos/src/Graph.java:624 | the backtracking link is the parent link of the node that leaves the path |
| DfsBookkeeping.Finish | eclipse-workspace/CreandoGrafos/src/Graph.java:603-636 | with the stack empty, the result is a search tree of exactly the reachable nodes |

## Left out

- File I/O is not modelled: `saveFile`, and the `File`/`FileReader`/`BufferedReader` plumbing,
  `IOException` handling and printing of `loadFile`. The loader takes the file's lines as a
  sequence, and `Lines` states how `readLine` cuts a text written with `'\n'` terminators.
  Reading `'\r'` terminators is not modelled.
- `genErdosRenyi`, `genGilbert`, `genGeografico`, the Barabási–Albert generators and
  `BarabasiVariantEnforceLink` are not modelled: they depend on `java.util.Random`, floating
  point and shuffling. `CreandoGrafos/src/Index.java` is not part of this model; it is a driver
  without logic of its own.
- `getBFS`, `getDFSi` and `getDFSr(int)` are one-line delegations to the static traversals and
  are not modelled separately.
- The missing-root message on `System.err` is not modelled; the `null` result is `NodeNotFound`.
- Graphs.Graph.Clone: the copy is a value. The Java copy installs the original's own `Set`
  objects, so later changes to either graph show up in both. That aliasing is not modelled.
- Graphs.Graph.Clone: the model leaves the original unchanged, but for an undirected map that is
  not symmetric the Java `clone` changes the original while it runs. Each `linkNodes(id, n)`
  inside `addNode(id, neighbors)` adds `id` to the set of `n`. When `n` was copied earlier, that
  set is the original's own. For example, cloning `{0: {}, 1: {0}}` with key 0 first leaves the
  original's `getNeighbors(0)` equal to `{1}`.
- Graphs.Graph.AddNodeWith: the model installs a copy of the set's value. Java stores the
  caller's own `Set` object. After `g.addNode(2, g.getNeighbors(1))`, keys 1 and 2 share one set,
  so a later `linkNodes(1, 5)` also makes `2 -> 5`; the model does not capture this. The model
  also has no null set: `addNode(id, null)` stores null and then throws a NullPointerException
  in its loop. After that, `existsNode(id)` is false while `getSize()` still counts `id`.
- Graphs.Graph.Neighbors: returns the neighbour set as a value. Java hands back the live set
  object, so changes made through it reach the graph, and it can be installed under another key
  (see `AddNodeWith`). Neither is modelled.
- Graphs.Graph.Clone: for an undirected map that is not symmetric, the result is stated only as
  bounds (every original arc kept, every other arc a mirror of an original one). Its exact map
  would depend on the order the keys are iterated in.
- The traversals require every node reachable from the root to be a key whose id lies in
  `[0, getSize())`. The Java code indexes `explorados` by id and dereferences
  `getNeighbors(i)`, so any other graph makes it throw; those exceptions are not modelled.
- Hash iteration order is not modelled. Keys, neighbour sets and arcs are enumerated in an
  arbitrary order (pick-and-remove from a set, or a ghost listing for the writer), and every
  property holds for every order.
- JavaText.ParseInt: accepts ASCII digits only. Java's `Character.digit` also accepts other
  Unicode decimal digits, which the writer never produces.
- JavaText.Trim: strings are sequences of `char`, with no surrogate pairs or normalisation.
- The round trip holds only for graphs with non-negative ids, every neighbour a key and, when
  undirected, symmetric and without self-loops (`Writable`). A negative id writes a `-`, so
  `loadFile` takes the node line for an edge line and fails (`NegativeIdNotReadBack`). An
  undirected self-loop or an asymmetric arc `u -> w` with `u > w` is never written.
- Which search tree the traversals build depends on iteration order. The model proves that each
  result is a search tree over the reachable set; it does not prove that the iterative and the
  recursive searches build the same tree.
