# COBOL dependency analyser: a Dafny model of its core

This project models the part of the COBOL dependency analyser that turns per-program analysis
records into a dependency graph and reasons about that graph, together with the
post-processing the analyser applies to the names its patterns match.

- `DependencyGraphGenerator` (graph_visualizer.py) is a class, `GraphVisualizer.DependencyGraphGenerator`.
  - Its fields are the ones `build_graph` updates in place: `graph`, `program_nodes`, `file_nodes`, `call_edges` and `file_edges`.
  - `BuildGraph` has the source's nested loops.
  - Each method is proved against a specification function over a value mirror of the fields (`GraphBuild.GenState`).
  - The specification is the fold `GraphBuild.BuildFrom`, one record at a time (`GraphBuild.Ingest`).
  - The lemmas in `GraphBuild` say what that fold produces:
    - which nodes and edges exist;
    - which attributes each node and edge ends up with, with the last write winning;
    - how many entries the side lists hold;
    - which nodes are isolated.
- networkx's `DiGraph` is modelled in `DiGraph`.
  - The graph is a map from node name to an attribute record (`node_type`, `loc`, `file`) and a map from ordered pairs to an edge attribute record (`edge_type`).
  - `add_node` and `add_edge` overwrite only the keys they are given.
  - `add_edge` creates missing endpoints and never duplicates an edge.
  - `isolates` and the number of strongly connected components are specified: the latter is the number of distinct mutual-reachability classes.
- `nx.simple_cycles` is modelled in `CycleSearch` by a depth-first enumerator.
  - For each start node, it extends simple paths through nodes that come later in a fixed node order.
  - It reports a circuit whenever an edge leads back to the start.
  - It is proved sound (every result is an elementary circuit, self-loops included), free of repetitions and rotations, and complete (every elementary circuit is reported as one of its rotations).
- `get_statistics` is `GraphVisualizer.StatisticsOf`; `GetStatistics` returns exactly that.
- `find_circular_dependencies` builds the program-only call graph with loops (`ProgramNodesGraph`, `AddCallPairs`) and then enumerates its circuits.
- The two display expressions of the detailed drawing are `Label` and `NodeSize`.
- `cobol_analyzer.py` is modelled in `CobolAnalyzer`.
  - The matches of the regular expressions are inputs.
  - `list(set(...))` is `Dedup`.
  - The keyword filter and the 20-name cap are `ExtractProcedures`.
  - `ProgramInfo` and the analyser are classes, and `analyze` assigns the four fields of the analyser's own record.
  - The summary of `export_json` sorts each list with Python's string order, modelled in `Strings`.

Facts about the code that the model follows:
- A program id analysed twice keeps the `loc` and `file` of its LAST record, because `add_node` overwrites.
- No warnings are collected, no cycle limit or time budget exists, and nothing is truncated apart from the twenty procedure names.
- `build_graph` reads `info.file_name` and `info.lines_of_code`, which `ProgramInfo` does not declare. A record (`GraphBuild.Fact`) therefore carries program id, file name, line count, calls and files used.
- A node's `node_type` is whatever the last `add_node` call for it wrote. An analysed program that a later record names as a file is typed `file`, so "every analysed program has type `program`" holds only up to that case. `IngestOwnNode` and `IngestCallTarget` state it exactly.
- `find_circular_dependencies` searches the pairs of `call_edges` whose two ends are in `program_nodes`. It does not look at edge types or node types in the dependency graph. When a program both calls and uses a name, the graph's edge is typed `uses`, yet the pair still takes part in cycles (`CallCycleOverUsesEdge`).

## Model

| member | source | states |
|---|---|---|
| GraphBuild.Key | graph_visualizer.py:44 | `program_id or file_name`: a record is keyed by its file name exactly when its program id is None or empty (or equal to the file name); otherwise by its program id |
| GraphBuild.Ingest | graph_visualizer.py:42-74 | one outer iteration adds the key to `program_nodes` and the files used to `file_nodes`, and appends one `(key, target)` pair per call to `call_edges` and one `(key, file)` pair per file used to `file_edges`, in order |
| GraphBuild.BuildFrom | graph_visualizer.py:40-74 | `build_graph` ingests the records in order, starting from the current fields without resetting them |
| GraphBuild.EnsureBuilt | graph_visualizer.py:360-363 | an empty graph is built from the records, so it is non-empty afterwards when there is a record; a non-empty graph is left exactly as it is |
| GraphBuild.AddCalls | graph_visualizer.py:56-63 | the call loop appends one `(id, target)` pair per call, in order, adds each target as a node and touches no other side collection |
| GraphBuild.AddCallsNodes | graph_visualizer.py:58 | a call target gets `node_type = program` on top of its existing attributes; every other node is unchanged |
| GraphBuild.AddCallsEdges | graph_visualizer.py:59-63 | the graph gains exactly the edges `(id, target)`, each typed `calls`; other edges are unchanged |
| GraphBuild.AddFiles | graph_visualizer.py:66-74 | the file loop adds every file to `file_nodes` and to the graph and appends one `(id, file)` pair per entry, in order |
| GraphBuild.AddFilesNodes | graph_visualizer.py:69 | a file gets `node_type = file` on top of its existing attributes; every other node is unchanged |
| GraphBuild.AddFilesEdges | graph_visualizer.py:70-74 | the graph gains exactly the edges `(id, file)`, each typed `uses`; other edges are unchanged |
| GraphBuild.BuildFromWellFormed | graph_visualizer.py:40-74 | every run of `build_graph` keeps the invariant: nodes are the analysed programs, call targets and files; edges are the recorded pairs and leave analysed programs; everything is typed; exactly the analysed programs carry `loc` and `file` |
| GraphBuild.BuiltContents | graph_visualizer.py:40-74 | after `build_graph` on a fresh generator, `program_nodes` is the set of record keys (call targets are never added), `file_nodes` the files used, nodes and edges are as recorded, each side list has one entry per call or file over all records (duplicates included), and there are at most that many distinct edges |
| GraphBuild.IngestOwnNode | graph_visualizer.py:44-53 | the record's own node gets the record's `loc` and `file`; its type is `program`, or `file` when the record also lists itself as a file |
| GraphBuild.IngestCallTarget | graph_visualizer.py:56-63 | a call target other than the record's own key: its type becomes `program` (or `file` if the same record also uses it as a file) and its `loc` and `file` stay as they were |
| GraphBuild.IngestFileTarget | graph_visualizer.py:66-74 | a file other than the record's own key: its type becomes `file` and its `loc` and `file` stay as they were |
| GraphBuild.IngestOther | graph_visualizer.py:56-74 | a node other than the record's key keeps its dictionary except `node_type`, which becomes `file` if the record uses it as a file, else `program` if the record calls it |
| GraphBuild.IngestKeepsEdge | graph_visualizer.py:59-74 | an edge leaving another node than the record's key keeps its dictionary |
| GraphBuild.IngestEdge | graph_visualizer.py:56-74 | the single edge `(id, x)` is typed `uses` when `x` is among the record's files and `calls` otherwise, whatever it was before |
| GraphBuild.IngestUntouched | graph_visualizer.py:42-74 | a node the record does not mention keeps all its attributes |
| GraphBuild.AttributesAfterIngest | graph_visualizer.py:48-53 | only the record's own node has its `loc` and `file` rewritten |
| GraphBuild.BuiltAttributes | graph_visualizer.py:47-58 | after `build_graph`, a program analysed several times carries the `loc` and `file` of its last record, and a node that is only a call target or a file carries neither |
| GraphBuild.WellFormedEdgesAndIsolates | graph_visualizer.py:56-74 | every edge leaves an analysed program, and only analysed programs can be isolated (a file or call target always has an incoming edge) |
| GraphBuild.BuiltIsolated | graph_visualizer.py:40-74 | after `build_graph` the isolated nodes are exactly the record keys that call nothing, use nothing and are neither called nor used as a file |
| GraphBuild.BuildTwiceDuplicatesCalls | graph_visualizer.py:57 | `build_graph` does not reset the lists: a second run appends every call pair again |
| GraphBuild.BuildFromNonEmpty | graph_visualizer.py:47-53 | building from at least one record leaves at least one node |
| GraphBuild.EnsureBuiltIdempotent | graph_visualizer.py:360-362 | the emptiness guard makes the build happen at most once, so repeated statistics or cycle queries do not grow the lists |
| DiGraph.AddNode | graph_visualizer.py:48-53 | `add_node` creates the node if needed and leaves the edges alone; the node set grows by exactly that node |
| DiGraph.AddNodeAttributes | graph_visualizer.py:58 | `add_node` overwrites only the keys it is given: a key not given keeps its value, and every other node keeps its dictionary |
| DiGraph.AddNodeTwice | graph_visualizer.py:69 | adding the same node with the same keys twice is adding it once |
| DiGraph.AddEdge | graph_visualizer.py:59-63 | `add_edge` creates missing endpoints; the node set grows by the two endpoints and the edge set by the one ordered pair |
| DiGraph.AddEdgeAttributes | graph_visualizer.py:70-74 | `add_edge` gives new endpoints empty dictionaries, keeps existing nodes' dictionaries and other edges, overwrites only the given key of the pair's one dictionary, and adds at most one edge |
| DiGraph.AddEdgeTwice | graph_visualizer.py:396 | adding the same edge twice is adding it once, so a call pair recorded twice gives one edge |
| DiGraph.Isolates | graph_visualizer.py:372 | `nx.isolates` yields graph nodes only, and never a node with a self-loop |
| DiGraph.ReachableFromCorrect | graph_visualizer.py:373 | the closure computation yields exactly the nodes reachable by a walk |
| DiGraph.ComponentCorrect | graph_visualizer.py:373 | a component holds exactly the nodes mutually reachable with its representative |
| DiGraph.SameComponent | graph_visualizer.py:373 | two nodes share a component exactly when each reaches the other, so the count is the number of mutual-reachability classes |
| DiGraph.SinkComponent | graph_visualizer.py:373 | a node without outgoing edges is a component on its own |
| DiGraph.SccCount | graph_visualizer.py:373 | the component count is at most the number of nodes, and at least one when there is a node |
| CycleSearch.SimpleCycles | graph_visualizer.py:400 | every circuit listed is elementary (distinct nodes, consecutive edges, wrap-around edge), none is listed twice, and none is a rotation of another |
| CycleSearch.SimpleCyclesComplete | graph_visualizer.py:400 | every elementary circuit of the graph is listed as one of its rotations |
| GraphVisualizer.StatisticsOf | graph_visualizer.py:365-374 | program and file counts are at most the node count, distinct edges at most the recorded pairs, isolated nodes at most the analysed programs, components between one (for a non-empty graph) and the node count |
| GraphVisualizer.BuiltStatistics | graph_visualizer.py:360-374 | the statistics after a build, in terms of the records: distinct keys, distinct files, total calls and files, and isolated keys |
| GraphVisualizer.CallRelation | graph_visualizer.py:394-396 | the kept pairs are exactly the recorded calls whose two ends are analysed programs |
| GraphVisualizer.CallCycleInGraph | graph_visualizer.py:391-401 | every reported cycle runs over edges of the dependency graph, of either edge type, through analysed programs only |
| GraphVisualizer.CallCycleOverUsesEdge | graph_visualizer.py:394-400 | a program `x` that both calls and uses `y`, where `y` calls `x`: the graph's edge `(x, y)` is typed `uses`, and `[x, y]` is still a reported circuit |
| GraphVisualizer.CallCyclesKept | graph_visualizer.py:392-396 | restricting to analysed programs loses no circuit of `call_edges`, since only analysed programs have outgoing calls |
| GraphVisualizer.SelfLoopCycle | graph_visualizer.py:400 | `[n]` is a circuit exactly when `n` calls itself, and it is a rotation only of itself |
| GraphVisualizer.Label | graph_visualizer.py:330-335 | a label has at most 12 characters; it is the name itself exactly when the name has at most 12, otherwise the first 10 characters and `..` |
| GraphVisualizer.LabelIdempotent | graph_visualizer.py:333-335 | labelling a label changes nothing |
| GraphVisualizer.NodeSize | graph_visualizer.py:263-264 | the size lies in [1000, 3000], is 1000 when `loc` is missing, and is `1000 + 2 * loc` when that is in range |
| GraphVisualizer.NodeSizeMonotonic | graph_visualizer.py:264 | more lines never give a smaller node |
| GraphVisualizer.DependencyGraphGenerator.constructor | graph_visualizer.py:27-38 | a new generator holds its records, an empty graph and empty side collections, and satisfies the invariant |
| GraphVisualizer.DependencyGraphGenerator.BuildGraph | graph_visualizer.py:40-74 | the loop leaves the fields equal to the fold of all records over the old fields and keeps the invariant |
| GraphVisualizer.DependencyGraphGenerator.AddRecord | graph_visualizer.py:42-74 | one outer iteration ingests one record |
| GraphVisualizer.DependencyGraphGenerator.AddCallEdges | graph_visualizer.py:56-63 | the inner call loop leaves the fields as `AddCalls` specifies |
| GraphVisualizer.DependencyGraphGenerator.RecordCall | graph_visualizer.py:57-63 | one call target: the fields become those `AddCall` specifies |
| GraphVisualizer.DependencyGraphGenerator.AddFileEdges | graph_visualizer.py:66-74 | the inner file loop leaves the fields as `AddFiles` specifies |
| GraphVisualizer.DependencyGraphGenerator.RecordFileUse | graph_visualizer.py:67-74 | one file used: the fields become those `AddFileUse` specifies |
| GraphVisualizer.DependencyGraphGenerator.GetStatistics | graph_visualizer.py:360-374 | builds only when the graph is empty and returns the statistics of the resulting fields |
| GraphVisualizer.DependencyGraphGenerator.FindCircularDependencies | graph_visualizer.py:385-403 | builds only when the graph is empty; every list returned is a circuit of calls between analysed programs, none is a rotation of another, and every such circuit is returned in some rotation |
| GraphVisualizer.DependencyGraphGenerator.ProgramNodesGraph | graph_visualizer.py:391-393 | the new graph has exactly the analysed programs as nodes and no edge; the order in which they were added lists each once |
| GraphVisualizer.DependencyGraphGenerator.AddCallPairs | graph_visualizer.py:394-396 | the new graph's edges are exactly the call pairs between analysed programs |
| Strings.UpperChar | cobol_analyzer.py:75 | an ASCII lower-case letter is moved up by 32 code points to its upper-case letter; any other character is kept |
| Strings.Upper | cobol_analyzer.py:75 | `m.upper()` keeps the length and upper-cases each character on its own |
| Strings.UpperIdempotent | cobol_analyzer.py:75 | upper-casing twice is upper-casing once and leaves no lower-case ASCII letter |
| Strings.LessEq | cobol_analyzer.py:130-132 | Python's string order: the first differing character decides by code point, and a string sorts before anything it is a prefix of |
| Strings.LessEqTotal | cobol_analyzer.py:130-132 | any two strings are ordered one way or the other |
| Strings.LessEqAntisymmetric | cobol_analyzer.py:130-132 | strings ordered both ways are equal |
| Strings.LessEqTransitive | cobol_analyzer.py:130-132 | the order is transitive |
| Strings.Sort | cobol_analyzer.py:130-132 | `sorted` yields an ascending permutation of its input |
| Strings.SortedUnique | cobol_analyzer.py:130-132 | two ascending lists with the same entries are equal, so the sorted output does not depend on the input order |
| CobolAnalyzer.ExtractProgramId | cobol_analyzer.py:47-52 | no match gives None; otherwise the name captured by the first match |
| CobolAnalyzer.Dedup | cobol_analyzer.py:55-66 | the calls and files lists have no duplicates and exactly the elements of the matches |
| CobolAnalyzer.NonKeywords | cobol_analyzer.py:73-75 | the comprehension keeps exactly the matches whose upper-case form is not a keyword |
| CobolAnalyzer.ExtractProcedures | cobol_analyzer.py:69-76 | at most 20 distinct non-keyword matches; exactly `min(20, number of distinct non-keyword matches)` of them; all of them when fewer than 20 |
| CobolAnalyzer.ProceduresAreNotKeywords | cobol_analyzer.py:73-75 | no procedure name has an upper-case form equal to a keyword |
| CobolAnalyzer.KeywordsAreUpper | cobol_analyzer.py:74 | the keywords are already upper case |
| CobolAnalyzer.ProgramInfo.constructor | cobol_analyzer.py:15-27 | each missing list becomes empty and each given list is kept |
| CobolAnalyzer.Analyzer.constructor | cobol_analyzer.py:33-36 | a new analyser owns a fresh record holding only its path |
| CobolAnalyzer.Analyzer.Analyze | cobol_analyzer.py:79-87 | sets program id, calls, files and procedures on the analyser's own record from the matches, keeps its path, and returns that same record |
| CobolAnalyzer.Analyzer.ExportJson | cobol_analyzer.py:121-137 | each exported list is the sorted permutation of the record's list, and each total is that list's length |

## Left out

- Drawing with matplotlib is not modelled: the calls-only, simple and detailed drawings, layouts, `savefig` and console output. It is presentation and floating point. Only the label and size expressions are kept.
- `export_dot`, the file writing and `json.dump` of `export_json`, `print_results`, `_read_file`, `sys.exit` and `main` are not modelled. They are I/O and command-line plumbing.
- Regular-expression matching (`re.search`/`re.findall` with their flags) is not modelled. The matches are parameters of `Analyze` and of the `Extract…` functions.
- Dedup: Python leaves the order of `list(set(...))` open. The model keeps first occurrences, and the contracts promise no order. Which twenty procedures survive the cap is likewise left open by `ExtractProcedures`' contract.
- The order in which `find_circular_dependencies` adds the analysed programs (Python set iteration) is an arbitrary choice in `ProgramNodesGraph`. The cycle enumerator is proved for every node order.
- CycleSearch.SimpleCycles: the enumerator is not networkx's Johnson-style algorithm. The two agree on the set of circuits up to rotation, but not necessarily on the order of the list or on which rotation of each circuit is returned.
- The algorithm behind `nx.number_strongly_connected_components` is not modelled. The count is specified as the number of mutual-reachability classes.
- The bare `except: return []` around `simple_cycles` is not modelled, since the model has no failure path.
- The `GraphNode` dataclass (graph_visualizer.py:14-22) is not modelled, since nothing uses it.
- The generator holds analyser objects in the source. The model holds only the five fields of each record that `build_graph` reads (`GraphBuild.Fact`).
- Strings.UpperIdempotent: `str.upper` is modelled on ASCII letters only. Names are made of letters, digits and hyphens, and the upper-case forms of other characters (such as `ß` becoming `SS`) are not modelled.
- Node and edge attributes are restricted to the keys the generator writes (`node_type`, `loc`, `file`, `edge_type`). Integers are unbounded, as in Python.
