/**
 * `DependencyGraphGenerator` (graph_visualizer.py): the generator object whose fields
 * `build_graph` updates in place, the statistics computed from those fields, the search for
 * circular call dependencies, and the two display helpers of the detailed drawing.
 */
module GraphVisualizer {
  import opened Wrappers
  import opened Collections
  import opened DiGraph
  import opened CycleSearch
  import opened GraphBuild

  /** The dictionary returned by `get_statistics`. */
  datatype Statistics = Statistics(totalNodes: nat, programNodes: nat, fileNodes: nat,
                                   totalEdges: nat, callEdges: nat, fileEdges: nat,
                                   isolatedPrograms: nat, stronglyConnectedComponents: nat)

  /**
   * The counts of lines 365-374 over a generator state. Whatever the records, the analysed
   * programs and the files are among the nodes, the distinct edges are no more than the
   * recorded pairs, only analysed programs can be isolated, and there are at most as many
   * strongly connected components as nodes (and at least one when there is a node).
   */
  function StatisticsOf(st: GenState): (r: Statistics)
    requires WellFormed(st)
    ensures r.programNodes <= r.totalNodes && r.fileNodes <= r.totalNodes
    ensures r.totalEdges <= r.callEdges + r.fileEdges
    ensures r.isolatedPrograms <= r.programNodes
    ensures r.stronglyConnectedComponents <= r.totalNodes
    ensures r.totalNodes > 0 ==> r.stronglyConnectedComponents > 0
  {
    WellFormedValid(st);
    WellFormedEdgesAndIsolates(st);
    SubsetCardinality(st.programNodes, st.graph.nodes.Keys);
    SubsetCardinality(st.fileNodes, st.graph.nodes.Keys);
    SubsetCardinality(Isolates(st.graph), st.programNodes);
    ElementsCardinality(st.callEdges);
    ElementsCardinality(st.fileEdges);
    assert |st.graph.edges| == |Elements(st.callEdges) + Elements(st.fileEdges)|;
    Statistics(|st.graph.nodes|, |st.programNodes|, |st.fileNodes|, |st.graph.edges|,
               |st.callEdges|, |st.fileEdges|, |Isolates(st.graph)|, SccCount(st.graph))
  }

  /**
   * The statistics after `build_graph` on a fresh generator, in terms of the records: one
   * program node per distinct key, one call (file) edge entry per call (file) over all
   * records, and as isolated nodes the keys that call nothing, use nothing and are neither
   * called nor used as a file.
   */
  lemma BuiltStatistics(facts: seq<Fact>)
    ensures WellFormed(Built(facts))
    ensures var r := StatisticsOf(Built(facts));
      && r.programNodes == |Keys(facts)|
      && r.fileNodes == |Named(facts, FilesUsedOf)|
      && r.totalNodes == |Keys(facts) + Named(facts, CallsOf) + Named(facts, FilesUsedOf)|
      && r.callEdges == Total(facts, CallsOf)
      && r.fileEdges == Total(facts, FilesUsedOf)
      && r.isolatedPrograms == |Keys(facts) - Active(facts, CallsOf) - Active(facts, FilesUsedOf)
                                - Named(facts, CallsOf) - Named(facts, FilesUsedOf)|
  {
    BuiltContents(facts);
    BuiltIsolated(facts);
    assert |Built(facts).graph.nodes| == |Built(facts).graph.nodes.Keys|;
  }

  /** The pairs of `call_edges` kept by lines 394-396: both ends are analysed programs. */
  function CallRelation(st: GenState): (r: set<Edge>)
    ensures forall e :: e in r ==> e.0 in st.programNodes && e.1 in st.programNodes
    ensures forall e :: e in r <==> e in st.callEdges && e.0 in st.programNodes && e.1 in st.programNodes
  {
    set e | e in st.callEdges && e.0 in st.programNodes && e.1 in st.programNodes
  }

  /** An elementary circuit over a relation is one over any larger relation. */
  lemma CycleWiden(E: set<Edge>, F: set<Edge>, c: seq<string>)
    requires E <= F && IsCycle(E, c)
    ensures IsCycle(F, c)
  {
  }

  /**
   * Every cycle reported is a cycle of calls in the dependency graph itself: the call
   * relation is part of the graph's edges.
   */
  lemma CallCycleInGraph(st: GenState, c: seq<string>)
    requires WellFormed(st) && IsCycle(CallRelation(st), c)
    ensures IsCycle(st.graph.edges.Keys, c)
    ensures forall k :: 0 <= k < |c| ==> c[k] in st.programNodes
  {
    CycleWiden(CallRelation(st), st.graph.edges.Keys, c);
    forall k | 0 <= k < |c|
      ensures c[k] in st.programNodes
    {
      if k < |c| - 1 {
        assert (c[k], c[k + 1]) in CallRelation(st);
      } else {
        assert (c[k], c[0]) in CallRelation(st);
      }
    }
  }

  /**
   * The search follows `call_edges`, not the edges' types: when a program `x` both calls and
   * uses `y`, the graph's edge `(x, y)` is typed `uses`, yet `[x, y]` is still a circuit of
   * the kept call pairs once `y` calls `x`.
   */
  lemma CallCycleOverUsesEdge(a: Fact, b: Fact, x: string, y: string)
    requires x != "" && y != "" && x != y
    requires a.programId == Some(x) && a.calls == [y] && a.filesUsed == [y]
    requires b.programId == Some(y) && b.calls == [x] && b.filesUsed == []
    ensures IsCycle(CallRelation(Built([a, b])), [x, y])
    ensures (x, y) in Built([a, b]).graph.edges && Built([a, b]).graph.edges[(x, y)] == UseEdge
  {
    BuiltTwo(a, b);
    UsesEdgeCycle(a, b, x, y, Built([a, b]));
    UsesEdgeType(a, b, x, y, Built([a, b]));
  }

  lemma BuiltTwo(a: Fact, b: Fact)
    ensures Built([a, b]) == Ingest(Ingest(Init(), a), b)
  {
    assert [a, b][..1] == [a] && [a][..0] == [];
    assert BuildFrom(Init(), [a]) == Ingest(Init(), a);
  }

  /** The two records keep the call pairs `(x, y)` and `(y, x)` between analysed programs. */
  lemma UsesEdgeCycle(a: Fact, b: Fact, x: string, y: string, st: GenState)
    requires x != "" && y != "" && x != y
    requires a.programId == Some(x) && a.calls == [y] && a.filesUsed == [y]
    requires b.programId == Some(y) && b.calls == [x] && b.filesUsed == []
    requires st == Ingest(Ingest(Init(), a), b)
    ensures IsCycle(CallRelation(st), [x, y])
  {
    var s1 := Ingest(Init(), a);
    assert Key(a) == x && Key(b) == y;
    assert PairsFrom(x, a.calls)[0] == (x, y) && PairsFrom(y, b.calls)[0] == (y, x);
    assert (x, y) in s1.callEdges && x in s1.programNodes;
    assert (x, y) in st.callEdges && (y, x) in st.callEdges;
    assert x in st.programNodes && y in st.programNodes;
    TwoCycle(CallRelation(st), x, y);
  }

  /** Two distinct nodes with edges both ways form an elementary circuit. */
  lemma TwoCycle(E: set<Edge>, x: string, y: string)
    requires x != y && (x, y) in E && (y, x) in E
    ensures IsCycle(E, [x, y])
  {
  }

  /** The first record's edge `(x, y)` is typed `uses`, and the second record leaves it. */
  lemma UsesEdgeType(a: Fact, b: Fact, x: string, y: string, st: GenState)
    requires x != "" && y != "" && x != y
    requires a.programId == Some(x) && a.calls == [y] && a.filesUsed == [y]
    requires b.programId == Some(y)
    requires st == Ingest(Ingest(Init(), a), b)
    ensures (x, y) in st.graph.edges && st.graph.edges[(x, y)] == UseEdge
  {
    var s1 := Ingest(Init(), a);
    assert Key(a) == x && Key(b) == y;
    IngestEdge(Init(), a, y);
    IngestKeepsEdge(s1, b, (x, y));
  }

  /**
   * Restricting to analysed programs loses no cycle: only analysed programs have outgoing
   * call edges, so every node of a circuit of `call_edges` is one.
   */
  lemma CallCyclesKept(st: GenState, c: seq<string>)
    requires WellFormed(st) && IsCycle(Elements(st.callEdges), c)
    ensures IsCycle(CallRelation(st), c)
  {
    forall k | 0 <= k < |c|
      ensures c[k] in st.programNodes
    {
      var e := if k < |c| - 1 then (c[k], c[k + 1]) else (c[k], c[0]);
      assert e in st.callEdges;
    }
    forall k | 0 <= k < |c| - 1
      ensures (c[k], c[k + 1]) in CallRelation(st)
    {
      assert (c[k], c[k + 1]) in st.callEdges;
    }
    assert (c[|c| - 1], c[0]) in CallRelation(st);
  }

  /**
   * A self-loop is the one-node circuit `[n]`, and the only rotation of `[n]` is itself, so a
   * program that calls itself is reported as exactly `[n]`.
   */
  lemma SelfLoopCycle(E: set<Edge>, n: string, b: seq<string>)
    ensures IsCycle(E, [n]) <==> (n, n) in E
    ensures IsRotation([n], b) <==> b == [n]
  {
    if b == [n] {
      assert b == Rotate([n], 0);
    }
  }

  /** `len(label) > 12` truncation of lines 332-335. */
  function Label(name: string): (r: string)
    ensures |r| <= 12
    ensures r == name <==> |name| <= 12
    ensures |name| > 12 ==> |r| == 12 && r[..10] == name[..10] && r[10..] == ".."
  {
    if |name| > 12 then name[..10] + ".." else name
  }

  /** Labels are already short, so labelling a label changes nothing. */
  lemma LabelIdempotent(name: string)
    ensures Label(Label(name)) == Label(name)
  {
  }

  /**
   * The marker size of line 264, `max(1000, min(3000, 1000 + loc * 2))`, with `loc` read by
   * `.get('loc', 0)`: a node without `loc` counts as 0.
   */
  function NodeSize(loc: Option<int>): (r: int)
    ensures 1000 <= r <= 3000
    ensures loc.None? ==> r == 1000
    ensures var l := loc.GetOr(0); 0 <= l <= 1000 ==> r == 1000 + 2 * l
  {
    var l := loc.GetOr(0);
    var scaled := 1000 + l * 2;
    var capped := if scaled < 3000 then scaled else 3000;
    if capped > 1000 then capped else 1000
  }

  /** Larger programs never get smaller markers. */
  lemma NodeSizeMonotonic(a: int, b: int)
    requires a <= b
    ensures NodeSize(Some(a)) <= NodeSize(Some(b))
  {
  }

  /** The generator: its records and the five fields `build_graph` fills in. */
  class DependencyGraphGenerator {
    const analyzers: seq<Fact>
    var graph: Graph
    var programNodes: set<string>
    var fileNodes: set<string>
    var callEdges: seq<Edge>
    var fileEdges: seq<Edge>

    function State(): GenState
      reads this
    {
      GenState(graph, programNodes, fileNodes, callEdges, fileEdges)
    }

    ghost predicate Valid()
      reads this
    {
      WellFormed(State())
    }

    /** Lines 28-38: empty graph, empty sets and lists. */
    constructor (analyzers: seq<Fact>)
      ensures this.analyzers == analyzers && State() == Init() && Valid()
    {
      this.analyzers := analyzers;
      graph := EmptyGraph();
      programNodes := {};
      fileNodes := {};
      callEdges := [];
      fileEdges := [];
      InitWellFormed();
    }

    /** Lines 40-74: fold every record into the graph and the side collections. */
    method BuildGraph()
      requires Valid()
      modifies this
      ensures Valid()
      ensures State() == BuildFrom(old(State()), analyzers)
    {
      ghost var start := State();
      assert analyzers[..0] == [];
      var i := 0;
      while i < |analyzers|
        invariant 0 <= i <= |analyzers|
        invariant State() == BuildFrom(start, analyzers[..i])
      {
        AddRecord(analyzers[i]);
        BuildFromStep(start, analyzers, i);
        i := i + 1;
      }
      assert analyzers[..i] == analyzers;
      BuildFromWellFormed(start, analyzers);
    }

    /** Lines 42-74: one pass of the outer loop, for the record `info`. */
    method AddRecord(info: Fact)
      modifies this
      ensures State() == Ingest(old(State()), info)
    {
      var programId :=
        if info.programId.Some? && info.programId.value != "" then info.programId.value
        else info.fileName;
      programNodes := programNodes + {programId};
      graph := AddNode(graph, programId, NodeAttrs(Some(Program), Some(info.linesOfCode), Some(info.fileName)));
      assert programId == Key(info) && State() == AddProgram(old(State()), info);
      AddCallEdges(programId, info.calls);
      AddFileEdges(programId, info.filesUsed);
    }

    /** Lines 56-63: the calls of one record, in order. */
    method AddCallEdges(programId: string, calls: seq<string>)
      requires programId in graph.nodes
      modifies this
      ensures State() == AddCalls(old(State()), programId, calls)
    {
      ghost var start := State();
      var j := 0;
      while j < |calls|
        invariant 0 <= j <= |calls|
        invariant State() == AddCalls(start, programId, calls[..j])
      {
        AddCallsStep(start, programId, calls, j);
        RecordCall(programId, calls[j]);
        j := j + 1;
      }
      assert calls[..j] == calls;
    }

    /** Lines 57-63: the program `programId` calls `calledProgram`. */
    method RecordCall(programId: string, calledProgram: string)
      modifies this
      ensures State() == AddCall(old(State()), programId, calledProgram)
    {
      callEdges := callEdges + [(programId, calledProgram)];
      graph := AddNode(graph, calledProgram, ProgramNode);
      graph := AddEdge(graph, programId, calledProgram, CallEdge);
    }

    /** Lines 66-74: the files of one record, in order. */
    method AddFileEdges(programId: string, files: seq<string>)
      requires programId in graph.nodes
      modifies this
      ensures State() == AddFiles(old(State()), programId, files)
    {
      ghost var start := State();
      var j := 0;
      while j < |files|
        invariant 0 <= j <= |files|
        invariant State() == AddFiles(start, programId, files[..j])
      {
        AddFilesStep(start, programId, files, j);
        RecordFileUse(programId, files[j]);
        j := j + 1;
      }
      assert files[..j] == files;
    }

    /** Lines 67-74: the program `programId` uses the file `fileName`. */
    method RecordFileUse(programId: string, fileName: string)
      modifies this
      ensures State() == AddFileUse(old(State()), programId, fileName)
    {
      fileNodes := fileNodes + {fileName};
      fileEdges := fileEdges + [(programId, fileName)];
      graph := AddNode(graph, fileName, FileNode);
      graph := AddEdge(graph, programId, fileName, UseEdge);
    }

    /** Lines 360-374: build once if the graph is empty, then count. */
    method GetStatistics() returns (stats: Statistics)
      requires Valid()
      modifies this
      ensures Valid()
      ensures State() == EnsureBuilt(old(State()), analyzers)
      ensures stats == StatisticsOf(State())
    {
      if |graph.nodes| == 0 {
        BuildGraph();
      }
      WellFormedValid(State());
      stats := Statistics(|graph.nodes|, |programNodes|, |fileNodes|, |graph.edges|,
                          |callEdges|, |fileEdges|, |Isolates(graph)|, SccCount(graph));
    }

    /**
     * Lines 385-403: build once if the graph is empty, copy the analysed programs and the
     * call pairs between them into a fresh graph, and list its elementary circuits. Every
     * list returned is a circuit of calls between analysed programs, none is a rotation of
     * another, and every such circuit is returned as one of its rotations.
     */
    method FindCircularDependencies() returns (cycles: seq<seq<string>>)
      requires Valid()
      modifies this
      ensures Valid()
      ensures State() == EnsureBuilt(old(State()), analyzers)
      ensures forall c :: c in cycles ==> IsCycle(CallRelation(State()), c)
      ensures forall p, q :: 0 <= p < q < |cycles| ==>
        !IsRotation(cycles[p], cycles[q]) && !IsRotation(cycles[q], cycles[p])
      ensures forall c :: IsCycle(CallRelation(State()), c) ==>
        exists q :: 0 <= q < |cycles| && IsRotation(c, cycles[q])
    {
      if |graph.nodes| == 0 {
        BuildGraph();
      }

      var programGraph, order := ProgramNodesGraph();
      programGraph := AddCallPairs(programGraph);
      cycles := SimpleCycles(programGraph, order);
      forall c | IsCycle(CallRelation(State()), c)
        ensures exists q :: 0 <= q < |cycles| && IsRotation(c, cycles[q])
      {
        SimpleCyclesComplete(programGraph, order, c);
      }
    }
  
    /**
     * Lines 392-393: a graph holding the analysed programs and no edge, together with the
     * order in which they were added (each once).
     */
    method ProgramNodesGraph() returns (programGraph: Graph, order: seq<string>)
      ensures programGraph.nodes.Keys == programNodes && programGraph.edges == map[]
      ensures Distinct(order) && forall x :: x in order <==> x in programNodes
    {
      programGraph := EmptyGraph();
      order := [];
      var remaining := programNodes;
      ghost var all := programNodes;
      while remaining != {}
        invariant remaining <= all
        invariant programGraph.nodes.Keys == all - remaining && programGraph.edges == map[]
        invariant Distinct(order) && Elements(order) == all - remaining
        decreases |remaining|
      {
        var node :| node in remaining;
        assert all - (remaining - {node}) == (all - remaining) + {node};
        programGraph := AddNode(programGraph, node, NoNodeAttrs);
        DistinctConcat(order, [node]);
        ElementsSnoc(order, node);
        order := order + [node];
        remaining := remaining - {node};
      }
    }

    /** Lines 394-396: add every pair of `call_edges` whose two ends are analysed programs. */
    method AddCallPairs(start: Graph) returns (programGraph: Graph)
      requires start.nodes.Keys == programNodes && start.edges == map[]
      ensures programGraph.nodes.Keys == programNodes
      ensures programGraph.edges.Keys == CallRelation(State())
    {
      programGraph := start;
      var k := 0;
      while k < |callEdges|
        invariant 0 <= k <= |callEdges|
        invariant programGraph.nodes.Keys == programNodes
        invariant programGraph.edges.Keys
               == set e | e in callEdges[..k] && e.0 in programNodes && e.1 in programNodes
      {
        var (source, target) := callEdges[k];
        if source in programNodes && target in programNodes {
          programGraph := AddEdge(programGraph, source, target, NoEdgeAttrs);
        }
        assert callEdges[..k + 1] == callEdges[..k] + [callEdges[k]];
        k := k + 1;
      }
      assert callEdges[..k] == callEdges;
    }
  }
}
