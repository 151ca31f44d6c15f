/**
 * What `DependencyGraphGenerator.build_graph` does to the generator's state, as a fold over
 * the analysers' records, and what that state then satisfies.
 */
module GraphBuild {
  import opened Wrappers
  import opened Collections
  import opened DiGraph

  /** The fields `build_graph` reads from one analyser's `info`. */
  datatype Fact = Fact(programId: Option<string>, fileName: string, linesOfCode: int,
                       calls: seq<string>, filesUsed: seq<string>)

  /** The generator's fields: `graph`, `program_nodes`, `file_nodes`, `call_edges`, `file_edges`. */
  datatype GenState = GenState(graph: Graph, programNodes: set<string>, fileNodes: set<string>,
                               callEdges: seq<Edge>, fileEdges: seq<Edge>)

  function Init(): GenState {
    GenState(EmptyGraph(), {}, {}, [], [])
  }

  /** The node a record is keyed by: its program id, or its file name when the id is empty or None. */
  function Key(f: Fact): (r: string)
    ensures r == f.fileName <==>
      f.programId.None? || f.programId.value == "" || f.programId.value == f.fileName
    ensures r != f.fileName ==> Some(r) == f.programId
  {
    if f.programId.Some? && f.programId.value != "" then f.programId.value else f.fileName
  }

  const ProgramNode := NodeAttrs(Some(Program), None, None)
  const FileNode := NodeAttrs(Some(File), None, None)
  const CallEdge := EdgeAttrs(Some(Calls))
  const UseEdge := EdgeAttrs(Some(Uses))

  /** Lines 47-53: record the analysed program and (re)write its three attributes. */
  function AddProgram(st: GenState, f: Fact): GenState {
    var id := Key(f);
    st.(programNodes := st.programNodes + {id},
        graph := AddNode(st.graph, id, NodeAttrs(Some(Program), Some(f.linesOfCode), Some(f.fileName))))
  }

  /** Lines 57-63: one call target. */
  function AddCall(st: GenState, id: string, target: string): GenState {
    st.(callEdges := st.callEdges + [(id, target)],
        graph := AddEdge(AddNode(st.graph, target, ProgramNode), id, target, CallEdge))
  }

  /** Lines 67-74: one file used. */
  function AddFileUse(st: GenState, id: string, file: string): GenState {
    st.(fileNodes := st.fileNodes + {file}, fileEdges := st.fileEdges + [(id, file)],
        graph := AddEdge(AddNode(st.graph, file, FileNode), id, file, UseEdge))
  }

  /** The pairs `(id, t)` for the targets `ts`, in order. */
  function PairsFrom(id: string, ts: seq<string>): (r: seq<Edge>)
    ensures |r| == |ts|
    ensures forall k :: 0 <= k < |ts| ==> r[k] == (id, ts[k])
  {
    seq(|ts|, k requires 0 <= k < |ts| => (id, ts[k]))
  }

  /** The pairs of a non-empty list: those of all but its last target, then the last one's. */
  lemma PairsFromLast(id: string, ts: seq<string>)
    requires ts != []
    ensures PairsFrom(id, ts) == PairsFrom(id, ts[..|ts| - 1]) + [(id, ts[|ts| - 1])]
  {
  }

  /** The loop of lines 56-63 over all call targets of one record. */
  function AddCalls(st: GenState, id: string, calls: seq<string>): (r: GenState)
    requires id in st.graph.nodes
    ensures r.programNodes == st.programNodes && r.fileNodes == st.fileNodes
    ensures r.fileEdges == st.fileEdges
    ensures r.callEdges == st.callEdges + PairsFrom(id, calls)
    ensures r.graph.nodes.Keys == st.graph.nodes.Keys + Elements(calls)
    decreases |calls|
  {
    if calls == [] then st
    else
      var init := calls[..|calls| - 1];
      var last := calls[|calls| - 1];
      ElementsLast(calls);
      PairsFromLast(id, calls);
      var prev := AddCalls(st, id, init);
      assert prev.callEdges + [(id, last)] == st.callEdges + PairsFrom(id, calls);
      AddCall(prev, id, last)
  }

  /** How the loop over calls rewrites the node dictionaries. */
  lemma {:induction false} AddCallsNodes(st: GenState, id: string, calls: seq<string>)
    requires id in st.graph.nodes
    ensures var r := AddCalls(st, id, calls);
      forall n :: n in r.graph.nodes ==>
        r.graph.nodes[n] == if n in calls then Existing(st.graph, n).(nodeType := Some(Program))
                            else st.graph.nodes[n]
    decreases |calls|
  {
    if calls != [] {
      var init := calls[..|calls| - 1];
      var last := calls[|calls| - 1];
      assert forall n :: n in calls <==> n in init || n == last;
      AddCallsNodes(st, id, init);
      AddCallEffect(AddCalls(st, id, init), id, last);
    }
  }

  /** How the loop over calls adds edges and writes their dictionaries. */
  lemma {:induction false} AddCallsEdges(st: GenState, id: string, calls: seq<string>)
    requires id in st.graph.nodes
    ensures var r := AddCalls(st, id, calls);
      && r.graph.edges.Keys == st.graph.edges.Keys + Elements(PairsFrom(id, calls))
      && forall e :: e in r.graph.edges ==>
           r.graph.edges[e] == if e in PairsFrom(id, calls) then CallEdge else st.graph.edges[e]
    decreases |calls|
  {
    if calls != [] {
      var init := calls[..|calls| - 1];
      var last := calls[|calls| - 1];
      PairsFromLast(id, calls);
      AddCallsEdges(st, id, init);
      AddCallEffect(AddCalls(st, id, init), id, last);
    }
  }

  /** The loop of lines 66-74 over all files of one record. */
  function AddFiles(st: GenState, id: string, files: seq<string>): (r: GenState)
    requires id in st.graph.nodes
    ensures r.programNodes == st.programNodes && r.callEdges == st.callEdges
    ensures r.fileNodes == st.fileNodes + Elements(files)
    ensures r.fileEdges == st.fileEdges + PairsFrom(id, files)
    ensures r.graph.nodes.Keys == st.graph.nodes.Keys + Elements(files)
    decreases |files|
  {
    if files == [] then st
    else
      var init := files[..|files| - 1];
      var last := files[|files| - 1];
      ElementsLast(files);
      PairsFromLast(id, files);
      var prev := AddFiles(st, id, init);
      assert prev.fileEdges + [(id, last)] == st.fileEdges + PairsFrom(id, files);
      AddFileUse(prev, id, last)
  }

  /** How the loop over files rewrites the node dictionaries. */
  lemma {:induction false} AddFilesNodes(st: GenState, id: string, files: seq<string>)
    requires id in st.graph.nodes
    ensures var r := AddFiles(st, id, files);
      forall n :: n in r.graph.nodes ==>
        r.graph.nodes[n] == if n in files then Existing(st.graph, n).(nodeType := Some(File))
                            else st.graph.nodes[n]
    decreases |files|
  {
    if files != [] {
      var init := files[..|files| - 1];
      var last := files[|files| - 1];
      assert forall n :: n in files <==> n in init || n == last;
      AddFilesNodes(st, id, init);
      AddFileUseEffect(AddFiles(st, id, init), id, last);
    }
  }

  /** How the loop over files adds edges and writes their dictionaries. */
  lemma {:induction false} AddFilesEdges(st: GenState, id: string, files: seq<string>)
    requires id in st.graph.nodes
    ensures var r := AddFiles(st, id, files);
      && r.graph.edges.Keys == st.graph.edges.Keys + Elements(PairsFrom(id, files))
      && forall e :: e in r.graph.edges ==>
           r.graph.edges[e] == if e in PairsFrom(id, files) then UseEdge else st.graph.edges[e]
    decreases |files|
  {
    if files != [] {
      var init := files[..|files| - 1];
      var last := files[|files| - 1];
      PairsFromLast(id, files);
      AddFilesEdges(st, id, init);
      AddFileUseEffect(AddFiles(st, id, init), id, last);
    }
  }

  /** What one call target changes in the graph. */
  lemma AddCallEffect(st: GenState, id: string, t: string)
    requires id in st.graph.nodes
    ensures var r := AddCall(st, id, t).graph;
      && r.nodes.Keys == st.graph.nodes.Keys + {t}
      && (forall n :: n in r.nodes ==>
            r.nodes[n] == if n == t then Existing(st.graph, n).(nodeType := Some(Program))
                          else st.graph.nodes[n])
      && r.edges.Keys == st.graph.edges.Keys + {(id, t)}
      && (forall e :: e in r.edges ==> r.edges[e] == if e == (id, t) then CallEdge else st.graph.edges[e])
  {
  }

  /** What one file used changes in the graph. */
  lemma AddFileUseEffect(st: GenState, id: string, t: string)
    requires id in st.graph.nodes
    ensures var r := AddFileUse(st, id, t).graph;
      && r.nodes.Keys == st.graph.nodes.Keys + {t}
      && (forall n :: n in r.nodes ==>
            r.nodes[n] == if n == t then Existing(st.graph, n).(nodeType := Some(File))
                          else st.graph.nodes[n])
      && r.edges.Keys == st.graph.edges.Keys + {(id, t)}
      && (forall e :: e in r.edges ==> r.edges[e] == if e == (id, t) then UseEdge else st.graph.edges[e])
  {
  }

  /** The call loop advanced by one target. */
  lemma AddCallsStep(st: GenState, id: string, calls: seq<string>, j: nat)
    requires id in st.graph.nodes && j < |calls|
    ensures AddCalls(st, id, calls[..j + 1]) == AddCall(AddCalls(st, id, calls[..j]), id, calls[j])
  {
    assert calls[..j + 1][..j] == calls[..j];
  }

  /** The file loop advanced by one file. */
  lemma AddFilesStep(st: GenState, id: string, files: seq<string>, j: nat)
    requires id in st.graph.nodes && j < |files|
    ensures AddFiles(st, id, files[..j + 1]) == AddFileUse(AddFiles(st, id, files[..j]), id, files[j])
  {
    assert files[..j + 1][..j] == files[..j];
  }

  /** One iteration of the outer loop of `build_graph` (lines 43-74). */
  function Ingest(st: GenState, f: Fact): (r: GenState)
    ensures r.programNodes == st.programNodes + {Key(f)}
    ensures r.fileNodes == st.fileNodes + Elements(f.filesUsed)
    ensures r.callEdges == st.callEdges + PairsFrom(Key(f), f.calls)
    ensures r.fileEdges == st.fileEdges + PairsFrom(Key(f), f.filesUsed)
  {
    var id := Key(f);
    AddFiles(AddCalls(AddProgram(st, f), id, f.calls), id, f.filesUsed)
  }

  /** `build_graph` over the records `facts`, starting from the state `st`. */
  function BuildFrom(st: GenState, facts: seq<Fact>): GenState
    decreases |facts|
  {
    if facts == [] then st
    else Ingest(BuildFrom(st, facts[..|facts| - 1]), facts[|facts| - 1])
  }

  /** The record loop advanced by one record. */
  lemma BuildFromStep(st: GenState, facts: seq<Fact>, i: nat)
    requires i < |facts|
    ensures BuildFrom(st, facts[..i + 1]) == Ingest(BuildFrom(st, facts[..i]), facts[i])
  {
    assert facts[..i + 1][..i] == facts[..i];
  }

  /** The state after `if not self.graph.nodes(): self.build_graph()`. */
  function EnsureBuilt(st: GenState, facts: seq<Fact>): (r: GenState)
    ensures |st.graph.nodes| > 0 ==> r == st
    ensures facts != [] ==> |r.graph.nodes| > 0
  {
    if |st.graph.nodes| == 0 then
      assert facts != [] ==> |BuildFrom(st, facts).graph.nodes| > 0 by {
        if facts != [] {
          BuildFromNonEmpty(st, facts);
        }
      }
      BuildFrom(st, facts)
    else st
  }

  // ---------------------------------------------------------------------------------------
  // The generator's invariant

  /** The second components of a list of pairs. */
  function Targets(es: seq<Edge>): set<string> {
    set e | e in es :: e.1
  }

  /**
   * What holds of the generator's fields after any number of `build_graph` runs: the graph's
   * nodes are the analysed programs, the call targets and the files; its edges are the recorded
   * call and file pairs; every edge leaves an analysed program; every node and edge is typed,
   * and exactly the analysed programs carry `loc` and `file`.
   */
  ghost predicate WellFormed(st: GenState) {
    ShapeOk(st) && TypesOk(st) && AttributesOk(st)
  }

  ghost predicate ShapeOk(st: GenState) {
    && st.graph.nodes.Keys == st.programNodes + Targets(st.callEdges) + st.fileNodes
    && st.graph.edges.Keys == Elements(st.callEdges) + Elements(st.fileEdges)
    && st.fileNodes == Targets(st.fileEdges)
    && (forall e :: e in st.callEdges ==> e.0 in st.programNodes)
    && (forall e :: e in st.fileEdges ==> e.0 in st.programNodes)
  }

  ghost predicate TypesOk(st: GenState) {
    var g := st.graph;
    && (forall n :: n in g.nodes ==> g.nodes[n].nodeType.Some?)
    && (forall n :: n in g.nodes && g.nodes[n].nodeType == Some(Program) ==>
          n in st.programNodes || n in Targets(st.callEdges))
    && (forall n :: n in g.nodes && g.nodes[n].nodeType == Some(File) ==> n in st.fileNodes)
    && (forall e :: e in g.edges ==> g.edges[e] == CallEdge || g.edges[e] == UseEdge)
    && (forall e :: e in g.edges && g.edges[e] == CallEdge ==> e in st.callEdges)
    && (forall e :: e in g.edges && g.edges[e] == UseEdge ==> e in st.fileEdges)
  }

  ghost predicate AttributesOk(st: GenState) {
    var g := st.graph;
    && (forall n :: n in g.nodes ==> (g.nodes[n].loc.Some? <==> n in st.programNodes))
    && (forall n :: n in g.nodes ==> (g.nodes[n].file.Some? <==> n in st.programNodes))
  }

  lemma InitWellFormed()
    ensures WellFormed(Init())
  {
  }

  lemma WellFormedValid(st: GenState)
    requires WellFormed(st)
    ensures Valid(st.graph)
  {
    forall e | e in st.graph.edges
      ensures e.0 in st.graph.nodes && e.1 in st.graph.nodes
    {
      if e in st.callEdges {
        assert e.1 in Targets(st.callEdges);
      } else {
        assert e in st.fileEdges;
        assert e.1 in Targets(st.fileEdges);
      }
    }
  }

  lemma AddProgramWellFormed(st: GenState, f: Fact)
    requires WellFormed(st)
    ensures WellFormed(AddProgram(st, f))
  {
  }

  lemma TargetsAppend(es: seq<Edge>, more: seq<Edge>)
    ensures Targets(es + more) == Targets(es) + Targets(more)
  {
  }

  lemma TargetsOfPairs(id: string, ts: seq<string>)
    ensures Targets(PairsFrom(id, ts)) == Elements(ts)
  {
    forall x | x in ts
      ensures x in Targets(PairsFrom(id, ts))
    {
      var k :| 0 <= k < |ts| && ts[k] == x;
      assert PairsFrom(id, ts)[k] == (id, x);
    }
  }

  /** The pair `(id, x)` is among the pairs exactly when `x` is among the targets. */
  lemma PairsFromMember(id: string, ts: seq<string>, x: string)
    ensures (id, x) in PairsFrom(id, ts) <==> x in ts
  {
    if x in ts {
      var k :| 0 <= k < |ts| && ts[k] == x;
      assert PairsFrom(id, ts)[k] == (id, x);
    }
  }

  /** Every pair starts at `id`. */
  lemma PairsFromSource(id: string, ts: seq<string>, e: Edge)
    ensures e in PairsFrom(id, ts) ==> e.0 == id
  {
    if e in PairsFrom(id, ts) {
      var k :| 0 <= k < |ts| && PairsFrom(id, ts)[k] == e;
    }
  }

  lemma ElementsAppend(a: seq<Edge>, b: seq<Edge>)
    ensures Elements(a + b) == Elements(a) + Elements(b)
  {
  }

  lemma AddCallsShape(st: GenState, id: string, calls: seq<string>)
    requires ShapeOk(st) && id in st.programNodes && id in st.graph.nodes
    ensures ShapeOk(AddCalls(st, id, calls))
  {
    AddCallsEdges(st, id, calls);
    var r := AddCalls(st, id, calls);
    var added := PairsFrom(id, calls);
    TargetsAppend(st.callEdges, added);
    TargetsOfPairs(id, calls);
    ElementsAppend(st.callEdges, added);
    assert r.graph.nodes.Keys == r.programNodes + Targets(r.callEdges) + r.fileNodes;
    assert r.graph.edges.Keys == Elements(r.callEdges) + Elements(r.fileEdges);
  }

  lemma AddCallsTypes(st: GenState, id: string, calls: seq<string>)
    requires TypesOk(st) && id in st.graph.nodes
    ensures TypesOk(AddCalls(st, id, calls))
  {
    AddCallsNodes(st, id, calls);
    AddCallsEdges(st, id, calls);
    var r := AddCalls(st, id, calls);
    var added := PairsFrom(id, calls);
    TargetsAppend(st.callEdges, added);
    TargetsOfPairs(id, calls);
    forall n | n in r.graph.nodes && r.graph.nodes[n].nodeType == Some(Program)
      ensures n in r.programNodes || n in Targets(r.callEdges)
    {
      if n in calls {
        assert n in Targets(added);
      }
    }
  }

  lemma AddCallsAttributes(st: GenState, id: string, calls: seq<string>)
    requires AttributesOk(st) && id in st.graph.nodes && st.programNodes <= st.graph.nodes.Keys
    ensures AttributesOk(AddCalls(st, id, calls))
  {
    AddCallsNodes(st, id, calls);
    var r := AddCalls(st, id, calls);
    forall n | n in r.graph.nodes
      ensures r.graph.nodes[n].loc == Existing(st.graph, n).loc
      ensures r.graph.nodes[n].file == Existing(st.graph, n).file
    {
    }
  }

  lemma AddCallsWellFormed(st: GenState, id: string, calls: seq<string>)
    requires WellFormed(st) && id in st.programNodes
    ensures WellFormed(AddCalls(st, id, calls))
  {
    AddCallsShape(st, id, calls);
    AddCallsTypes(st, id, calls);
    AddCallsAttributes(st, id, calls);
  }

  lemma AddFilesShape(st: GenState, id: string, files: seq<string>)
    requires ShapeOk(st) && id in st.programNodes && id in st.graph.nodes
    ensures ShapeOk(AddFiles(st, id, files))
  {
    AddFilesEdges(st, id, files);
    var r := AddFiles(st, id, files);
    var added := PairsFrom(id, files);
    TargetsAppend(st.fileEdges, added);
    TargetsOfPairs(id, files);
    ElementsAppend(st.fileEdges, added);
    assert r.graph.nodes.Keys == r.programNodes + Targets(r.callEdges) + r.fileNodes;
    assert r.graph.edges.Keys == Elements(r.callEdges) + Elements(r.fileEdges);
  }

  lemma AddFilesTypes(st: GenState, id: string, files: seq<string>)
    requires TypesOk(st) && id in st.graph.nodes
    ensures TypesOk(AddFiles(st, id, files))
  {
    AddFilesNodes(st, id, files);
    AddFilesEdges(st, id, files);
  }

  lemma AddFilesAttributes(st: GenState, id: string, files: seq<string>)
    requires AttributesOk(st) && id in st.graph.nodes && st.programNodes <= st.graph.nodes.Keys
    ensures AttributesOk(AddFiles(st, id, files))
  {
    AddFilesNodes(st, id, files);
    var r := AddFiles(st, id, files);
    forall n | n in r.graph.nodes
      ensures r.graph.nodes[n].loc == Existing(st.graph, n).loc
      ensures r.graph.nodes[n].file == Existing(st.graph, n).file
    {
    }
  }

  lemma AddFilesWellFormed(st: GenState, id: string, files: seq<string>)
    requires WellFormed(st) && id in st.programNodes
    ensures WellFormed(AddFiles(st, id, files))
  {
    AddFilesShape(st, id, files);
    AddFilesTypes(st, id, files);
    AddFilesAttributes(st, id, files);
  }

  lemma IngestWellFormed(st: GenState, f: Fact)
    requires WellFormed(st)
    ensures WellFormed(Ingest(st, f))
  {
    var id := Key(f);
    AddProgramWellFormed(st, f);
    var s1 := AddProgram(st, f);
    AddCallsWellFormed(s1, id, f.calls);
    AddFilesWellFormed(AddCalls(s1, id, f.calls), id, f.filesUsed);
  }

  /** `build_graph` keeps the generator's invariant. */
  lemma {:induction false} BuildFromWellFormed(st: GenState, facts: seq<Fact>)
    requires WellFormed(st)
    ensures WellFormed(BuildFrom(st, facts))
    decreases |facts|
  {
    if facts != [] {
      BuildFromWellFormed(st, facts[..|facts| - 1]);
      IngestWellFormed(BuildFrom(st, facts[..|facts| - 1]), facts[|facts| - 1]);
    }
  }

  // ---------------------------------------------------------------------------------------
  // The state `build_graph` produces, in terms of the records

  function CallsOf(f: Fact): seq<string> {
    f.calls
  }

  function FilesUsedOf(f: Fact): seq<string> {
    f.filesUsed
  }

  /** The ids the records are keyed by. */
  function Keys(facts: seq<Fact>): set<string>
    decreases |facts|
  {
    if facts == [] then {} else Keys(facts[..|facts| - 1]) + {Key(facts[|facts| - 1])}
  }

  /** All names `part` yields over the records (the call targets, or the files used). */
  function Named(facts: seq<Fact>, part: Fact -> seq<string>): set<string>
    decreases |facts|
  {
    if facts == [] then {} else Named(facts[..|facts| - 1], part) + Elements(part(facts[|facts| - 1]))
  }

  /** The total number of entries `part` yields over the records, duplicates included. */
  function Total(facts: seq<Fact>, part: Fact -> seq<string>): nat
    decreases |facts|
  {
    if facts == [] then 0 else Total(facts[..|facts| - 1], part) + |part(facts[|facts| - 1])|
  }

  /** The pairs (record key, name) in the order `build_graph` appends them. */
  function Pairs(facts: seq<Fact>, part: Fact -> seq<string>): (r: seq<Edge>)
    ensures |r| == Total(facts, part)
    ensures Targets(r) == Named(facts, part)
    decreases |facts|
  {
    if facts == [] then []
    else
      var last := facts[|facts| - 1];
      var init := Pairs(facts[..|facts| - 1], part);
      TargetsAppend(init, PairsFrom(Key(last), part(last)));
      TargetsOfPairs(Key(last), part(last));
      init + PairsFrom(Key(last), part(last))
  }

  /** The first components of a list of pairs. */
  function Sources(es: seq<Edge>): set<string> {
    set e | e in es :: e.0
  }

  /** The keys of the records for which `part` is not empty. */
  function Active(facts: seq<Fact>, part: Fact -> seq<string>): set<string>
    decreases |facts|
  {
    if facts == [] then {}
    else
      var last := facts[|facts| - 1];
      Active(facts[..|facts| - 1], part) + if part(last) != [] then {Key(last)} else {}
  }

  /** The recorded pairs leave exactly the keys of the records that have such entries. */
  lemma {:induction false} PairsSources(facts: seq<Fact>, part: Fact -> seq<string>)
    ensures Sources(Pairs(facts, part)) == Active(facts, part)
    decreases |facts|
  {
    if facts != [] {
      var init := facts[..|facts| - 1];
      var last := facts[|facts| - 1];
      PairsSources(init, part);
      var added := PairsFrom(Key(last), part(last));
      assert Sources(Pairs(init, part) + added) == Sources(Pairs(init, part)) + Sources(added);
      if part(last) != [] {
        assert added[0] in added;
      }
    }
  }

  /** A key is active exactly when some record with that key has an entry. */
  lemma {:induction false} ActiveIff(facts: seq<Fact>, part: Fact -> seq<string>, u: string)
    ensures u in Active(facts, part)
        <==> exists k :: 0 <= k < |facts| && Key(facts[k]) == u && part(facts[k]) != []
    decreases |facts|
  {
    if facts != [] {
      var n := |facts| - 1;
      var init := facts[..n];
      ActiveIff(init, part, u);
      if u in Active(init, part) {
        var k :| 0 <= k < |init| && Key(init[k]) == u && part(init[k]) != [];
        assert facts[k] == init[k];
      }
      if exists k :: 0 <= k < |facts| && Key(facts[k]) == u && part(facts[k]) != [] {
        var k :| 0 <= k < |facts| && Key(facts[k]) == u && part(facts[k]) != [];
        if k < n {
          assert init[k] == facts[k];
        }
      }
    }
  }

  lemma {:induction false} BuildFromNodeSets(st: GenState, facts: seq<Fact>)
    ensures BuildFrom(st, facts).programNodes == st.programNodes + Keys(facts)
    ensures BuildFrom(st, facts).fileNodes == st.fileNodes + Named(facts, FilesUsedOf)
    decreases |facts|
  {
    if facts != [] {
      var init := facts[..|facts| - 1];
      var last := facts[|facts| - 1];
      BuildFromNodeSets(st, init);
      var prev := BuildFrom(st, init);
      assert BuildFrom(st, facts) == Ingest(prev, last);
      assert Named(facts, FilesUsedOf) == Named(init, FilesUsedOf) + Elements(last.filesUsed);
    }
  }

  lemma {:induction false} BuildFromCallEdges(st: GenState, facts: seq<Fact>)
    ensures BuildFrom(st, facts).callEdges == st.callEdges + Pairs(facts, CallsOf)
    decreases |facts|
  {
    if facts != [] {
      var init := facts[..|facts| - 1];
      var last := facts[|facts| - 1];
      BuildFromCallEdges(st, init);
      var prev := BuildFrom(st, init);
      assert BuildFrom(st, facts) == Ingest(prev, last);
      var done, added := Pairs(init, CallsOf), PairsFrom(Key(last), last.calls);
      assert Pairs(facts, CallsOf) == done + added;
      assert st.callEdges + done + added == st.callEdges + (done + added);
    }
  }

  lemma {:induction false} BuildFromFileEdges(st: GenState, facts: seq<Fact>)
    ensures BuildFrom(st, facts).fileEdges == st.fileEdges + Pairs(facts, FilesUsedOf)
    decreases |facts|
  {
    if facts != [] {
      var init := facts[..|facts| - 1];
      var last := facts[|facts| - 1];
      BuildFromFileEdges(st, init);
      var prev := BuildFrom(st, init);
      assert BuildFrom(st, facts) == Ingest(prev, last);
      var done, added := Pairs(init, FilesUsedOf), PairsFrom(Key(last), last.filesUsed);
      assert Pairs(facts, FilesUsedOf) == done + added;
      assert st.fileEdges + done + added == st.fileEdges + (done + added);
    }
  }

  /** `build_graph`'s side collections, in terms of the records. */
  lemma BuildFromCollections(st: GenState, facts: seq<Fact>)
    ensures BuildFrom(st, facts).programNodes == st.programNodes + Keys(facts)
    ensures BuildFrom(st, facts).fileNodes == st.fileNodes + Named(facts, FilesUsedOf)
    ensures BuildFrom(st, facts).callEdges == st.callEdges + Pairs(facts, CallsOf)
    ensures BuildFrom(st, facts).fileEdges == st.fileEdges + Pairs(facts, FilesUsedOf)
  {
    BuildFromNodeSets(st, facts);
    BuildFromCallEdges(st, facts);
    BuildFromFileEdges(st, facts);
  }

  /** `build_graph` run on a fresh generator. */
  function Built(facts: seq<Fact>): GenState {
    BuildFrom(Init(), facts)
  }

  /**
   * After `build_graph`: `program_nodes` holds exactly the record keys and `file_nodes` the
   * files used; the graph's nodes are the keys, the call targets and the files; its edges are
   * the distinct recorded pairs; `call_edges` and `file_edges` have one entry per call and
   * per file over all records, duplicates included, so there are at most that many edges.
   */
  lemma BuiltContents(facts: seq<Fact>)
    ensures WellFormed(Built(facts))
    ensures Built(facts).programNodes == Keys(facts)
    ensures Built(facts).fileNodes == Named(facts, FilesUsedOf)
    ensures Built(facts).graph.nodes.Keys
         == Keys(facts) + Named(facts, CallsOf) + Named(facts, FilesUsedOf)
    ensures Built(facts).graph.edges.Keys
         == Elements(Pairs(facts, CallsOf)) + Elements(Pairs(facts, FilesUsedOf))
    ensures |Built(facts).callEdges| == Total(facts, CallsOf)
    ensures |Built(facts).fileEdges| == Total(facts, FilesUsedOf)
    ensures |Built(facts).graph.edges| <= Total(facts, CallsOf) + Total(facts, FilesUsedOf)
  {
    BuildFromCollections(Init(), facts);
    BuiltShape(facts);
    BuiltCounts(facts);
    InitWellFormed();
    BuildFromWellFormed(Init(), facts);
  }

  lemma BuiltShape(facts: seq<Fact>)
    requires Built(facts).callEdges == Pairs(facts, CallsOf)
    requires Built(facts).fileEdges == Pairs(facts, FilesUsedOf)
    requires Built(facts).programNodes == Keys(facts)
    requires Built(facts).fileNodes == Named(facts, FilesUsedOf)
    ensures Built(facts).graph.nodes.Keys
         == Keys(facts) + Named(facts, CallsOf) + Named(facts, FilesUsedOf)
    ensures Built(facts).graph.edges.Keys
         == Elements(Pairs(facts, CallsOf)) + Elements(Pairs(facts, FilesUsedOf))
  {
    InitWellFormed();
    BuildFromWellFormed(Init(), facts);
    assert ShapeOk(Built(facts));
  }

  lemma BuiltCounts(facts: seq<Fact>)
    requires Built(facts).callEdges == Pairs(facts, CallsOf)
    requires Built(facts).fileEdges == Pairs(facts, FilesUsedOf)
    requires Built(facts).graph.edges.Keys
         == Elements(Pairs(facts, CallsOf)) + Elements(Pairs(facts, FilesUsedOf))
    ensures |Built(facts).callEdges| == Total(facts, CallsOf)
    ensures |Built(facts).fileEdges| == Total(facts, FilesUsedOf)
    ensures |Built(facts).graph.edges| <= Total(facts, CallsOf) + Total(facts, FilesUsedOf)
  {
    var r := Built(facts);
    ElementsCardinality(r.callEdges);
    ElementsCardinality(r.fileEdges);
    assert |r.graph.edges| == |r.graph.edges.Keys|;
  }

  // ---------------------------------------------------------------------------------------
  // Attribute merging

  /**
   * The record's own node (lines 48-53, then 58 and 69): `loc` and `file` are overwritten;
   * its type ends up `file` when the record lists itself among its files, else `program`.
   */
  lemma IngestOwnNode(st: GenState, f: Fact)
    ensures var r, id := Ingest(st, f), Key(f);
      && id in r.graph.nodes
      && r.graph.nodes[id].loc == Some(f.linesOfCode) && r.graph.nodes[id].file == Some(f.fileName)
      && r.graph.nodes[id].nodeType == Some(if id in f.filesUsed then File else Program)
  {
    var id := Key(f);
    var s1 := AddProgram(st, f);
    var s2 := AddCalls(s1, id, f.calls);
    AddCallsNodes(s1, id, f.calls);
    AddFilesNodes(s2, id, f.filesUsed);
    assert s2.graph.nodes[id].loc == Some(f.linesOfCode);
  }

  /** What one record does to the dictionary of a node other than its own key. */
  lemma IngestOther(st: GenState, f: Fact, x: string)
    requires x != Key(f)
    ensures Existing(Ingest(st, f).graph, x) ==
      if x in f.filesUsed then Existing(st.graph, x).(nodeType := Some(File))
      else if x in f.calls then Existing(st.graph, x).(nodeType := Some(Program))
      else Existing(st.graph, x)
  {
    var id := Key(f);
    var s1 := AddProgram(st, f);
    var s2 := AddCalls(s1, id, f.calls);
    AddNodeAttributes(st.graph, id, NodeAttrs(Some(Program), Some(f.linesOfCode), Some(f.fileName)));
    assert Existing(s1.graph, x) == Existing(st.graph, x);
    AddCallsNodes(s1, id, f.calls);
    assert Existing(s2.graph, x) ==
      if x in f.calls then Existing(s1.graph, x).(nodeType := Some(Program)) else Existing(s1.graph, x);
    AddFilesNodes(s2, id, f.filesUsed);
  }

  /**
   * A call target (lines 58-63): only its type is set, to `program`, or to `file` when the
   * same record also lists it as a file (the file loop runs second); `loc` and `file` stay.
   */
  lemma IngestCallTarget(st: GenState, f: Fact, x: string)
    requires x in f.calls && x != Key(f)
    ensures var r := Ingest(st, f);
      && x in r.graph.nodes
      && r.graph.nodes[x].nodeType == Some(if x in f.filesUsed then File else Program)
      && r.graph.nodes[x].loc == Existing(st.graph, x).loc
      && r.graph.nodes[x].file == Existing(st.graph, x).file
  {
    IngestOther(st, f, x);
  }

  /** A file used (lines 69-74): its type becomes `file`; `loc` and `file` stay. */
  lemma IngestFileTarget(st: GenState, f: Fact, x: string)
    requires x in f.filesUsed && x != Key(f)
    ensures var r := Ingest(st, f);
      && x in r.graph.nodes && r.graph.nodes[x].nodeType == Some(File)
      && r.graph.nodes[x].loc == Existing(st.graph, x).loc
      && r.graph.nodes[x].file == Existing(st.graph, x).file
  {
    IngestOther(st, f, x);
  }

  /**
   * The record's edges: `(id, x)` is a `uses` edge when `x` is among the files, and a
   * `calls` edge when `x` is called and not also a file, whatever the edge was before.
   */
  lemma IngestEdge(st: GenState, f: Fact, x: string)
    requires x in f.calls || x in f.filesUsed
    ensures var r, e := Ingest(st, f), (Key(f), x);
      e in r.graph.edges && r.graph.edges[e] == if x in f.filesUsed then UseEdge else CallEdge
  {
    var id := Key(f);
    var s1 := AddProgram(st, f);
    var s2 := AddCalls(s1, id, f.calls);
    AddCallsEdges(s1, id, f.calls);
    AddFilesEdges(s2, id, f.filesUsed);
    PairsFromMember(id, f.calls, x);
    PairsFromMember(id, f.filesUsed, x);
  }

  /** An edge leaving another node than the record's key keeps its dictionary. */
  lemma IngestKeepsEdge(st: GenState, f: Fact, e: Edge)
    requires e in st.graph.edges && e.0 != Key(f)
    ensures e in Ingest(st, f).graph.edges && Ingest(st, f).graph.edges[e] == st.graph.edges[e]
  {
    var id := Key(f);
    var s1 := AddProgram(st, f);
    var s2 := AddCalls(s1, id, f.calls);
    AddCallsEdges(s1, id, f.calls);
    AddFilesEdges(s2, id, f.filesUsed);
    PairsFromSource(id, f.calls, e);
    PairsFromSource(id, f.filesUsed, e);
  }

  /** A node the record does not mention keeps all of its attributes. */
  lemma IngestUntouched(st: GenState, f: Fact, n: string)
    requires n in st.graph.nodes && n != Key(f) && n !in f.calls && n !in f.filesUsed
    ensures n in Ingest(st, f).graph.nodes && Ingest(st, f).graph.nodes[n] == st.graph.nodes[n]
  {
    var s1 := AddProgram(st, f);
    AddCallsNodes(s1, Key(f), f.calls);
    AddFilesNodes(AddCalls(s1, Key(f), f.calls), Key(f), f.filesUsed);
  }

  /** Only the record's own node has its `loc` and `file` changed. */
  lemma AttributesAfterIngest(st: GenState, f: Fact, n: string)
    requires n != Key(f) && n in Ingest(st, f).graph.nodes
    ensures Ingest(st, f).graph.nodes[n].loc == Existing(st.graph, n).loc
    ensures Ingest(st, f).graph.nodes[n].file == Existing(st.graph, n).file
  {
    if n in f.filesUsed {
      IngestFileTarget(st, f, n);
    } else if n in f.calls {
      IngestCallTarget(st, f, n);
    } else {
      IngestUntouched(st, f, n);
    }
  }

  /** The last record keyed by `n`, if any. */
  function LastFor(facts: seq<Fact>, n: string): (r: Option<Fact>)
    ensures r.Some? <==> n in Keys(facts)
    ensures r.Some? ==> Key(r.value) == n
    decreases |facts|
  {
    if facts == [] then None
    else if Key(facts[|facts| - 1]) == n then Some(facts[|facts| - 1])
    else LastFor(facts[..|facts| - 1], n)
  }

  /**
   * A program analysed several times keeps the `loc` and `file` of its LAST record; a node
   * that is only a call target or a file has neither attribute.
   */
  lemma {:induction false} BuiltAttributes(facts: seq<Fact>, n: string)
    requires n in Built(facts).graph.nodes
    ensures var a := Built(facts).graph.nodes[n];
      match LastFor(facts, n)
      case Some(f) => a.loc == Some(f.linesOfCode) && a.file == Some(f.fileName)
      case None => a.loc.None? && a.file.None?
    decreases |facts|
  {
    BuiltContents(facts);
    if facts != [] && n in Keys(facts) {
      var init := facts[..|facts| - 1];
      var last := facts[|facts| - 1];
      assert Built(facts) == Ingest(Built(init), last);
      if Key(last) == n {
        IngestOwnNode(Built(init), last);
      } else {
        assert LastFor(facts, n) == LastFor(init, n);
        BuiltContents(init);
        AttributesAfterIngest(Built(init), last, n);
        BuiltAttributes(init, n);
      }
    }
  }

  // ---------------------------------------------------------------------------------------
  // Edges, isolated nodes and re-building

  /** In a well-formed state every edge leaves an analysed program and every node that is
   * not an analysed program has an incoming edge, so only analysed programs can be isolated. */
  lemma WellFormedEdgesAndIsolates(st: GenState)
    requires WellFormed(st)
    ensures forall e :: e in st.graph.edges ==> e.0 in st.programNodes
    ensures Isolates(st.graph) <= st.programNodes
  {
  }

  /** A node is isolated exactly when no pair of the two lists that make up the edges touches it. */
  lemma IsolatesOfPairs(g: Graph, pc: seq<Edge>, pf: seq<Edge>)
    requires g.edges.Keys == Elements(pc) + Elements(pf)
    ensures Isolates(g) == g.nodes.Keys - Sources(pc) - Targets(pc) - Sources(pf) - Targets(pf)
  {
    forall n | n in g.nodes
      ensures Isolated(g, n) <==> n !in Sources(pc) + Targets(pc) + Sources(pf) + Targets(pf)
    {
      if !Isolated(g, n) {
        var e :| e in g.edges && (e.0 == n || e.1 == n);
        assert e in pc || e in pf;
      }
      if n in Sources(pc) { var e :| e in pc && e.0 == n; assert e in g.edges; }
      if n in Targets(pc) { var e :| e in pc && e.1 == n; assert e in g.edges; }
      if n in Sources(pf) { var e :| e in pf && e.0 == n; assert e in g.edges; }
      if n in Targets(pf) { var e :| e in pf && e.1 == n; assert e in g.edges; }
    }
  }

  /**
   * After `build_graph` a node is isolated exactly when it is the key of some record, no
   * record with that key calls or uses anything, and no record calls it or uses it as a file.
   */
  lemma BuiltIsolated(facts: seq<Fact>)
    ensures Isolates(Built(facts).graph)
         == Keys(facts) - Active(facts, CallsOf) - Active(facts, FilesUsedOf)
            - Named(facts, CallsOf) - Named(facts, FilesUsedOf)
  {
    BuiltContents(facts);
    PairsSources(facts, CallsOf);
    PairsSources(facts, FilesUsedOf);
    IsolatesOfPairs(Built(facts).graph, Pairs(facts, CallsOf), Pairs(facts, FilesUsedOf));
  }

  /**
   * `build_graph` does not reset the generator: running it a second time appends every pair
   * to `call_edges` once more, so `call_edges` then counts each call twice.
   */
  lemma BuildTwiceDuplicatesCalls(facts: seq<Fact>)
    ensures BuildFrom(Built(facts), facts).callEdges == Pairs(facts, CallsOf) + Pairs(facts, CallsOf)
  {
    var b := Built(facts);
    BuildFromCallEdges(Init(), facts);
    assert b.callEdges == Pairs(facts, CallsOf);
    BuildFromCallEdges(b, facts);
  }

  /** Building from at least one record leaves the graph with at least one node. */
  lemma {:induction false} BuildFromNonEmpty(st: GenState, facts: seq<Fact>)
    requires facts != []
    ensures |BuildFrom(st, facts).graph.nodes| > 0
  {
    var last := facts[|facts| - 1];
    IngestOwnNode(BuildFrom(st, facts[..|facts| - 1]), last);
    assert Key(last) in BuildFrom(st, facts).graph.nodes;
  }

  /**
   * The guard `if not self.graph.nodes(): self.build_graph()` makes the build happen at most
   * once: applying it a second time changes nothing.
   */
  lemma EnsureBuiltIdempotent(st: GenState, facts: seq<Fact>)
    ensures EnsureBuilt(EnsureBuilt(st, facts), facts) == EnsureBuilt(st, facts)
  {
  }
}
