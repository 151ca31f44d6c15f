/**
 * The part of networkx's `DiGraph` the analyser relies on: nodes keyed by name with an
 * attribute dictionary, at most one edge per ordered pair with its own attribute dictionary,
 * `add_node`/`add_edge` that merge attributes, `isolates`, and the strongly connected
 * components counted by `number_strongly_connected_components`.
 */
module DiGraph {
  import opened Wrappers

  datatype NodeType = Program | File
  datatype EdgeType = Calls | Uses

  /** A node's attribute dictionary, restricted to the keys the analyser writes. */
  datatype NodeAttrs = NodeAttrs(nodeType: Option<NodeType>, loc: Option<int>, file: Option<string>)

  /** An edge's attribute dictionary, restricted to `edge_type`. */
  datatype EdgeAttrs = EdgeAttrs(edgeType: Option<EdgeType>)

  const NoNodeAttrs := NodeAttrs(None, None, None)
  const NoEdgeAttrs := EdgeAttrs(None)

  type Edge = (string, string)

  datatype Graph = Graph(nodes: map<string, NodeAttrs>, edges: map<Edge, EdgeAttrs>)

  function EmptyGraph(): Graph {
    Graph(map[], map[])
  }

  /** Every edge joins two nodes of the graph. */
  ghost predicate Valid(g: Graph) {
    forall e :: e in g.edges ==> e.0 in g.nodes && e.1 in g.nodes
  }

  /** A keyword argument overwrites the key it names and leaves the other keys alone. */
  function Override<T>(current: Option<T>, given: Option<T>): Option<T> {
    if given.Some? then given else current
  }

  function UpdateNode(current: NodeAttrs, given: NodeAttrs): NodeAttrs {
    NodeAttrs(Override(current.nodeType, given.nodeType), Override(current.loc, given.loc),
              Override(current.file, given.file))
  }

  function UpdateEdge(current: EdgeAttrs, given: EdgeAttrs): EdgeAttrs {
    EdgeAttrs(Override(current.edgeType, given.edgeType))
  }

  /** The dictionary of node `n`, empty when there is no such node. */
  function Existing(g: Graph, n: string): NodeAttrs {
    if n in g.nodes then g.nodes[n] else NoNodeAttrs
  }

  /** The dictionary of edge `(u, v)`, empty when there is no such edge. */
  function ExistingEdge(g: Graph, u: string, v: string): EdgeAttrs {
    if (u, v) in g.edges then g.edges[(u, v)] else NoEdgeAttrs
  }

  /** `g.add_node(n, **given)`: creates `n` or updates only the given keys of its dictionary. */
  function AddNode(g: Graph, n: string, given: NodeAttrs): (r: Graph)
    ensures r.edges == g.edges && r.nodes.Keys == g.nodes.Keys + {n}
  {
    var current := if n in g.nodes then g.nodes[n] else NoNodeAttrs;
    Graph(g.nodes[n := UpdateNode(current, given)], g.edges)
  }

  /**
   * `g.add_edge(u, v, **given)`: creates missing endpoints with empty dictionaries, never
   * duplicates the edge, and updates only the given keys of the edge's dictionary.
   */
  function AddEdge(g: Graph, u: string, v: string, given: EdgeAttrs): (r: Graph)
    ensures r.nodes.Keys == g.nodes.Keys + {u, v}
    ensures r.edges.Keys == g.edges.Keys + {(u, v)}
  {
    var withU := if u in g.nodes then g.nodes else g.nodes[u := NoNodeAttrs];
    var withV := if v in withU then withU else withU[v := NoNodeAttrs];
    var current := if (u, v) in g.edges then g.edges[(u, v)] else NoEdgeAttrs;
    Graph(withV, g.edges[(u, v) := UpdateEdge(current, given)])
  }

  /**
   * What `add_node` writes: only the given keys of `n`'s dictionary change, a key not given
   * keeps its value (or is absent for a new node), and no other node or edge changes.
   */
  lemma AddNodeAttributes(g: Graph, n: string, given: NodeAttrs)
    ensures var r := AddNode(g, n, given);
      && (forall m :: m in g.nodes && m != n ==> r.nodes[m] == g.nodes[m])
      && r.nodes[n].nodeType == Override(Existing(g, n).nodeType, given.nodeType)
      && r.nodes[n].loc == Override(Existing(g, n).loc, given.loc)
      && r.nodes[n].file == Override(Existing(g, n).file, given.file)
      && (given.nodeType.None? ==> r.nodes[n].nodeType == Existing(g, n).nodeType)
      && (given.loc.None? ==> r.nodes[n].loc == Existing(g, n).loc)
      && (given.file.None? ==> r.nodes[n].file == Existing(g, n).file)
  {
  }

  /**
   * What `add_edge` writes: missing endpoints get empty dictionaries, existing nodes keep
   * theirs, the pair gets one edge whose given keys are overwritten, and the number of
   * edges grows by at most one.
   */
  lemma AddEdgeAttributes(g: Graph, u: string, v: string, given: EdgeAttrs)
    ensures var r := AddEdge(g, u, v, given);
      && (forall m :: m in g.nodes ==> r.nodes[m] == g.nodes[m])
      && (forall m :: m in r.nodes && m !in g.nodes ==> r.nodes[m] == NoNodeAttrs)
      && (forall e :: e in g.edges && e != (u, v) ==> r.edges[e] == g.edges[e])
      && r.edges[(u, v)].edgeType == Override(ExistingEdge(g, u, v).edgeType, given.edgeType)
      && |r.edges| <= |g.edges| + 1
  {
    var r := AddEdge(g, u, v, given);
    assert |r.edges| == |r.edges.Keys| && |g.edges| == |g.edges.Keys|;
  }

  /** Adding the same edge twice is adding it once: an ordered pair has one edge. */
  lemma AddEdgeTwice(g: Graph, u: string, v: string, given: EdgeAttrs)
    ensures AddEdge(AddEdge(g, u, v, given), u, v, given) == AddEdge(g, u, v, given)
  {
    var once := AddEdge(g, u, v, given);
    var twice := AddEdge(once, u, v, given);
    assert twice.nodes == once.nodes;
    assert twice.edges == once.edges;
  }

  /** Adding the same node twice with the same attributes is adding it once. */
  lemma AddNodeTwice(g: Graph, n: string, given: NodeAttrs)
    ensures AddNode(AddNode(g, n, given), n, given) == AddNode(g, n, given)
  {
    var once := AddNode(g, n, given);
    assert AddNode(once, n, given).nodes == once.nodes;
  }

  // ---------------------------------------------------------------------------------------
  // Isolated nodes

  /** `n` has no incoming and no outgoing edge (a self-loop counts as both). */
  predicate Isolated(g: Graph, n: string) {
    forall e | e in g.edges :: e.0 != n && e.1 != n
  }

  /** `nx.isolates(g)`, as a set. */
  function Isolates(g: Graph): (r: set<string>)
    ensures r <= g.nodes.Keys
    ensures forall n :: n in g.nodes && (n, n) in g.edges ==> n !in r
  {
    set n | n in g.nodes && Isolated(g, n)
  }

  // ---------------------------------------------------------------------------------------
  // Reachability and strongly connected components

  /** A walk: a non-empty node sequence whose consecutive entries are joined by edges. */
  ghost predicate IsWalk(g: Graph, p: seq<string>) {
    |p| >= 1 && forall k :: 0 <= k < |p| - 1 ==> (p[k], p[k + 1]) in g.edges
  }

  ghost predicate Reachable(g: Graph, u: string, v: string) {
    exists p :: IsWalk(g, p) && p[0] == u && p[|p| - 1] == v
  }

  /** The nodes one edge away from some node of `s`. */
  function Successors(g: Graph, s: set<string>): set<string> {
    set e | e in g.edges && e.0 in s :: e.1
  }

  /** The least superset of `s` closed under successors. */
  function Closure(g: Graph, s: set<string>): (r: set<string>)
    requires Valid(g) && s <= g.nodes.Keys
    ensures s <= r <= g.nodes.Keys
    ensures Successors(g, r) <= r
    decreases g.nodes.Keys - s
  {
    var next := s + Successors(g, s);
    if next <= s then s
    else
      assert g.nodes.Keys - next < g.nodes.Keys - s;
      Closure(g, next)
  }

  /** The nodes reachable from `u`, computed by closing `{u}` under successors. */
  function ReachableFrom(g: Graph, u: string): (r: set<string>)
    requires Valid(g) && u in g.nodes
    ensures r <= g.nodes.Keys
  {
    Closure(g, {u})
  }

  /** The nodes mutually reachable with `u`: the strongly connected component of `u`. */
  function Component(g: Graph, u: string): set<string>
    requires Valid(g) && u in g.nodes
  {
    set v | v in ReachableFrom(g, u) && u in ReachableFrom(g, v)
  }

  /** `nx.number_strongly_connected_components(g)`: the number of mutual-reachability classes. */
  function SccCount(g: Graph): (r: nat)
    requires Valid(g)
    ensures r <= |g.nodes|
    ensures |g.nodes| > 0 ==> r > 0
  {
    var comps := set u | u in g.nodes :: Component(g, u);
    ComponentsBound(g, g.nodes.Keys);
    assert |g.nodes| == |g.nodes.Keys|;
    if |g.nodes| > 0 then
      var x :| x in g.nodes;
      assert Component(g, x) in comps;
      |comps|
    else |comps|
  }

  lemma WalkExtend(g: Graph, p: seq<string>, v: string)
    requires IsWalk(g, p) && (p[|p| - 1], v) in g.edges
    ensures IsWalk(g, p + [v])
  {
    var q := p + [v];
    forall k | 0 <= k < |q| - 1
      ensures (q[k], q[k + 1]) in g.edges
    {
      if k < |p| - 1 {
        assert q[k] == p[k] && q[k + 1] == p[k + 1];
      }
    }
  }

  lemma WalkConcat(g: Graph, p: seq<string>, q: seq<string>)
    requires IsWalk(g, p) && IsWalk(g, q) && p[|p| - 1] == q[0]
    ensures IsWalk(g, p + q[1..])
  {
    var w := p + q[1..];
    forall k | 0 <= k < |w| - 1
      ensures (w[k], w[k + 1]) in g.edges
    {
      if k < |p| - 1 {
        assert w[k] == p[k] && w[k + 1] == p[k + 1];
      } else {
        assert w[k] == q[k - |p| + 1] && w[k + 1] == q[k - |p| + 2];
      }
    }
  }

  lemma ReachableTransitive(g: Graph, u: string, v: string, w: string)
    requires Reachable(g, u, v) && Reachable(g, v, w)
    ensures Reachable(g, u, w)
  {
    var p :| IsWalk(g, p) && p[0] == u && p[|p| - 1] == v;
    var q :| IsWalk(g, q) && q[0] == v && q[|q| - 1] == w;
    WalkConcat(g, p, q);
    var r := p + q[1..];
    assert r[0] == u;
    assert r[|r| - 1] == w;
  }

  /** Every node of the closure of `s` is reachable from some node of `s`. */
  lemma {:induction false} ClosureSound(g: Graph, s: set<string>, u: string)
    requires Valid(g) && s <= g.nodes.Keys
    requires forall x :: x in s ==> Reachable(g, u, x)
    ensures forall x :: x in Closure(g, s) ==> Reachable(g, u, x)
    decreases g.nodes.Keys - s
  {
    var next := s + Successors(g, s);
    if !(next <= s) {
      forall y | y in Successors(g, s)
        ensures Reachable(g, u, y)
      {
        var e :| e in g.edges && e.0 in s && e.1 == y;
        var p :| IsWalk(g, p) && p[0] == u && p[|p| - 1] == e.0;
        WalkExtend(g, p, y);
        assert (p + [y])[0] == u;
      }
      assert g.nodes.Keys - next < g.nodes.Keys - s;
      ClosureSound(g, next, u);
    }
  }

  /** A set closed under successors contains every node a walk from inside it reaches. */
  lemma {:induction false} ClosedContainsWalk(g: Graph, r: set<string>, p: seq<string>)
    requires Successors(g, r) <= r
    requires IsWalk(g, p) && p[0] in r
    ensures p[|p| - 1] in r
    decreases |p|
  {
    if |p| > 1 {
      var e := (p[0], p[1]);
      assert e in g.edges;
      assert p[1] in Successors(g, r);
      ClosedContainsWalk(g, r, p[1..]);
    }
  }

  /** `ReachableFrom` computes exactly the nodes reachable from `u`. */
  lemma ReachableFromCorrect(g: Graph, u: string, v: string)
    requires Valid(g) && u in g.nodes
    ensures v in ReachableFrom(g, u) <==> Reachable(g, u, v)
  {
    assert IsWalk(g, [u]);
    ClosureSound(g, {u}, u);
    if Reachable(g, u, v) {
      var p :| IsWalk(g, p) && p[0] == u && p[|p| - 1] == v;
      ClosedContainsWalk(g, ReachableFrom(g, u), p);
    }
  }

  /** A component holds exactly the nodes mutually reachable with its representative. */
  lemma ComponentCorrect(g: Graph, u: string, v: string)
    requires Valid(g) && u in g.nodes
    ensures v in Component(g, u) <==> Reachable(g, u, v) && Reachable(g, v, u)
  {
    ReachableFromCorrect(g, u, v);
    if v in ReachableFrom(g, u) {
      ReachableFromCorrect(g, v, u);
    }
    if Reachable(g, u, v) {
      var p :| IsWalk(g, p) && p[0] == u && p[|p| - 1] == v;
      ClosedContainsWalk(g, ReachableFrom(g, u), p);
      ReachableFromCorrect(g, v, u);
    }
  }

  /**
   * Two nodes have the same component exactly when they are mutually reachable, so
   * `SccCount` counts the classes of mutual reachability.
   */
  lemma SameComponent(g: Graph, u: string, v: string)
    requires Valid(g) && u in g.nodes && v in g.nodes
    ensures Component(g, u) == Component(g, v) <==> Reachable(g, u, v) && Reachable(g, v, u)
  {
    assert IsWalk(g, [u]) && IsWalk(g, [v]);
    assert Reachable(g, v, v);
    ComponentCorrect(g, v, v);
    ComponentCorrect(g, u, v);
    if Reachable(g, u, v) && Reachable(g, v, u) {
      forall w
        ensures w in Component(g, u) <==> w in Component(g, v)
      {
        ComponentCorrect(g, u, w);
        ComponentCorrect(g, v, w);
        if Reachable(g, u, w) && Reachable(g, w, u) {
          ReachableTransitive(g, v, u, w);
          ReachableTransitive(g, w, u, v);
        }
        if Reachable(g, v, w) && Reachable(g, w, v) {
          ReachableTransitive(g, u, v, w);
          ReachableTransitive(g, w, v, u);
        }
      }
    }
  }

  /** A node with no outgoing edge is a strongly connected component on its own. */
  lemma SinkComponent(g: Graph, n: string)
    requires Valid(g) && n in g.nodes
    requires forall e :: e in g.edges ==> e.0 != n
    ensures Component(g, n) == {n}
  {
    assert IsWalk(g, [n]);
    ComponentCorrect(g, n, n);
    forall v | v in Component(g, n)
      ensures v == n
    {
      ComponentCorrect(g, n, v);
      var p :| IsWalk(g, p) && p[0] == n && p[|p| - 1] == v;
      assert Successors(g, {n}) == {};
      ClosedContainsWalk(g, {n}, p);
    }
  }

  /** Distinct nodes of `s` give at most `|s|` distinct components. */
  lemma {:induction false} ComponentsBound(g: Graph, s: set<string>)
    requires Valid(g) && s <= g.nodes.Keys
    ensures |set u | u in s :: Component(g, u)| <= |s|
    decreases |s|
  {
    if s != {} {
      var x :| x in s;
      ComponentsBound(g, s - {x});
      assert (set u | u in s :: Component(g, u))
          == (set u | u in s - {x} :: Component(g, u)) + {Component(g, x)};
    }
  }
}
