/**
 * A model of `nx.simple_cycles`: the elementary circuits of a directed graph, each reported
 * once up to rotation. The enumerator fixes an order on the nodes (networkx uses insertion
 * order) and, for each start node, extends simple paths through nodes later in that order,
 * emitting a path whenever an edge leads back to the start. Every circuit is therefore
 * reported starting at its earliest node, which is what makes rotations unique.
 */
module CycleSearch {
  import opened Collections
  import opened DiGraph

  /** Consecutive entries of `p` are joined by an edge of `E`. */
  ghost predicate IsPath(E: set<Edge>, p: seq<string>) {
    forall k :: 0 <= k < |p| - 1 ==> (p[k], p[k + 1]) in E
  }

  /** An elementary circuit: distinct nodes, consecutive edges, and the edge closing it. */
  ghost predicate IsCycle(E: set<Edge>, c: seq<string>) {
    |c| >= 1 && Distinct(c) && IsPath(E, c) && (c[|c| - 1], c[0]) in E
  }

  function Rotate(c: seq<string>, k: nat): seq<string>
    requires k <= |c|
  {
    c[k..] + c[..k]
  }

  /** `b` lists the circuit `a` starting elsewhere. */
  ghost predicate IsRotation(a: seq<string>, b: seq<string>) {
    exists k :: 0 <= k < |a| && b == Rotate(a, k)
  }

  /** `order` lists the nodes of `g`, each once. */
  ghost predicate Enumerates(g: Graph, order: seq<string>) {
    Distinct(order) && forall x :: x in g.nodes <==> x in order
  }

  /** `c` starts at `order[i]` and visits only nodes after position `i` of `order`. */
  ghost predicate Canonical(order: seq<string>, i: nat, c: seq<string>) {
    i < |order| && |c| >= 1 && c[0] == order[i] && forall k :: 1 <= k < |c| ==> c[k] in order[i + 1..]
  }

  /** A partial circuit the search may extend. */
  ghost predicate PathOk(g: Graph, order: seq<string>, i: nat, path: seq<string>) {
    Distinct(order) && Canonical(order, i, path) && Distinct(path) && IsPath(g.edges.Keys, path)
  }

  /** The nodes of `order` the path has not visited; shrinks as the search goes deeper. */
  function Unvisited(order: seq<string>, path: seq<string>): set<string> {
    set x | x in order && x !in path
  }

  lemma DistinctAt(order: seq<string>, p: int, q: int)
    requires Distinct(order) && 0 <= p < |order| && 0 <= q < |order| && order[p] == order[q]
    ensures p == q
  {
  }

  lemma AfterPosition(order: seq<string>, p: nat, q: nat)
    requires Distinct(order) && p < |order| && q < |order| && order[q] in order[p + 1..]
    ensures p < q
  {
    var t :| 0 <= t < |order[p + 1..]| && order[p + 1..][t] == order[q];
    DistinctAt(order, q, p + 1 + t);
  }

  /**
   * The circuits that extend `path`, found by depth-first search. The search itself only
   * needs `path` to be non-empty; what it finds is a list of canonical circuits without
   * repetition when `path` is a valid partial circuit.
   */
  function Explore(g: Graph, order: seq<string>, i: nat, path: seq<string>): (r: seq<seq<string>>)
    requires i < |order| && |path| >= 1
    ensures forall c :: c in r ==> |path| <= |c| && c[..|path|] == path
    ensures PathOk(g, order, i, path) ==>
      (forall c :: c in r ==> IsCycle(g.edges.Keys, c) && Canonical(order, i, c)) && Distinct(r)
    decreases Unvisited(order, path), 1, 0
  {
    var back := if (path[|path| - 1], order[i]) in g.edges then [path] else [];
    var deeper := ExploreFrom(g, order, i, path, i + 1);
    assert PathOk(g, order, i, path) ==> Distinct(back + deeper) by {
      if PathOk(g, order, i, path) {
        DistinctConcat(back, deeper);
      }
    }
    back + deeper
  }

  /** The circuits that extend `path` by one of `order[j..]` and then further. */
  function ExploreFrom(g: Graph, order: seq<string>, i: nat, path: seq<string>, j: nat)
    : (r: seq<seq<string>>)
    requires i < j <= |order| && |path| >= 1
    ensures forall c :: c in r ==> |path| < |c| && c[..|path|] == path && c[|path|] in order[j..]
    ensures PathOk(g, order, i, path) ==>
      (forall c :: c in r ==> IsCycle(g.edges.Keys, c) && Canonical(order, i, c)) && Distinct(r)
    decreases Unvisited(order, path), 0, |order| - j, 2
  {
    var children := Children(g, order, i, path, j);
    forall c | c in Flatten(children)
      ensures |path| < |c| && c[..|path|] == path && c[|path|] in order[j..]
    {
      ChildMember(order, path, j, children, c);
    }
    assert PathOk(g, order, i, path) ==> Distinct(Flatten(children)) by {
      if PathOk(g, order, i, path) {
        ChildrenDisjoint(order, path, j, children);
        FlattenDistinct(children);
      }
    }
    assert PathOk(g, order, i, path) ==>
      forall c :: c in Flatten(children) ==> IsCycle(g.edges.Keys, c) && Canonical(order, i, c) by {
      if PathOk(g, order, i, path) {
        forall c | c in Flatten(children)
          ensures IsCycle(g.edges.Keys, c) && Canonical(order, i, c)
        {
          FlattenMember(children, c);
        }
      }
    }
    Flatten(children)
  }

  lemma ChildMember(order: seq<string>, path: seq<string>, j: nat,
                    children: seq<seq<seq<string>>>, c: seq<string>)
    requires j + |children| <= |order| && c in Flatten(children)
    requires forall t, c :: 0 <= t < |children| && c in children[t] ==>
      |path| < |c| && c[..|path|] == path && c[|path|] == order[j + t]
    ensures |path| < |c| && c[..|path|] == path && c[|path|] in order[j..]
  {
    FlattenMember(children, c);
    var t :| 0 <= t < |children| && c in children[t];
    assert order[j..][t] == order[j + t];
  }

  /** Children that extend `path` by different nodes share no circuit. */
  lemma ChildrenDisjoint(order: seq<string>, path: seq<string>, j: nat,
                         children: seq<seq<seq<string>>>)
    requires Distinct(order) && j + |children| <= |order|
    requires forall t, c :: 0 <= t < |children| && c in children[t] ==>
      |path| < |c| && c[|path|] == order[j + t]
    ensures forall t, u, x :: 0 <= t < u < |children| && x in children[t] ==> x !in children[u]
  {
    forall t, u, x | 0 <= t < u < |children| && x in children[t]
      ensures x !in children[u]
    {
      assert x[|path|] == order[j + t] != order[j + u];
    }
  }

  /** The searches below each of `order[j..]`, in order. */
  function Children(g: Graph, order: seq<string>, i: nat, path: seq<string>, j: nat)
    : (r: seq<seq<seq<string>>>)
    requires i < j <= |order| && |path| >= 1
    ensures |r| == |order| - j
    ensures forall t :: 0 <= t < |r| ==> r[t] == Extend(g, order, i, path, j + t)
    decreases Unvisited(order, path), 0, |order| - j, 1
  {
    seq(|order| - j, t requires 0 <= t < |order| - j => Extend(g, order, i, path, j + t))
  }

  /** The circuits that extend `path` by `order[j]`, when that node may come next. */
  function Extend(g: Graph, order: seq<string>, i: nat, path: seq<string>, j: nat)
    : (r: seq<seq<string>>)
    requires i < j < |order| && |path| >= 1
    ensures forall c :: c in r ==> |path| < |c| && c[..|path|] == path && c[|path|] == order[j]
    ensures PathOk(g, order, i, path) ==>
      (forall c :: c in r ==> IsCycle(g.edges.Keys, c) && Canonical(order, i, c)) && Distinct(r)
    decreases Unvisited(order, path), 0, |order| - j, 0
  {
    var next := order[j];
    if next !in path && (path[|path| - 1], next) in g.edges then
      var longer := path + [next];
      assert next in Unvisited(order, path) && next !in Unvisited(order, longer);
      assert PathOk(g, order, i, path) ==> PathOk(g, order, i, longer) by {
        assert next == order[i + 1..][j - i - 1];
      }
      var found := Explore(g, order, i, longer);
      assert forall c :: c in found ==> c[..|path|] == path && c[|path|] == next by {
        forall c | c in found
          ensures c[..|path|] == path && c[|path|] == next
        {
          assert c[..|path|] == c[..|longer|][..|path|];
          assert c[|path|] == c[..|longer|][|path|];
        }
      }
      found
    else []
  }

  /** The circuits whose earliest node is at position `i` or later of `order`. */
  function CyclesFrom(g: Graph, order: seq<string>, i: nat): (r: seq<seq<string>>)
    requires Distinct(order) && i <= |order|
    ensures forall c :: c in r ==>
      IsCycle(g.edges.Keys, c) && exists s :: i <= s < |order| && Canonical(order, s, c)
    ensures Distinct(r)
    decreases |order| - i
  {
    if i == |order| then []
    else
      assert IsPath(g.edges.Keys, [order[i]]);
      var here := Explore(g, order, i, [order[i]]);
      var rest := CyclesFrom(g, order, i + 1);
      assert forall c :: c in here ==> c !in rest;
      DistinctConcat(here, rest);
      here + rest
  }

  /** Two canonical circuits that are rotations of each other are the same list. */
  lemma CanonicalRotation(order: seq<string>, a: seq<string>, i: nat, s: nat, k: nat)
    requires Distinct(order) && Canonical(order, i, a) && Distinct(a)
    requires 0 <= k < |a| && Canonical(order, s, Rotate(a, k))
    ensures k == 0
  {
    var b := Rotate(a, k);
    if k > 0 {
      assert b[0] == a[k] == order[s];
      AfterPosition(order, i, s);
      assert b[|a| - k] == a[0] == order[i];
      AfterPosition(order, s, i);
    }
  }

  /**
   * `nx.simple_cycles(g)` with the nodes taken in the order `order`: every result is an
   * elementary circuit, no result is listed twice, and no result is a rotation of another.
   */
  function SimpleCycles(g: Graph, order: seq<string>): (r: seq<seq<string>>)
    requires Distinct(order)
    ensures forall c :: c in r ==> IsCycle(g.edges.Keys, c)
    ensures Distinct(r)
    ensures forall p, q :: 0 <= p < q < |r| ==> !IsRotation(r[p], r[q]) && !IsRotation(r[q], r[p])
  {
    var r := CyclesFrom(g, order, 0);
    assert forall p, q :: 0 <= p < |r| && 0 <= q < |r| && p != q ==> !IsRotation(r[p], r[q]) by {
      forall p, q | 0 <= p < |r| && 0 <= q < |r| && p != q && IsRotation(r[p], r[q])
        ensures false
      {
        assert r[p] in r && r[q] in r;
        var i :| 0 <= i < |order| && Canonical(order, i, r[p]);
        var s :| 0 <= s < |order| && Canonical(order, s, r[q]);
        var k :| 0 <= k < |r[p]| && r[q] == Rotate(r[p], k);
        assert Rotate(r[p], 0) == r[p];
        CanonicalRotation(order, r[p], i, s, k);
      }
    }
    r
  }

  // ---------------------------------------------------------------------------------------
  // Completeness: every elementary circuit is reported, as one of its rotations.

  /** The search from `path` finds every canonical circuit that extends `path`. */
  lemma {:induction false} ExploreFinds(g: Graph, order: seq<string>, i: nat, path: seq<string>,
                                       c: seq<string>)
    requires PathOk(g, order, i, path)
    requires IsCycle(g.edges.Keys, c) && Canonical(order, i, c)
    requires |path| <= |c| && c[..|path|] == path
    ensures c in Explore(g, order, i, path)
    decreases |c| - |path|
  {
    if |path| == |c| {
      assert c == path;
    } else {
      var j := NextChild(g, order, i, path, c);
      ExploreFinds(g, order, i, path + [order[j]], c);
      ExploreFromFinds(g, order, i, path, i + 1, j, c);
    }
  }

  /** The node that follows `path` on `c` is a child the search may step to. */
  lemma NextChild(g: Graph, order: seq<string>, i: nat, path: seq<string>, c: seq<string>)
    returns (j: nat)
    requires PathOk(g, order, i, path)
    requires IsCycle(g.edges.Keys, c) && Canonical(order, i, c)
    requires |path| < |c| && c[..|path|] == path
    ensures i < j < |order| && order[j] == c[|path|]
    ensures order[j] !in path && (path[|path| - 1], order[j]) in g.edges
    ensures PathOk(g, order, i, path + [order[j]])
    ensures |path + [order[j]]| <= |c| && c[..|path| + 1] == path + [order[j]]
  {
    var next := c[|path|];
    var t :| 0 <= t < |order[i + 1..]| && order[i + 1..][t] == next;
    j := i + 1 + t;
    assert next !in path by {
      forall k | 0 <= k < |path|
        ensures path[k] != next
      {
        assert path[k] == c[k];
      }
    }
    assert path[|path| - 1] == c[|path| - 1];
    var longer := path + [next];
    assert c[..|longer|] == longer;
    assert next == order[i + 1..][j - i - 1];
  }

  /** A circuit found below the child `order[j]` is found by the scan from `j0 <= j`. */
  lemma ExploreFromFinds(g: Graph, order: seq<string>, i: nat, path: seq<string>, j0: nat,
                          j: nat, c: seq<string>)
    requires PathOk(g, order, i, path) && i < j0 <= j < |order|
    requires order[j] !in path && (path[|path| - 1], order[j]) in g.edges
    requires PathOk(g, order, i, path + [order[j]])
    requires c in Explore(g, order, i, path + [order[j]])
    ensures c in ExploreFrom(g, order, i, path, j0)
  {
    ExtendMember(g, order, i, path, j, c);
    var children := Children(g, order, i, path, j0);
    assert c in children[j - j0];
    FlattenMember(children, c);
  }

  /** The step to `order[j]`, when allowed, keeps what the search below it finds. */
  lemma ExtendMember(g: Graph, order: seq<string>, i: nat, path: seq<string>, j: nat,
                     c: seq<string>)
    requires PathOk(g, order, i, path) && i < j < |order|
    requires order[j] !in path && (path[|path| - 1], order[j]) in g.edges
    requires PathOk(g, order, i, path + [order[j]])
    requires c in Explore(g, order, i, path + [order[j]])
    ensures c in Extend(g, order, i, path, j)
  {
  }

  lemma {:induction false} CyclesFromFinds(g: Graph, order: seq<string>, s: nat, i: nat, c: seq<string>)
    requires Distinct(order) && s <= i < |order|
    requires PathOk(g, order, i, [order[i]])
    requires c in Explore(g, order, i, [order[i]])
    ensures c in CyclesFrom(g, order, s)
    decreases i - s
  {
    assert IsPath(g.edges.Keys, [order[s]]);
    var here := Explore(g, order, s, [order[s]]);
    var rest := CyclesFrom(g, order, s + 1);
    if s < i {
      CyclesFromFinds(g, order, s + 1, i, c);
      assert c in rest;
    } else {
      assert c in here;
    }
    assert c in here + rest;
  }

  /** The position of `x` in `s`. */
  function IndexOf(s: seq<string>, x: string): (r: nat)
    requires x in s
    ensures r < |s| && s[r] == x
  {
    if s[0] == x then 0 else 1 + IndexOf(s[1..], x)
  }

  lemma RotateIsCycle(E: set<Edge>, c: seq<string>, m: nat)
    requires IsCycle(E, c) && m < |c|
    ensures IsCycle(E, Rotate(c, m))
  {
    var b := Rotate(c, m);
    var n := |c|;
    assert forall t :: 0 <= t < n - m ==> b[t] == c[m + t];
    assert forall t :: n - m <= t < n ==> b[t] == c[t - (n - m)];
    forall p, q | 0 <= p < q < n
      ensures b[p] != b[q]
    {
      var p' := if p < n - m then m + p else p - (n - m);
      var q' := if q < n - m then m + q else q - (n - m);
      assert p' != q';
    }
    forall t | 0 <= t < n - 1
      ensures (b[t], b[t + 1]) in E
    {
      if t == n - m - 1 {
        assert b[t] == c[n - 1] && b[t + 1] == c[0];
      } else if t < n - m - 1 {
        assert b[t] == c[m + t] && b[t + 1] == c[m + t + 1];
      } else {
        assert b[t] == c[t - (n - m)] && b[t + 1] == c[t - (n - m) + 1];
      }
    }
    if m > 0 {
      assert b[n - 1] == c[m - 1] && b[0] == c[m];
    }
  }

  /** A position of `c` holding the node that comes earliest in `order`. */
  lemma EarliestNode(order: seq<string>, c: seq<string>) returns (m: nat)
    requires |c| >= 1 && forall k :: 0 <= k < |c| ==> c[k] in order
    ensures m < |c|
    ensures forall k :: 0 <= k < |c| ==> IndexOf(order, c[m]) <= IndexOf(order, c[k])
  {
    m := 0;
    var k := 1;
    while k < |c|
      invariant m < k <= |c|
      invariant forall t :: 0 <= t < k ==> IndexOf(order, c[m]) <= IndexOf(order, c[t])
    {
      if IndexOf(order, c[k]) < IndexOf(order, c[m]) {
        m := k;
      }
      k := k + 1;
    }
  }

  /** Rotating a circuit to start at its earliest node makes it canonical. */
  lemma RotateToEarliest(order: seq<string>, c: seq<string>, m: nat)
    requires Distinct(order) && Distinct(c) && m < |c|
    requires forall k :: 0 <= k < |c| ==> c[k] in order
    requires forall k :: 0 <= k < |c| ==> IndexOf(order, c[m]) <= IndexOf(order, c[k])
    ensures Canonical(order, IndexOf(order, c[m]), Rotate(c, m))
  {
    var b := Rotate(c, m);
    var i := IndexOf(order, c[m]);
    var n := |c|;
    forall t | 1 <= t < n
      ensures b[t] in order[i + 1..]
    {
      var u := if t < n - m then m + t else t - (n - m);
      assert b[t] == c[u] && u != m;
      var x := IndexOf(order, c[u]);
      if x == i {
        DistinctAt(order, x, i);
      }
      assert c[u] == order[i + 1..][x - i - 1];
    }
  }

  /**
   * Completeness of `SimpleCycles`: every elementary circuit of the graph is a rotation of
   * one of the reported circuits.
   */
  lemma SimpleCyclesComplete(g: Graph, order: seq<string>, c: seq<string>)
    requires Valid(g) && Enumerates(g, order)
    requires IsCycle(g.edges.Keys, c)
    ensures exists q :: 0 <= q < |SimpleCycles(g, order)| && IsRotation(c, SimpleCycles(g, order)[q])
  {
    forall k | 0 <= k < |c|
      ensures c[k] in order
    {
      if k < |c| - 1 {
        assert (c[k], c[k + 1]) in g.edges;
      } else {
        assert (c[k], c[0]) in g.edges;
      }
    }
    var m := EarliestNode(order, c);
    var i := IndexOf(order, c[m]);
    var b := Rotate(c, m);
    RotateIsCycle(g.edges.Keys, c, m);
    RotateToEarliest(order, c, m);
    assert IsPath(g.edges.Keys, [order[i]]);
    assert b[..1] == [order[i]];
    ExploreFinds(g, order, i, [order[i]], b);
    CyclesFromFinds(g, order, 0, i, b);
    var r := SimpleCycles(g, order);
    var q :| 0 <= q < |r| && r[q] == b;
    assert IsRotation(c, r[q]);
  }
}
