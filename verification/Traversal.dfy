/**
 Multi-hop traversal: the nested-loop count and the frontier loop of the
 benchmarks on any graph, and the graph the benchmark generates. Edge `e` of a
 graph is the pair of its source and target; edges are numbered as created.
 */
module Traversal {
  import opened Common
  import opened Modular

  type Graph = seq<(nat, nat)>

  /** The numbers of a node's outgoing edges, oldest first. */
  function OutEdges(g: Graph, node: nat): (es: seq<nat>)
    ensures forall i :: 0 <= i < |es| ==> es[i] < |g| && g[es[i]].0 == node
  {
    if |g| == 0 then []
    else if g[|g| - 1].0 == node then OutEdges(g[..|g| - 1], node) + [|g| - 1]
    else OutEdges(g[..|g| - 1], node)
  }

  function OutTargets(g: Graph, node: nat): seq<nat> {
    if |g| == 0 then []
    else if g[|g| - 1].0 == node then OutTargets(g[..|g| - 1], node) + [g[|g| - 1].1]
    else OutTargets(g[..|g| - 1], node)
  }

  function InSources(g: Graph, node: nat): seq<nat> {
    if |g| == 0 then []
    else if g[|g| - 1].1 == node then InSources(g[..|g| - 1], node) + [g[|g| - 1].0]
    else InSources(g[..|g| - 1], node)
  }

  lemma {:induction false} TargetsOfEdges(g: Graph, node: nat)
    ensures |OutEdges(g, node)| == |OutTargets(g, node)|
    ensures forall i :: 0 <= i < |OutEdges(g, node)| ==> g[OutEdges(g, node)[i]].1 == OutTargets(g, node)[i]
  {
    if |g| > 0 {
      TargetsOfEdges(g[..|g| - 1], node);
    }
  }

  // ------------------------------------------------------------------------
  // Walks and frontiers

  /** How many walks of `k` edges start at a node. */
  function Walks(g: Graph, node: nat, k: nat): nat
    decreases k, 0, 0
  {
    if k == 0 then 1 else SumWalks(g, OutTargets(g, node), k - 1)
  }

  function SumWalks(g: Graph, nodes: seq<nat>, k: nat): nat
    decreases k, 1, |nodes|
  {
    if |nodes| == 0 then 0 else SumWalks(g, nodes[..|nodes| - 1], k) + Walks(g, nodes[|nodes| - 1], k)
  }

  /** All targets of all the nodes, repetitions kept. */
  function Expand(g: Graph, nodes: seq<nat>): seq<nat> {
    if |nodes| == 0 then [] else Expand(g, nodes[..|nodes| - 1]) + OutTargets(g, nodes[|nodes| - 1])
  }

  function Frontier(g: Graph, nodes: seq<nat>, k: nat): seq<nat>
    decreases k
  {
    if k == 0 then nodes else Frontier(g, Expand(g, nodes), k - 1)
  }

  lemma {:induction false} SumWalksParts(g: Graph, a: seq<nat>, b: seq<nat>, k: nat)
    ensures SumWalks(g, a + b, k) == SumWalks(g, a, k) + SumWalks(g, b, k)
  {
    if |b| == 0 {
      assert a + b == a;
    } else {
      SumWalksParts(g, a, b[..|b| - 1], k);
      assert (a + b)[..|a + b| - 1] == a + b[..|b| - 1];
    }
  }

  lemma {:induction false} ExpandWalks(g: Graph, nodes: seq<nat>, k: nat)
    ensures SumWalks(g, nodes, k + 1) == SumWalks(g, Expand(g, nodes), k)
  {
    if |nodes| > 0 {
      ExpandWalks(g, nodes[..|nodes| - 1], k);
      SumWalksParts(g, Expand(g, nodes[..|nodes| - 1]), OutTargets(g, nodes[|nodes| - 1]), k);
    }
  }

  lemma {:induction false} NoEdgesLeft(g: Graph, nodes: seq<nat>)
    ensures SumWalks(g, nodes, 0) == |nodes|
  {
    if |nodes| > 0 {
      NoEdgesLeft(g, nodes[..|nodes| - 1]);
    }
  }

  /** The frontier after `k` expansions has one entry per walk of `k` edges, on any graph. */
  lemma {:induction false} FrontierCountsWalks(g: Graph, nodes: seq<nat>, k: nat)
    ensures |Frontier(g, nodes, k)| == SumWalks(g, nodes, k)
    decreases k
  {
    if k == 0 {
      NoEdgesLeft(g, nodes);
    } else {
      ExpandWalks(g, nodes, k - 1);
      FrontierCountsWalks(g, Expand(g, nodes), k - 1);
    }
  }

  lemma OneStart(g: Graph, node: nat, k: nat)
    ensures SumWalks(g, [node], k) == Walks(g, node, k)
  {
    assert [node][..0] == [];
    assert SumWalks(g, [], k) == 0;
  }

  lemma LastHop(g: Graph, node: nat)
    ensures Walks(g, node, 1) == |OutEdges(g, node)|
  {
    NoEdgesLeft(g, OutTargets(g, node));
    TargetsOfEdges(g, node);
  }

  // ------------------------------------------------------------------------
  // The two traversals

  /** The second and third loops: everything two hops beyond a node. */
  method CountTwoHops(g: Graph, node: nat) returns (visited: nat)
    ensures visited == Walks(g, node, 2)
  {
    visited := 0;
    var hop := OutEdges(g, node);
    TargetsOfEdges(g, node);
    ghost var targets := OutTargets(g, node);
    for i := 0 to |hop|
      invariant visited == SumWalks(g, targets[..i], 1)
    {
      var edge := g[hop[i]];
      var last := OutEdges(g, edge.1);
      visited := visited + |last|;
      LastHop(g, edge.1);
      assert targets[..i + 1][..i] == targets[..i];
    }
    assert targets[..|hop|] == targets;
  }

  method NestedThreeHops(g: Graph, start: nat) returns (visited: nat)
    ensures visited == Walks(g, start, 3)
  {
    visited := 0;
    var hop := OutEdges(g, start);
    TargetsOfEdges(g, start);
    ghost var targets := OutTargets(g, start);
    for i := 0 to |hop|
      invariant visited == SumWalks(g, targets[..i], 2)
    {
      var edge := g[hop[i]];
      var beyond := CountTwoHops(g, edge.1);
      visited := visited + beyond;
      assert targets[..i + 1][..i] == targets[..i];
    }
    assert targets[..|hop|] == targets;
  }

  method FrontierThreeHops(g: Graph, start: nat) returns (count: nat)
    ensures count == Walks(g, start, 3)
  {
    var current := [start];
    ghost var left := 3;
    for i := 0 to 3
      invariant left == 3 - i && Frontier(g, current, left) == Frontier(g, [start], 3)
    {
      current := Expanded(g, current);
      left := left - 1;
    }
    count := |current|;
    FrontierCountsWalks(g, [start], 3);
    OneStart(g, start, 3);
  }

  method Expanded(g: Graph, nodes: seq<nat>) returns (next: seq<nat>)
    ensures next == Expand(g, nodes)
  {
    next := [];
    for i := 0 to |nodes|
      invariant next == Expand(g, nodes[..i])
    {
      next := next + OutTargets(g, nodes[i]);
      assert nodes[..i + 1][..i] == nodes[..i];
    }
    assert nodes[..|nodes|] == nodes;
  }

  // ------------------------------------------------------------------------
  // The generated graph

  function Target(i: nat, j: nat, n: nat): nat
    requires n > 0
  {
    (i + j + 1) % n
  }

  /** The first `m` edges of node `i`. */
  function Row(i: nat, m: nat, n: nat): Graph
    requires n > 0
  {
    if m == 0 then [] else Row(i, m - 1, n) + [(i, Target(i, m - 1, n))]
  }

  function TestGraph(rows: nat, m: nat, n: nat): Graph
    requires rows <= n
  {
    if rows == 0 then [] else TestGraph(rows - 1, m, n) + Row(rows - 1, m, n)
  }

  /** The degree asked for, capped so that no node needs an edge to itself. */
  function CappedDegree(outDegree: nat, n: nat): nat {
    if n == 0 then 0 else if outDegree < n - 1 then outDegree else n - 1
  }

  method CreateTestGraph(n: nat, outDegree: nat) returns (g: Graph)
    ensures g == TestGraph(n, CappedDegree(outDegree, n), n)
  {
    g := [];
    for i := 0 to n
      invariant g == TestGraph(i, CappedDegree(outDegree, n), n)
    {
      ghost var was := g;
      for j := 0 to CappedDegree(outDegree, n)
        invariant g == was + Row(i, j, n)
      {
        g := g + [(i, (i + j + 1) % n)];
        assert g == was + Row(i, j + 1, n);
      }
    }
  }

  lemma {:induction false} OutTargetsParts(a: Graph, b: Graph, node: nat)
    ensures OutTargets(a + b, node) == OutTargets(a, node) + OutTargets(b, node)
  {
    if |b| == 0 {
      assert a + b == a;
    } else {
      OutTargetsParts(a, b[..|b| - 1], node);
      assert (a + b)[..|a + b| - 1] == a + b[..|b| - 1];
    }
  }

  lemma {:induction false} InSourcesParts(a: Graph, b: Graph, node: nat)
    ensures InSources(a + b, node) == InSources(a, node) + InSources(b, node)
  {
    if |b| == 0 {
      assert a + b == a;
    } else {
      InSourcesParts(a, b[..|b| - 1], node);
      assert (a + b)[..|a + b| - 1] == a + b[..|b| - 1];
    }
  }

  lemma {:induction false} RowTargets(i: nat, m: nat, n: nat, node: nat)
    requires n > 0
    ensures OutTargets(Row(i, m, n), node) == if node == i then seq(m, j requires 0 <= j => Target(i, j, n)) else []
  {
    if m > 0 {
      RowTargets(i, m - 1, n, node);
      assert Row(i, m, n)[..|Row(i, m, n)| - 1] == Row(i, m - 1, n);
    }
  }

  lemma {:induction false} GraphTargets(rows: nat, m: nat, n: nat, node: nat)
    requires rows <= n
    ensures OutTargets(TestGraph(rows, m, n), node) ==
              if node < rows then seq(m, j requires 0 <= j => Target(node, j, n)) else []
  {
    if rows > 0 {
      GraphTargets(rows - 1, m, n, node);
      RowTargets(rows - 1, m, n, node);
      OutTargetsParts(TestGraph(rows - 1, m, n), Row(rows - 1, m, n), node);
    }
  }

  /** How far around the ring `t` lies beyond `i`, minus one: the only column of row `i` that hits `t`. */
  function Offset(i: nat, t: nat, n: nat): nat
    requires i < n && t < n
  {
    if i < t then t - i - 1 else n + t - i - 1
  }

  lemma TargetAt(i: nat, j: nat, n: nat, t: nat)
    requires i < n && j < n && t < n
    ensures Target(i, j, n) == t <==> j == Offset(i, t, n)
  {
    if i + j + 1 < n {
      DivUnique(i + j + 1, n, 0, i + j + 1);
    } else {
      DivUnique(i + j + 1, n, 1, i + j + 1 - n);
    }
  }

  lemma {:induction false} RowSources(i: nat, m: nat, n: nat, t: nat)
    requires i < n && t < n && m <= n
    ensures InSources(Row(i, m, n), t) == if Offset(i, t, n) < m then [i] else []
  {
    if m > 0 {
      RowSources(i, m - 1, n, t);
      TargetAt(i, m - 1, n, t);
      assert Row(i, m, n)[..|Row(i, m, n)| - 1] == Row(i, m - 1, n);
    }
  }

  /** How many sources the first rows give: first those before `t`, then those from `t` on. */
  function SourceCount(rows: nat, m: nat, n: nat, t: nat): int {
    if rows <= t then Min(m, t) - Min(m, t - rows) else Min(m, t) + m - Min(m, n + t - rows)
  }

  lemma OneMoreRow(rows: nat, m: nat, n: nat, t: nat)
    requires 0 < rows <= n && t < n && m <= n
    ensures SourceCount(rows, m, n, t) == SourceCount(rows - 1, m, n, t) + (if Offset(rows - 1, t, n) < m then 1 else 0)
  {
  }

  /** The rows that have an edge to `t`. */
  function Sources(rows: nat, m: nat, n: nat, t: nat): seq<nat>
    requires rows <= n && t < n
  {
    if rows == 0 then []
    else if Offset(rows - 1, t, n) < m then Sources(rows - 1, m, n, t) + [rows - 1]
    else Sources(rows - 1, m, n, t)
  }

  lemma {:induction false} GraphSources(rows: nat, m: nat, n: nat, t: nat)
    requires rows <= n && t < n && m <= n
    ensures InSources(TestGraph(rows, m, n), t) == Sources(rows, m, n, t)
  {
    if rows > 0 {
      GraphSources(rows - 1, m, n, t);
      SourcesStep(rows, m, n, t, Sources(rows - 1, m, n, t));
    }
  }

  lemma SourcesStep(rows: nat, m: nat, n: nat, t: nat, early: seq<nat>)
    requires 0 < rows <= n && t < n && m <= n && InSources(TestGraph(rows - 1, m, n), t) == early
    ensures InSources(TestGraph(rows, m, n), t) == if Offset(rows - 1, t, n) < m then early + [rows - 1] else early
  {
    InSourcesParts(TestGraph(rows - 1, m, n), Row(rows - 1, m, n), t);
    RowSources(rows - 1, m, n, t);
    assert early + [] == early;
  }

  lemma {:induction false} SourcesCounted(rows: nat, m: nat, n: nat, t: nat)
    requires rows <= n && t < n && m <= n
    ensures var s := Sources(rows, m, n, t); |s| == SourceCount(rows, m, n, t) && InRange(s, rows) && Distinct(s)
  {
    if rows > 0 {
      SourcesCounted(rows - 1, m, n, t);
      OneMoreRow(rows, m, n, t);
      NewestSource(Sources(rows - 1, m, n, t), rows - 1);
    }
  }

  lemma NewestSource(s: seq<nat>, row: nat)
    requires InRange(s, row) && Distinct(s)
    ensures InRange(s, row + 1) && InRange(s + [row], row + 1) && Distinct(s + [row])
  {
  }

  /**
   The generated graph is regular: every node has the capped degree both ways,
   to different nodes and from different nodes, never to itself.
   */
  lemma TestGraphRegular(n: nat, outDegree: nat, node: nat)
    requires node < n
    ensures var m := CappedDegree(outDegree, n);
            var g := TestGraph(n, m, n);
            && |OutTargets(g, node)| == m && Distinct(OutTargets(g, node))
            && |InSources(g, node)| == m && Distinct(InSources(g, node))
            && InRange(OutTargets(g, node), n) && node !in OutTargets(g, node)
  {
    var m := CappedDegree(outDegree, n);
    GraphTargets(n, m, n, node);
    GraphSources(n, m, n, node);
    SourcesCounted(n, m, n, node);
    var out := OutTargets(TestGraph(n, m, n), node);
    forall i, j | 0 <= i < j < m ensures out[i] != out[j] {
      TargetAt(node, i, n, out[i]);
      TargetAt(node, j, n, out[i]);
    }
    forall i | 0 <= i < m ensures out[i] < n && out[i] != node {
      TargetAt(node, i, n, node);
    }
  }

  function Power(m: nat, k: nat): nat {
    if k == 0 then 1 else m * Power(m, k - 1)
  }

  predicate InRange(nodes: seq<nat>, n: nat) {
    forall i :: 0 <= i < |nodes| ==> nodes[i] < n
  }

  lemma {:induction false} RegularSum(n: nat, outDegree: nat, nodes: seq<nat>, k: nat)
    requires InRange(nodes, n)
    ensures var m := CappedDegree(outDegree, n); SumWalks(TestGraph(n, m, n), nodes, k) == |nodes| * Power(m, k)
    decreases k, 1, |nodes|
  {
    if |nodes| > 0 {
      var last := nodes[|nodes| - 1];
      RegularSum(n, outDegree, nodes[..|nodes| - 1], k);
      RegularWalks(n, outDegree, last, k);
    }
  }

  /** On the generated graph every node starts `m` to the power `k` walks, so both traversals return the cube. */
  lemma {:induction false} RegularWalks(n: nat, outDegree: nat, node: nat, k: nat)
    requires node < n
    ensures var m := CappedDegree(outDegree, n); Walks(TestGraph(n, m, n), node, k) == Power(m, k)
    decreases k, 0, 0
  {
    if k > 0 {
      var m := CappedDegree(outDegree, n);
      TestGraphRegular(n, outDegree, node);
      RegularSum(n, outDegree, OutTargets(TestGraph(n, m, n), node), k - 1);
    }
  }
}
