/**
 Index arithmetic of the generated workloads: which pairs a formula over one
 counter reaches, and exactly when it reaches none of them twice.
 */
module IndexMaps {
  import opened Modular

  /** A counter below `n * m` is a row below `m` and a column below `n`. */
  lemma RowColumn(i: nat, n: nat, m: nat)
    requires n > 0
    ensures i == n * (i / n) + i % n && 0 <= i % n < n && 0 <= i / n
    ensures i < n * m <==> i / n < m
  {
    Split(i, n);
    if i / n < m {
      AtLeastRows(n, i / n + 1, m);
      Distribute(n, i / n, 1);
    } else {
      AtLeastRows(n, m, i / n);
    }
  }

  lemma AtLeastRows(n: int, a: int, b: int)
    requires n >= 0 && a <= b
    ensures n * a <= n * b
  {
    Distribute(n, b, a);
  }

  lemma CellIndex(n: nat, q: nat, r: nat)
    requires r < n
    ensures n * q + r >= 0 && (n * q + r) / n == q && (n * q + r) % n == r
  {
    DivUnique(n * q + r, n, q, r);
  }

  // ------------------------------------------------------------------------
  // The scattered reads of the temporal workload

  /** The node and the version read number `i` asks for. */
  function Visit(i: nat, nodes: nat, versions: nat): (pair: (nat, nat))
    requires nodes > 0 && versions > 0
    ensures pair.0 < nodes && pair.1 < versions
  {
    (i % nodes, (i * 7 + i / nodes) % versions)
  }

  method ScatteredReads(nodes: nat, versions: nat, count: nat) returns (visits: seq<(nat, nat)>)
    requires count > 0 ==> nodes > 0 && versions > 0
    ensures |visits| == count
    ensures forall i :: 0 <= i < count ==> visits[i] == Visit(i, nodes, versions)
  {
    visits := [];
    for i := 0 to count
      invariant |visits| == i
      invariant forall k :: 0 <= k < i ==> visits[k] == Visit(k, nodes, versions)
    {
      var nodeIndex := i % nodes;
      var versionIndex := (i * 7 + i / nodes) % versions;
      visits := visits + [(nodeIndex, versionIndex)];
    }
  }

  /** No pair is read twice among the first `count` reads. */
  ghost predicate NoRepeats(nodes: nat, versions: nat, count: nat)
    requires nodes > 0 && versions > 0
  {
    forall i: nat, j: nat :: i < j < count ==> Visit(i, nodes, versions) != Visit(j, nodes, versions)
  }

  ghost predicate ReadsEverything(nodes: nat, versions: nat, count: nat)
    requires nodes > 0 && versions > 0
  {
    forall x: nat, y: nat :: x < nodes && y < versions ==> Reached(nodes, versions, count, x, y)
  }

  ghost predicate Reached(nodes: nat, versions: nat, count: nat, x: nat, y: nat)
    requires nodes > 0 && versions > 0
  {
    exists i: nat :: i < count && Visit(i, nodes, versions) == (x, y)
  }

  function Stride(nodes: nat): nat {
    7 * nodes + 1
  }

  /** On one node the version index moves by a fixed stride per round. */
  lemma VersionStride(nodes: nat, versions: nat, q: nat, r: nat)
    requires r < nodes && versions > 0
    ensures Visit(nodes * q + r, nodes, versions) == (r, (Stride(nodes) * q + 7 * r) % versions)
  {
    CellIndex(nodes, q, r);
    StrideSum(nodes, q, r);
  }

  lemma StrideSum(n: int, q: int, r: int)
    ensures (n * q + r) * 7 + q == (7 * n + 1) * q + 7 * r
  {
  }

  lemma SamePairSameRound(nodes: nat, versions: nat, q: nat, p: nat, r: nat)
    requires r < nodes && versions > 0 && Gcd(Stride(nodes), versions) == 1 && q < versions && p < versions
    requires Visit(nodes * q + r, nodes, versions) == Visit(nodes * p + r, nodes, versions)
    ensures q == p
  {
    var a := Stride(nodes);
    VersionStride(nodes, versions, q, r);
    VersionStride(nodes, versions, p, r);
    SameRemainder(a * q + 7 * r, a * p + 7 * r, versions);
    Distribute(a, q, p);
    Cancel(a, q - p, versions);
    SmallMultiple(q - p, versions);
  }

  lemma DifferentVisits(nodes: nat, versions: nat, i: nat, j: nat)
    requires nodes > 0 && versions > 0 && Gcd(Stride(nodes), versions) == 1
    requires i < j < nodes * versions
    ensures Visit(i, nodes, versions) != Visit(j, nodes, versions)
  {
    if Visit(i, nodes, versions) == Visit(j, nodes, versions) {
      RowColumn(i, nodes, versions);
      RowColumn(j, nodes, versions);
      SamePairSameRound(nodes, versions, i / nodes, j / nodes, i % nodes);
    }
  }

  lemma EveryPairReached(nodes: nat, versions: nat, x: nat, y: nat)
    requires x < nodes && y < versions && Gcd(Stride(nodes), versions) == 1
    ensures Reached(nodes, versions, nodes * versions, x, y)
  {
    var q := Solve(Stride(nodes), y - 7 * x, versions);
    var i := nodes * q + x;
    CellIndex(nodes, q, x);
    VersionStride(nodes, versions, q, x);
    SameRemainder(Stride(nodes) * q + 7 * x, y, versions);
    DivUnique(y, versions, 0, y);
    RowColumn(i, nodes, versions);
  }

  lemma SharedFactorRepeats(nodes: nat, versions: nat)
    requires nodes > 0 && versions > 0 && Gcd(Stride(nodes), versions) != 1
    ensures !NoRepeats(nodes, versions, nodes * versions)
  {
    GcdDivides(Stride(nodes), versions);
    var q := SharedFactor(Stride(nodes), versions);
    VersionStride(nodes, versions, 0, 0);
    VersionStride(nodes, versions, q, 0);
    DivUnique(0, versions, 0, 0);
    CellIndex(nodes, q, 0);
    RowColumn(nodes * q, nodes, versions);
    var i := nodes * q;
    assert i != 0;
    assert Visit(0, nodes, versions) == Visit(i, nodes, versions);
  }

  /**
   The first `nodes * versions` reads visit every pair exactly once precisely when
   the stride `7 * nodes + 1` and the number of versions are coprime.
   */
  lemma ReadsVisitOnce(nodes: nat, versions: nat)
    requires nodes > 0 && versions > 0
    ensures (NoRepeats(nodes, versions, nodes * versions) && ReadsEverything(nodes, versions, nodes * versions)) <==>
            Gcd(Stride(nodes), versions) == 1
  {
    if Gcd(Stride(nodes), versions) == 1 {
      forall i: nat, j: nat | i < j < nodes * versions ensures Visit(i, nodes, versions) != Visit(j, nodes, versions) {
        DifferentVisits(nodes, versions, i, j);
      }
      forall x: nat, y: nat | x < nodes && y < versions ensures Reached(nodes, versions, nodes * versions, x, y) {
        EveryPairReached(nodes, versions, x, y);
      }
    } else {
      SharedFactorRepeats(nodes, versions);
    }
  }

  /** The default 8000 reads over 500 nodes of 20 versions are all different. */
  lemma DefaultReadsDiffer()
    ensures NoRepeats(500, 20, 8000)
  {
    assert Gcd(Stride(500), 20) == 1 by {
      assert Stride(500) == 3501;
      assert Gcd(3501, 20) == Gcd(20, 1) == Gcd(1, 0) == 1;
    }
    ReadsVisitOnce(500, 20);
  }

  /** Two nodes of five versions: the third read repeats the first. */
  lemma ReadsCanRepeat()
    ensures !NoRepeats(2, 5, 10)
  {
    assert Visit(0, 2, 5) == Visit(2, 2, 5);
  }

  // ------------------------------------------------------------------------
  // The edges of the recovery benchmark

  /** Source and target of edge number `i`. */
  function EdgeAt(i: nat, nodes: nat): (edge: (nat, nat))
    requires nodes > 0
    ensures edge.0 < nodes && edge.1 < nodes
  {
    (i % nodes, (i % nodes + i / nodes + 1) % nodes)
  }

  method MakeEdges(nodes: nat, count: nat) returns (edges: seq<(nat, nat)>)
    requires count > 0 ==> nodes > 0
    ensures |edges| == count
    ensures forall i :: 0 <= i < count ==> edges[i] == EdgeAt(i, nodes)
  {
    edges := [];
    for i := 0 to count
      invariant |edges| == i
      invariant forall k :: 0 <= k < i ==> edges[k] == EdgeAt(k, nodes)
    {
      var source := i % nodes;
      var target := (source + i / nodes + 1) % nodes;
      edges := edges + [(source, target)];
    }
  }

  ghost predicate NoSelfLoops(nodes: nat, count: nat)
    requires nodes > 0
  {
    forall i: nat :: i < count ==> EdgeAt(i, nodes).0 != EdgeAt(i, nodes).1
  }

  ghost predicate DistinctEdges(nodes: nat, count: nat)
    requires nodes > 0
  {
    forall i: nat, j: nat :: i < j < count ==> EdgeAt(i, nodes) != EdgeAt(j, nodes)
  }

  lemma EarlyEdgeIsNoLoop(i: nat, nodes: nat)
    requires nodes > 0 && i < nodes * (nodes - 1)
    ensures EdgeAt(i, nodes).0 != EdgeAt(i, nodes).1
  {
    RowColumn(i, nodes, nodes - 1);
    var s, d := i % nodes, i / nodes + 1;
    if (s + d) % nodes == s {
      DivUnique(s, nodes, 0, s);
      SameRemainder(s + d, s, nodes);
      SmallMultiple(d, nodes);
    }
  }

  lemma LastRoundLoops(nodes: nat)
    requires nodes > 0
    ensures nodes * (nodes - 1) >= 0
    ensures EdgeAt(nodes * (nodes - 1), nodes) == (0, 0)
  {
    AtLeastRows(nodes, 0, nodes - 1);
    CellIndex(nodes, nodes - 1, 0);
    DivUnique(nodes, nodes, 1, 0);
  }

  lemma DifferentEdges(i: nat, j: nat, nodes: nat)
    requires nodes > 0 && i < j < nodes * nodes
    ensures EdgeAt(i, nodes) != EdgeAt(j, nodes)
  {
    if EdgeAt(i, nodes) == EdgeAt(j, nodes) {
      RowColumn(i, nodes, nodes);
      RowColumn(j, nodes, nodes);
      var s := i % nodes;
      SameRemainder(s + i / nodes + 1, s + j / nodes + 1, nodes);
      SmallMultiple(i / nodes - j / nodes, nodes);
    }
  }

  lemma LapRepeats(nodes: nat)
    requires nodes > 0
    ensures nodes * nodes > 0 && EdgeAt(nodes * nodes, nodes) == EdgeAt(0, nodes)
  {
    AtLeast(nodes, nodes);
    CellIndex(nodes, nodes, 0);
    CellIndex(nodes, 0, 0);
    DivUnique(nodes + 1, nodes, (nodes + 1) / nodes, (nodes + 1) % nodes);
    AddMultiple(1, 1, nodes);
  }

  /**
   The generated edges have no self-loop exactly up to `nodes * (nodes - 1)` of
   them, and no repeated pair exactly up to `nodes * nodes`.
   */
  lemma EdgesAreSimple(nodes: nat, count: nat)
    requires nodes > 0
    ensures NoSelfLoops(nodes, count) <==> count <= nodes * (nodes - 1)
    ensures DistinctEdges(nodes, count) <==> count <= nodes * nodes
  {
    LastRoundLoops(nodes);
    LapRepeats(nodes);
    forall i: nat | i < nodes * (nodes - 1) ensures EdgeAt(i, nodes).0 != EdgeAt(i, nodes).1 {
      EarlyEdgeIsNoLoop(i, nodes);
    }
    forall i: nat, j: nat | i < j < nodes * nodes ensures EdgeAt(i, nodes) != EdgeAt(j, nodes) {
      DifferentEdges(i, j, nodes);
    }
    var last, lap := nodes * (nodes - 1), nodes * nodes;
    assert EdgeAt(last, nodes) == (0, 0) && EdgeAt(lap, nodes) == EdgeAt(0, nodes);
  }

  // ------------------------------------------------------------------------
  // The stride-17 targets of the power-law graph

  function Degree(i: nat, nodes: nat): nat {
    if i < nodes / 20 then 100 else if i < nodes / 4 then 30 else 5
  }

  function StrideTarget(i: nat, j: nat, nodes: nat): nat
    requires nodes > 0
  {
    (i + j * 17 + 1) % nodes
  }

  ghost predicate DistinctTargets(i: nat, degree: nat, nodes: nat)
    requires nodes > 0
  {
    forall j: nat, k: nat :: j < k < degree ==> StrideTarget(i, j, nodes) != StrideTarget(i, k, nodes)
  }

  function EdgesFrom(i: nat, nodes: nat): seq<(nat, nat)>
    requires nodes > 0
  {
    seq(Degree(i, nodes), j requires 0 <= j => (i, StrideTarget(i, j, nodes)))
  }

  /** The edges of the first `n` nodes. */
  function PowerLaw(n: nat, nodes: nat): seq<(nat, nat)>
    requires n <= nodes
  {
    if n == 0 then [] else PowerLaw(n - 1, nodes) + EdgesFrom(n - 1, nodes)
  }

  method PowerLawEdges(nodes: nat) returns (edges: seq<(nat, nat)>)
    ensures edges == PowerLaw(nodes, nodes)
  {
    edges := [];
    for i := 0 to nodes
      invariant edges == PowerLaw(i, nodes)
    {
      var degree := if i < nodes / 20 then 100 else if i < nodes / 4 then 30 else 5;
      for j := 0 to degree
        invariant edges == PowerLaw(i, nodes) + EdgesFrom(i, nodes)[..j]
      {
        var target := (i + j * 17 + 1) % nodes;
        assert EdgesFrom(i, nodes)[j] == (i, target);
        edges := edges + [(i, target)];
      }
    }
  }

  /** The edge total: 5% hubs of 100, 20% of 30, the rest of 5. */
  lemma {:induction false} PowerLawCount(n: nat, nodes: nat)
    requires n <= nodes
    ensures var hubs, medium := nodes / 20, nodes / 4;
            |PowerLaw(n, nodes)| == if n <= hubs then 100 * n
                                    else if n <= medium then 100 * hubs + 30 * (n - hubs)
                                    else 100 * hubs + 30 * (medium - hubs) + 5 * (n - medium)
  {
    if n > 0 {
      PowerLawCount(n - 1, nodes);
    }
  }

  lemma SeventeenCoprime(n: nat)
    requires n > 0
    ensures Gcd(17, n) == if n % 17 == 0 then 17 else 1
  {
    GcdDivides(17, n);
    var g := Gcd(17, n);
    Split(17, g);
    PrimeSeventeen(g, 17 / g);
    if n % 17 == 0 {
      SeventeenDivides(n);
    }
  }

  lemma SeventeenDivides(n: nat)
    requires n % 17 == 0
    ensures Gcd(17, n) % 17 == 0
  {
    var s, t := Bezout(17, n);
    Split(n, 17);
    var k := n / 17;
    assert 17 * s + (17 * k) * t == 17 * (s + k * t);
    DivUnique(Gcd(17, n), 17, s + k * t, 0);
  }

  lemma PrimeSeventeen(g: nat, q: nat)
    requires 17 == g * q
    ensures g == 1 || g == 17
  {
    if g >= 2 && q >= 2 {
      if g >= 9 {
        AtLeastRows(g, 2, q);
      }
    }
  }

  lemma TargetsCollide(i: nat, j: nat, k: nat, nodes: nat)
    requires nodes > 0
    ensures StrideTarget(i, j, nodes) == StrideTarget(i, k, nodes) <==> (17 * (k - j)) % nodes == 0
  {
    SameRemainder(i + k * 17 + 1, i + j * 17 + 1, nodes);
  }

  /** How many targets of one node are different before the stride comes round. */
  function Period(nodes: nat): nat {
    if nodes % 17 == 0 then nodes / 17 else nodes
  }

  lemma TargetsWithinPeriod(i: nat, j: nat, k: nat, nodes: nat)
    requires nodes > 0 && j < k && k - j < Period(nodes)
    ensures StrideTarget(i, j, nodes) != StrideTarget(i, k, nodes)
  {
    TargetsCollide(i, j, k, nodes);
    if (17 * (k - j)) % nodes == 0 {
      if nodes % 17 == 0 {
        Split(nodes, 17);
        SmallMultiple(17 * (k - j), nodes);
      } else {
        SeventeenCoprime(nodes);
        Cancel(17, k - j, nodes);
        SmallMultiple(k - j, nodes);
      }
    }
  }

  lemma PeriodCollides(i: nat, nodes: nat)
    requires nodes > 0
    ensures Period(nodes) > 0 && StrideTarget(i, 0, nodes) == StrideTarget(i, Period(nodes), nodes)
  {
    TargetsCollide(i, 0, Period(nodes), nodes);
    if nodes % 17 == 0 {
      Split(nodes, 17);
      DivUnique(nodes, nodes, 1, 0);
    } else {
      DivUnique(17 * nodes, nodes, 17, 0);
    }
  }

  /**
   The targets of a node are all different exactly when its degree is at most the
   number of nodes, or a seventeenth of it where 17 divides that number.
   */
  lemma StrideTargetsDistinct(i: nat, degree: nat, nodes: nat)
    requires nodes > 0
    ensures DistinctTargets(i, degree, nodes) <==> degree <= Period(nodes)
  {
    if degree <= Period(nodes) {
      forall j: nat, k: nat | j < k < degree ensures StrideTarget(i, j, nodes) != StrideTarget(i, k, nodes) {
        TargetsWithinPeriod(i, j, k, nodes);
      }
    } else {
      PeriodCollides(i, nodes);
    }
  }

  /** The largest degree among the first `nodes` nodes: hubs from 20 nodes on, medium ones from 4 on. */
  function LargestDegree(nodes: nat): nat {
    if nodes >= 20 then 100 else if nodes >= 4 then 30 else if nodes >= 1 then 5 else 0
  }

  lemma LargestDegreeIs(nodes: nat)
    ensures forall i: nat :: i < nodes ==> Degree(i, nodes) <= LargestDegree(nodes)
    ensures nodes > 0 ==> Degree(0, nodes) == LargestDegree(nodes)
  {
  }

  ghost predicate SimpleRows(nodes: nat) {
    forall i: nat :: i < nodes ==> DistinctTargets(i, Degree(i, nodes), nodes)
  }

  /**
   No node of the power-law graph has two edges to the same target exactly when
   there are no nodes, or at least 100 of them, or at least 1700 where 17 divides
   their number.
   */
  lemma PowerLawRowsSimple(nodes: nat)
    ensures SimpleRows(nodes) <==> nodes == 0 || (if nodes % 17 == 0 then nodes >= 1700 else nodes >= 100)
  {
    if nodes > 0 {
      LargestDegreeIs(nodes);
      StrideTargetsDistinct(0, Degree(0, nodes), nodes);
      forall i: nat | i < nodes
        ensures DistinctTargets(i, Degree(i, nodes), nodes) <==> Degree(i, nodes) <= Period(nodes)
      {
        StrideTargetsDistinct(i, Degree(i, nodes), nodes);
      }
      assert LargestDegree(nodes) <= Period(nodes) <==> if nodes % 17 == 0 then nodes >= 1700 else nodes >= 100;
      if SimpleRows(nodes) {
        assert DistinctTargets(0, Degree(0, nodes), nodes);
      }
    }
  }

  /** With 50 nodes the hubs' targets come round. */
  lemma HubRepeatsTarget()
    ensures !SimpleRows(50)
  {
    assert Degree(0, 50) == 100 && StrideTarget(0, 0, 50) == StrideTarget(0, 50, 50);
    assert !DistinctTargets(0, Degree(0, 50), 50);
  }

  /** Edge `j` of a node leads back to it exactly when the number of nodes divides `17 j + 1`. */
  lemma SelfTarget(i: nat, j: nat, nodes: nat)
    requires i < nodes
    ensures StrideTarget(i, j, nodes) == i <==> (17 * j + 1) % nodes == 0
  {
    SameRemainder(i + j * 17 + 1, i, nodes);
    DivUnique(i, nodes, 0, i);
  }

  ghost predicate NoSelfTargets(nodes: nat) {
    forall i: nat, j: nat :: i < nodes && j < Degree(i, nodes) ==> StrideTarget(i, j, nodes) != i
  }

  ghost predicate NoneDivisible(nodes: nat, degree: nat)
    requires nodes > 0
  {
    forall j: nat :: j < degree ==> Back(j) % nodes != 0
  }

  function Back(j: nat): nat {
    17 * j + 1
  }

  /**
   The power-law graph has no edge from a node to itself exactly when the number
   of nodes divides none of 1, 18, 35, ... up to the largest degree; so never when
   17 divides it.
   */
  lemma PowerLawSelfTargets(nodes: nat)
    requires nodes > 0
    ensures NoSelfTargets(nodes) <==> NoneDivisible(nodes, LargestDegree(nodes))
    ensures nodes % 17 == 0 ==> NoSelfTargets(nodes)
  {
    LargestDegreeIs(nodes);
    if NoneDivisible(nodes, LargestDegree(nodes)) {
      forall i: nat, j: nat | i < nodes && j < Degree(i, nodes) ensures StrideTarget(i, j, nodes) != i {
        SelfTarget(i, j, nodes);
        assert Back(j) % nodes != 0;
      }
    }
    if NoSelfTargets(nodes) {
      forall j: nat | j < LargestDegree(nodes) ensures Back(j) % nodes != 0 {
        SelfTarget(0, j, nodes);
        assert StrideTarget(0, j, nodes) != 0;
      }
    }
    if nodes % 17 == 0 {
      forall j: nat | j < LargestDegree(nodes) ensures Back(j) % nodes != 0 {
        NotDivisible(j, nodes);
      }
    }
  }

  /** With 35 nodes the third edge of the first node leads back to it. */
  lemma HubTargetsItself()
    ensures !NoSelfTargets(35)
  {
    assert Degree(0, 35) == 100 && StrideTarget(0, 2, 35) == 0;
  }

  lemma NotDivisible(j: nat, nodes: nat)
    requires nodes > 0 && nodes % 17 == 0
    ensures Back(j) % nodes != 0
  {
    DivUnique(Back(j), 17, j, 1);
    if Back(j) % nodes == 0 {
      DividesThrough(Back(j), nodes, 17);
    }
  }
}
