/**
 The lineage workload: a citation graph of `levels` waves of `perLevel` facts,
 each wave deriving round-robin from the one before, and the closure queries
 the workload times on it.
 */
module LineageWorkload {
  import opened Common
  import opened Lineage

  // ------------------------------------------------------------------------
  // The graph that is built

  /** How many facts the first waves have, and so the last version among them. */
  function WaveEnd(perLevel: nat, waves: nat): nat {
    waves * perLevel
  }

  lemma NextEnd(perLevel: nat, waves: nat)
    ensures WaveEnd(perLevel, waves + 1) == WaveEnd(perLevel, waves) + perLevel
  {
  }

  lemma EndMonotone(perLevel: nat, a: nat, b: nat)
    requires a <= b
    ensures WaveEnd(perLevel, a) <= WaveEnd(perLevel, b)
  {
  }

  /** The root is version 0; the facts follow in creation order. */
  function Fact(perLevel: nat, wave: nat, i: nat): Version {
    1 + WaveEnd(perLevel, wave) + i
  }

  function Pinned(v: Version): Ref {
    Ref(v, v)
  }

  function Parent(perLevel: nat, v: Version): Version {
    if v <= perLevel then 0 else v - perLevel
  }

  function Run(from: Version, count: nat): seq<Version> {
    seq(count, i requires 0 <= i < count => from + i)
  }

  function Wave(perLevel: nat, wave: nat): seq<Ref> {
    seq(perLevel, i requires 0 <= i < perLevel => Pinned(Fact(perLevel, wave, i)))
  }

  /** What has been derived from `s` once `count` facts exist. */
  function Children(perLevel: nat, count: nat, s: Version): seq<Version> {
    if s == 0 then Run(1, if count < perLevel then count else perLevel)
    else if s + perLevel <= count then [s + perLevel]
    else []
  }

  /** The graph after the first `count` facts. */
  function Citations(perLevel: nat, count: nat): Graph {
    Graph(map v | 1 <= v <= count :: Record(Pinned(v), [Pinned(Parent(perLevel, v))], v),
          map s | 0 <= s <= count && Children(perLevel, count, s) != [] :: Children(perLevel, count, s))
  }

  lemma OneSource(p: Ref)
    ensures Fresh([p], {}) == [p] && Versions([p]) == {p.version}
  {
    VersionsSnoc([p]);
    assert [p][..0] == [];
  }

  lemma ChildrenStep(perLevel: nat, count: nat, s: Version)
    requires perLevel > 0
    ensures Children(perLevel, count + 1, s) ==
              Children(perLevel, count, s) + (if s == Parent(perLevel, count + 1) then [count + 1] else [])
    ensures s > count ==> Children(perLevel, count, s) == []
  {
  }

  lemma DownstreamStep(perLevel: nat, count: nat)
    requires perLevel > 0
    ensures Citations(perLevel, count + 1).downstream ==
              PushDerived(Citations(perLevel, count).downstream, [Pinned(Parent(perLevel, count + 1))], count + 1)
  {
    var was, p := Citations(perLevel, count).downstream, Parent(perLevel, count + 1);
    var down := Citations(perLevel, count + 1).downstream;
    var pushed := PushDerived(was, [Pinned(p)], count + 1);
    OneSource(Pinned(p));
    forall s
      ensures s in down <==> s in pushed
      ensures s in down ==> down[s] == pushed[s]
    {
      if 0 <= s {
        ChildrenStep(perLevel, count, s);
        assert s in was ==> was[s] == Children(perLevel, count, s);
      }
    }
  }

  /** Recording one more fact gives the next graph. */
  lemma CitationStep(perLevel: nat, count: nat)
    requires perLevel > 0
    ensures var g, v := Citations(perLevel, count), count + 1;
            var p := Pinned(Parent(perLevel, v));
            Citations(perLevel, count + 1) ==
              Graph(g.upstream[v := Record(Pinned(v), [p], v)], PushDerived(g.downstream, [p], v))
  {
    DownstreamStep(perLevel, count);
    var g, v := Citations(perLevel, count), count + 1;
    assert Citations(perLevel, v).upstream == g.upstream[v := Record(Pinned(v), [Pinned(Parent(perLevel, v))], v)];
  }

  /** Nothing leads upstream to a version that is not there yet. */
  lemma NewVersionUnreached(perLevel: nat, count: nat, u: Version, d: nat)
    requires u <= count
    ensures !Reaches(SourceEdges(Citations(perLevel, count)), u, count + 1, d)
  {
    var g := Citations(perLevel, count);
    var next := SourceEdges(g);
    if d > 0 && Reaches(next, u, count + 1, d) {
      var w :| Reaches(next, u, w, d - 1) && Adjacent(next, w, count + 1);
      assert next(w) == SourcesOf(g, w);
      if w in g.upstream {
        OneSource(Pinned(Parent(perLevel, w)));
      }
    }
  }

  /** Recording the next fact is accepted. */
  lemma NextFactAccepted(perLevel: nat, count: nat, r: RecordResult)
    requires perLevel > 0
    requires Verdict(Citations(perLevel, count), count + 1, [Pinned(Parent(perLevel, count + 1))], r)
    ensures r == Recorded
  {
    var p := Parent(perLevel, count + 1);
    OneSource(Pinned(p));
    var next, v := SourceEdges(Citations(perLevel, count)), count + 1;
    forall d: nat
      ensures !Reaches(next, p, v, d)
    {
      NewVersionUnreached(perLevel, count, p, d);
    }
    assert !CanReach(next, p, v);
  }

  method AddFact(store: LineageStore, perLevel: nat, count: nat, parent: Ref) returns (fact: Ref)
    requires perLevel > 0 && store.Valid() && store.Contents() == Citations(perLevel, count)
    requires parent == Pinned(Parent(perLevel, count + 1))
    modifies store
    ensures store.Valid() && store.Contents() == Citations(perLevel, count + 1) && fact == Pinned(count + 1)
  {
    fact := Pinned(count + 1);
    var r := store.RecordDerivation(fact, [parent], count + 1);
    NextFactAccepted(perLevel, count, r);
    OneSource(parent);
    CitationStep(perLevel, count);
  }

  lemma FactIndex(perLevel: nat, wave: nat, i: nat)
    requires i < perLevel
    ensures Fact(perLevel, wave, i) == WaveEnd(perLevel, wave) + i + 1
    ensures Parent(perLevel, Fact(perLevel, wave, i)) == if wave == 0 then 0 else Fact(perLevel, wave - 1, i)
  {
    if wave > 0 {
      NextEnd(perLevel, wave - 1);
    }
  }

  /** Round-robin over the previous wave picks the fact at the same position. */
  lemma RoundRobin(perLevel: nat, wave: nat, prev: seq<Ref>, i: nat)
    requires i < perLevel && prev == if wave == 0 then [Pinned(0)] else Wave(perLevel, wave - 1)
    ensures prev[i % |prev|] == Pinned(Parent(perLevel, WaveEnd(perLevel, wave) + i + 1))
  {
    FactIndex(perLevel, wave, i);
    if wave > 0 {
      assert i % perLevel == i;
    }
  }

  /** The inner loop: one wave of facts, starting after `base` of them. */
  method BuildFacts(store: LineageStore, perLevel: nat, base: nat, prev: seq<Ref>) returns (facts: seq<Ref>)
    requires (perLevel > 0 ==> prev != []) && store.Valid() && store.Contents() == Citations(perLevel, base)
    requires forall i :: 0 <= i < perLevel ==> prev[i % |prev|] == Pinned(Parent(perLevel, base + i + 1))
    modifies store
    ensures store.Valid() && store.Contents() == Citations(perLevel, base + perLevel)
    ensures |facts| == perLevel && forall j :: 0 <= j < perLevel ==> facts[j] == Pinned(base + j + 1)
  {
    hide Citations;
    facts := [];
    var count: nat := base;
    while |facts| < perLevel
      invariant |facts| <= perLevel && count == base + |facts|
      invariant store.Valid() && store.Contents() == Citations(perLevel, count)
      invariant forall j :: 0 <= j < |facts| ==> facts[j] == Pinned(base + j + 1)
    {
      var fact := AddFact(store, perLevel, count, prev[|facts| % |prev|]);
      count := count + 1;
      facts := facts + [fact];
    }
  }

  method BuildWave(store: LineageStore, perLevel: nat, wave: nat, prev: seq<Ref>) returns (facts: seq<Ref>)
    requires store.Valid() && store.Contents() == Citations(perLevel, WaveEnd(perLevel, wave))
    requires prev == if wave == 0 then [Pinned(0)] else Wave(perLevel, wave - 1)
    modifies store
    ensures store.Valid() && store.Contents() == Citations(perLevel, WaveEnd(perLevel, wave + 1))
    ensures facts == Wave(perLevel, wave)
  {
    hide Citations;
    forall i | 0 <= i < perLevel
      ensures prev[i % |prev|] == Pinned(Parent(perLevel, WaveEnd(perLevel, wave) + i + 1))
    {
      RoundRobin(perLevel, wave, prev, i);
    }
    facts := BuildFacts(store, perLevel, WaveEnd(perLevel, wave), prev);
    NextEnd(perLevel, wave);
  }

  lemma NoCitations(perLevel: nat)
    ensures Citations(perLevel, 0) == Graph(map[], map[])
  {
  }

  /** The two nested loops of the workload. */
  method BuildGraph(store: LineageStore, levels: nat, perLevel: nat) returns (root: Ref, waves: seq<seq<Ref>>)
    requires store.Valid() && store.Contents() == Graph(map[], map[])
    modifies store
    ensures store.Valid() && store.Contents() == Citations(perLevel, WaveEnd(perLevel, levels))
    ensures root == Pinned(0) && |waves| == levels
    ensures forall k :: 0 <= k < levels ==> waves[k] == Wave(perLevel, k)
  {
    hide Citations;
    root, waves := Pinned(0), [];
    var prev := [root];
    NoCitations(perLevel);
    for wave := 0 to levels
      invariant store.Valid() && store.Contents() == Citations(perLevel, WaveEnd(perLevel, wave))
      invariant |waves| == wave && forall k :: 0 <= k < wave ==> waves[k] == Wave(perLevel, k)
      invariant prev == if wave == 0 then [root] else Wave(perLevel, wave - 1)
    {
      prev := BuildWave(store, perLevel, wave, prev);
      waves := waves + [prev];
    }
  }

  // ------------------------------------------------------------------------
  // Its shape

  function Down(levels: nat, perLevel: nat): Edges {
    EdgesOf(View(Citations(perLevel, WaveEnd(perLevel, levels)), Downstream, None))
  }

  function Up(levels: nat, perLevel: nat): Edges {
    EdgesOf(View(Citations(perLevel, WaveEnd(perLevel, levels)), Upstream, None))
  }

  function PinnedAll(list: seq<Version>): seq<Ref> {
    seq(|list|, i requires 0 <= i < |list| => Pinned(list[i]))
  }

  lemma {:induction false} DerivedAll(perLevel: nat, count: nat, list: seq<Version>)
    requires forall i :: 0 <= i < |list| ==> 1 <= list[i] <= count
    ensures Derived(Citations(perLevel, count), None, list) == PinnedAll(list)
  {
    if list != [] {
      var n := |list| - 1;
      DerivedAll(perLevel, count, list[..n]);
      assert list[n] in Citations(perLevel, count).upstream;
      assert PinnedAll(list) == PinnedAll(list[..n]) + [Pinned(list[n])];
    }
  }

  lemma DownstreamOf(perLevel: nat, count: nat, s: Version)
    ensures Neighbours(View(Citations(perLevel, count), Downstream, None), s) == PinnedAll(Children(perLevel, count, s))
  {
    DerivedAll(perLevel, count, Children(perLevel, count, s));
  }

  /** The last wave is the last; the one before it is followed by one fact each. */
  lemma DownFact(levels: nat, perLevel: nat, wave: nat, i: nat)
    requires wave < levels && i < perLevel
    ensures Down(levels, perLevel)(Fact(perLevel, wave, i)) ==
              if wave + 1 < levels then [Pinned(Fact(perLevel, wave + 1, i))] else []
  {
    var s, count := Fact(perLevel, wave, i), WaveEnd(perLevel, levels);
    DownstreamOf(perLevel, count, s);
    NextEnd(perLevel, wave);
    NextEnd(perLevel, wave + 1);
    if wave + 1 < levels {
      EndMonotone(perLevel, wave + 2, levels);
      assert PinnedAll([s + perLevel]) == [Pinned(s + perLevel)];
    } else {
      assert s + perLevel > count;
    }
  }

  lemma DownRoot(levels: nat, perLevel: nat)
    requires levels > 0
    ensures Down(levels, perLevel)(0) == Wave(perLevel, 0)
  {
    DownstreamOf(perLevel, WaveEnd(perLevel, levels), 0);
    EndMonotone(perLevel, 1, levels);
    assert PinnedAll(Run(1, perLevel)) == Wave(perLevel, 0);
  }

  /** References that are new and pairwise different are all kept. */
  lemma {:induction false} FreshAll(refs: seq<Ref>, visited: set<Version>)
    requires forall i :: 0 <= i < |refs| ==> refs[i].version !in visited
    requires forall i, j :: 0 <= i < j < |refs| ==> refs[i].version != refs[j].version
    ensures Fresh(refs, visited) == refs
  {
    if refs != [] {
      var n := |refs| - 1;
      FreshAll(refs[..n], visited);
      assert refs[n].version !in Versions(refs[..n]);
      assert refs == refs[..n] + [refs[n]];
    }
  }

  /** A fact leads to its counterpart in the next wave, if there is one. */
  predicate CitesNext(next: Edges, levels: nat, perLevel: nat, wave: nat, i: nat) {
    next(Fact(perLevel, wave, i)) == if wave + 1 < levels then [Pinned(Fact(perLevel, wave + 1, i))] else []
  }

  /** The edges of a citation graph: the root leads to wave 0, every fact to its counterpart in the next wave. */
  ghost predicate IsCitation(next: Edges, levels: nat, perLevel: nat) {
    && next(0) == (if levels > 0 then Wave(perLevel, 0) else [])
    && forall wave: nat, i: nat :: wave < levels && i < perLevel ==> CitesNext(next, levels, perLevel, wave, i)
  }

  lemma DownIsCitation(levels: nat, perLevel: nat)
    ensures IsCitation(Down(levels, perLevel), levels, perLevel)
  {
    var next := Down(levels, perLevel);
    if levels > 0 {
      DownRoot(levels, perLevel);
    } else {
      DownstreamOf(perLevel, 0, 0);
    }
    forall wave: nat, i: nat | wave < levels && i < perLevel
      ensures CitesNext(next, levels, perLevel, wave, i)
    {
      DownFact(levels, perLevel, wave, i);
    }
  }

  lemma ExpandOne(next: Edges, r: Ref)
    ensures Expand(next, [r]) == next(r.version)
  {
    assert [r][..0] == [];
    assert Expand(next, []) == [];
  }

  lemma {:induction false} ExpandWave(next: Edges, levels: nat, perLevel: nat, wave: nat, n: nat)
    requires IsCitation(next, levels, perLevel) && wave < levels && n <= perLevel
    ensures Expand(next, Wave(perLevel, wave)[..n]) == if wave + 1 < levels then Wave(perLevel, wave + 1)[..n] else []
  {
    if n > 0 {
      ExpandWave(next, levels, perLevel, wave, n - 1);
      assert CitesNext(next, levels, perLevel, wave, n - 1);
      hide IsCitation, WaveEnd;
      var w := Wave(perLevel, wave);
      assert w[..n][..n - 1] == w[..n - 1] && w[..n][n - 1] == Pinned(Fact(perLevel, wave, n - 1));
    }
  }

  predicate AllAtMost(versions: set<Version>, bound: int) {
    forall v :: v in versions ==> v <= bound
  }

  lemma WaveRange(perLevel: nat, wave: nat)
    ensures forall i :: 0 <= i < perLevel ==>
              WaveEnd(perLevel, wave) < Wave(perLevel, wave)[i].version <= WaveEnd(perLevel, wave + 1)
  {
    NextEnd(perLevel, wave);
  }

  lemma VersionsBound(refs: seq<Ref>, bound: int)
    requires forall i :: 0 <= i < |refs| ==> refs[i].version <= bound
    ensures AllAtMost(Versions(refs), bound)
  {
  }

  /** Wave `d`, if the graph has it. */
  function WaveAt(levels: nat, perLevel: nat, d: nat): seq<Ref> {
    if d < levels then Wave(perLevel, d) else []
  }

  lemma ExpandWaveAt(next: Edges, levels: nat, perLevel: nat, d: nat)
    requires IsCitation(next, levels, perLevel)
    ensures Expand(next, WaveAt(levels, perLevel, d)) == WaveAt(levels, perLevel, d + 1)
  {
    if d < levels {
      ExpandWave(next, levels, perLevel, d, perLevel);
      assert Wave(perLevel, d)[..perLevel] == Wave(perLevel, d);
      assert Wave(perLevel, d + 1)[..perLevel] == Wave(perLevel, d + 1);
    }
  }

  lemma FreshWaveAt(levels: nat, perLevel: nat, d: nat, visited: set<Version>)
    requires AllAtMost(visited, WaveEnd(perLevel, d))
    ensures Fresh(WaveAt(levels, perLevel, d), visited) == WaveAt(levels, perLevel, d)
  {
    NextEnd(perLevel, d);
    WaveRange(perLevel, d);
    FreshAll(WaveAt(levels, perLevel, d), visited);
  }

  lemma WaveVisited(levels: nat, perLevel: nat, d: nat, visited: set<Version>)
    requires AllAtMost(visited, WaveEnd(perLevel, d))
    ensures AllAtMost(visited + Versions(WaveAt(levels, perLevel, d)), WaveEnd(perLevel, d + 1))
  {
    NextEnd(perLevel, d);
    WaveRange(perLevel, d);
    VersionsBound(WaveAt(levels, perLevel, d), WaveEnd(perLevel, d + 1));
  }

  lemma NextFrontier(next: Edges, root: Ref, d: nat, level: seq<Ref>, visited: set<Version>)
    requires Frontier(next, root, d) == level && Visited(next, root, d) == visited
    ensures Frontier(next, root, d + 1) == Fresh(Expand(next, level), visited)
  {
  }

  lemma NextVisited(next: Edges, root: Ref, d: nat, level: seq<Ref>, visited: set<Version>)
    requires Frontier(next, root, d + 1) == level && Visited(next, root, d) == visited
    ensures Visited(next, root, d + 1) == visited + Versions(level)
  {
  }

  lemma RootStart(next: Edges, levels: nat, perLevel: nat)
    requires IsCitation(next, levels, perLevel)
    ensures Expand(next, [Pinned(0)]) == WaveAt(levels, perLevel, 0)
    ensures AllAtMost({Pinned(0).version}, WaveEnd(perLevel, 0))
  {
    ExpandOne(next, Pinned(0));
  }

  lemma RootStep(next: Edges, levels: nat, perLevel: nat, d: nat, visited: set<Version>)
    requires IsCitation(next, levels, perLevel) && AllAtMost(visited, WaveEnd(perLevel, d))
    ensures var now := visited + Versions(WaveAt(levels, perLevel, d));
            && AllAtMost(now, WaveEnd(perLevel, d + 1))
            && Fresh(Expand(next, WaveAt(levels, perLevel, d)), now) == WaveAt(levels, perLevel, d + 1)
  {
    WaveVisited(levels, perLevel, d, visited);
    ExpandWaveAt(next, levels, perLevel, d);
    FreshWaveAt(levels, perLevel, d + 1, visited + Versions(WaveAt(levels, perLevel, d)));
  }

  /** From the root, level `d + 1` of the search is exactly wave `d`. */
  lemma {:induction false} RootLevels(next: Edges, levels: nat, perLevel: nat, d: nat)
    requires IsCitation(next, levels, perLevel)
    ensures Frontier(next, Pinned(0), d + 1) == WaveAt(levels, perLevel, d)
    ensures AllAtMost(Visited(next, Pinned(0), d), WaveEnd(perLevel, d))
  {
    var root := Pinned(0);
    if d == 0 {
      RootStart(next, levels, perLevel);
      FreshWaveAt(levels, perLevel, 0, {root.version});
      NextFrontier(next, root, 0, [root], {root.version});
    } else {
      RootLevels(next, levels, perLevel, d - 1);
      var visited, level := Visited(next, root, d - 1), WaveAt(levels, perLevel, d - 1);
      RootStep(next, levels, perLevel, d - 1, visited);
      NextVisited(next, root, d - 1, level, visited);
      NextFrontier(next, root, d, level, visited + Versions(level));
    }
  }

  /** Within `d` hops of the root lie the first `d` waves, and with `d = levels` the whole graph. */
  lemma {:induction false} RootClosure(next: Edges, levels: nat, perLevel: nat, d: nat)
    requires IsCitation(next, levels, perLevel)
    ensures |Within(next, Pinned(0), d)| == WaveEnd(perLevel, if d <= levels then d else levels)
  {
    if d > 0 {
      RootClosure(next, levels, perLevel, d - 1);
      RootSize(next, levels, perLevel, d);
      NextEnd(perLevel, d - 1);
    }
  }

  lemma RootSize(next: Edges, levels: nat, perLevel: nat, d: nat)
    requires IsCitation(next, levels, perLevel) && d > 0
    ensures |Within(next, Pinned(0), d)| == |Within(next, Pinned(0), d - 1)| + (if d <= levels then perLevel else 0)
  {
    hide Frontier, Within, IsCitation;
    RootLevels(next, levels, perLevel, d - 1);
    LevelSize(next, Pinned(0), d, WaveAt(levels, perLevel, d - 1));
  }

  lemma LevelSize(next: Edges, root: Ref, d: nat, level: seq<Ref>)
    requires d > 0 && Frontier(next, root, d) == level
    ensures |Within(next, root, d)| == |Within(next, root, d - 1)| + |level|
  {
  }

  /** A fact of wave `k` is exactly `k + 1` derivations away from the root. */
  lemma FactDistance(next: Edges, levels: nat, perLevel: nat, wave: nat, i: nat)
    requires IsCitation(next, levels, perLevel) && wave < levels && i < perLevel
    ensures Distance(next, 0, Fact(perLevel, wave, i), wave + 1)
  {
    RootLevels(next, levels, perLevel, wave);
    LevelIsDistance(next, Pinned(0), wave + 1, Fact(perLevel, wave, i));
    assert Wave(perLevel, wave)[i].version == Fact(perLevel, wave, i);
  }

  function Chain(levels: nat, perLevel: nat, wave: nat, i: nat): seq<Ref> {
    if wave < levels then [Pinned(Fact(perLevel, wave, i))] else []
  }

  lemma NextFact(perLevel: nat, wave: nat, i: nat)
    ensures Fact(perLevel, wave + 1, i) == Fact(perLevel, wave, i) + perLevel
  {
    NextEnd(perLevel, wave);
  }

  lemma FreshOne(r: Ref, visited: set<Version>)
    requires r.version !in visited
    ensures Fresh([r], visited) == [r]
  {
    FreshAll([r], visited);
  }

  lemma ChainStep(next: Edges, levels: nat, perLevel: nat, wave: nat, i: nat, visited: set<Version>)
    requires IsCitation(next, levels, perLevel) && i < perLevel && AllAtMost(visited, Fact(perLevel, wave, i))
    ensures Fresh(Expand(next, Chain(levels, perLevel, wave, i)), visited) == Chain(levels, perLevel, wave + 1, i)
    ensures AllAtMost(visited + Versions(Chain(levels, perLevel, wave + 1, i)), Fact(perLevel, wave + 1, i))
  {
    NextFact(perLevel, wave, i);
    VersionsBound(Chain(levels, perLevel, wave + 1, i), Fact(perLevel, wave + 1, i));
    if wave < levels {
      assert CitesNext(next, levels, perLevel, wave, i);
      ExpandOne(next, Pinned(Fact(perLevel, wave, i)));
      if wave + 1 < levels {
        FreshOne(Pinned(Fact(perLevel, wave + 1, i)), visited);
      }
    }
  }

  lemma ChainNext(next: Edges, levels: nat, perLevel: nat, wave: nat, i: nat, root: Ref, d: nat, visited: set<Version>)
    requires IsCitation(next, levels, perLevel) && i < perLevel
    requires Frontier(next, root, d) == Chain(levels, perLevel, wave, i) && Visited(next, root, d) == visited
    requires AllAtMost(visited, Fact(perLevel, wave, i))
    ensures Frontier(next, root, d + 1) == Chain(levels, perLevel, wave + 1, i)
    ensures AllAtMost(Visited(next, root, d + 1), Fact(perLevel, wave + 1, i))
  {
    ChainStep(next, levels, perLevel, wave, i, visited);
    NextFrontier(next, root, d, Chain(levels, perLevel, wave, i), visited);
    NextVisited(next, root, d, Chain(levels, perLevel, wave + 1, i), visited);
  }

  lemma ChainStart(next: Edges, levels: nat, perLevel: nat, wave: nat, i: nat)
    requires wave < levels
    ensures var v := Fact(perLevel, wave, i);
            && Frontier(next, Pinned(v), 0) == Chain(levels, perLevel, wave, i)
            && AllAtMost(Visited(next, Pinned(v), 0), v)
  {
  }

  /** From a fact, the search follows a single chain to the last wave. */
  lemma {:induction false} ChainLevels(next: Edges, levels: nat, perLevel: nat, wave: nat, i: nat, d: nat)
    requires IsCitation(next, levels, perLevel) && wave < levels && i < perLevel
    ensures Frontier(next, Pinned(Fact(perLevel, wave, i)), d) == Chain(levels, perLevel, wave + d, i)
    ensures AllAtMost(Visited(next, Pinned(Fact(perLevel, wave, i)), d), Fact(perLevel, wave + d, i))
  {
    hide *;
    if d == 0 {
      ChainStart(next, levels, perLevel, wave, i);
    } else {
      var root := Pinned(Fact(perLevel, wave, i));
      ChainLevels(next, levels, perLevel, wave, i, d - 1);
      ChainNext(next, levels, perLevel, wave + d - 1, i, root, d - 1, Visited(next, root, d - 1));
    }
  }

  /** The closure of a wave-`m` fact is a single chain as long as depth and remaining waves allow. */
  lemma {:induction false} ChainClosure(next: Edges, levels: nat, perLevel: nat, wave: nat, i: nat, d: nat)
    requires IsCitation(next, levels, perLevel) && wave < levels && i < perLevel
    ensures |Within(next, Pinned(Fact(perLevel, wave, i)), d)| ==
              if d <= levels - 1 - wave then d else levels - 1 - wave
  {
    if d > 0 {
      ChainClosure(next, levels, perLevel, wave, i, d - 1);
      ChainLevels(next, levels, perLevel, wave, i, d);
    }
  }

  lemma UpFact(levels: nat, perLevel: nat, wave: nat, i: nat)
    requires wave < levels && i < perLevel
    ensures var v := Fact(perLevel, wave, i);
            Up(levels, perLevel)(v) == [Pinned(Parent(perLevel, v))] && Parent(perLevel, v) < v
  {
    NextEnd(perLevel, wave);
    EndMonotone(perLevel, wave + 1, levels);
    assert Fact(perLevel, wave, i) in Citations(perLevel, WaveEnd(perLevel, levels)).upstream;
  }

  lemma OneHop(next: Edges, root: Ref, r: Ref)
    requires next(root.version) == [r] && r.version != root.version
    ensures |Within(next, root, 1)| == 1
  {
    ExpandOne(next, root);
    FreshOne(r, {root.version});
    NextFrontier(next, root, 0, [root], {root.version});
    LevelSize(next, root, 1, [r]);
  }

  /** One hop upstream of any fact there is exactly one version. */
  lemma OneParent(levels: nat, perLevel: nat, wave: nat, i: nat)
    requires wave < levels && i < perLevel
    ensures |Within(Up(levels, perLevel), Pinned(Fact(perLevel, wave, i)), 1)| == 1
  {
    var v := Fact(perLevel, wave, i);
    UpFact(levels, perLevel, wave, i);
    OneHop(Up(levels, perLevel), Pinned(v), Pinned(Parent(perLevel, v)));
  }

  // ------------------------------------------------------------------------
  // The timed queries

  const TWO_64: nat := 0x1_0000_0000_0000_0000

  function WrappingAdd(a: nat, b: nat): nat {
    (a + b) % TWO_64
  }

  lemma WrappingSum(a: int, b: int)
    ensures (a % TWO_64 + b) % TWO_64 == (a + b) % TWO_64
  {
  }

  lemma WrappingPhases(a: int, b: int, c: int, first: int, second: int)
    requires first == a % TWO_64 && second == (first + b) % TWO_64
    ensures (second + c) % TWO_64 == (a + b + c) % TWO_64
  {
    WrappingSum(a, b);
    WrappingSum(a + b, c);
  }

  /** Repeated downstream queries whose closure has `size` entries, below the limit. */
  method DownstreamQueries(store: LineageStore, root: Ref, queries: nat, depth: nat, limit: nat, ghost size: nat,
                           start: nat)
    returns (sink: nat)
    requires |Within(EdgesOf(View(store.Contents(), Downstream, None)), root, depth)| == size <= limit
    requires start < TWO_64
    ensures sink == (start + queries * size) % TWO_64
  {
    hide Within;
    sink := start;
    for q := 0 to queries
      invariant sink == (start + q * size) % TWO_64
    {
      var view := store.DownstreamClosure(root, depth, limit, None);
      assert (q + 1) * size == q * size + size;
      WrappingSum(start + q * size, size);
      sink := WrappingAdd(sink, |view.entries|);
    }
  }

  /** Every leaf has exactly one version one hop upstream. */
  ghost predicate OneParentEach(next: Edges, leaves: seq<Ref>) {
    forall n :: 0 <= n < |leaves| ==> |Within(next, leaves[n], 1)| == 1
  }

  lemma LeavesHaveOneParent(levels: nat, perLevel: nat)
    requires levels > 0
    ensures OneParentEach(Up(levels, perLevel), Wave(perLevel, levels - 1))
  {
    var next, leaves := Up(levels, perLevel), Wave(perLevel, levels - 1);
    forall n | 0 <= n < |leaves| ensures |Within(next, leaves[n], 1)| == 1 {
      OneParent(levels, perLevel, levels - 1, n);
    }
  }

  /** Single-hop upstream queries, round-robin over the last wave. */
  method LeafQueries(store: LineageStore, leaves: seq<Ref>, queries: nat, start: nat) returns (sink: nat)
    requires leaves != [] && start < TWO_64 && OneParentEach(EdgesOf(View(store.Contents(), Upstream, None)), leaves)
    ensures sink == (start + queries) % TWO_64
  {
    hide Within;
    sink := start;
    for i := 0 to queries
      invariant sink == (start + i) % TWO_64
    {
      var leaf := leaves[i % |leaves|];
      var view := store.UpstreamClosure(leaf, 1, 64, None);
      WrappingSum(start + i, 1);
      sink := WrappingAdd(sink, |view.entries|);
    }
  }

  lemma AtLeastLevels(levels: nat, perLevel: nat)
    requires perLevel > 0
    ensures levels <= WaveEnd(perLevel, levels)
  {
  }

  /** The two closure sizes the workload relies on. */
  lemma ClosureSizes(levels: nat, perLevel: nat)
    requires levels > 0 && perLevel > 0
    ensures |Within(Down(levels, perLevel), Pinned(0), levels)| == WaveEnd(perLevel, levels)
    ensures |Within(Down(levels, perLevel), Pinned(Fact(perLevel, levels / 2, 0)), levels)| ==
              levels - 1 - levels / 2 <= WaveEnd(perLevel, levels)
  {
    DownIsCitation(levels, perLevel);
    RootClosure(Down(levels, perLevel), levels, perLevel, levels);
    ChainClosure(Down(levels, perLevel), levels, perLevel, levels / 2, 0, levels);
    AtLeastLevels(levels, perLevel);
  }

  /** The sum over all queries, at 64 bits. */
  function Printed(downstreamQueries: nat, total: nat, chain: nat, upstreamQueries: nat): nat {
    (downstreamQueries * total + downstreamQueries * chain + upstreamQueries) % TWO_64
  }

  /** What the three kinds of query find in a graph. */
  ghost predicate Sized(g: Graph, depth: nat, root: Ref, total: nat, mid: Ref, chain: nat, leaves: seq<Ref>) {
    && |Within(EdgesOf(View(g, Downstream, None)), root, depth)| == total
    && |Within(EdgesOf(View(g, Downstream, None)), mid, depth)| == chain
    && leaves != [] && OneParentEach(EdgesOf(View(g, Upstream, None)), leaves)
  }

  lemma CitationsSized(levels: nat, perLevel: nat)
    requires levels > 0 && perLevel > 0
    ensures Sized(Citations(perLevel, WaveEnd(perLevel, levels)), levels, Pinned(0), WaveEnd(perLevel, levels),
                  Wave(perLevel, levels / 2)[0], levels - 1 - levels / 2, Wave(perLevel, levels - 1))
    ensures levels - 1 - levels / 2 <= WaveEnd(perLevel, levels)
  {
    ClosureSizes(levels, perLevel);
    LeavesHaveOneParent(levels, perLevel);
  }

  /** The three query phases, one after the other. */
  method TimedQueries(store: LineageStore, levels: nat, root: Ref, mid: Ref, leaves: seq<Ref>, limit: nat,
                      downstreamQueries: nat, upstreamQueries: nat, ghost total: nat,
                      ghost chain: nat) returns (sink: nat)
    requires Sized(store.Contents(), levels, root, total, mid, chain, leaves) && total <= limit && chain <= limit
    ensures sink == Printed(downstreamQueries, total, chain, upstreamQueries)
  {
    hide Within, OneParentEach;
    var first := DownstreamQueries(store, root, downstreamQueries, levels, limit, total, 0);
    var second := DownstreamQueries(store, mid, downstreamQueries, levels, limit, chain, first);
    sink := LeafQueries(store, leaves, upstreamQueries, second);
    WrappingPhases(downstreamQueries * total, downstreamQueries * chain, upstreamQueries, first, second);
  }

  /**
   What the workload prints: every root query counts the whole graph, every
   mid-graph query one chain, every leaf query one parent.
   */
  method RunWorkload(levels: nat, perLevel: nat, downstreamQueries: nat, upstreamQueries: nat) returns (sink: nat)
    requires levels > 0 && perLevel > 0
    ensures sink == Printed(downstreamQueries, levels * perLevel, levels - 1 - levels / 2, upstreamQueries)
  {
    hide Citations, Within, Sized;
    var store := new LineageStore();
    var root, waves := BuildGraph(store, levels, perLevel);
    CitationsSized(levels, perLevel);
    var total := WaveEnd(perLevel, levels);
    sink := TimedQueries(store, levels, root, waves[levels / 2][0], waves[levels - 1], total + 10,
                         downstreamQueries, upstreamQueries, total, levels - 1 - levels / 2);
  }
}
