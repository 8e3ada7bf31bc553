/**
 The derivation-lineage store: write-once records of which fact versions a
 version was computed from, a cycle guard on every record, and breadth-first
 closure queries bounded by depth, by entry count and by transaction time.
 */
module Lineage {
  import opened Common

  type Version = nat

  /** A version-pinned reference to a fact. */
  datatype Ref = Ref(entity: int, version: Version)

  datatype Record = Record(derived: Ref, sources: seq<Ref>, recordedAt: int)

  datatype Graph = Graph(upstream: map<Version, Record>, downstream: map<Version, seq<Version>>)

  datatype Direction = Upstream | Downstream

  /** A graph looked at in one direction, as of some transaction time. */
  datatype View = View(graph: Graph, direction: Direction, asOf: Option<int>)

  datatype Entry = Entry(reference: Ref, depth: nat)

  datatype Closure = Closure(root: Ref, entries: seq<Entry>, hasMore: bool)

  // ------------------------------------------------------------------------
  // Neighbours

  predicate Hidden(asOf: Option<int>, record: Record) {
    asOf.Some? && record.recordedAt > asOf.value
  }

  function SourcesOf(g: Graph, v: Version): seq<Ref> {
    if v in g.upstream then g.upstream[v].sources else []
  }

  /** The derived versions of a downstream list that are recorded and not hidden. */
  function Derived(g: Graph, asOf: Option<int>, list: seq<Version>): seq<Ref> {
    if list == [] then []
    else
      var v := list[|list| - 1];
      Derived(g, asOf, list[..|list| - 1]) +
      if v in g.upstream && !Hidden(asOf, g.upstream[v]) then [g.upstream[v].derived] else []
  }

  function Neighbours(view: View, v: Version): seq<Ref> {
    var g := view.graph;
    match view.direction
    case Upstream => if v in g.upstream && Hidden(view.asOf, g.upstream[v]) then [] else SourcesOf(g, v)
    case Downstream => if v in g.downstream then Derived(g, view.asOf, g.downstream[v]) else []
  }

  // ------------------------------------------------------------------------
  // Breadth-first search, as a function

  function Versions(refs: seq<Ref>): set<Version> {
    set i | 0 <= i < |refs| :: refs[i].version
  }

  /** The references not seen before, each version once, in order of discovery. */
  function Fresh(refs: seq<Ref>, visited: set<Version>): seq<Ref> {
    if refs == [] then []
    else
      var found := Fresh(refs[..|refs| - 1], visited);
      var r := refs[|refs| - 1];
      if r.version in visited || r.version in Versions(found) then found else found + [r]
  }

  /** How a query sees the graph: the references one hop away from a version. */
  type Edges = Version -> seq<Ref>

  function EdgesOf(view: View): Edges {
    (v: Version) => Neighbours(view, v)
  }

  /** The neighbours of a whole frontier, one after the other. */
  function Expand(next: Edges, frontier: seq<Ref>): seq<Ref> {
    if frontier == [] then []
    else Expand(next, frontier[..|frontier| - 1]) + next(frontier[|frontier| - 1].version)
  }

  function At(refs: seq<Ref>, depth: nat): seq<Entry> {
    seq(|refs|, i requires 0 <= i < |refs| => Entry(refs[i], depth))
  }

  /** The references first found at level `d`. */
  function Frontier(next: Edges, root: Ref, d: nat): seq<Ref>
    decreases d, 0
  {
    if d == 0 then [root] else Fresh(Expand(next, Frontier(next, root, d - 1)), Visited(next, root, d - 1))
  }

  /** The versions seen in the first `d` levels. */
  function Visited(next: Edges, root: Ref, d: nat): set<Version>
    decreases d, 1
  {
    if d == 0 then {root.version} else Visited(next, root, d - 1) + Versions(Frontier(next, root, d))
  }

  /** Everything found within `d` hops, nearest first. */
  function Within(next: Edges, root: Ref, d: nat): seq<Entry>
    decreases d
  {
    if d == 0 then [] else Within(next, root, d - 1) + At(Frontier(next, root, d), d)
  }

  // ------------------------------------------------------------------------
  // Reference semantics: walks

  predicate Adjacent(next: Edges, u: Version, v: Version) {
    v in Versions(next(u))
  }

  /** Some walk of exactly `d` hops leads from `root` to `v`. */
  ghost predicate Reaches(next: Edges, root: Version, v: Version, d: nat)
    decreases d
  {
    if d == 0 then v == root else exists u :: Reaches(next, root, u, d - 1) && Adjacent(next, u, v)
  }

  ghost predicate ReachesWithin(next: Edges, root: Version, v: Version, d: nat) {
    exists k :: 0 <= k <= d && Reaches(next, root, v, k)
  }

  /** `d` is the least number of hops. */
  ghost predicate Distance(next: Edges, root: Version, v: Version, d: nat) {
    Reaches(next, root, v, d) && forall k :: 0 <= k < d ==> !Reaches(next, root, v, k)
  }

  lemma VersionsOfParts(a: seq<Ref>, b: seq<Ref>)
    ensures Versions(a + b) == Versions(a) + Versions(b)
  {
    var c := a + b;
    forall v | v in Versions(a)
      ensures v in Versions(c)
    {
      var i :| 0 <= i < |a| && a[i].version == v;
      assert c[i].version == v;
    }
    forall v | v in Versions(b)
      ensures v in Versions(c)
    {
      var i :| 0 <= i < |b| && b[i].version == v;
      assert c[|a| + i].version == v;
    }
  }

  lemma VersionsSnoc(a: seq<Ref>)
    requires a != []
    ensures Versions(a) == Versions(a[..|a| - 1]) + {a[|a| - 1].version}
  {
    var n := |a| - 1;
    VersionsOfParts(a[..n], [a[n]]);
    assert a == a[..n] + [a[n]];
    assert Versions([a[n]]) == {a[n].version} by {
      assert [a[n]][0] == a[n];
    }
  }

  lemma {:induction false} FreshVersions(refs: seq<Ref>, visited: set<Version>)
    ensures Versions(Fresh(refs, visited)) == Versions(refs) - visited
    ensures forall i, j :: 0 <= i < j < |Fresh(refs, visited)| ==>
              Fresh(refs, visited)[i].version != Fresh(refs, visited)[j].version
  {
    if refs != [] {
      var n := |refs| - 1;
      var found := Fresh(refs[..n], visited);
      FreshVersions(refs[..n], visited);
      VersionsSnoc(refs);
      if Fresh(refs, visited) != found {
        VersionsSnoc(found + [refs[n]]);
        assert (found + [refs[n]])[..|found|] == found;
        forall i | 0 <= i < |found|
          ensures found[i].version in Versions(found)
        {
        }
      }
    }
  }

  lemma {:induction false} ExpandVersions(next: Edges, frontier: seq<Ref>, v: Version)
    ensures v in Versions(Expand(next, frontier)) <==> exists u :: u in Versions(frontier) && Adjacent(next, u, v)
  {
    if frontier != [] {
      var n := |frontier| - 1;
      var init, last := frontier[..n], frontier[n].version;
      ExpandVersions(next, init, v);
      VersionsOfParts(Expand(next, init), next(last));
      VersionsSnoc(frontier);
      if v in Versions(Expand(next, frontier)) {
        if v in Versions(Expand(next, init)) {
          var u :| u in Versions(init) && Adjacent(next, u, v);
          assert u in Versions(frontier);
        } else {
          assert last in Versions(frontier) && Adjacent(next, last, v);
        }
      }
    }
  }

  lemma DistanceIsFirst(next: Edges, root: Version, v: Version, d: nat)
    requires d > 0
    ensures Distance(next, root, v, d) <==> Reaches(next, root, v, d) && !ReachesWithin(next, root, v, d - 1)
    ensures ReachesWithin(next, root, v, d) <==> ReachesWithin(next, root, v, d - 1) || Reaches(next, root, v, d)
  {
  }

  /** Some version of the previous level leads to `v`. */
  ghost predicate FromPrevious(next: Edges, root: Ref, d: nat, v: Version)
    requires d > 0
  {
    exists u :: u in Versions(Frontier(next, root, d - 1)) && Adjacent(next, u, v)
  }

  lemma LevelMembers(next: Edges, root: Ref, d: nat, v: Version)
    requires d > 0
    ensures v in Versions(Frontier(next, root, d)) <==>
              FromPrevious(next, root, d, v) && v !in Visited(next, root, d - 1)
    ensures v in Visited(next, root, d) <==> v in Visited(next, root, d - 1) || v in Versions(Frontier(next, root, d))
  {
    FreshVersions(Expand(next, Frontier(next, root, d - 1)), Visited(next, root, d - 1));
    ExpandVersions(next, Frontier(next, root, d - 1), v);
  }

  /** After `d` levels exactly the versions within `d` hops are visited, and the frontier is at distance `d`. */
  lemma {:induction false} LevelIsDistance(next: Edges, root: Ref, d: nat, v: Version)
    ensures v in Visited(next, root, d) <==> ReachesWithin(next, root.version, v, d)
    ensures v in Versions(Frontier(next, root, d)) <==> Distance(next, root.version, v, d)
    decreases d, 1
  {
    if d == 0 {
      VersionsSnoc([root]);
      assert Reaches(next, root.version, v, 0) <==> v == root.version;
    } else {
      LevelMembers(next, root, d, v);
      LevelIsDistance(next, root, d - 1, v);
      if FromPrevious(next, root, d, v) {
        FromFrontier(next, root, d, v);
      }
      if Distance(next, root.version, v, d) {
        ToFrontier(next, root, d, v);
      }
      DistanceIsFirst(next, root.version, v, d);
    }
  }

  lemma {:induction false} FromFrontier(next: Edges, root: Ref, d: nat, v: Version)
    requires d > 0 && FromPrevious(next, root, d, v)
    ensures Reaches(next, root.version, v, d)
    decreases d, 0
  {
    var u :| u in Versions(Frontier(next, root, d - 1)) && Adjacent(next, u, v);
    LevelIsDistance(next, root, d - 1, u);
  }

  /** A shortest walk of `d` hops passes through the frontier of level `d - 1`. */
  lemma {:induction false} ToFrontier(next: Edges, root: Ref, d: nat, v: Version)
    requires d > 0 && Distance(next, root.version, v, d)
    ensures FromPrevious(next, root, d, v)
    decreases d, 0
  {
    var u :| Reaches(next, root.version, u, d - 1) && Adjacent(next, u, v);
    forall k | 0 <= k < d - 1
      ensures !Reaches(next, root.version, u, k)
    {
      if Reaches(next, root.version, u, k) {
        assert Reaches(next, root.version, v, k + 1);
      }
    }
    LevelIsDistance(next, root, d - 1, u);
  }

  // ------------------------------------------------------------------------
  // What a closure contains

  ghost predicate Listed(entries: seq<Entry>, v: Version, depth: nat) {
    exists i :: 0 <= i < |entries| && entries[i].reference.version == v && entries[i].depth == depth
  }

  lemma ListedAt(refs: seq<Ref>, depth: nat, v: Version, k: nat)
    ensures Listed(At(refs, depth), v, k) <==> k == depth && v in Versions(refs)
  {
    if v in Versions(refs) {
      var i :| 0 <= i < |refs| && refs[i].version == v;
      assert At(refs, depth)[i].reference.version == v;
    }
  }

  lemma ListedParts(a: seq<Entry>, b: seq<Entry>, v: Version, k: nat)
    ensures Listed(a + b, v, k) <==> Listed(a, v, k) || Listed(b, v, k)
  {
    var c := a + b;
    if Listed(a, v, k) {
      var i :| 0 <= i < |a| && a[i].reference.version == v && a[i].depth == k;
      assert c[i] == a[i];
    }
    if Listed(b, v, k) {
      var i :| 0 <= i < |b| && b[i].reference.version == v && b[i].depth == k;
      assert c[|a| + i] == b[i];
    }
    if Listed(c, v, k) {
      var i :| 0 <= i < |c| && c[i].reference.version == v && c[i].depth == k;
      assert if i < |a| then a[i] == c[i] else b[i - |a|] == c[i];
    }
  }

  /** A version is listed at depth `k` exactly when `k` is its distance from the root, at most `d` and not zero. */
  lemma {:induction false} WithinIsClosure(next: Edges, root: Ref, d: nat, v: Version, k: nat)
    ensures Listed(Within(next, root, d), v, k) <==> 1 <= k <= d && Distance(next, root.version, v, k)
    decreases d
  {
    if d > 0 {
      assert Within(next, root, d) == Within(next, root, d - 1) + At(Frontier(next, root, d), d);
      hide Within, Frontier, Visited, Distance, Listed;
      WithinIsClosure(next, root, d - 1, v, k);
      LevelIsDistance(next, root, d, v);
      ListedAt(Frontier(next, root, d), d, v, k);
      ListedParts(Within(next, root, d - 1), At(Frontier(next, root, d), d), v, k);
    }
  }

  ghost predicate NoneTwice(es: seq<Entry>) {
    forall i, j :: 0 <= i < j < |es| ==> es[i].reference.version != es[j].reference.version
  }

  ghost predicate Apart(es: seq<Entry>, refs: seq<Ref>) {
    forall i, j :: 0 <= i < |es| && 0 <= j < |refs| ==> es[i].reference.version != refs[j].version
  }

  lemma JoinNoneTwice(es: seq<Entry>, refs: seq<Ref>, d: nat)
    requires NoneTwice(es) && Apart(es, refs)
    requires forall i, j :: 0 <= i < j < |refs| ==> refs[i].version != refs[j].version
    ensures NoneTwice(es + At(refs, d))
  {
    var all := es + At(refs, d);
    forall i, j | 0 <= i < j < |all| ensures all[i].reference.version != all[j].reference.version {
      assert if i < |es| then all[i] == es[i] else all[i].reference == refs[i - |es|];
      assert if j < |es| then all[j] == es[j] else all[j].reference == refs[j - |es|];
    }
  }

  /** What a level finds was not listed before. */
  lemma LevelApart(next: Edges, root: Ref, d: nat, es: seq<Entry>, refs: seq<Ref>)
    requires d > 0 && es == Within(next, root, d - 1) && refs == Frontier(next, root, d)
    ensures Apart(es, refs)
  {
    forall i, j | 0 <= i < |es| && 0 <= j < |refs| ensures es[i].reference.version != refs[j].version {
      var v, k := es[i].reference.version, es[i].depth;
      assert Listed(es, v, k);
      WithinIsClosure(next, root, d - 1, v, k);
      if v == refs[j].version {
        LevelIsDistance(next, root, d, v);
      }
    }
  }

  lemma LevelDistinct(next: Edges, root: Ref, d: nat, refs: seq<Ref>)
    requires d > 0 && refs == Frontier(next, root, d)
    ensures forall i, j :: 0 <= i < j < |refs| ==> refs[i].version != refs[j].version
  {
    FreshVersions(Expand(next, Frontier(next, root, d - 1)), Visited(next, root, d - 1));
  }

  lemma NoneTwiceStep(next: Edges, root: Ref, d: nat)
    requires d > 0 && NoneTwice(Within(next, root, d - 1))
    ensures NoneTwice(Within(next, root, d))
  {
    var es, refs := Within(next, root, d - 1), Frontier(next, root, d);
    assert Within(next, root, d) == es + At(refs, d);
    hide Within, Frontier, Visited, At, Apart, NoneTwice;
    LevelApart(next, root, d, es, refs);
    LevelDistinct(next, root, d, refs);
    JoinNoneTwice(es, refs, d);
  }

  /** Nothing is listed twice. */
  lemma {:induction false} WithinDistinct(next: Edges, root: Ref, d: nat)
    ensures NoneTwice(Within(next, root, d))
    decreases d
  {
    if d > 0 {
      hide Within, NoneTwice;
      WithinDistinct(next, root, d - 1);
      NoneTwiceStep(next, root, d);
    }
  }

  lemma {:induction false} WithinGrows(next: Edges, root: Ref, d: nat, more: nat)
    ensures Within(next, root, d) <= Within(next, root, d + more)
    decreases more
  {
    hide Within;
    if more > 0 {
      var prefix := Within(next, root, d);
      WithinGrows(next, root, d, more - 1);
      GrowsOnce(next, root, d + more - 1, prefix);
    }
  }

  lemma GrowsOnce(next: Edges, root: Ref, e: nat, prefix: seq<Entry>)
    requires prefix <= Within(next, root, e)
    ensures prefix <= Within(next, root, e + 1)
  {
    LongerPrefix(prefix, Within(next, root, e), Within(next, root, e + 1));
  }

  lemma LongerPrefix(a: seq<Entry>, b: seq<Entry>, c: seq<Entry>)
    requires a <= b <= c
    ensures a <= c
  {
  }

  /** Once a level is empty nothing is ever found again. */
  lemma {:induction false} ExhaustedWithin(next: Edges, root: Ref, d: nat, e: nat)
    requires d <= e && Frontier(next, root, d) == []
    ensures Frontier(next, root, e) == [] && Within(next, root, e) == Within(next, root, d)
    decreases e
  {
    if d < e {
      ExhaustedWithin(next, root, d, e - 1);
    }
  }

  // ------------------------------------------------------------------------
  // The closure query

  lemma {:induction false} FreshPrefix(a: seq<Ref>, b: seq<Ref>, visited: set<Version>)
    ensures Fresh(a, visited) <= Fresh(a + b, visited)
    decreases |b|
  {
    if b == [] {
      assert a + b == a;
    } else {
      var n := |b| - 1;
      FreshPrefix(a, b[..n], visited);
      assert (a + b)[..|a + b| - 1] == a + b[..n];
    }
  }

  lemma {:induction false} ExpandPrefix(next: Edges, frontier: seq<Ref>, i: nat)
    requires i <= |frontier|
    ensures Expand(next, frontier[..i]) <= Expand(next, frontier)
    decreases |frontier| - i
  {
    if i == |frontier| {
      assert frontier[..i] == frontier;
    } else {
      ExpandPrefix(next, frontier, i + 1);
      assert frontier[..i + 1][..i] == frontier[..i];
    }
  }

  /** The state of a level after looking at the references `seen`. */
  ghost predicate Scanned(seen: seq<Ref>, before: set<Version>, listed: seq<Entry>, depth: nat, limit: nat,
                          found: seq<Ref>, visited: set<Version>, entries: seq<Entry>)
  {
    && found == Fresh(seen, before) && visited == before + Versions(found)
    && entries == listed + At(found, depth) && |entries| <= limit
  }

  lemma ScanOne(seen: seq<Ref>, before: set<Version>, listed: seq<Entry>, depth: nat, limit: nat,
                found: seq<Ref>, visited: set<Version>, entries: seq<Entry>, r: Ref)
    requires Scanned(seen, before, listed, depth, limit, found, visited, entries)
    ensures Fresh(seen + [r], before) == if r.version in visited then found else found + [r]
    ensures r.version in visited ==> Scanned(seen + [r], before, listed, depth, limit, found, visited, entries)
    ensures r.version !in visited && |entries| < limit ==>
              Scanned(seen + [r], before, listed, depth, limit,
                      found + [r], visited + {r.version}, entries + [Entry(r, depth)])
  {
    assert (seen + [r])[..|seen|] == seen;
    VersionsSnoc(found + [r]);
    assert (found + [r])[..|found|] == found;
    assert At(found + [r], depth) == At(found, depth) + [Entry(r, depth)];
  }

  /** The limit was in the way after `a`; what follows does not change the entries. */
  lemma StoppedPrefix(a: seq<Ref>, b: seq<Ref>, before: set<Version>, listed: seq<Entry>, depth: nat, limit: nat)
    requires |listed| + |Fresh(a, before)| > limit
    ensures |listed| + |Fresh(a + b, before)| > limit
    ensures Truncate(listed + At(Fresh(a + b, before), depth), limit) ==
              Truncate(listed + At(Fresh(a, before), depth), limit)
  {
    FreshPrefix(a, b, before);
    var x, y := listed + At(Fresh(a, before), depth), listed + At(Fresh(a + b, before), depth);
    assert x[..limit] == y[..limit];
  }

  /** Scan the neighbours of one frontier node. */
  method ScanNeighbours(neighbours: seq<Ref>, ghost done: seq<Ref>, ghost before: set<Version>,
                        ghost listed: seq<Entry>,
                        depth: nat, limit: nat, found0: seq<Ref>, visited0: set<Version>, entries0: seq<Entry>)
    returns (found: seq<Ref>, visited: set<Version>, entries: seq<Entry>, stopped: bool)
    requires Scanned(done, before, listed, depth, limit, found0, visited0, entries0)
    ensures !stopped ==> Scanned(done + neighbours, before, listed, depth, limit, found, visited, entries)
    ensures stopped ==>
              && |listed| + |Fresh(done + neighbours, before)| > limit
              && entries == Truncate(listed + At(Fresh(done + neighbours, before), depth), limit)
  {
    found, visited, entries, stopped := found0, visited0, entries0, false;
    assert done + neighbours[..0] == done;
    for j := 0 to |neighbours|
      invariant Scanned(done + neighbours[..j], before, listed, depth, limit, found, visited, entries)
    {
      var r := neighbours[j];
      ghost var seen := done + neighbours[..j];
      assert done + neighbours[..j + 1] == seen + [r];
      ScanOne(seen, before, listed, depth, limit, found, visited, entries, r);
      if r.version !in visited {
        if |entries| >= limit {
          stopped := true;
          assert done + neighbours == (seen + [r]) + neighbours[j + 1..];
          StoppedPrefix(seen + [r], neighbours[j + 1..], before, listed, depth, limit);
          assert (listed + At(found + [r], depth))[..limit] == entries;
          return;
        }
        found, visited, entries := found + [r], visited + {r.version}, entries + [Entry(r, depth)];
      }
    }
    assert neighbours[..|neighbours|] == neighbours;
  }

  /** One level of the search; stops when the entry limit is in the way of a new reference. */
  method ExpandLevel(view: View, frontier: seq<Ref>, before: set<Version>, listed: seq<Entry>, depth: nat, limit: nat)
    returns (found: seq<Ref>, visited: set<Version>, entries: seq<Entry>, stopped: bool)
    requires |listed| <= limit
    ensures var all := Fresh(Expand(EdgesOf(view), frontier), before);
            && (stopped <==> |listed| + |all| > limit)
            && entries == Truncate(listed + At(all, depth), limit)
            && (!stopped ==> found == all && visited == before + Versions(all))
  {
    ghost var edges := EdgesOf(view);
    found, visited, entries, stopped := [], before, listed, false;
    for i := 0 to |frontier|
      invariant Scanned(Expand(edges, frontier[..i]), before, listed, depth, limit, found, visited, entries)
    {
      var neighbours := Neighbours(view, frontier[i].version);
      ghost var done := Expand(edges, frontier[..i]);
      assert frontier[..i + 1][..i] == frontier[..i];
      assert Expand(edges, frontier[..i + 1]) == done + neighbours;
      found, visited, entries, stopped :=
        ScanNeighbours(neighbours, done, before, listed, depth, limit, found, visited, entries);
      if stopped {
        ExpandPrefix(edges, frontier, i + 1);
        ghost var all := Expand(edges, frontier);
        StoppedPrefix(done + neighbours, all[|done + neighbours|..], before, listed, depth, limit);
        assert all == (done + neighbours) + all[|done + neighbours|..];
        return;
      }
    }
    assert frontier[..|frontier|] == frontier;
  }

  /** Would one more hop from this frontier reveal something new? */
  predicate HasUnvisitedNeighbour(view: View, frontier: seq<Ref>, visited: set<Version>) {
    exists i :: 0 <= i < |frontier| && AnyUnvisited(Neighbours(view, frontier[i].version), visited)
  }

  predicate AnyUnvisited(refs: seq<Ref>, visited: set<Version>) {
    exists j :: 0 <= j < |refs| && refs[j].version !in visited
  }

  lemma UnvisitedNeighbourIsFresh(view: View, frontier: seq<Ref>, visited: set<Version>)
    ensures HasUnvisitedNeighbour(view, frontier, visited) <==> Fresh(Expand(EdgesOf(view), frontier), visited) != []
  {
    var edges := EdgesOf(view);
    var all := Expand(edges, frontier);
    FreshVersions(all, visited);
    if HasUnvisitedNeighbour(view, frontier, visited) {
      var i :| 0 <= i < |frontier| && AnyUnvisited(Neighbours(view, frontier[i].version), visited);
      var u := frontier[i].version;
      var j :| 0 <= j < |Neighbours(view, u)| && Neighbours(view, u)[j].version !in visited;
      var v := Neighbours(view, u)[j].version;
      assert u in Versions(frontier) && Adjacent(edges, u, v);
      ExpandVersions(edges, frontier, v);
      assert v in Versions(Fresh(all, visited));
    }
    if Fresh(all, visited) != [] {
      var v := Fresh(all, visited)[0].version;
      assert v in Versions(Fresh(all, visited));
      ExpandVersions(edges, frontier, v);
      var u :| u in Versions(frontier) && Adjacent(edges, u, v);
      var i :| 0 <= i < |frontier| && frontier[i].version == u;
      assert edges(u) == Neighbours(view, u);
      var j :| 0 <= j < |Neighbours(view, u)| && Neighbours(view, u)[j].version == v;
      assert AnyUnvisited(Neighbours(view, frontier[i].version), visited);
    }
  }

  lemma StoppedEntries(next: Edges, root: Ref, depth: nat, maxDepth: nat, limit: nat)
    requires depth <= maxDepth && limit < |Within(next, root, depth)|
    ensures Truncate(Within(next, root, depth), limit) == Truncate(Within(next, root, maxDepth), limit)
    ensures limit < |Within(next, root, maxDepth + 1)|
  {
    hide Within;
    WithinGrows(next, root, depth, maxDepth - depth);
    WithinGrows(next, root, depth, maxDepth + 1 - depth);
  }

  lemma FinishedEntries(next: Edges, root: Ref, depth: nat, maxDepth: nat)
    requires depth <= maxDepth && (depth == maxDepth || Frontier(next, root, depth) == [])
    ensures Within(next, root, maxDepth) == Within(next, root, depth)
    ensures |Within(next, root, depth)| < |Within(next, root, maxDepth + 1)| <==>
              depth == maxDepth && Frontier(next, root, depth + 1) != []
  {
    if depth < maxDepth {
      ExhaustedWithin(next, root, depth, maxDepth);
      ExhaustedWithin(next, root, depth, maxDepth + 1);
    }
  }

  /**
   The bounded closure: the first `limit` entries of everything within
   `maxDepth` hops; `hasMore` exactly when something reachable is missing,
   except that a query of depth zero never reports more.
   */
  method ComputeClosure(view: View, root: Ref, maxDepth: nat, limit: nat) returns (c: Closure)
    ensures c.root == root
    ensures c.entries == Truncate(Within(EdgesOf(view), root, maxDepth), limit)
    ensures c.hasMore <==> maxDepth > 0 && |c.entries| < |Within(EdgesOf(view), root, maxDepth + 1)|
  {
    ghost var edges := EdgesOf(view);
    var entries: seq<Entry>, visited, frontier, depth, hasMore := [], {root.version}, [root], 0, false;
    while frontier != [] && depth < maxDepth
      invariant depth <= maxDepth
      invariant frontier == Frontier(edges, root, depth) && visited == Visited(edges, root, depth)
      invariant entries == Within(edges, root, depth) && |entries| <= limit
      invariant hasMore <==> 0 < depth == maxDepth && Frontier(edges, root, depth + 1) != []
      decreases maxDepth - depth
    {
      depth := depth + 1;
      var found, seen, listed, stopped := ExpandLevel(view, frontier, visited, entries, depth, limit);
      if stopped {
        StoppedEntries(edges, root, depth, maxDepth, limit);
        return Closure(root, listed, true);
      }
      UnvisitedNeighbourIsFresh(view, found, seen);
      if depth == maxDepth && HasUnvisitedNeighbour(view, found, seen) {
        hasMore := true;
      }
      frontier, visited, entries := found, seen, listed;
    }
    FinishedEntries(edges, root, depth, maxDepth);
    c := Closure(root, entries, hasMore);
  }

  /** Version 1 derives from version 0. */
  const ONE_EDGE := Graph(map[1 := Record(Ref(1, 1), [Ref(0, 0)], 0)], map[0 := [1]])

  lemma OneEdgeWithin()
    ensures |Within(EdgesOf(View(ONE_EDGE, Upstream, None)), Ref(1, 1), 1)| == 1
  {
    var next, root, source := EdgesOf(View(ONE_EDGE, Upstream, None)), Ref(1, 1), Ref(0, 0);
    assert next(1) == [source];
    assert Expand(next, []) == [] && [root][..0] == [] && Expand(next, [root]) == [source];
    assert Fresh([], {1}) == [] && [source][..0] == [] && Versions([]) == {};
    assert Fresh([source], {1}) == [source];
    assert Frontier(next, root, 1) == [source];
  }

  /** At depth 0 the flag stays down although one entry is missing. */
  method DepthZeroHidesMore() returns (c: Closure)
    ensures c.entries == [] && !c.hasMore
    ensures |Within(EdgesOf(View(ONE_EDGE, Upstream, None)), c.root, 1)| == 1
  {
    OneEdgeWithin();
    c := ComputeClosure(View(ONE_EDGE, Upstream, None), Ref(1, 1), 0, 10);
  }

  // ------------------------------------------------------------------------
  // Walks upstream, and cycles

  function SourceEdges(g: Graph): Edges {
    (v: Version) => SourcesOf(g, v)
  }

  /** Every edge goes from a higher to a lower rank. */
  ghost predicate Ranked(next: Edges, rank: Version -> nat) {
    forall u, v :: Adjacent(next, u, v) ==> rank(v) < rank(u)
  }

  lemma {:induction false} WalkLowersRank(next: Edges, rank: Version -> nat, u: Version, v: Version, d: nat)
    requires Ranked(next, rank) && Reaches(next, u, v, d)
    ensures rank(v) + d <= rank(u)
    decreases d
  {
    if d > 0 {
      var w :| Reaches(next, u, w, d - 1) && Adjacent(next, w, v);
      WalkLowersRank(next, rank, u, w, d - 1);
    }
  }

  /** A ranked graph has no cycle, however long. */
  lemma NoCycles(next: Edges, rank: Version -> nat, v: Version, d: nat)
    requires Ranked(next, rank) && d > 0
    ensures !Reaches(next, v, v, d)
  {
    if Reaches(next, v, v, d) {
      WalkLowersRank(next, rank, v, v, d);
    }
  }

  ghost predicate CanReach(next: Edges, u: Version, v: Version) {
    exists d: nat :: Reaches(next, u, v, d)
  }

  lemma {:induction false} ReachesFront(next: Edges, u: Version, w: Version, v: Version, d: nat)
    requires Adjacent(next, u, w) && Reaches(next, w, v, d)
    ensures Reaches(next, u, v, d + 1)
    decreases d
  {
    if d == 0 {
      assert Reaches(next, u, u, 0);
    } else {
      var x :| Reaches(next, w, x, d - 1) && Adjacent(next, x, v);
      ReachesFront(next, u, w, x, d - 1);
    }
  }

  lemma CanReachFront(next: Edges, u: Version, w: Version, v: Version)
    requires Adjacent(next, u, w) && CanReach(next, w, v)
    ensures CanReach(next, u, v)
  {
    var d: nat :| Reaches(next, w, v, d);
    ReachesFront(next, u, w, v, d);
  }

  /** A set closed under the edges that holds the start holds everything reachable. */
  lemma {:induction false} ClosedSetHoldsWalks(next: Edges, closed: set<Version>, u: Version, v: Version, d: nat)
    requires u in closed && forall x, y :: x in closed && Adjacent(next, x, y) ==> y in closed
    requires Reaches(next, u, v, d)
    ensures v in closed
    decreases d
  {
    if d > 0 {
      var x :| Reaches(next, u, x, d - 1) && Adjacent(next, x, v);
      ClosedSetHoldsWalks(next, closed, u, x, d - 1);
    }
  }

  function AddRecord(g: Graph, record: Record): map<Version, Record> {
    g.upstream[record.derived.version := record]
  }

  /**
   Adding a derivation keeps the graph ranked as long as no source already
   leads back to the derived version: lift everything that does lead there.
   */
  lemma AddRecordRanked(g: Graph, record: Record, downstream: map<Version, seq<Version>>, rank: Version -> nat)
    returns (lifted: Version -> nat)
    requires Ranked(SourceEdges(g), rank) && record.derived.version !in g.upstream
    requires forall i :: 0 <= i < |record.sources| ==>
               !CanReach(SourceEdges(g), record.sources[i].version, record.derived.version)
    ensures Ranked(SourceEdges(Graph(AddRecord(g, record), downstream)), lifted)
  {
    var d, was := record.derived.version, SourceEdges(g);
    var now := SourceEdges(Graph(AddRecord(g, record), downstream));
    var k := RankBound(rank, record.sources);
    ghost var f := (v: Version) => if CanReach(was, v, d) then rank(v) + k else rank(v);
    forall u, v | Adjacent(now, u, v)
      ensures f(v) < f(u)
    {
      if u == d {
        assert Reaches(was, d, d, 0);
        assert now(d) == record.sources;
        var i :| 0 <= i < |record.sources| && record.sources[i].version == v;
        RankBoundHolds(rank, record.sources, i);
      } else {
        assert now(u) == was(u);
        assert Adjacent(was, u, v);
        if CanReach(was, v, d) {
          CanReachFront(was, u, v, d);
        }
      }
    }
    lifted := f;
  }

  ghost function RankBound(rank: Version -> nat, refs: seq<Ref>): nat {
    if refs == [] then 0
    else
      var rest, last := RankBound(rank, refs[..|refs| - 1]), rank(refs[|refs| - 1].version) + 1;
      if rest < last then last else rest
  }

  lemma {:induction false} RankBoundHolds(rank: Version -> nat, refs: seq<Ref>, i: nat)
    requires i < |refs|
    ensures rank(refs[i].version) < RankBound(rank, refs)
  {
    if i < |refs| - 1 {
      RankBoundHolds(rank, refs[..|refs| - 1], i);
    }
  }

  // ------------------------------------------------------------------------
  // Cycle detection

  ghost predicate IsWalk(next: Edges, path: seq<Version>) {
    path != [] && forall i :: 0 <= i < |path| - 1 ==> Adjacent(next, path[i], path[i + 1])
  }

  /** Everything a search upstream from `start` can ever visit. */
  ghost function Universe(g: Graph, start: Version): set<Version> {
    {start} + (set k, i | k in g.upstream && 0 <= i < |g.upstream[k].sources| :: g.upstream[k].sources[i].version)
  }

  ghost predicate ClosedUnder(next: Edges, versions: set<Version>) {
    forall u, v :: u in versions && Adjacent(next, u, v) ==> v in versions
  }

  lemma UniverseClosed(g: Graph, start: Version)
    ensures start in Universe(g, start) && ClosedUnder(SourceEdges(g), Universe(g, start))
  {
    forall u, v | u in Universe(g, start) && Adjacent(SourceEdges(g), u, v)
      ensures v in Universe(g, start)
    {
      assert SourceEdges(g)(u) == SourcesOf(g, u);
      var i :| 0 <= i < |SourcesOf(g, u)| && SourcesOf(g, u)[i].version == v;
      assert u in g.upstream && g.upstream[u].sources[i].version == v;
    }
  }

  /** The search tree: every visited version but the start hangs below a visited parent. */
  ghost predicate TreeOk(next: Edges, start: Version, visited: set<Version>,
                         parents: map<Version, Version>, level: map<Version, nat>)
  {
    && start in visited && start !in parents && level.Keys == visited && parents.Keys <= visited
    && forall v :: v in visited && v != start ==>
         && v in parents && parents[v] in visited
         && Adjacent(next, parents[v], v) && level[parents[v]] < level[v]
  }

  method PathFrom(ghost next: Edges, start: Version, target: Version, ghost visited: set<Version>,
                  parents: map<Version, Version>, ghost level: map<Version, nat>) returns (path: seq<Version>)
    requires TreeOk(next, start, visited, parents, level) && target in visited
    ensures IsWalk(next, path) && path[0] == start && path[|path| - 1] == target
  {
    path := [target];
    var node := target;
    while node in parents
      invariant IsWalk(next, path) && path[0] == node && path[|path| - 1] == target
      invariant node in visited
      decreases level[node]
    {
      var parent := parents[node];
      assert node != start;
      path := [parent] + path;
      node := parent;
    }
  }

  /** Everything visited is reached, and either still open or expanded and not the target. */
  ghost predicate SearchOk(next: Edges, start: Version, target: Version, visited: set<Version>,
                           parents: map<Version, Version>, level: map<Version, nat>, open: set<Version>,
                           busy: set<Version>)
  {
    && TreeOk(next, start, visited, parents, level)
    && open <= visited
    && (forall v :: v in visited ==> Reaches(next, start, v, level[v]))
    && (forall u, v :: u in visited - open - busy && Adjacent(next, u, v) ==> v in visited)
    && target !in visited - open
  }

  lemma SearchVisit(next: Edges, start: Version, target: Version, visited: set<Version>, parents: map<Version, Version>,
                    level: map<Version, nat>, open: set<Version>, current: Version, v: Version)
    requires SearchOk(next, start, target, visited, parents, level, open, {current})
    requires current in visited && v !in visited && Adjacent(next, current, v)
    ensures SearchOk(next, start, target, visited + {v}, parents[v := current], level[v := level[current] + 1],
                     open + {v}, {current})
  {
    assert Reaches(next, start, current, level[current]);
    assert Reaches(next, start, v, level[current] + 1);
    TreeVisit(next, start, visited, parents, level, current, v);
    hide TreeOk, Reaches, Adjacent;
    assert (visited + {v}) - (open + {v}) == visited - open;
  }

  lemma TreeVisit(next: Edges, start: Version, visited: set<Version>, parents: map<Version, Version>,
                  level: map<Version, nat>, current: Version, v: Version)
    requires TreeOk(next, start, visited, parents, level)
    requires current in visited && v !in visited && Adjacent(next, current, v)
    ensures TreeOk(next, start, visited + {v}, parents[v := current], level[v := level[current] + 1])
  {
  }

  function Elements(queue: seq<Version>): set<Version> {
    set i | 0 <= i < |queue| :: queue[i]
  }

  lemma ElementsSnoc(queue: seq<Version>, v: Version)
    ensures Elements(queue + [v]) == Elements(queue) + {v}
  {
    var q := queue + [v];
    assert q[|queue|] == v;
    forall u | u in Elements(queue)
      ensures u in Elements(q)
    {
      var i :| 0 <= i < |queue| && queue[i] == u;
      assert q[i] == u;
    }
  }

  lemma ElementsCons(queue: seq<Version>)
    requires queue != []
    ensures Elements(queue) == Elements(queue[1..]) + {queue[0]}
  {
    forall u | u in Elements(queue) && u != queue[0]
      ensures u in Elements(queue[1..])
    {
      var i :| 0 <= i < |queue| && queue[i] == u;
      assert queue[1..][i - 1] == u;
    }
    forall u | u in Elements(queue[1..])
      ensures u in Elements(queue)
    {
      var i :| 0 <= i < |queue[1..]| && queue[1..][i] == u;
      assert queue[i + 1] == u;
    }
  }

  lemma OneFewer(universe: set<Version>, visited: set<Version>, v: Version)
    requires v in universe && v !in visited
    ensures |universe - (visited + {v})| + 1 == |universe - visited|
  {
    assert universe - visited == (universe - (visited + {v})) + {v};
  }

  /** Queue the sources of `current` that were not visited before. */
  method VisitSources(sources: seq<Ref>, ghost next: Edges, ghost universe: set<Version>, ghost start: Version,
                      ghost target: Version, current: Version, visited0: set<Version>,
                      parents0: map<Version, Version>, ghost level0: map<Version, nat>, queue0: seq<Version>)
    returns (visited: set<Version>, parents: map<Version, Version>, ghost level: map<Version, nat>, queue: seq<Version>)
    requires SearchOk(next, start, target, visited0, parents0, level0, Elements(queue0), {current})
    requires ClosedUnder(next, universe) && current in visited0 && visited0 <= universe && next(current) == sources
    ensures SearchOk(next, start, target, visited, parents, level, Elements(queue), {})
    ensures visited <= universe && |universe - visited| + |queue| == |universe - visited0| + |queue0|
  {
    visited, parents, level, queue := visited0, parents0, level0, queue0;
    for i := 0 to |sources|
      invariant SearchOk(next, start, target, visited, parents, level, Elements(queue), {current})
      invariant current in visited && visited <= universe
      invariant Versions(sources[..i]) <= visited
      invariant |universe - visited| + |queue| == |universe - visited0| + |queue0|
    {
      var v := sources[i].version;
      VersionsSnoc(sources[..i + 1]);
      assert sources[..i + 1][..i] == sources[..i];
      if v !in visited {
        assert Adjacent(next, current, v);
        SearchVisit(next, start, target, visited, parents, level, Elements(queue), current, v);
        ElementsSnoc(queue, v);
        OneFewer(universe, visited, v);
        level := level[v := level[current] + 1];
        visited, parents, queue := visited + {v}, parents[v := current], queue + [v];
      }
    }
    assert sources[..|sources|] == sources;
  }

  lemma SearchStart(next: Edges, start: Version, target: Version)
    ensures SearchOk(next, start, target, {start}, map[], map[start := 0], Elements([start]), {})
  {
    ElementsCons([start]);
    assert Reaches(next, start, start, 0);
  }

  lemma SearchEnds(next: Edges, start: Version, target: Version, visited: set<Version>,
                   parents: map<Version, Version>, level: map<Version, nat>)
    requires SearchOk(next, start, target, visited, parents, level, {}, {})
    ensures !CanReach(next, start, target)
  {
    forall d: nat
      ensures !Reaches(next, start, target, d)
    {
      if Reaches(next, start, target, d) {
        ClosedSetHoldsWalks(next, visited, start, target, d);
      }
    }
  }

  lemma SearchPop(next: Edges, start: Version, target: Version, visited: set<Version>,
                  parents: map<Version, Version>, level: map<Version, nat>, queue: seq<Version>)
    requires SearchOk(next, start, target, visited, parents, level, Elements(queue), {}) && queue != []
    ensures queue[0] in visited && CanReach(next, start, queue[0])
    ensures queue[0] != target ==>
              SearchOk(next, start, target, visited, parents, level, Elements(queue[1..]), {queue[0]})
  {
    ElementsCons(queue);
    assert Reaches(next, start, queue[0], level[queue[0]]);
  }

  method Search(g: Graph, ghost next: Edges, ghost universe: set<Version>, start: Version, target: Version)
    returns (path: Option<seq<Version>>)
    requires start in universe && ClosedUnder(next, universe) && forall v :: next(v) == SourcesOf(g, v)
    ensures path.Some? ==>
              IsWalk(next, path.value) && path.value[0] == start && path.value[|path.value| - 1] == target
    ensures path.None? <==> !CanReach(next, start, target)
  {
    var visited: set<Version>, parents: map<Version, Version>, queue: seq<Version> := {start}, map[], [start];
    ghost var level: map<Version, nat> := map[start := 0];
    SearchStart(next, start, target);
    while queue != []
      invariant SearchOk(next, start, target, visited, parents, level, Elements(queue), {})
      invariant visited <= universe
      decreases |universe - visited| + |queue|
    {
      var current := queue[0];
      SearchPop(next, start, target, visited, parents, level, queue);
      if current == target {
        var p := PathFrom(next, start, target, visited, parents, level);
        return Some(p);
      }
      visited, parents, level, queue :=
        VisitSources(SourcesOf(g, current), next, universe, start, target, current,
                     visited, parents, level, queue[1..]);
    }
    SearchEnds(next, start, target, visited, parents, level);
    path := None;
  }

  /** Breadth-first search with parent tracking: a walk from `start` to `target`, or none exists. */
  method UpstreamPathTo(g: Graph, start: Version, target: Version) returns (path: Option<seq<Version>>)
    ensures path.Some? ==>
              IsWalk(SourceEdges(g), path.value) && path.value[0] == start && path.value[|path.value| - 1] == target
    ensures path.None? <==> !CanReach(SourceEdges(g), start, target)
  {
    UniverseClosed(g, start);
    path := Search(g, SourceEdges(g), Universe(g, start), start, target);
  }

  // ------------------------------------------------------------------------
  // The store

  datatype RecordError =
    | SelfDerivation(version: Version)
    | AlreadyRecorded(version: Version)
    | CycleDetected(path: seq<Version>)

  datatype RecordResult = Recorded | Rejected(error: RecordError)

  /** The two adjacency maps say the same thing. */
  ghost predicate Mirrored(g: Graph) {
    && (forall v :: v in g.upstream ==> g.upstream[v].derived.version == v)
    && (forall s, i :: s in g.downstream && 0 <= i < |g.downstream[s]| ==>
          g.downstream[s][i] in g.upstream && s in Versions(g.upstream[g.downstream[s][i]].sources))
    && (forall v, s :: v in g.upstream && s in Versions(g.upstream[v].sources) ==>
          s in g.downstream && v in g.downstream[s])
  }

  /** `downstream` with `v` pushed onto the list of every given source. */
  function PushDerived(downstream: map<Version, seq<Version>>, sources: seq<Ref>, v: Version)
    : map<Version, seq<Version>>
  {
    map s | s in downstream.Keys + Versions(sources) ::
      (if s in downstream then downstream[s] else []) + (if s in Versions(sources) then [v] else [])
  }

  lemma PushListed(g: Graph, record: Record, s: Version, i: nat)
    requires Mirrored(g) && record.derived.version !in g.upstream
    requires var down := PushDerived(g.downstream, record.sources, record.derived.version); s in down && i < |down[s]|
    ensures var up, down := AddRecord(g, record), PushDerived(g.downstream, record.sources, record.derived.version);
            down[s][i] in up && s in Versions(up[down[s][i]].sources)
  {
    var d := record.derived.version;
    var down := PushDerived(g.downstream, record.sources, d);
    if s in g.downstream && i < |g.downstream[s]| {
      assert down[s][i] == g.downstream[s][i] && g.downstream[s][i] != d;
    } else {
      assert down[s][i] == d;
    }
  }

  lemma PushFound(g: Graph, record: Record, v: Version, s: Version)
    requires Mirrored(g) && record.derived.version !in g.upstream
    requires var up := AddRecord(g, record); v in up && s in Versions(up[v].sources)
    ensures var down := PushDerived(g.downstream, record.sources, record.derived.version); s in down && v in down[s]
  {
    if v != record.derived.version {
      assert v in g.downstream[s];
    }
  }

  lemma PushMirrored(g: Graph, record: Record)
    requires Mirrored(g) && record.derived.version !in g.upstream
    ensures Mirrored(Graph(AddRecord(g, record), PushDerived(g.downstream, record.sources, record.derived.version)))
  {
    var up, down := AddRecord(g, record), PushDerived(g.downstream, record.sources, record.derived.version);
    forall s, i | s in down && 0 <= i < |down[s]| ensures down[s][i] in up && s in Versions(up[down[s][i]].sources) {
      PushListed(g, record, s, i);
    }
    forall v, s | v in up && s in Versions(up[v].sources) ensures s in down && v in down[s] {
      PushFound(g, record, v, s);
    }
  }

  /** The sources without repetitions, or nothing if one names the derived version itself. */
  method DistinctSources(derived: Version, sources: seq<Ref>) returns (r: Option<seq<Ref>>)
    ensures r == if derived in Versions(sources) then None else Some(Fresh(sources, {}))
  {
    var distinct: seq<Ref>, seen: set<Version> := [], {};
    for i := 0 to |sources|
      invariant distinct == Fresh(sources[..i], {}) && seen == Versions(distinct)
      invariant derived !in Versions(sources[..i])
    {
      assert sources[..i + 1][..i] == sources[..i];
      VersionsSnoc(sources[..i + 1]);
      if sources[i].version == derived {
        NamedSource(sources, i);
        return None;
      }
      hide Versions;
      if sources[i].version !in seen {
        VersionsSnoc(distinct + [sources[i]]);
        assert (distinct + [sources[i]])[..|distinct|] == distinct;
        distinct, seen := distinct + [sources[i]], seen + {sources[i].version};
      }
    }
    assert sources[..|sources|] == sources;
    r := Some(distinct);
  }

  lemma NamedSource(sources: seq<Ref>, i: nat)
    requires i < |sources|
    ensures sources[i].version in Versions(sources)
  {
  }

  lemma NoVersions(refs: seq<Ref>)
    ensures Versions(refs) == {} <==> refs == []
  {
    if refs != [] {
      assert refs[0].version in Versions(refs);
    }
  }

  /** A walk from some source to the target, if there is one. */
  method FindCycle(g: Graph, sources: seq<Ref>, target: Version) returns (path: Option<seq<Version>>)
    ensures path.None? <==> forall i :: 0 <= i < |sources| ==> !CanReach(SourceEdges(g), sources[i].version, target)
    ensures path.Some? ==>
              && IsWalk(SourceEdges(g), path.value)
              && path.value[0] in Versions(sources) && path.value[|path.value| - 1] == target
  {
    for i := 0 to |sources|
      invariant forall j :: 0 <= j < i ==> !CanReach(SourceEdges(g), sources[j].version, target)
    {
      path := UpstreamPathTo(g, sources[i].version, target);
      if path.Some? {
        assert sources[i].version in Versions(sources);
        return;
      }
    }
    path := None;
  }

  /** The downstream map after pushing `v` for one source after the other. */
  method PushAll(downstream: map<Version, seq<Version>>, distinct: seq<Ref>, v: Version)
    returns (r: map<Version, seq<Version>>)
    requires forall i, j :: 0 <= i < j < |distinct| ==> distinct[i].version != distinct[j].version
    ensures r == PushDerived(downstream, distinct, v)
  {
    r := downstream;
    assert Versions(distinct[..0]) == {};
    for i := 0 to |distinct|
      invariant r.Keys == downstream.Keys + Versions(distinct[..i])
      invariant forall s :: s in r ==> r[s] == PushDerived(downstream, distinct[..i], v)[s]
    {
      var s := distinct[i].version;
      assert s !in Versions(distinct[..i]);
      VersionsSnoc(distinct[..i + 1]);
      assert distinct[..i + 1][..i] == distinct[..i];
      r := r[s := (if s in r then r[s] else []) + [v]];
    }
    assert distinct[..|distinct|] == distinct;
  }

  /**
   What recording must answer: a rejection for a source naming the derived
   version, for a version already recorded, and exactly when a source already
   leads upstream to the derived version.
   */
  ghost predicate Verdict(g: Graph, derived: Version, sources: seq<Ref>, r: RecordResult) {
    if derived in Versions(sources) then r == Rejected(SelfDerivation(derived))
    else if sources == [] then r == Recorded
    else if derived in g.upstream then r == Rejected(AlreadyRecorded(derived))
    else if exists v :: v in Versions(sources) && CanReach(SourceEdges(g), v, derived) then
      && r.Rejected? && r.error.CycleDetected? && IsWalk(SourceEdges(g), r.error.path)
      && r.error.path[0] in Versions(sources) && r.error.path[|r.error.path| - 1] == derived
    else r == Recorded
  }

  method Judge(g: Graph, derived: Version, sources: seq<Ref>) returns (r: RecordResult, distinct: seq<Ref>)
    ensures Verdict(g, derived, sources, r)
    ensures r.Recorded? ==> distinct == Fresh(sources, {})
    ensures r.Recorded? && sources != [] ==>
              && derived !in g.upstream
              && forall i :: 0 <= i < |distinct| ==> !CanReach(SourceEdges(g), distinct[i].version, derived)
  {
    var d := DistinctSources(derived, sources);
    if d.None? {
      return Rejected(SelfDerivation(derived)), [];
    }
    distinct := d.value;
    FreshVersions(sources, {});
    NoVersions(sources);
    NoVersions(distinct);
    if distinct == [] {
      return Recorded, distinct;
    }
    if derived in g.upstream {
      return Rejected(AlreadyRecorded(derived)), distinct;
    }
    var path := FindCycle(g, distinct, derived);
    if path.Some? {
      CycleWitness(g, distinct, derived);
      return Rejected(CycleDetected(path.value)), distinct;
    }
    r := Recorded;
    forall v | v in Versions(sources)
      ensures !CanReach(SourceEdges(g), v, derived)
    {
      assert v in Versions(distinct);
      var i :| 0 <= i < |distinct| && distinct[i].version == v;
    }
  }

  lemma CycleWitness(g: Graph, distinct: seq<Ref>, derived: Version)
    requires !forall i :: 0 <= i < |distinct| ==> !CanReach(SourceEdges(g), distinct[i].version, derived)
    ensures exists v :: v in Versions(distinct) && CanReach(SourceEdges(g), v, derived)
  {
    var i :| 0 <= i < |distinct| && CanReach(SourceEdges(g), distinct[i].version, derived);
    assert distinct[i].version in Versions(distinct);
  }

  class LineageStore {
    var upstream: map<Version, Record>
    var downstream: map<Version, seq<Version>>
    /** A witness that the derivations have no cycle. */
    ghost var rank: Version -> nat

    function Contents(): Graph
      reads this
    {
      Graph(upstream, downstream)
    }

    ghost predicate Valid()
      reads this
    {
      Mirrored(Contents()) && Ranked(SourceEdges(Contents()), rank)
    }

    constructor ()
      ensures Valid() && Contents() == Graph(map[], map[])
    {
      upstream, downstream, rank := map[], map[], (v: Version) => 0;
    }

    /** Record a derivation, or reject it and change nothing. */
    method RecordDerivation(derived: Ref, sources: seq<Ref>, recordedAt: int) returns (r: RecordResult)
      requires Valid()
      modifies this
      ensures Valid()
      ensures Verdict(old(Contents()), derived.version, sources, r)
      ensures Contents() ==
                if r.Rejected? || sources == [] then old(Contents())
                else Graph(old(upstream)[derived.version := Record(derived, Fresh(sources, {}), recordedAt)],
                           PushDerived(old(downstream), Fresh(sources, {}), derived.version))
    {
      var distinct;
      r, distinct := Judge(Contents(), derived.version, sources);
      if r.Recorded? && sources != [] {
        Insert(Record(derived, distinct, recordedAt), sources);
      }
    }

    method Insert(record: Record, ghost sources: seq<Ref>)
      requires Valid() && record.derived.version !in upstream && record.sources == Fresh(sources, {})
      requires forall i :: 0 <= i < |record.sources| ==>
                 !CanReach(SourceEdges(Contents()), record.sources[i].version, record.derived.version)
      modifies this
      ensures Valid()
      ensures Contents() == Graph(old(upstream)[record.derived.version := record],
                                  PushDerived(old(downstream), record.sources, record.derived.version))
    {
      FreshVersions(sources, {});
      var pushed := PushAll(downstream, record.sources, record.derived.version);
      PushMirrored(Contents(), record);
      rank := AddRecordRanked(Contents(), record, pushed, rank);
      upstream, downstream := upstream[record.derived.version := record], pushed;
    }

    method UpstreamClosure(root: Ref, maxDepth: nat, limit: nat, asOf: Option<int>) returns (c: Closure)
      ensures c.root == root
      ensures c.entries == Truncate(Within(EdgesOf(View(Contents(), Upstream, asOf)), root, maxDepth), limit)
      ensures c.hasMore <==>
                maxDepth > 0 && |c.entries| < |Within(EdgesOf(View(Contents(), Upstream, asOf)), root, maxDepth + 1)|
    {
      c := ComputeClosure(View(Contents(), Upstream, asOf), root, maxDepth, limit);
    }

    method DownstreamClosure(root: Ref, maxDepth: nat, limit: nat, asOf: Option<int>) returns (c: Closure)
      ensures c.root == root
      ensures c.entries == Truncate(Within(EdgesOf(View(Contents(), Downstream, asOf)), root, maxDepth), limit)
      ensures c.hasMore <==>
                maxDepth > 0 && |c.entries| < |Within(EdgesOf(View(Contents(), Downstream, asOf)), root, maxDepth + 1)|
    {
      c := ComputeClosure(View(Contents(), Downstream, asOf), root, maxDepth, limit);
    }
  }

  // ------------------------------------------------------------------------
  // Blast radius and provenance are the same relation

  lemma {:induction false} DerivedVersions(g: Graph, asOf: Option<int>, list: seq<Version>, v: Version)
    requires forall u :: u in g.upstream ==> g.upstream[u].derived.version == u
    ensures v in Versions(Derived(g, asOf, list)) <==> v in list && v in g.upstream && !Hidden(asOf, g.upstream[v])
  {
    if list != [] {
      var n := |list| - 1;
      var u := list[n];
      DerivedVersions(g, asOf, list[..n], v);
      assert list == list[..n] + [u];
      if u in g.upstream && !Hidden(asOf, g.upstream[u]) {
        VersionsSnoc(Derived(g, asOf, list));
        assert Derived(g, asOf, list)[..|Derived(g, asOf, list)| - 1] == Derived(g, asOf, list[..n]);
      } else {
        assert Derived(g, asOf, list) == Derived(g, asOf, list[..n]);
      }
    }
  }

  lemma EdgesReverse(g: Graph, asOf: Option<int>, u: Version, v: Version)
    requires Mirrored(g)
    ensures Adjacent(EdgesOf(View(g, Downstream, asOf)), u, v) <==> Adjacent(EdgesOf(View(g, Upstream, asOf)), v, u)
  {
    var down, up := Neighbours(View(g, Downstream, asOf), u), Neighbours(View(g, Upstream, asOf), v);
    assert EdgesOf(View(g, Downstream, asOf))(u) == down && EdgesOf(View(g, Upstream, asOf))(v) == up;
    if u in g.downstream {
      DerivedVersions(g, asOf, g.downstream[u], v);
    }
  }

  lemma {:induction false} ReversedWalk(there: Edges, back: Edges, u: Version, v: Version, d: nat)
    requires forall x, y :: Adjacent(there, x, y) ==> Adjacent(back, y, x)
    requires Reaches(there, u, v, d)
    ensures Reaches(back, v, u, d)
    decreases d
  {
    if d > 0 {
      var w :| Reaches(there, u, w, d - 1) && Adjacent(there, w, v);
      ReversedWalk(there, back, u, w, d - 1);
      ReachesFront(back, v, w, u, d - 1);
    }
  }

  /** `v` is `d` hops downstream of `u` exactly when `u` is `d` hops upstream of `v`, at any transaction time. */
  lemma WalksReverse(g: Graph, asOf: Option<int>, u: Version, v: Version, d: nat)
    requires Mirrored(g)
    ensures Reaches(EdgesOf(View(g, Downstream, asOf)), u, v, d) <==> Reaches(EdgesOf(View(g, Upstream, asOf)), v, u, d)
  {
    var down, up := EdgesOf(View(g, Downstream, asOf)), EdgesOf(View(g, Upstream, asOf));
    forall x, y
      ensures Adjacent(down, x, y) <==> Adjacent(up, y, x)
    {
      EdgesReverse(g, asOf, x, y);
    }
    if Reaches(down, u, v, d) {
      ReversedWalk(down, up, u, v, d);
    }
    if Reaches(up, v, u, d) {
      ReversedWalk(up, down, v, u, d);
    }
  }
}
