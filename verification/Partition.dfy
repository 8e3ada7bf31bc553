/**
 Work split over threads: contiguous chunks, created concurrently into shared
 storage under any interleaving, and collected in thread order.
 */
module Partition {
  import opened Common
  import opened Modular

  // ------------------------------------------------------------------------
  // Threads writing to shared storage

  /**
   Storage hands out ids in creation order, so an id is a position in `log`;
   `ids[t]` are the ids thread `t` has received so far.
   */
  datatype State<T> = State(log: seq<T>, ids: seq<seq<nat>>)

  function Init<T>(work: seq<seq<T>>): State<T> {
    State([], seq(|work|, t => []))
  }

  predicate Enabled<T>(work: seq<seq<T>>, s: State<T>, t: nat) {
    t < |work| && t < |s.ids| && |s.ids[t]| < |work[t]|
  }

  /** Thread `t` creates its next item. */
  function Step<T>(work: seq<seq<T>>, s: State<T>, t: nat): State<T>
    requires Enabled(work, s, t)
  {
    State(s.log + [work[t][|s.ids[t]|]], s.ids[t := s.ids[t] + [|s.log|]])
  }

  predicate CanRun<T>(work: seq<seq<T>>, s: State<T>, schedule: seq<nat>)
    decreases |schedule|
  {
    |schedule| == 0 || (Enabled(work, s, schedule[0]) && CanRun(work, Step(work, s, schedule[0]), schedule[1..]))
  }

  function Run<T>(work: seq<seq<T>>, s: State<T>, schedule: seq<nat>): State<T>
    requires CanRun(work, s, schedule)
    decreases |schedule|
  {
    if |schedule| == 0 then s else Run(work, Step(work, s, schedule[0]), schedule[1..])
  }

  /** Every thread has been joined. */
  predicate Finished<T>(work: seq<seq<T>>, s: State<T>) {
    |s.ids| == |work| && forall t :: 0 <= t < |work| ==> |s.ids[t]| == |work[t]|
  }

  function Flatten<T>(parts: seq<seq<T>>): seq<T> {
    if |parts| == 0 then [] else Flatten(parts[..|parts| - 1]) + parts[|parts| - 1]
  }

  /** Each id a thread holds leads to the item it was for. */
  ghost predicate HoldsOwn<T>(work: seq<T>, ids: seq<nat>, log: seq<T>) {
    |ids| <= |work| && forall k :: 0 <= k < |ids| ==> ids[k] < |log| && log[ids[k]] == work[k]
  }

  ghost predicate Fits<T>(work: seq<seq<T>>, ids: seq<seq<nat>>) {
    |work| == |ids| && forall t :: 0 <= t < |work| ==> |ids[t]| <= |work[t]|
  }

  /** The part of each thread's list that it has created. */
  ghost function Done<T>(work: seq<seq<T>>, ids: seq<seq<nat>>): seq<seq<T>>
    requires Fits(work, ids)
  {
    seq(|work|, t requires 0 <= t < |work| => work[t][..|ids[t]|])
  }

  ghost predicate Owned<T>(work: seq<seq<T>>, s: State<T>) {
    |s.ids| == |work| && forall t :: 0 <= t < |work| ==> HoldsOwn(work[t], s.ids[t], s.log)
  }

  ghost predicate Stored<T>(work: seq<seq<T>>, s: State<T>) {
    Fits(work, s.ids) && multiset(s.log) == multiset(Flatten(Done(work, s.ids)))
  }

  ghost predicate Numbered<T>(s: State<T>) {
    EachOnce(Flatten(s.ids), |s.log|)
  }

  ghost predicate Inv<T>(work: seq<seq<T>>, s: State<T>) {
    Owned(work, s) && Stored(work, s) && Numbered(s)
  }

  /** Each number below `n` occurs once, and nothing else. */
  ghost predicate EachOnce(ids: seq<nat>, n: nat) {
    forall x: nat :: multiset(ids)[x] == if x < n then 1 else 0
  }

  lemma {:induction false} FlattenUpdate<T>(parts: seq<seq<T>>, t: nat, x: T)
    requires t < |parts|
    ensures multiset(Flatten(parts[t := parts[t] + [x]])) == multiset(Flatten(parts)) + multiset{x}
  {
    var last := |parts| - 1;
    var now := parts[t := parts[t] + [x]];
    if t == last {
      assert now[..last] == parts[..last];
    } else {
      FlattenUpdate(parts[..last], t, x);
      assert now[..last] == parts[..last][t := parts[t] + [x]];
      assert now[last] == parts[last];
    }
  }

  lemma HoldsLonger<T>(work: seq<T>, ids: seq<nat>, log: seq<T>, x: T)
    requires HoldsOwn(work, ids, log)
    ensures HoldsOwn(work, ids, log + [x])
    ensures |ids| < |work| && work[|ids|] == x ==> HoldsOwn(work, ids + [|log|], log + [x])
  {
  }

  lemma OwnedStep<T>(work: seq<seq<T>>, s: State<T>, t: nat)
    requires Owned(work, s) && Enabled(work, s, t)
    ensures Owned(work, Step(work, s, t))
  {
    var u := Step(work, s, t);
    forall v | 0 <= v < |work| ensures HoldsOwn(work[v], u.ids[v], u.log) {
      HoldsLonger(work[v], s.ids[v], s.log, work[t][|s.ids[t]|]);
    }
  }

  lemma DoneStep<T>(work: seq<seq<T>>, ids: seq<seq<nat>>, t: nat, id: nat)
    requires Fits(work, ids) && t < |work| && |ids[t]| < |work[t]|
    ensures var ids' := ids[t := ids[t] + [id]];
            && Fits(work, ids')
            && Done(work, ids') == Done(work, ids)[t := Done(work, ids)[t] + [work[t][|ids[t]|]]]
  {
    var k := |ids[t]|;
    assert work[t][..k + 1] == work[t][..k] + [work[t][k]];
  }

  lemma StoredStep<T>(work: seq<seq<T>>, s: State<T>, t: nat)
    requires Stored(work, s) && Enabled(work, s, t)
    ensures Stored(work, Step(work, s, t))
  {
    DoneStep(work, s.ids, t, |s.log|);
    FlattenUpdate(Done(work, s.ids), t, work[t][|s.ids[t]|]);
  }

  lemma NumberedStep<T>(work: seq<seq<T>>, s: State<T>, t: nat)
    requires Numbered(s) && Enabled(work, s, t)
    ensures Numbered(Step(work, s, t))
  {
    FlattenUpdate<nat>(s.ids, t, |s.log|);
  }

  lemma StepInv<T>(work: seq<seq<T>>, s: State<T>, t: nat)
    requires Inv(work, s) && Enabled(work, s, t)
    ensures Inv(work, Step(work, s, t))
  {
    OwnedStep(work, s, t);
    StoredStep(work, s, t);
    NumberedStep(work, s, t);
  }

  lemma {:induction false} NothingYet<T>(parts: seq<seq<T>>)
    requires forall t :: 0 <= t < |parts| ==> parts[t] == []
    ensures Flatten(parts) == []
  {
    if |parts| > 0 {
      NothingYet(parts[..|parts| - 1]);
    }
  }

  lemma InitInv<T>(work: seq<seq<T>>)
    ensures Inv(work, Init(work))
  {
    NothingYet(Init(work).ids);
    NothingYet(Done(work, Init(work).ids));
  }

  lemma {:induction false} RunInv<T>(work: seq<seq<T>>, s: State<T>, schedule: seq<nat>)
    requires Inv(work, s) && CanRun(work, s, schedule)
    ensures Inv(work, Run(work, s, schedule)) && |Run(work, s, schedule).log| == |s.log| + |schedule|
    decreases |schedule|
  {
    if |schedule| > 0 {
      StepInv(work, s, schedule[0]);
      RunInv(work, Step(work, s, schedule[0]), schedule[1..]);
    }
  }

  // ------------------------------------------------------------------------
  // The joined result

  ghost predicate Located<T>(items: seq<T>, ids: seq<nat>, log: seq<T>) {
    |ids| == |items| && forall k :: 0 <= k < |ids| ==> ids[k] < |log| && log[ids[k]] == items[k]
  }

  lemma LocatedParts<T>(a: seq<T>, i: seq<nat>, b: seq<T>, j: seq<nat>, log: seq<T>)
    requires Located(a, i, log) && Located(b, j, log)
    ensures Located(a + b, i + j, log)
  {
  }

  lemma {:induction false} JoinedLocated<T>(work: seq<seq<T>>, ids: seq<seq<nat>>, log: seq<T>)
    requires |work| == |ids| && forall t :: 0 <= t < |work| ==> Located(work[t], ids[t], log)
    ensures Located(Flatten(work), Flatten(ids), log)
  {
    if |work| > 0 {
      var last := |work| - 1;
      JoinedLocated(work[..last], ids[..last], log);
      LocatedParts(Flatten(work[..last]), Flatten(ids[..last]), work[last], ids[last], log);
    }
  }

  /** The schedule runs every thread to its end. */
  ghost predicate Complete<T>(work: seq<seq<T>>, schedule: seq<nat>) {
    CanRun(work, Init(work), schedule) && Finished(work, Run(work, Init(work), schedule))
  }

  function Final<T>(work: seq<seq<T>>, schedule: seq<nat>): State<T>
    requires CanRun(work, Init(work), schedule)
  {
    Run(work, Init(work), schedule)
  }

  /**
   Position k of the joined ids leads to item k, every id is returned once, and
   the storage holds exactly the items.
   */
  ghost predicate Joined<T>(items: seq<T>, s: State<T>) {
    && Located(items, Flatten(s.ids), s.log)
    && EachOnce(Flatten(s.ids), |s.log|)
    && |s.log| == |items| && multiset(s.log) == multiset(items)
  }

  lemma SameSize<T>(a: seq<T>, b: seq<T>)
    requires multiset(a) == multiset(b)
    ensures |a| == |b|
  {
    assert |multiset(a)| == |a| && |multiset(b)| == |b|;
  }

  lemma FinishedLocated<T>(work: seq<seq<T>>, s: State<T>)
    requires Owned(work, s) && Finished(work, s)
    ensures Located(Flatten(work), Flatten(s.ids), s.log)
  {
    forall t | 0 <= t < |work| ensures Located(work[t], s.ids[t], s.log) {
      assert HoldsOwn(work[t], s.ids[t], s.log);
    }
    JoinedLocated(work, s.ids, s.log);
  }

  lemma DoneAll<T>(work: seq<seq<T>>, ids: seq<seq<nat>>)
    requires |work| == |ids| && forall t :: 0 <= t < |work| ==> |ids[t]| == |work[t]|
    ensures Done(work, ids) == work
  {
    forall t | 0 <= t < |work| ensures Done(work, ids)[t] == work[t] {
      assert work[t][..|work[t]|] == work[t];
    }
  }

  lemma FinishedStored<T>(work: seq<seq<T>>, s: State<T>)
    requires Stored(work, s) && Finished(work, s)
    ensures |s.log| == |Flatten(work)| && multiset(s.log) == multiset(Flatten(work))
  {
    DoneAll(work, s.ids);
    SameSize(s.log, Flatten(work));
  }

  /** However the threads interleave, the result is that of the threads' lists put end to end. */
  lemma AnyInterleaving<T>(work: seq<seq<T>>, schedule: seq<nat>)
    requires Complete(work, schedule)
    ensures Joined(Flatten(work), Final(work, schedule)) && |schedule| == |Flatten(work)|
  {
    InitInv(work);
    RunInv(work, Init(work), schedule);
    FinishedLocated(work, Final(work, schedule));
    FinishedStored(work, Final(work, schedule));
  }

  /** No interleaving gets stuck: until all threads are done, one of them can go on. */
  lemma NeverStuck<T>(work: seq<seq<T>>, s: State<T>)
    requires Inv(work, s) && !Finished(work, s)
    ensures exists t :: Enabled(work, s, t)
  {
    var t :| 0 <= t < |work| && |s.ids[t]| != |work[t]|;
    assert HoldsOwn(work[t], s.ids[t], s.log);
    assert Enabled(work, s, t);
  }

  // ------------------------------------------------------------------------
  // Chunks

  function CeilDiv(a: nat, b: nat): nat
    requires b > 0
  {
    (a + b - 1) / b
  }

  function ChunkSize(count: nat, threads: nat): nat {
    CeilDiv(count, if threads == 0 then 1 else threads)
  }

  function Start(t: nat, count: nat, chunk: nat): (start: nat)
    ensures start <= count
  {
    ProductNonNegative(t, chunk);
    Min(t * chunk, count)
  }

  function End(t: nat, count: nat, chunk: nat): (end: nat)
    ensures Start(t, count, chunk) <= end <= count
  {
    Min(Start(t, count, chunk) + chunk, count)
  }

  lemma ProductNonNegative(a: nat, b: nat)
    ensures a * b >= 0
  {
  }

  /** One thread's chunk begins where the previous one ended. */
  lemma ChunksMeet(t: nat, count: nat, chunk: nat)
    ensures End(t, count, chunk) == Start(t + 1, count, chunk)
  {
    Distribute(chunk, t, 1);
  }

  lemma ChunksReachEnd(count: nat, threads: nat)
    requires threads > 0
    ensures Start(threads, count, ChunkSize(count, threads)) == count
  {
    var chunk := ChunkSize(count, threads);
    Split(count + threads - 1, threads);
    assert threads * chunk >= count;
  }

  /** The chunks of the first threads. */
  function Chunks<T>(items: seq<T>, threads: nat, chunk: nat): seq<seq<T>> {
    seq(threads, t requires 0 <= t => items[Start(t, |items|, chunk)..End(t, |items|, chunk)])
  }

  lemma {:induction false} ChunksPrefix<T>(items: seq<T>, threads: nat, chunk: nat)
    ensures Flatten(Chunks(items, threads, chunk)) == items[..Start(threads, |items|, chunk)]
  {
    if threads > 0 {
      var t := threads - 1;
      ChunksPrefix(items, t, chunk);
      ChunksMeet(t, |items|, chunk);
      assert Chunks(items, threads, chunk)[..t] == Chunks(items, t, chunk);
    }
  }

  /** With at least one thread the chunks are the items, each once and in order; with none there is no work. */
  lemma ChunksCover<T>(items: seq<T>, threads: nat)
    ensures Flatten(Chunks(items, threads, ChunkSize(|items|, threads))) == if threads == 0 then [] else items
  {
    ChunksPrefix(items, threads, ChunkSize(|items|, threads));
    if threads > 0 {
      ChunksReachEnd(|items|, threads);
    }
  }

  // ------------------------------------------------------------------------
  // Nodes

  /** The node created for index `i`. */
  datatype Node = Node(prefix: string, index: nat, age: nat)

  function NodeFor(prefix: string, i: nat): Node {
    Node(prefix, i, i % 80)
  }

  function NodeItems(prefix: string, count: nat): seq<Node> {
    seq(count, i requires 0 <= i => NodeFor(prefix, i))
  }

  function NodeWork(prefix: string, count: nat, threads: nat): seq<seq<Node>> {
    Chunks(NodeItems(prefix, count), threads, ChunkSize(count, threads))
  }

  /** What thread `t` creates, one node after another. */
  method ThreadNodes(prefix: string, count: nat, threads: nat, t: nat) returns (created: seq<Node>)
    requires t < threads
    ensures created == NodeWork(prefix, count, threads)[t]
  {
    var chunk := ChunkSize(count, threads);
    var start := Start(t, count, chunk);
    var end := End(t, count, chunk);
    created := [];
    for i := start to end
      invariant created == NodeItems(prefix, count)[start..i]
    {
      created := created + [Node(prefix, i, i % 80)];
    }
  }

  /**
   For every count, prefix, number of threads and interleaving: position k of the
   returned ids is the node made for index k, and the storage holds exactly those
   nodes.  With no threads nothing is made and nothing is returned.
   */
  lemma NodesInOrder(prefix: string, count: nat, threads: nat, schedule: seq<nat>)
    requires Complete(NodeWork(prefix, count, threads), schedule)
    ensures Joined(if threads == 0 then [] else NodeItems(prefix, count),
                   Final(NodeWork(prefix, count, threads), schedule))
  {
    ChunksCover(NodeItems(prefix, count), threads);
    AnyInterleaving(NodeWork(prefix, count, threads), schedule);
  }

  // ------------------------------------------------------------------------
  // Edges

  datatype Edge = Edge(source: nat, target: nat, weight: nat)

  /** Otherwise the first edge divides by the number of targets, which is zero. */
  predicate CanTarget(sources: seq<nat>, targets: seq<nat>, degree: nat) {
    targets != [] || degree == 0 || sources == []
  }

  /** The edges of one source. */
  function EdgesOf(sources: seq<nat>, targets: seq<nat>, degree: nat, i: nat): seq<Edge>
    requires i < |sources| && CanTarget(sources, targets, degree)
  {
    seq(degree, j requires 0 <= j < degree => Edge(sources[i], targets[(i + j + 1) % |targets|], i + j))
  }

  /** The sequential double loop over the sources from `lo` to `hi`. */
  function EdgesBetween(sources: seq<nat>, targets: seq<nat>, degree: nat, lo: nat, hi: nat): seq<Edge>
    requires lo <= hi <= |sources| && CanTarget(sources, targets, degree)
    decreases hi - lo
  {
    if lo == hi then []
    else EdgesBetween(sources, targets, degree, lo, hi - 1) + EdgesOf(sources, targets, degree, hi - 1)
  }

  lemma {:induction false} EdgesJoin(sources: seq<nat>, targets: seq<nat>, degree: nat, lo: nat, mid: nat, hi: nat)
    requires lo <= mid <= hi <= |sources| && CanTarget(sources, targets, degree)
    ensures EdgesBetween(sources, targets, degree, lo, mid) + EdgesBetween(sources, targets, degree, mid, hi)
         == EdgesBetween(sources, targets, degree, lo, hi)
    decreases hi
  {
    if mid < hi {
      EdgesJoin(sources, targets, degree, lo, mid, hi - 1);
    }
  }

  method ThreadEdges(sources: seq<nat>, targets: seq<nat>, degree: nat, start: nat, end: nat)
    returns (created: seq<Edge>)
    requires start <= end <= |sources| && CanTarget(sources, targets, degree)
    ensures created == EdgesBetween(sources, targets, degree, start, end)
  {
    created := [];
    for i := start to end
      invariant created == EdgesBetween(sources, targets, degree, start, i)
    {
      ghost var was := created;
      for j := 0 to degree
        invariant created == was + EdgesOf(sources, targets, degree, i)[..j]
      {
        var target := targets[(i + j + 1) % |targets|];
        assert EdgesOf(sources, targets, degree, i)[j] == Edge(sources[i], target, i + j);
        created := created + [Edge(sources[i], target, i + j)];
      }
      assert created == was + EdgesOf(sources, targets, degree, i);
    }
  }

  function EdgeWork(sources: seq<nat>, targets: seq<nat>, degree: nat, threads: nat, chunk: nat): seq<seq<Edge>>
    requires threads > 0 ==> CanTarget(sources, targets, degree)
  {
    seq(threads, t requires 0 <= t < threads =>
      EdgesBetween(sources, targets, degree, Start(t, |sources|, chunk), End(t, |sources|, chunk)))
  }

  lemma {:induction false} EdgeWorkPrefix(sources: seq<nat>, targets: seq<nat>, degree: nat, threads: nat, chunk: nat)
    requires CanTarget(sources, targets, degree)
    ensures Flatten(EdgeWork(sources, targets, degree, threads, chunk))
         == EdgesBetween(sources, targets, degree, 0, Start(threads, |sources|, chunk))
  {
    if threads > 0 {
      var t := threads - 1;
      EdgeWorkPrefix(sources, targets, degree, t, chunk);
      ChunksMeet(t, |sources|, chunk);
      EdgesJoin(sources, targets, degree, 0, Start(t, |sources|, chunk), End(t, |sources|, chunk));
      assert EdgeWork(sources, targets, degree, threads, chunk)[..t] == EdgeWork(sources, targets, degree, t, chunk);
    }
  }

  /**
   For every number of threads and every interleaving, the storage ends with the
   edges of the sequential double loop; with no threads, with none.
   */
  lemma EdgesAsSequential(sources: seq<nat>, targets: seq<nat>, degree: nat, threads: nat, schedule: seq<nat>)
    requires threads > 0 ==> CanTarget(sources, targets, degree)
    requires Complete(EdgeWork(sources, targets, degree, threads, ChunkSize(|sources|, threads)), schedule)
    ensures var s := Final(EdgeWork(sources, targets, degree, threads, ChunkSize(|sources|, threads)), schedule);
            multiset(s.log) ==
              if threads == 0 then multiset{} else multiset(EdgesBetween(sources, targets, degree, 0, |sources|))
  {
    var chunk := ChunkSize(|sources|, threads);
    if threads > 0 {
      EdgeWorkPrefix(sources, targets, degree, threads, chunk);
      ChunksReachEnd(|sources|, threads);
    }
    AnyInterleaving(EdgeWork(sources, targets, degree, threads, chunk), schedule);
  }
}
