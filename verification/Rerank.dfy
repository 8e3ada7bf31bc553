/**
 Vector reranking iterators.  The baseline drains its input on the first call,
 sorts everything and keeps k rows; the engine's iterator keeps a bounded heap
 instead.  Both then hand out their rows one call at a time.
 */
module Rerank {
  import opened Common
  import opened TopK

  datatype Error = Upstream(code: int) | NoVectorIndex | DimensionMismatch

  datatype Result<+T> = Ok(value: T) | Err(error: Error)

  datatype Property = Vector(components: seq<real>) | Plain(identity: int)

  datatype Entity = Node(id: int, properties: map<string, Property>) | NotANode(id: int)

  datatype Row = Row(entity: Entity, score: Option<real>)

  /** What the cosine kernel returns: a finite value, NaN or infinity, or a length error. */
  datatype Similarity = Finite(value: real) | NonFinite | Mismatch

  /** The query: kernel, target vector, result bound and the property to compare. */
  datatype Query = Query(
    cosine: (seq<real>, seq<real>) -> Similarity,
    embedding: seq<real>,
    k: nat,
    property: Option<string>)

  /** An explicit property wins over the storage's default one. */
  function ChosenProperty(requested: Option<string>, default: Option<string>): Option<string> {
    if requested.Some? then requested else default
  }

  // ------------------------------------------------------------------------
  // Scoring

  /** The baseline drops a row that is no node, has no such vector or gets no finite score. */
  function Score(q: Query, property: string, row: Row): Option<real> {
    if !row.entity.Node? || property !in row.entity.properties then None
    else
      match row.entity.properties[property]
      case Plain(_) => None
      case Vector(v) =>
        match q.cosine(q.embedding, v)
        case Finite(value) => Some(value)
        case NonFinite => None
        case Mismatch => None
  }

  /** The engine reports a length error instead of dropping the row. */
  predicate Mismatched(q: Query, property: string, row: Row) {
    && row.entity.Node? && property in row.entity.properties
    && row.entity.properties[property].Vector?
    && q.cosine(q.embedding, row.entity.properties[property].components).Mismatch?
  }

  predicate Clean(items: seq<Result<Row>>) {
    forall i :: 0 <= i < |items| ==> items[i].Ok?
  }

  /** The row with its score, or nothing. */
  function Kept(q: Query, property: string, row: Row): seq<Scored<Row>> {
    match Score(q, property, row)
    case None => []
    case Some(v) => [Scored(row, v)]
  }

  /** The scored rows of an input, in input order. */
  function Collect(q: Query, property: string, items: seq<Result<Row>>): seq<Scored<Row>> {
    if items == [] then []
    else
      Collect(q, property, items[..|items| - 1]) +
      match items[|items| - 1]
      case Ok(row) => Kept(q, property, row)
      case Err(_) => []
  }

  function FirstError(items: seq<Result<Row>>): Error
    requires !Clean(items)
  {
    if items[0].Err? then items[0].error else FirstError(items[1..])
  }

  // ------------------------------------------------------------------------
  // What one call does

  datatype Cursor = Cursor(sorted: Option<seq<Scored<Row>>>, input: Option<seq<Result<Row>>>)

  function Emitted(s: Scored<Row>): Row {
    s.item.(score := Some(s.score))
  }

  /** Hand out the next row of a finished ranking, or nothing. */
  function Emit(c: Cursor): (Option<Result<Row>>, Cursor) {
    match c.sorted
    case None => (None, c)
    case Some(rows) =>
      if rows == [] then (None, c)
      else (Some(Ok(Emitted(rows[0]))), c.(sorted := Some(rows[1..])))
  }

  function NextOutcome(q: Query, c: Cursor): (Option<Result<Row>>, Cursor) {
    if c.sorted.None? && c.input.Some? then
      if q.property.None? then (Some(Err(NoVectorIndex)), c)
      else if !Clean(c.input.value) then (Some(Err(FirstError(c.input.value))), Cursor(None, None))
      else Emit(Cursor(Some(Top(q.k, Collect(q, q.property.value, c.input.value))), None))
    else
      Emit(c)
  }

  /** The results of the first `n` calls. */
  function Outcomes(q: Query, c: Cursor, n: nat): (r: seq<Option<Result<Row>>>)
    ensures |r| == n
    decreases n
  {
    if n == 0 then [] else [NextOutcome(q, c).0] + Outcomes(q, NextOutcome(q, c).1, n - 1)
  }

  function Start(items: seq<Result<Row>>): Cursor {
    Cursor(None, Some(items))
  }

  lemma {:induction false} EmptyRun(q: Query, c: Cursor, n: nat, i: nat)
    requires i < n && (c == Cursor(None, None) || c == Cursor(Some([]), None))
    ensures Outcomes(q, c, n)[i] == None
    decreases n
  {
    if i > 0 {
      EmptyRun(q, c, n - 1, i - 1);
    }
  }

  lemma {:induction false} EmissionRun(q: Query, rows: seq<Scored<Row>>, n: nat, i: nat)
    requires i < n
    ensures Outcomes(q, Cursor(Some(rows), None), n)[i] == if i < |rows| then Some(Ok(Emitted(rows[i]))) else None
    decreases n
  {
    if rows == [] {
      EmptyRun(q, Cursor(Some([]), None), n, i);
    } else if i > 0 {
      EmissionRun(q, rows[1..], n - 1, i - 1);
    }
  }

  lemma {:induction false} UnconfiguredRun(q: Query, items: seq<Result<Row>>, n: nat, i: nat)
    requires i < n && q.property.None?
    ensures Outcomes(q, Start(items), n)[i] == Some(Err(NoVectorIndex))
    decreases n
  {
    if i > 0 {
      UnconfiguredRun(q, items, n - 1, i - 1);
    }
  }

  /**
   Every call of every run.  Without a vector property each call is an error.
   With an input error the first call reports the first one and the rest are
   empty.  Otherwise the calls yield the best k finite-scored rows in stable
   descending order, each carrying its own score, and then nothing forever.
   */
  lemma WholeRun(q: Query, items: seq<Result<Row>>, n: nat, i: nat)
    requires i < n
    ensures Outcomes(q, Start(items), n)[i] ==
              if q.property.None? then Some(Err(NoVectorIndex))
              else if !Clean(items) then (if i == 0 then Some(Err(FirstError(items))) else None)
              else
                var top := Top(q.k, Collect(q, q.property.value, items));
                if i < |top| then Some(Ok(Emitted(top[i]))) else None
  {
    if q.property.None? {
      UnconfiguredRun(q, items, n, i);
    } else if !Clean(items) {
      if i > 0 {
        EmptyRun(q, Cursor(None, None), n - 1, i - 1);
      }
    } else {
      var top := Top(q.k, Collect(q, q.property.value, items));
      EmissionRun(q, top, n, i);
      assert NextOutcome(q, Start(items)) == NextOutcome(q, Cursor(Some(top), None));
    }
  }

  lemma {:induction false} CollectSplits(q: Query, property: string, first: seq<Result<Row>>, rest: seq<Result<Row>>)
    ensures Collect(q, property, first + rest) == Collect(q, property, first) + Collect(q, property, rest)
    decreases |rest|
  {
    if rest == [] {
      assert first + rest == first;
    } else {
      var n := |rest| - 1;
      CollectSplits(q, property, first, rest[..n]);
      assert (first + rest)[..|first + rest| - 1] == first + rest[..n];
    }
  }

  /** Reranking the survivors of one batch with the next batch ranks both batches. */
  lemma RerankStreams(q: Query, property: string, first: seq<Result<Row>>, rest: seq<Result<Row>>)
    ensures Top(q.k, Top(q.k, Collect(q, property, first)) + Collect(q, property, rest)) ==
            Top(q.k, Collect(q, property, first + rest))
  {
    CollectSplits(q, property, first, rest);
    TopStreams(q.k, Collect(q, property, first), Collect(q, property, rest));
  }

  // ------------------------------------------------------------------------
  // The baseline iterator

  lemma {:induction false} FirstErrorAt(items: seq<Result<Row>>, i: nat)
    requires i < |items| && items[i].Err? && Clean(items[..i])
    ensures FirstError(items) == items[i].error
  {
    if i > 0 {
      assert items[0] == items[..i][0];
      assert items[1..][..i - 1] == items[..i][1..];
      FirstErrorAt(items[1..], i - 1);
    }
  }

  class BaselineRerank {
    const query: Query
    var sorted: Option<seq<Scored<Row>>>
    var input: Option<seq<Result<Row>>>

    constructor (items: seq<Result<Row>>, cosine: (seq<real>, seq<real>) -> Similarity, embedding: seq<real>, k: nat,
                 requested: Option<string>, default: Option<string>)
      ensures query == Query(cosine, embedding, k, ChosenProperty(requested, default))
      ensures Cursor(sorted, input) == Start(items)
    {
      query := Query(cosine, embedding, k, if requested.Some? then requested else default);
      sorted, input := None, Some(items);
    }

    method Next() returns (r: Option<Result<Row>>)
      modifies this
      ensures (r, Cursor(sorted, input)) == NextOutcome(query, old(Cursor(sorted, input)))
    {
      if sorted.None? && input.Some? {
        if query.property.None? {
          return Some(Err(NoVectorIndex));
        }
        var items, property := input.value, query.property.value;
        input := None;
        var scored: seq<Scored<Row>> := [];
        for i := 0 to |items|
          invariant Clean(items[..i]) && scored == Collect(query, property, items[..i])
          invariant sorted.None? && input.None?
        {
          if items[i].Err? {
            FirstErrorAt(items, i);
            return Some(Err(items[i].error));
          }
          assert items[..i + 1][..i] == items[..i];
          var similarity := Score(query, property, items[i].value);
          if similarity.Some? {
            scored := scored + [Scored(items[i].value, similarity.value)];
          }
        }
        assert items[..|items|] == items;
        sorted := Some(Top(query.k, scored));
      }
      if sorted.None? || sorted.value == [] {
        return None;
      }
      var first := sorted.value[0];
      sorted := Some(sorted.value[1..]);
      r := Some(Ok(Emitted(first)));
    }
  }

  // ------------------------------------------------------------------------
  // The engine's iterator

  /** The index of some least score; which one among equals is up to the heap. */
  method PeekMinimum(heap: seq<Scored<Row>>) returns (m: nat)
    requires heap != []
    ensures IsMinimum(heap, m)
  {
    m := 0;
    for i := 1 to |heap|
      invariant m < i && forall j :: 0 <= j < i ==> heap[m].score <= heap[j].score
    {
      if heap[i].score < heap[m].score {
        m := i;
      } else if heap[i].score == heap[m].score {
        if * {
          m := i;
        }
      }
    }
  }

  /** Part of the heap has been moved to `r`, least scores first. */
  ghost predicate Draining(heap: seq<Scored<Row>>, rest: seq<Scored<Row>>, r: seq<Scored<Row>>) {
    && Descending(r)
    && multiset(r) + multiset(rest) == multiset(heap)
    && multiset(Scores(r)) + multiset(Scores(rest)) == multiset(Scores(heap))
    && forall i, j :: 0 <= i < |r| && 0 <= j < |rest| ==> r[i].score <= rest[j].score
  }

  lemma DrainStep(heap: seq<Scored<Row>>, rest: seq<Scored<Row>>, r: seq<Scored<Row>>, m: nat)
    requires Draining(heap, rest, r) && IsMinimum(rest, m)
    ensures Draining(heap, Without(rest, m), [rest[m]] + r)
  {
    var x, left := rest[m], Without(rest, m);
    WithoutBag(rest, m);
    ScoresOfParts([x], r);
    assert Scores([x]) == [x.score];
    assert x in multiset(rest) && x.score in multiset(Scores(rest)) by {
      assert Scores(rest)[m] == x.score;
    }
    assert multiset([x] + r) == multiset{x} + multiset(r);
    assert multiset([x.score] + Scores(r)) == multiset{x.score} + multiset(Scores(r));
    forall j | 0 <= j < |left|
      ensures x.score <= left[j].score && forall i :: 0 <= i < |r| ==> r[i].score <= left[j].score
    {
      assert left[j] == rest[if j < m then j else j + 1];
    }
  }

  /** Empty the heap from the least score up, so that the result is descending. */
  method IntoSorted(heap: seq<Scored<Row>>) returns (r: seq<Scored<Row>>)
    ensures Descending(r) && multiset(r) == multiset(heap)
    ensures multiset(Scores(r)) == multiset(Scores(heap))
  {
    var rest := heap;
    r := [];
    while rest != []
      invariant Draining(heap, rest, r)
      decreases |rest|
    {
      var m := PeekMinimum(rest);
      DrainStep(heap, rest, r, m);
      r := [rest[m]] + r;
      rest := Without(rest, m);
    }
  }

  /** Push while there is room; otherwise replace a least element by a better one. */
  method Offer(k: nat, heap: seq<Scored<Row>>, x: Scored<Row>, ghost seen: seq<Scored<Row>>)
    returns (r: seq<Scored<Row>>)
    requires Tracks(k, seen, heap)
    ensures Tracks(k, seen + [x], r)
  {
    r := heap;
    if |heap| < k {
      TracksPush(k, seen, heap, x);
      r := heap + [x];
    } else if heap != [] {
      var m := PeekMinimum(heap);
      if x.score > heap[m].score {
        TracksReplace(k, seen, heap, m, x);
        r := Without(heap, m) + [x];
      } else {
        TracksKeep(k, seen, heap, m, x);
      }
    } else {
      TracksKeep(k, seen, heap, 0, x);
    }
  }

  /** Score a row and offer it; a row without a vector is skipped, one of the wrong length is an error. */
  method OfferRow(q: Query, property: string, heap: seq<Scored<Row>>, row: Row, ghost seen: seq<Scored<Row>>)
    returns (r: Result<seq<Scored<Row>>>)
    requires Tracks(q.k, seen, heap)
    ensures r == Err(DimensionMismatch) <==> Mismatched(q, property, row)
    ensures r.Err? ==> r == Err(DimensionMismatch)
    ensures r.Ok? ==> Tracks(q.k, seen + Kept(q, property, row), r.value)
  {
    if Mismatched(q, property, row) {
      return Err(DimensionMismatch);
    }
    var similarity := Score(q, property, row);
    var offered := heap;
    if similarity.Some? {
      offered := Offer(q.k, heap, Scored(row, similarity.value), seen);
    } else {
      assert seen + [] == seen;
    }
    r := Ok(offered);
  }

  /** The first upstream error or length error among the items, if any. */
  function Failure(q: Query, property: string, items: seq<Result<Row>>): Option<Error> {
    if items == [] then None
    else
      var last := items[|items| - 1];
      match Failure(q, property, items[..|items| - 1])
      case Some(e) => Some(e)
      case None =>
        if last.Err? then Some(last.error)
        else if Mismatched(q, property, last.value) then Some(DimensionMismatch)
        else None
  }

  lemma {:induction false} FailurePersists(q: Query, property: string, items: seq<Result<Row>>, i: nat)
    requires i <= |items|
    ensures Failure(q, property, items[..i]).Some? ==> Failure(q, property, items) == Failure(q, property, items[..i])
    decreases |items| - i
  {
    if i < |items| {
      FailurePersists(q, property, items, i + 1);
      assert items[..i + 1][..i] == items[..i];
    } else {
      assert items[..i] == items;
    }
  }

  /** The engine fails whenever the baseline does, and additionally on length errors. */
  lemma {:induction false} FailureIsErrorOrMismatch(q: Query, property: string, items: seq<Result<Row>>)
    ensures Failure(q, property, items).None? <==>
              Clean(items) && forall i :: 0 <= i < |items| ==> !Mismatched(q, property, items[i].value)
  {
    if items != [] {
      var n := |items| - 1;
      FailureIsErrorOrMismatch(q, property, items[..n]);
      assert items == items[..n] + [items[n]];
    }
  }

  class HeapRerank {
    const query: Query
    var sorted: Option<seq<Scored<Row>>>
    var input: Option<seq<Result<Row>>>

    constructor (items: seq<Result<Row>>, cosine: (seq<real>, seq<real>) -> Similarity, embedding: seq<real>, k: nat,
                 requested: Option<string>, default: Option<string>)
      ensures query == Query(cosine, embedding, k, ChosenProperty(requested, default))
      ensures Cursor(sorted, input) == Start(items)
    {
      query := Query(cosine, embedding, k, if requested.Some? then requested else default);
      sorted, input := None, Some(items);
    }

    /** The bounded-heap pass: stops at the first bad item or length error. */
    method Drain(items: seq<Result<Row>>, property: string) returns (r: Result<seq<Scored<Row>>>)
      ensures Failure(query, property, items) == if r.Err? then Some(r.error) else None
      ensures r.Ok? ==> IsRanking(query.k, Collect(query, property, items), r.value)
    {
      var heap: seq<Scored<Row>> := [];
      ghost var seen: seq<Scored<Row>> := [];
      assert Tracks(query.k, seen, heap);
      hide Tracks, IsRanking, Mismatched, Kept;
      for i := 0 to |items|
        invariant Failure(query, property, items[..i]) == None
        invariant seen == Collect(query, property, items[..i])
        invariant Tracks(query.k, seen, heap)
      {
        FailurePersists(query, property, items, i + 1);
        assert items[..i + 1][..i] == items[..i];
        if items[i].Err? {
          return Err(items[i].error);
        }
        var offered := OfferRow(query, property, heap, items[i].value, seen);
        if offered.Err? {
          return Err(offered.error);
        }
        heap := offered.value;
        seen := seen + Kept(query, property, items[i].value);
      }
      assert items[..|items|] == items;
      var ranking := IntoSorted(heap);
      DrainedHeapRanks(query.k, seen, heap, ranking);
      r := Ok(ranking);
    }

    /** On success the ranking replaces the input; afterwards rows come out as in the baseline. */
    method Next() returns (r: Option<Result<Row>>, ghost ranking: seq<Scored<Row>>)
      modifies this
      ensures old(sorted.Some? || input.None?) ==> (r, Cursor(sorted, input)) == Emit(old(Cursor(sorted, input)))
      ensures old(sorted.None? && input.Some?) && query.property.None? ==>
                r == Some(Err(NoVectorIndex)) && Cursor(sorted, input) == old(Cursor(sorted, input))
      ensures old(sorted.None? && input.Some?) && query.property.Some? ==>
                var items, property := old(input).value, query.property.value;
                match Failure(query, property, items)
                case Some(e) => r == Some(Err(e)) && Cursor(sorted, input) == Cursor(None, None)
                case None => && IsRanking(query.k, Collect(query, property, items), ranking)
                             && (r, Cursor(sorted, input)) == Emit(Cursor(Some(ranking), None))
    {
      ranking := [];
      if sorted.None? && input.Some? {
        if query.property.None? {
          return Some(Err(NoVectorIndex)), [];
        }
        var items := input.value;
        input := None;
        var drained := Drain(items, query.property.value);
        if drained.Err? {
          return Some(Err(drained.error)), [];
        }
        sorted := Some(drained.value);
        ranking := drained.value;
      }
      if sorted.None? || sorted.value == [] {
        return None, ranking;
      }
      var first := sorted.value[0];
      sorted := Some(sorted.value[1..]);
      r := Some(Ok(Emitted(first)));
    }
  }

  // ------------------------------------------------------------------------
  // The engine against the baseline

  /** What call `i` of the engine gives, for the ranking its heap came out with. */
  function EngineOutcome(q: Query, items: seq<Result<Row>>, ranking: seq<Scored<Row>>, i: nat): Option<Result<Row>> {
    if q.property.None? then Some(Err(NoVectorIndex))
    else
      match Failure(q, q.property.value, items)
      case Some(e) => if i == 0 then Some(Err(e)) else None
      case None => if i < |ranking| then Some(Ok(Emitted(ranking[i]))) else None
  }

  /** Where the engine stands after at least one call. */
  function EngineCursor(q: Query, items: seq<Result<Row>>, ranking: seq<Scored<Row>>, calls: nat): Cursor {
    if q.property.None? then Start(items)
    else if Failure(q, q.property.value, items).Some? then Cursor(None, None)
    else Cursor(Some(ranking[Min(calls, |ranking|)..]), None)
  }

  ghost predicate RanksInput(q: Query, items: seq<Result<Row>>, ranking: seq<Scored<Row>>) {
    q.property.Some? && Failure(q, q.property.value, items) == None ==>
      IsRanking(q.k, Collect(q, q.property.value, items), ranking)
  }

  /** No two scored rows of the input score the same. */
  ghost predicate NoTies(scored: seq<Scored<Row>>) {
    forall i, j :: 0 <= i < j < |scored| ==> scored[i].score != scored[j].score
  }

  /** Nothing fails and no scores tie. */
  ghost predicate Comparable(q: Query, items: seq<Result<Row>>) {
    q.property.Some? ==>
      Failure(q, q.property.value, items) == None && NoTies(Collect(q, q.property.value, items))
  }

  /**
   When nothing fails and no scores tie, every call of the engine gives what the
   baseline gives: the heap changes the cost and nothing else.
   */
  lemma EngineIsBaseline(q: Query, items: seq<Result<Row>>, ranking: seq<Scored<Row>>, n: nat, i: nat)
    requires i < n && RanksInput(q, items, ranking) && Comparable(q, items)
    ensures EngineOutcome(q, items, ranking, i) == Outcomes(q, Start(items), n)[i]
  {
    WholeRun(q, items, n, i);
    if q.property.Some? {
      FailureIsErrorOrMismatch(q, q.property.value, items);
      RankingWithoutTies(q.k, Collect(q, q.property.value, items), ranking);
    }
  }

  lemma EngineEmits(q: Query, items: seq<Result<Row>>, ranking: seq<Scored<Row>>, calls: nat)
    requires q.property.Some?
    requires calls > 0 || Failure(q, q.property.value, items) == None
    ensures Emit(EngineCursor(q, items, ranking, calls)) ==
              (EngineOutcome(q, items, ranking, calls), EngineCursor(q, items, ranking, calls + 1))
  {
    hide Failure;
  }

  /** One call of the engine, at any point of a run. */
  method EngineCall(engine: HeapRerank, ghost items: seq<Result<Row>>, ghost was: seq<Scored<Row>>, ghost calls: nat)
    returns (outcome: Option<Result<Row>>, ghost ranking: seq<Scored<Row>>)
    requires calls == 0 ==> Cursor(engine.sorted, engine.input) == Start(items)
    requires calls > 0 ==> Cursor(engine.sorted, engine.input) == EngineCursor(engine.query, items, was, calls)
    requires calls > 0 ==> RanksInput(engine.query, items, was)
    modifies engine
    ensures calls > 0 ==> ranking == was
    ensures RanksInput(engine.query, items, ranking)
    ensures Cursor(engine.sorted, engine.input) == EngineCursor(engine.query, items, ranking, calls + 1)
    ensures outcome == EngineOutcome(engine.query, items, ranking, calls)
  {
    hide Failure, IsRanking, Collect, Emit;
    ghost var q := engine.query;
    outcome, ranking := engine.Next();
    if calls > 0 {
      ranking := was;
    }
    if q.property.Some? && (calls > 0 || Failure(q, q.property.value, items) == None) {
      EngineEmits(q, items, ranking, calls);
    }
  }

  /** The first `n` calls of the engine's iterator. */
  method EngineRun(items: seq<Result<Row>>, cosine: (seq<real>, seq<real>) -> Similarity, embedding: seq<real>, k: nat,
                   requested: Option<string>, default: Option<string>, n: nat)
    returns (outcomes: seq<Option<Result<Row>>>, ghost ranking: seq<Scored<Row>>)
    ensures |outcomes| == n
    ensures var q := Query(cosine, embedding, k, ChosenProperty(requested, default));
            && (n > 0 ==> RanksInput(q, items, ranking))
            && forall i :: 0 <= i < n ==> outcomes[i] == EngineOutcome(q, items, ranking, i)
    ensures var q := Query(cosine, embedding, k, ChosenProperty(requested, default));
            Comparable(q, items) ==> outcomes == Outcomes(q, Start(items), n)
  {
    hide EngineCursor, EngineOutcome, RanksInput, Comparable, Outcomes;
    var engine := new HeapRerank(items, cosine, embedding, k, requested, default);
    ghost var q := engine.query;
    outcomes, ranking := [], [];
    for calls := 0 to n
      invariant fresh(engine) && engine.query == q && |outcomes| == calls
      invariant calls == 0 ==> Cursor(engine.sorted, engine.input) == Start(items)
      invariant calls > 0 ==> Cursor(engine.sorted, engine.input) == EngineCursor(q, items, ranking, calls)
      invariant calls > 0 ==> RanksInput(q, items, ranking)
      invariant forall i :: 0 <= i < calls ==> outcomes[i] == EngineOutcome(q, items, ranking, i)
    {
      var outcome;
      outcome, ranking := EngineCall(engine, items, ranking, calls);
      outcomes := outcomes + [outcome];
    }
    if Comparable(q, items) {
      forall i | 0 <= i < n ensures outcomes[i] == Outcomes(q, Start(items), n)[i] {
        EngineIsBaseline(q, items, ranking, n, i);
      }
    }
  }
}
