/**
 The disposable pool behind the delete scenarios. Delete number `i` names entry
 `i % pool` of a pool of distinct ids; the round-trip database and the direct
 database are separate copies.
 */
module DeletePool {
  import opened Common

  /** The deletes of the round-trip database, in order: warm-up, then timed. */
  function RoundTripTrace(warmup: nat, samples: nat): seq<nat> {
    seq(warmup + samples, j requires 0 <= j => j)
  }

  /** The deletes of the direct database: one probe, warm-up, then timed from a later index. */
  function DirectTrace(warmup: nat, samples: nat): seq<nat> {
    [0] + seq(warmup, j requires 0 <= j => j) + seq(samples, j requires 0 <= j => warmup + samples + j)
  }

  function Named(pool: seq<nat>, i: nat): nat
    requires |pool| > 0
  {
    pool[i % |pool|]
  }

  /** The k-th delete names an id no earlier delete of the same database named. */
  ghost predicate HitsLive(pool: seq<nat>, trace: seq<nat>, k: nat)
    requires |pool| > 0 && k < |trace|
  {
    forall j :: 0 <= j < k ==> Named(pool, trace[j]) != Named(pool, trace[k])
  }

  /** Issues deletes `from` to `to` of a trace and notes which of them found their target. */
  method Delete(pool: seq<nat>, ghost trace: seq<nat>, args: seq<nat>, gone: set<nat>, ghost from: nat)
    returns (gone': set<nat>, live: seq<bool>)
    requires |pool| > 0 && from + |args| <= |trace| && trace[from..from + |args|] == args
    requires forall id :: id in gone <==> exists j :: 0 <= j < from && Named(pool, trace[j]) == id
    ensures forall id :: id in gone' <==> exists j :: 0 <= j < from + |args| && Named(pool, trace[j]) == id
    ensures |live| == |args| && forall i :: 0 <= i < |args| ==> (live[i] <==> HitsLive(pool, trace, from + i))
  {
    gone', live := gone, [];
    for i := 0 to |args|
      invariant forall id :: id in gone' <==> exists j :: 0 <= j < from + i && Named(pool, trace[j]) == id
      invariant |live| == i && forall k :: 0 <= k < i ==> (live[k] <==> HitsLive(pool, trace, from + k))
    {
      var id := Named(pool, args[i]);
      assert args[i] == trace[from..from + |args|][i] == trace[from + i];
      live := live + [id !in gone'];
      gone' := gone' + {id};
    }
  }

  /** Both databases, as the scenario drives them; the out-parameters are the timed deletes. */
  method MeasureDeletes(pool: seq<nat>, warmup: nat, samples: nat) returns (roundTrip: seq<bool>, direct: seq<bool>)
    requires |pool| > 0
    ensures |roundTrip| == |direct| == samples
    ensures forall i :: 0 <= i < samples ==>
              (roundTrip[i] <==> HitsLive(pool, RoundTripTrace(warmup, samples), warmup + i))
    ensures forall i :: 0 <= i < samples ==>
              (direct[i] <==> HitsLive(pool, DirectTrace(warmup, samples), 1 + warmup + i))
  {
    var warm := seq(warmup, j requires 0 <= j => j);
    var gone, untimed := Delete(pool, RoundTripTrace(warmup, samples), warm, {}, 0);
    var timed := seq(samples, j requires 0 <= j => warmup + j);
    gone, roundTrip := Delete(pool, RoundTripTrace(warmup, samples), timed, gone, warmup);
    gone, untimed := Delete(pool, DirectTrace(warmup, samples), [0], {}, 0);
    gone, untimed := Delete(pool, DirectTrace(warmup, samples), warm, gone, 1);
    timed := seq(samples, j requires 0 <= j => warmup + samples + j);
    gone, direct := Delete(pool, DirectTrace(warmup, samples), timed, gone, 1 + warmup);
  }

  /** Every timed delete of both databases finds its target. */
  ghost predicate AllLive(pool: seq<nat>, warmup: nat, samples: nat)
    requires |pool| > 0
  {
    && (forall i :: warmup <= i < warmup + samples ==> HitsLive(pool, RoundTripTrace(warmup, samples), i))
    && (forall i :: 1 + warmup <= i < 1 + warmup + samples ==> HitsLive(pool, DirectTrace(warmup, samples), i))
  }

  /** No index of the trace wraps around. */
  predicate Within(trace: seq<nat>, size: nat) {
    forall k :: 0 <= k < |trace| ==> trace[k] < size
  }

  lemma DirectAt(warmup: nat, samples: nat, k: nat)
    requires k < 1 + warmup + samples
    ensures var t := DirectTrace(warmup, samples);
            t[k] == if k == 0 then 0 else if k <= warmup then k - 1 else samples + k - 1
  {
  }

  lemma DifferentNames(pool: seq<nat>, i: nat, j: nat)
    requires Distinct(pool) && i < j < |pool|
    ensures Named(pool, i) != Named(pool, j)
  {
    assert i % |pool| == i && j % |pool| == j;
  }

  lemma LargePoolSuffices(pool: seq<nat>, warmup: nat, samples: nat)
    requires Distinct(pool) && |pool| > 0 && warmup + 2 * samples <= |pool|
    ensures AllLive(pool, warmup, samples)
  {
    var t, d := RoundTripTrace(warmup, samples), DirectTrace(warmup, samples);
    forall i, j | warmup <= i < warmup + samples && 0 <= j < i ensures Named(pool, t[j]) != Named(pool, t[i]) {
      DifferentNames(pool, j, i);
    }
    forall i, j | 1 + warmup <= i < 1 + warmup + samples && 0 <= j < i ensures Named(pool, d[j]) != Named(pool, d[i]) {
      DirectAt(warmup, samples, i);
      DirectAt(warmup, samples, j);
      DifferentNames(pool, d[j], d[i]);
    }
  }

  lemma WrapsToStart(pool: seq<nat>)
    requires |pool| > 0
    ensures Named(pool, 0) == Named(pool, |pool|)
  {
  }

  /** The direct deletes run past the end, to the id the probe deleted. */
  lemma DirectWraps(pool: seq<nat>, warmup: nat, samples: nat)
    requires warmup + samples <= |pool| < warmup + 2 * samples
    ensures !AllLive(pool, warmup, samples)
  {
    var d, k := DirectTrace(warmup, samples), |pool| - samples + 1;
    DirectAt(warmup, samples, 0);
    DirectAt(warmup, samples, k);
    WrapsToStart(pool);
    assert Named(pool, d[0]) == Named(pool, d[k]);
    assert !HitsLive(pool, d, k);
  }

  /** The round-trip deletes repeat an index of the first lap. */
  lemma RoundTripWraps(pool: seq<nat>, warmup: nat, samples: nat)
    requires 0 < |pool| < warmup + samples && samples > 0
    ensures !AllLive(pool, warmup, samples)
  {
    var n, t := |pool|, RoundTripTrace(warmup, samples);
    if n >= warmup {
      WrapsToStart(pool);
      assert Named(pool, t[0]) == Named(pool, t[n]);
      assert !HitsLive(pool, t, n);
    } else {
      var j := warmup % n;
      assert j % n == j;
      assert Named(pool, t[j]) == Named(pool, t[warmup]);
      assert !HitsLive(pool, t, warmup);
    }
  }

  /**
   No timed delete names an id already gone exactly when the pool holds
   `warmup + 2 * samples` ids, although the probe reuses index 0; the sizing of
   the fixture is that plus a margin.
   */
  lemma TimedDeletesHitLive(pool: seq<nat>, warmup: nat, samples: nat)
    requires Distinct(pool) && |pool| > 0 && samples > 0
    ensures AllLive(pool, warmup, samples) <==> warmup + 2 * samples <= |pool|
    ensures |pool| == warmup + 2 * samples + 200 ==>
              && AllLive(pool, warmup, samples)
              && Within(RoundTripTrace(warmup, samples), |pool|) && Within(DirectTrace(warmup, samples), |pool|)
  {
    if warmup + 2 * samples <= |pool| {
      LargePoolSuffices(pool, warmup, samples);
    } else if warmup + samples <= |pool| {
      DirectWraps(pool, warmup, samples);
    } else {
      RoundTripWraps(pool, warmup, samples);
    }
  }
}
