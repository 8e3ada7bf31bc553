/**
 Anchor-and-delta version chains: how a node's property history is compressed
 into full anchors and deltas, and read back.

 Vector components are exact reals; every other property value is compared by
 identity.  Deltas drop a component whose change is at most EPSILON, so a chain
 is a lossy store and the theorems say exactly how lossy.
 */
module VersionChain {
  import opened Common
  import Modular

  type Key = string

  datatype Value = Vector(components: seq<real>) | Other(identity: int)

  type Properties = map<Key, Value>

  const EPSILON: real := 0.0000001
  const MAX_VECTOR_DIMENSIONS: nat := 100_000

  datatype Result<+T> = Ok(value: T) | Err(error: Error)

  datatype Error = MaxDepthExceeded | CapacityExceeded | VersionNotFound

  // ------------------------------------------------------------------------
  // Vector deltas

  datatype VectorDelta =
    | Sparse(dimension: nat, changes: seq<(nat, real)>)
    | Full(components: seq<real>)

  predicate Far(a: real, b: real) {
    a - b > EPSILON || b - a > EPSILON
  }

  /** The components among the first `n` that moved by more than EPSILON, with their new values. */
  function Changes(was: seq<real>, now: seq<real>, n: nat): seq<(nat, real)>
    requires n <= |was| == |now|
  {
    if n == 0 then []
    else Changes(was, now, n - 1) + (if Far(was[n - 1], now[n - 1]) then [(n - 1, now[n - 1])] else [])
  }

  function VectorDiff(was: seq<real>, now: seq<real>): Option<VectorDelta> {
    if |was| != |now| || |was| > MAX_VECTOR_DIMENSIONS then
      None
    else
      var changes := Changes(was, now, |was|);
      if changes == [] then None
      else if |changes| * 2 < |was| then Some(Sparse(|was|, changes))
      else Some(Full(now))
  }

  function Patch(base: seq<real>, changes: seq<(nat, real)>): (r: seq<real>)
    ensures |r| == |base|
  {
    if changes == [] then base
    else
      var rest, (i, v) := Patch(base, changes[..|changes| - 1]), changes[|changes| - 1];
      if i < |rest| then rest[i := v] else rest
  }

  function ApplyVector(delta: VectorDelta, base: seq<real>): seq<real> {
    match delta
    case Sparse(dimension, changes) => if |base| != dimension then base else Patch(base, changes)
    case Full(components) => components
  }

  method DiffVectors(was: seq<real>, now: seq<real>) returns (delta: Option<VectorDelta>)
    ensures delta == VectorDiff(was, now)
  {
    if |was| != |now| || |was| > MAX_VECTOR_DIMENSIONS {
      return None;
    }
    var changes := [];
    for i := 0 to |was|
      invariant changes == Changes(was, now, i)
    {
      if Far(was[i], now[i]) {
        changes := changes + [(i, now[i])];
      }
    }
    if changes == [] {
      return None;
    }
    delta := if |changes| * 2 < |was| then Some(Sparse(|was|, changes)) else Some(Full(now));
  }

  method ApplyVectorDelta(delta: VectorDelta, base: seq<real>) returns (result: seq<real>)
    ensures result == ApplyVector(delta, base)
  {
    match delta
    case Full(components) =>
      result := components;
    case Sparse(dimension, changes) =>
      if |base| != dimension {
        return base;
      }
      result := base;
      for n := 0 to |changes|
        invariant result == Patch(base, changes[..n])
      {
        assert changes[..n + 1][..n] == changes[..n];
        var (i, v) := changes[n];
        if i < |result| {
          result := result[i := v];
        }
      }
      assert changes[..|changes|] == changes;
  }

  /** Patching writes exactly the far components and leaves the others as they were in the base. */
  lemma {:induction false} PatchAt(base: seq<real>, was: seq<real>, now: seq<real>, n: nat, i: nat)
    requires n <= |was| == |now| == |base| && i < |base|
    ensures Patch(base, Changes(was, now, n))[i] == if i < n && Far(was[i], now[i]) then now[i] else base[i]
  {
    if n > 0 {
      PatchAt(base, was, now, n - 1, i);
      var changes := Changes(was, now, n);
      if Far(was[n - 1], now[n - 1]) {
        assert changes[..|changes| - 1] == Changes(was, now, n - 1);
      } else {
        assert changes == Changes(was, now, n - 1);
      }
    }
  }

  lemma {:induction false} ChangesEmpty(was: seq<real>, now: seq<real>, n: nat)
    requires n <= |was| == |now|
    ensures Changes(was, now, n) == [] <==> forall i :: 0 <= i < n ==> !Far(was[i], now[i])
  {
    if n > 0 {
      ChangesEmpty(was, now, n - 1);
    }
  }

  // ------------------------------------------------------------------------
  // Property deltas

  datatype PropertyDelta = PropertyDelta(
    changed: map<Key, Value>,
    vectors: map<Key, VectorDelta>,
    removed: set<Key>)

  predicate BothVectors(was: Properties, now: Properties, k: Key) {
    k in was && k in now && was[k].Vector? && now[k].Vector?
  }

  predicate IsChanged(was: Properties, now: Properties, k: Key)
    requires k in now
  {
    || k !in was
    || (was[k] != now[k] &&
        (BothVectors(was, now, k) ==> |was[k].components| != |now[k].components|))
  }

  predicate IsVectorChange(was: Properties, now: Properties, k: Key)
    requires k in now
  {
    && BothVectors(was, now, k)
    && was[k] != now[k]
    && VectorDiff(was[k].components, now[k].components).Some?
  }

  function Diff(was: Properties, now: Properties): PropertyDelta {
    PropertyDelta(
      map k | k in now && IsChanged(was, now, k) :: now[k],
      map k | k in now && IsVectorChange(was, now, k) :: VectorDiff(was[k].components, now[k].components).value,
      was.Keys - now.Keys)
  }

  /** A sparse delta is dropped when the base has no vector under its key. */
  predicate Lands(delta: PropertyDelta, base: Properties, k: Key) {
    k in delta.vectors && (delta.vectors[k].Full? || (k in base && base[k].Vector?))
  }

  function Apply(delta: PropertyDelta, base: Properties): Properties {
    map k | k in (base.Keys - delta.removed) + delta.changed.Keys + delta.vectors.Keys
            && (Lands(delta, base, k) || k in delta.changed || (k in base && k !in delta.removed)) ::
      if Lands(delta, base, k) then
        Vector(match delta.vectors[k]
               case Full(components) => components
               case Sparse(_, _) => ApplyVector(delta.vectors[k], base[k].components))
      else if k in delta.changed then delta.changed[k]
      else base[k]
  }

  lemma NothingChanged(p: Properties)
    ensures Diff(p, p) == PropertyDelta(map[], map[], {})
  {
  }

  lemma NothingApplied(delta: PropertyDelta, base: Properties)
    requires delta.changed == map[] && delta.vectors == map[] && delta.removed == {}
    ensures Apply(delta, base) == base
  {
  }

  datatype Change = Same | Whole | Part(delta: VectorDelta)

  /** The body of the loop: what one key of the new map contributes. */
  method CompareAt(was: Properties, now: Properties, k: Key) returns (c: Change)
    requires k in now
    ensures c.Whole? <==> IsChanged(was, now, k)
    ensures c.Part? <==> IsVectorChange(was, now, k)
    ensures c.Part? ==> c.delta == VectorDiff(was[k].components, now[k].components).value
  {
    if k !in was {
      return Whole;
    } else if was[k] != now[k] {
      if was[k].Vector? && now[k].Vector? {
        var d := DiffVectors(was[k].components, now[k].components);
        if d.Some? {
          return Part(d.value);
        } else if |was[k].components| != |now[k].components| {
          return Whole;
        }
      } else {
        return Whole;
      }
    }
    return Same;
  }

  /** The source's loop over the new map, then over the old keys. */
  method DiffProperties(was: Properties, now: Properties) returns (delta: PropertyDelta)
    ensures delta == Diff(was, now)
  {
    var changed: map<Key, Value>, vectors: map<Key, VectorDelta> := map[], map[];
    if was == now {
      NothingChanged(was);
      return PropertyDelta(map[], map[], {});
    }
    hide VectorDiff, IsChanged, IsVectorChange, Diff, WholeIn, PartsIn;
    NoneCompared(was, now);
    var todo := now.Keys;
    while todo != {}
      invariant todo <= now.Keys
      invariant changed == WholeIn(was, now, now.Keys - todo) && vectors == PartsIn(was, now, now.Keys - todo)
      decreases todo
    {
      var k :| k in todo;
      var c := CompareAt(was, now, k);
      CompareOne(was, now, now.Keys - todo, k, c);
      assert now.Keys - (todo - {k}) == now.Keys - todo + {k};
      todo := todo - {k};
      match c
      case Whole => changed := changed[k := now[k]];
      case Part(d) => vectors := vectors[k := d];
      case Same =>
    }
    var removed := set k | k in was && k !in now;
    delta := PropertyDelta(changed, vectors, removed);
    AllCompared(was, now);
  }

  /** The two maps after comparing some of the keys. */
  ghost function WholeIn(was: Properties, now: Properties, keys: set<Key>): map<Key, Value> {
    map k | k in now && k in keys && IsChanged(was, now, k) :: now[k]
  }

  ghost function PartsIn(was: Properties, now: Properties, keys: set<Key>): map<Key, VectorDelta> {
    map k | k in now && k in keys && IsVectorChange(was, now, k) ::
      VectorDiff(was[k].components, now[k].components).value
  }

  lemma NoneCompared(was: Properties, now: Properties)
    ensures WholeIn(was, now, now.Keys - now.Keys) == map[] && PartsIn(was, now, now.Keys - now.Keys) == map[]
  {
  }

  lemma CompareOne(was: Properties, now: Properties, keys: set<Key>, k: Key, c: Change)
    requires k in now && k !in keys
    requires c.Whole? <==> IsChanged(was, now, k)
    requires c.Part? <==> IsVectorChange(was, now, k)
    requires c.Part? ==> c.delta == VectorDiff(was[k].components, now[k].components).value
    ensures WholeIn(was, now, keys + {k}) ==
              if c.Whole? then WholeIn(was, now, keys)[k := now[k]] else WholeIn(was, now, keys)
    ensures PartsIn(was, now, keys + {k}) ==
              if c.Part? then PartsIn(was, now, keys)[k := c.delta] else PartsIn(was, now, keys)
  {
    hide VectorDiff, IsChanged;
  }

  lemma AllCompared(was: Properties, now: Properties)
    ensures Diff(was, now) ==
              PropertyDelta(WholeIn(was, now, now.Keys - {}), PartsIn(was, now, now.Keys - {}),
                            set k | k in was && k !in now)
  {
    assert now.Keys - {} == now.Keys;
    assert was.Keys - now.Keys == set k | k in was && k !in now;
    assert Diff(was, now).changed == WholeIn(was, now, now.Keys);
    assert Diff(was, now).vectors == PartsIn(was, now, now.Keys);
  }

  /** The body of the third loop: what one vector delta puts under its key, if anything. */
  method VectorAt(delta: PropertyDelta, base: Properties, k: Key) returns (v: Option<Value>)
    requires k in delta.vectors
    ensures v.Some? <==> Lands(delta, base, k)
    ensures v.Some? ==> k in Apply(delta, base) && v.value == Apply(delta, base)[k]
  {
    match delta.vectors[k]
    case Full(components) =>
      return Some(Vector(components));
    case Sparse(_, _) =>
      if k in base && base[k].Vector? {
        var components := ApplyVectorDelta(delta.vectors[k], base[k].components);
        return Some(Vector(components));
      }
      return None;
  }

  /** After the first two loops. */
  function Plain(delta: PropertyDelta, base: Properties): Properties {
    (map k | k in base && k !in delta.removed && k !in delta.changed :: base[k]) + delta.changed
  }

  /** The vector deltas done so far, over the plain changes. */
  ghost predicate Landed(delta: PropertyDelta, base: Properties, todo: set<Key>, result: Properties) {
    forall k ::
      if k in delta.vectors && k !in todo && Lands(delta, base, k)
      then k in result && k in Apply(delta, base) && result[k] == Apply(delta, base)[k]
      else (k in result <==> k in Plain(delta, base)) && (k in result ==> result[k] == Plain(delta, base)[k])
  }

  lemma AllLanded(delta: PropertyDelta, base: Properties, result: Properties)
    requires Landed(delta, base, {}, result)
    ensures result == Apply(delta, base)
  {
    forall k
      ensures k in result <==> k in Apply(delta, base)
      ensures k in result ==> result[k] == Apply(delta, base)[k]
    {
    }
  }

  lemma NoneLanded(delta: PropertyDelta, base: Properties)
    ensures Landed(delta, base, delta.vectors.Keys, Plain(delta, base))
  {
  }

  lemma LandOne(delta: PropertyDelta, base: Properties, todo: set<Key>, result: Properties, k: Key, v: Option<Value>)
    requires Landed(delta, base, todo, result) && k in todo && k in delta.vectors
    requires v.Some? <==> Lands(delta, base, k)
    requires v.Some? ==> k in Apply(delta, base) && v.value == Apply(delta, base)[k]
    ensures Landed(delta, base, todo - {k}, if v.Some? then result[k := v.value] else result)
  {
    hide Apply, Lands, Plain;
  }

  /** The source's three loops: unchanged base entries, plain changes, vector deltas. */
  method ApplyProperties(delta: PropertyDelta, base: Properties) returns (result: Properties)
    ensures result == Apply(delta, base)
  {
    if delta.changed == map[] && delta.vectors == map[] && delta.removed == {} {
      NothingApplied(delta, base);
      return base;
    }
    result := map k | k in base && k !in delta.removed && k !in delta.changed :: base[k];
    result := result + delta.changed;
    assert result == Plain(delta, base);
    NoneLanded(delta, base);
    hide Apply, Lands, Landed, Plain;
    var todo := delta.vectors.Keys;
    while todo != {}
      invariant todo <= delta.vectors.Keys
      invariant Landed(delta, base, todo, result)
      decreases todo
    {
      var k :| k in todo;
      var v := VectorAt(delta, base, k);
      LandOne(delta, base, todo, result, k, v);
      todo := todo - {k};
      if v.Some? {
        result := result[k := v.value];
      }
    }
    AllLanded(delta, base, result);
  }

  // ------------------------------------------------------------------------
  // One delta: when it loses nothing

  /** A delta stores this vector change without loss. */
  predicate Lossless(was: seq<real>, now: seq<real>) {
    || |was| != |now|
    || was == now
    || (&& |was| <= MAX_VECTOR_DIMENSIONS
        && (|| (forall i :: 0 <= i < |was| ==> was[i] == now[i] || Far(was[i], now[i]))
            || 0 < |was| <= 2 * |Changes(was, now, |was|)|))
  }

  /** The value `Apply` produces for a key the two maps share. */
  function Reapplied(was: Value, now: Value): Value {
    if was == now || !was.Vector? || !now.Vector? || |was.components| != |now.components| then now
    else
      match VectorDiff(was.components, now.components)
      case None => was
      case Some(d) => Vector(ApplyVector(d, was.components))
  }

  lemma ReappliedExact(was: seq<real>, now: seq<real>)
    requires |was| == |now|
    ensures Reapplied(Vector(was), Vector(now)) == Vector(now) <==> Lossless(was, now)
  {
    if was != now {
      var changes := Changes(was, now, |was|);
      ChangesEmpty(was, now, |was|);
      if |was| <= MAX_VECTOR_DIMENSIONS && changes != [] && |changes| * 2 < |was| {
        var patched := Patch(was, changes);
        forall i | 0 <= i < |was|
          ensures patched[i] == if Far(was[i], now[i]) then now[i] else was[i]
        {
          PatchAt(was, was, now, |was|, i);
        }
      }
    }
  }

  lemma ApplyDiffPointwise(was: Properties, now: Properties)
    ensures var r := Apply(Diff(was, now), was);
            && r.Keys == now.Keys
            && forall k :: k in now ==> r[k] == if k in was then Reapplied(was[k], now[k]) else now[k]
  {
    var d := Diff(was, now);
    var r := Apply(d, was);
    forall k | k in now
      ensures k in r && r[k] == if k in was then Reapplied(was[k], now[k]) else now[k]
    {
    }
  }

  /**
   Applying a diff to the map it was taken from gives the new map back exactly
   when every vector the two maps share at equal length is stored without loss.
   */
  lemma DiffApplyRoundTrip(was: Properties, now: Properties)
    ensures Apply(Diff(was, now), was) == now <==>
              forall k :: BothVectors(was, now, k) ==> Lossless(was[k].components, now[k].components)
  {
    ApplyDiffPointwise(was, now);
    var r := Apply(Diff(was, now), was);
    forall k | BothVectors(was, now, k)
      ensures r[k] == now[k] <==> Lossless(was[k].components, now[k].components)
    {
      if |was[k].components| == |now[k].components| {
        ReappliedExact(was[k].components, now[k].components);
      }
    }
    forall k | k in now && !BothVectors(was, now, k)
      ensures r[k] == now[k]
    {
    }
  }

  // ------------------------------------------------------------------------
  // One delta on a base that has drifted

  predicate CloseVectors(u: seq<real>, v: seq<real>, tolerance: real) {
    |u| == |v| && forall i :: 0 <= i < |u| ==> -tolerance <= u[i] - v[i] <= tolerance
  }

  predicate CloseValues(a: Value, b: Value, tolerance: real) {
    if a.Vector? && b.Vector? then CloseVectors(a.components, b.components, tolerance) else a == b
  }

  /** Same keys, same non-vector values, every vector component within `tolerance`. */
  predicate Close(p: Properties, q: Properties, tolerance: real) {
    p.Keys == q.Keys && forall k :: k in p ==> CloseValues(p[k], q[k], tolerance)
  }

  /** No vector is longer than the dimension limit. */
  predicate Bounded(p: Properties) {
    forall k :: k in p && p[k].Vector? ==> |p[k].components| <= MAX_VECTOR_DIMENSIONS
  }

  lemma PatchClose(base: seq<real>, was: seq<real>, now: seq<real>, tolerance: real)
    requires CloseVectors(base, was, tolerance) && |was| == |now| && tolerance >= 0.0
    ensures CloseVectors(Patch(base, Changes(was, now, |was|)), now, tolerance + EPSILON)
  {
    var patched := Patch(base, Changes(was, now, |was|));
    forall i | 0 <= i < |base|
      ensures -(tolerance + EPSILON) <= patched[i] - now[i] <= tolerance + EPSILON
    {
      PatchAt(base, was, now, |was|, i);
    }
  }

  lemma ApplyDiffCloseAt(base: Properties, was: Properties, now: Properties, tolerance: real, k: Key)
    requires Close(base, was, tolerance) && tolerance >= 0.0 && Bounded(now) && k in now
    ensures var r := Apply(Diff(was, now), base); k in r && CloseValues(r[k], now[k], tolerance + EPSILON)
  {
    if BothVectors(was, now, k) && was[k] != now[k] && |was[k].components| == |now[k].components| {
      var u, v := was[k].components, now[k].components;
      assert CloseValues(base[k], was[k], tolerance);
      ChangesEmpty(u, v, |u|);
      PatchClose(base[k].components, u, v, tolerance);
    } else if k in was {
      assert CloseValues(base[k], was[k], tolerance);
    }
  }

  lemma ApplyDiffKeys(base: Properties, was: Properties, now: Properties)
    requires base.Keys == was.Keys
    ensures Apply(Diff(was, now), base).Keys <= now.Keys
  {
  }

  /** One more delta adds at most EPSILON of error to whatever its base already had. */
  lemma ApplyDiffClose(base: Properties, was: Properties, now: Properties, tolerance: real)
    requires Close(base, was, tolerance) && tolerance >= 0.0 && Bounded(now)
    ensures Close(Apply(Diff(was, now), base), now, tolerance + EPSILON)
  {
    hide Apply, Diff, CloseValues;
    var r := Apply(Diff(was, now), base);
    ApplyDiffKeys(base, was, now);
    forall k | k in now ensures k in r && CloseValues(r[k], now[k], tolerance + EPSILON) {
      ApplyDiffCloseAt(base, was, now, tolerance, k);
    }
  }

  // ------------------------------------------------------------------------
  // Chains

  datatype Version = Anchor(properties: Properties) | Delta(delta: PropertyDelta)

  /** Deltas between version `id` and its anchor. */
  function Depth(versions: seq<Version>, id: nat): nat
    requires id < |versions|
  {
    if versions[id].Anchor? || id == 0 then 0 else 1 + Depth(versions, id - 1)
  }

  /** What the chain itself says version `id` holds. */
  function Reconstructed(versions: seq<Version>, id: nat): Properties
    requires id < |versions|
  {
    match versions[id]
    case Anchor(properties) => properties
    case Delta(delta) => Apply(delta, if id == 0 then map[] else Reconstructed(versions, id - 1))
  }

  lemma {:induction false} ChainPrefix(versions: seq<Version>, more: seq<Version>, id: nat)
    requires id < |versions|
    ensures Depth(versions + more, id) == Depth(versions, id)
    ensures Reconstructed(versions + more, id) == Reconstructed(versions, id)
  {
    if versions[id].Delta? && id > 0 {
      ChainPrefix(versions, more, id - 1);
    }
  }

  /** Every shared vector of equal length changes without loss. */
  predicate LosslessStep(was: Properties, now: Properties) {
    forall k :: k in was && BothVectors(was, now, k) ==> Lossless(was[k].components, now[k].components)
  }

  /** Version `id` is within EPSILON per delta of what was written, anchors being exact. */
  ghost predicate Recoverable(versions: seq<Version>, written: seq<Properties>, interval: nat, id: nat)
    requires id < |written| == |versions|
  {
    && (Depth(versions, id) > 0 ==> Depth(versions, id) < interval)
    && (id == 0 ==> versions[id].Anchor?)
    && (versions[id].Anchor? ==> versions[id].properties == written[id])
    && Close(Reconstructed(versions, id), written[id], Depth(versions, id) as real * EPSILON)
  }

  ghost predicate ChainOk(versions: seq<Version>, written: seq<Properties>, interval: nat) {
    |written| == |versions| && forall id :: 0 <= id < |versions| ==> Recoverable(versions, written, interval, id)
  }

  /** The chain alone gives back exactly what was written. */
  ghost predicate Faithful(versions: seq<Version>, written: seq<Properties>) {
    |written| == |versions| && forall id :: 0 <= id < |versions| ==> Reconstructed(versions, id) == written[id]
  }

  lemma CloseToItself(p: Properties, tolerance: real)
    requires tolerance >= 0.0
    ensures Close(p, p, tolerance)
  {
  }

  /**
   A delta taken from a cached copy (what was written) or from the chain (what
   is reconstructed) drifts by at most one more EPSILON.
   */
  lemma AppendedClose(base: Properties, was: Properties, written: Properties, now: Properties, depth: nat)
    requires Bounded(now)
    requires was == written || was == base
    requires Close(base, written, depth as real * EPSILON)
    ensures Close(Apply(Diff(was, now), base), now, (depth + 1) as real * EPSILON)
  {
    var d := depth as real * EPSILON;
    assert (depth + 1) as real * EPSILON == d + EPSILON;
    if was == written {
      ApplyDiffClose(base, was, now, d);
    } else {
      CloseToItself(base, 0.0);
      ApplyDiffClose(base, was, now, 0.0);
    }
  }

  lemma ExtendChain(versions: seq<Version>, written: seq<Properties>, interval: nat, version: Version, now: Properties)
    requires ChainOk(versions, written, interval)
    requires Recoverable(versions + [version], written + [now], interval, |versions|)
    ensures ChainOk(versions + [version], written + [now], interval)
  {
    var chain, texts := versions + [version], written + [now];
    forall id | 0 <= id < |versions|
      ensures Recoverable(chain, texts, interval, id)
    {
      assert Recoverable(versions, written, interval, id);
      ChainPrefix(versions, [version], id);
    }
    assert chain[|versions|] == version && texts[|versions|] == now;
  }

  /** Appending an anchor keeps the chain, and keeps it exact. */
  lemma ExtendWithAnchor(versions: seq<Version>, written: seq<Properties>, interval: nat, now: Properties)
    requires ChainOk(versions, written, interval)
    ensures ChainOk(versions + [Anchor(now)], written + [now], interval)
    ensures Faithful(versions, written) ==> Faithful(versions + [Anchor(now)], written + [now])
    ensures Depth(versions + [Anchor(now)], |versions|) == 0
  {
    CloseToItself(now, 0.0);
    ExtendChain(versions, written, interval, Anchor(now), now);
    forall id | 0 <= id < |versions|
      ensures Reconstructed(versions + [Anchor(now)], id) == Reconstructed(versions, id)
    {
      ChainPrefix(versions, [Anchor(now)], id);
    }
  }

  /** Appending a delta keeps the chain. */
  lemma ExtendWithDelta(versions: seq<Version>, written: seq<Properties>, interval: nat,
                        was: Properties, now: Properties, delta: PropertyDelta)
    requires ChainOk(versions, written, interval) && versions != [] && Bounded(now)
    requires Depth(versions, |versions| - 1) + 1 < interval
    requires was == written[|versions| - 1] || was == Reconstructed(versions, |versions| - 1)
    requires delta == Diff(was, now)
    ensures ChainOk(versions + [Delta(delta)], written + [now], interval)
    ensures Depth(versions + [Delta(delta)], |versions|) == Depth(versions, |versions| - 1) + 1
  {
    hide Apply, Diff, Close, Reconstructed, Depth;
    var last := |versions| - 1;
    assert Recoverable(versions, written, interval, last);
    AppendedClose(Reconstructed(versions, last), was, written[last], now, Depth(versions, last));
    ExtendWith(versions, written, interval, delta, now);
  }

  /** An exact chain stays exact under a delta exactly when the written step is lossless. */
  lemma DeltaExactness(versions: seq<Version>, written: seq<Properties>, now: Properties, delta: PropertyDelta)
    requires Faithful(versions, written) && versions != []
    requires delta == Diff(written[|versions| - 1], now)
    ensures Faithful(versions + [Delta(delta)], written + [now]) <==> LosslessStep(written[|versions| - 1], now)
  {
    var last, chain := |versions| - 1, versions + [Delta(delta)];
    DiffApplyRoundTrip(written[last], now);
    ChainLast(versions, delta);
    forall id | 0 <= id < |versions|
      ensures Reconstructed(chain, id) == (written + [now])[id]
    {
      ChainPrefix(versions, [Delta(delta)], id);
    }
  }

  lemma ExtendWith(versions: seq<Version>, written: seq<Properties>, interval: nat, delta: PropertyDelta,
                   now: Properties)
    requires ChainOk(versions, written, interval) && versions != []
    requires Depth(versions, |versions| - 1) + 1 < interval
    requires Close(Apply(delta, Reconstructed(versions, |versions| - 1)), now,
                   (Depth(versions, |versions| - 1) + 1) as real * EPSILON)
    ensures ChainOk(versions + [Delta(delta)], written + [now], interval)
    ensures Depth(versions + [Delta(delta)], |versions|) == Depth(versions, |versions| - 1) + 1
  {
    hide Apply, Close, Reconstructed, Depth;
    ChainLast(versions, delta);
    assert Recoverable(versions + [Delta(delta)], written + [now], interval, |versions|);
    ExtendChain(versions, written, interval, Delta(delta), now);
  }

  lemma ChainLast(versions: seq<Version>, delta: PropertyDelta)
    requires versions != []
    ensures Depth(versions + [Delta(delta)], |versions|) == Depth(versions, |versions| - 1) + 1
    ensures Reconstructed(versions + [Delta(delta)], |versions|) ==
              Apply(delta, Reconstructed(versions, |versions| - 1))
  {
    hide Apply;
    var chain := versions + [Delta(delta)];
    ChainPrefix(versions, [Delta(delta)], |versions| - 1);
    assert chain[|versions|] == Delta(delta);
  }

  // ------------------------------------------------------------------------
  // Whole histories

  /** How far version `id` lies behind its anchor when every `interval`-th version is one. */
  function Cycle(id: nat, interval: nat): nat {
    id % (if interval == 0 then 1 else interval)
  }

  lemma CycleStep(id: nat, interval: nat)
    ensures Cycle(id + 1, interval) == if Cycle(id, interval) + 1 < interval then Cycle(id, interval) + 1 else 0
  {
    var m := if interval == 0 then 1 else interval;
    Modular.Split(id, m);
    if id % m + 1 < m {
      Modular.DivUnique(id + 1, m, id / m, id % m + 1);
    } else {
      Modular.Distribute(m, id / m, 1);
      Modular.DivUnique(id + 1, m, id / m + 1, 0);
    }
  }

  lemma CycleBounds(id: nat, interval: nat)
    ensures Cycle(id, interval) <= id && (interval > 0 ==> Cycle(id, interval) < interval)
    ensures interval <= 1 || id == 0 ==> Cycle(id, interval) == 0
  {
    var m := if interval == 0 then 1 else interval;
    if id < m {
      Modular.DivUnique(id, m, 0, id);
    }
  }

  /** Every change that is stored as a delta is lossless; anchors may change anything. */
  ghost predicate LosslessHistory(written: seq<Properties>, interval: nat) {
    forall id :: 0 < id < |written| && Cycle(id, interval) > 0 ==> LosslessStep(written[id - 1], written[id])
  }

  /** Anchors come every `interval` versions, and the chain is exact exactly when its deltas were lossless. */
  ghost predicate Exact(versions: seq<Version>, written: seq<Properties>, interval: nat) {
    && |written| == |versions|
    && (forall id :: 0 <= id < |versions| ==> Depth(versions, id) == Cycle(id, interval))
    && (Faithful(versions, written) <==> LosslessHistory(written, interval))
  }

  lemma LosslessExtends(written: seq<Properties>, now: Properties, interval: nat)
    requires written != []
    ensures LosslessHistory(written + [now], interval) <==>
              && LosslessHistory(written, interval)
              && (Cycle(|written|, interval) == 0 || LosslessStep(written[|written| - 1], now))
  {
    hide LosslessStep, Cycle;
    var more := written + [now];
    assert more[|written|] == now && more[|written| - 1] == written[|written| - 1];
    if LosslessHistory(more, interval) {
      forall id | 0 < id < |written| && Cycle(id, interval) > 0
        ensures LosslessStep(written[id - 1], written[id])
      {
        assert more[id] == written[id] && more[id - 1] == written[id - 1];
      }
    }
  }

  lemma FaithfulPrefix(versions: seq<Version>, written: seq<Properties>, version: Version, now: Properties)
    requires |written| == |versions| && Faithful(versions + [version], written + [now])
    ensures Faithful(versions, written)
  {
    forall id | 0 <= id < |versions| ensures Reconstructed(versions, id) == written[id] {
      ChainPrefix(versions, [version], id);
      assert (written + [now])[id] == written[id];
    }
  }

  /** An inexact chain stays inexact, and an exact one stays exact as long as its new version does. */
  lemma ExtendExact(versions: seq<Version>, written: seq<Properties>, interval: nat, version: Version, now: Properties)
    requires Exact(versions, written, interval) && versions != []
    requires Depth(versions + [version], |versions|) == Cycle(|versions|, interval)
    requires Faithful(versions, written) ==>
               (Faithful(versions + [version], written + [now]) <==>
                  Cycle(|versions|, interval) == 0 || LosslessStep(written[|versions| - 1], now))
    ensures Exact(versions + [version], written + [now], interval)
  {
    hide LosslessStep, LosslessHistory, Cycle, Faithful, Reconstructed;
    LosslessExtends(written, now, interval);
    if Faithful(versions + [version], written + [now]) {
      FaithfulPrefix(versions, written, version, now);
    }
    forall id | 0 <= id < |versions| ensures Depth(versions + [version], id) == Cycle(id, interval) {
      ChainPrefix(versions, [version], id);
    }
  }

  lemma FirstExact(interval: nat, now: Properties)
    ensures Exact([Anchor(now)], [now], interval)
  {
    CycleBounds(0, interval);
  }

  /** Apply the deltas after an anchor in forward order. */
  method Replay(versions: seq<Version>, anchor: nat, id: nat) returns (properties: Properties)
    requires anchor <= id < |versions| && versions[anchor].Anchor?
    requires forall j :: anchor < j <= id ==> versions[j].Delta?
    ensures properties == Reconstructed(versions, id)
  {
    hide Apply;
    properties := versions[anchor].properties;
    for current := anchor to id
      invariant properties == Reconstructed(versions, current)
    {
      properties := ApplyProperties(versions[current + 1].delta, properties);
    }
  }

  /** The error of a result, if it is one. */
  function Failure<T>(r: Result<T>): Option<Error> {
    if r.Err? then Some(r.error) else None
  }

  /** A cached copy is what was written, or what the chain says. */
  ghost predicate CopiesOk(cache: map<nat, Properties>, versions: seq<Version>, written: seq<Properties>) {
    && |written| == |versions|
    && forall id :: id in cache ==>
         id < |versions| && (cache[id] == written[id] || cache[id] == Reconstructed(versions, id))
  }

  ghost predicate AnchorsOk(cache: map<nat, Properties>, versions: seq<Version>, written: seq<Properties>) {
    && |written| == |versions|
    && forall id :: id in cache ==> id < |versions| && versions[id].Anchor? && cache[id] == written[id]
  }

  /** Cached copies stay good, and what is written may be cached. */
  lemma CopiesExtend(cache: map<nat, Properties>, versions: seq<Version>, written: seq<Properties>,
                     version: Version, now: Properties)
    requires CopiesOk(cache, versions, written)
    ensures CopiesOk(cache[|versions| := now], versions + [version], written + [now])
  {
    hide Reconstructed;
    forall id | id in cache
      ensures id < |versions| && Reconstructed(versions + [version], id) == Reconstructed(versions, id)
    {
      ChainPrefix(versions, [version], id);
    }
  }

  lemma AnchorsExtend(cache: map<nat, Properties>, versions: seq<Version>, written: seq<Properties>,
                      version: Version, now: Properties)
    requires AnchorsOk(cache, versions, written)
    ensures AnchorsOk(cache, versions + [version], written + [now])
    ensures version.Anchor? ==> AnchorsOk(cache[|versions| := now], versions + [version], written + [now])
  {
  }

  /** The version history of one node, as `HistoricalStorage` keeps it. */
  class NodeHistory {
    const anchorInterval: nat
    const maxDepth: nat
    const maxVersions: nat
    var versions: seq<Version>
    var sinceAnchor: nat
    var propertyCache: map<nat, Properties>
    var anchorCache: map<nat, Properties>
    /** What callers wrote, version by version. */
    ghost var written: seq<Properties>

    ghost predicate Valid()
      reads this
    {
      && |versions| <= maxVersions
      && ChainOk(versions, written, anchorInterval) && Exact(versions, written, anchorInterval)
      && (versions != [] ==> sinceAnchor == Depth(versions, |versions| - 1))
      && CopiesOk(propertyCache, versions, written) && AnchorsOk(anchorCache, versions, written)
    }

    /** What a read of version `id` fails with. */
    ghost function ReadFailure(id: nat): Option<Error>
      reads this
    {
      if id >= |versions| then Some(VersionNotFound)
      else if id !in propertyCache && id !in anchorCache && Depth(versions, id) >= maxDepth then Some(MaxDepthExceeded)
      else None
    }

    /** What it returns otherwise: a cached copy before the chain. */
    ghost function CachedRead(id: nat): Properties
      requires id < |versions|
      reads this
    {
      if id in propertyCache then propertyCache[id]
      else if id in anchorCache then anchorCache[id]
      else Reconstructed(versions, id)
    }

    predicate AnchorDue()
      reads this
    {
      |versions| == 0 || sinceAnchor + 1 >= anchorInterval
    }

    /** What a write fails with: the limit, or the read a delta needs. */
    ghost function WriteFailure(): Option<Error>
      reads this
    {
      if |versions| >= maxVersions then Some(CapacityExceeded)
      else if AnchorDue() then None
      else ReadFailure(|versions| - 1)
    }

    /**
     With anchors at most the depth limit apart, or no room for more versions than
     that, reads never fail and writes fail only at the version limit.
     */
    lemma ReadsSucceed()
      requires Valid() && ((0 < maxDepth && anchorInterval <= maxDepth) || maxVersions <= maxDepth)
      ensures forall id :: 0 <= id < |versions| ==> ReadFailure(id) == None
      ensures WriteFailure() == if |versions| >= maxVersions then Some(CapacityExceeded) else None
    {
      hide ChainOk, Faithful, LosslessHistory, Reconstructed, Depth, Cycle;
      forall id | 0 <= id < |versions| ensures ReadFailure(id) == None {
        CycleBounds(id, anchorInterval);
        assert Depth(versions, id) == Cycle(id, anchorInterval);
      }
    }

    /**
     If every change stored as a delta was lossless, every read gives back what was
     written, whatever the caches hold and held.  Otherwise some version reads
     differently as soon as the caches are empty.
     */
    lemma ReadsAreExact()
      requires Valid()
      ensures LosslessHistory(written, anchorInterval) ==>
                forall id :: 0 <= id < |versions| ==> CachedRead(id) == written[id]
      ensures propertyCache == map[] && anchorCache == map[] ==>
                ((forall id :: 0 <= id < |versions| ==> CachedRead(id) == written[id]) <==>
                   LosslessHistory(written, anchorInterval))
    {
      hide LosslessHistory, Depth, Cycle, Reconstructed, Recoverable;
      if propertyCache == map[] && anchorCache == map[] {
        forall id | 0 <= id < |versions| ensures CachedRead(id) == Reconstructed(versions, id) {
        }
      }
    }

    constructor (anchorInterval: nat, maxDepth: nat, maxVersions: nat)
      ensures Valid() && versions == [] && written == [] && propertyCache == map[] && anchorCache == map[]
      ensures this.anchorInterval == anchorInterval && this.maxDepth == maxDepth && this.maxVersions == maxVersions
    {
      this.anchorInterval, this.maxDepth, this.maxVersions := anchorInterval, maxDepth, maxVersions;
      versions, sinceAnchor, propertyCache, anchorCache, written := [], 0, map[], map[], [];
    }

    /** Walk back to the anchor, then apply the deltas forward. */
    method Reconstruct(id: nat) returns (r: Result<Properties>)
      requires Valid() && id < |versions|
      ensures r == if Depth(versions, id) < maxDepth then Ok(Reconstructed(versions, id)) else Err(MaxDepthExceeded)
    {
      hide Close, Reconstructed;
      var current, chainLength := id, 0;
      while chainLength < maxDepth && versions[current].Delta?
        invariant 0 <= current && current + chainLength == id
        invariant chainLength + Depth(versions, current) == Depth(versions, id)
        invariant chainLength <= maxDepth
        invariant forall j :: current < j <= id ==> versions[j].Delta?
        decreases current
      {
        assert Recoverable(versions, written, anchorInterval, current);
        current, chainLength := current - 1, chainLength + 1;
      }
      if chainLength >= maxDepth {
        return Err(MaxDepthExceeded);
      }
      var properties := Replay(versions, current, id);
      r := Ok(properties);
    }

    /** What a read can return, and that it may be cached. */
    lemma ReadIsClose(id: nat)
      requires Valid() && id < |versions|
      ensures CachedRead(id) == written[id] || CachedRead(id) == Reconstructed(versions, id)
      ensures Close(CachedRead(id), written[id], Depth(versions, id) as real * EPSILON)
      ensures Faithful(versions, written) ==> CachedRead(id) == written[id]
      ensures CopiesOk(propertyCache[id := CachedRead(id)], versions, written)
    {
      hide Close, Reconstructed, Depth, Exact;
      assert Recoverable(versions, written, anchorInterval, id);
      CloseToItself(written[id], Depth(versions, id) as real * EPSILON);
    }

    /** The cached read: property cache, then anchor cache, then the chain. */
    method Read(id: nat) returns (r: Result<Properties>)
      requires Valid()
      modifies `propertyCache
      ensures Valid()
      ensures Failure(r) == old(ReadFailure(id))
      ensures r.Ok? ==> r.value == old(CachedRead(id))
      ensures r.Ok? ==> r.value == written[id] || r.value == Reconstructed(versions, id)
      ensures r.Ok? ==> Close(r.value, written[id], Depth(versions, id) as real * EPSILON)
      ensures r.Ok? && Faithful(versions, written) ==> r.value == written[id]
      ensures propertyCache ==
                if r.Ok? && id !in old(propertyCache) then old(propertyCache)[id := r.value] else old(propertyCache)
    {
      hide Close, Reconstructed, Depth, ChainOk, Exact, Faithful, CopiesOk, AnchorsOk;
      if id >= |versions| {
        return Err(VersionNotFound);
      }
      ReadIsClose(id);
      if id in propertyCache {
        r := Ok(propertyCache[id]);
      } else if id in anchorCache {
        r := Ok(anchorCache[id]);
        propertyCache := propertyCache[id := r.value];
      } else {
        r := Reconstruct(id);
        if r.Ok? {
          propertyCache := propertyCache[id := r.value];
        }
      }
    }

    /** Both caches are bounded; entries may disappear at any time. */
    method Evict(properties: set<nat>, anchors: set<nat>)
      requires Valid()
      modifies `propertyCache, `anchorCache
      ensures Valid()
      ensures propertyCache == old(propertyCache) - properties && anchorCache == old(anchorCache) - anchors
    {
      propertyCache := propertyCache - properties;
      anchorCache := anchorCache - anchors;
    }

    /** Append a version: the first and every `anchorInterval`-th one is an anchor, the others are deltas. */
    method AddVersion(properties: Properties) returns (r: Result<nat>)
      requires Valid() && Bounded(properties)
      modifies this
      ensures Valid()
      ensures Failure(r) == old(WriteFailure())
      ensures r.Ok? ==> r.value == |old(versions)| && written == old(written) + [properties]
      ensures r.Ok? && old(AnchorDue()) ==> versions == old(versions) + [Anchor(properties)]
      ensures r.Ok? && !old(AnchorDue()) ==>
                versions == old(versions) + [Delta(Diff(old(CachedRead(|versions| - 1)), properties))]
      ensures r.Ok? ==> r.value in propertyCache && propertyCache[r.value] == properties
      ensures r.Err? ==> versions == old(versions) && written == old(written) && sinceAnchor == old(sinceAnchor)
      ensures r.Ok? && Faithful(old(versions), old(written)) ==>
                (Faithful(versions, written) <==>
                   old(AnchorDue()) || LosslessStep(old(written)[r.value - 1], properties))
    {
      hide ChainOk, Exact, Faithful, LosslessStep, Reconstructed, Depth, Diff, ReadFailure, CachedRead, Bounded;
      if |versions| >= maxVersions {
        return Err(CapacityExceeded);
      }
      if |versions| == 0 || sinceAnchor + 1 >= anchorInterval {
        AddAnchor(properties);
        r := Ok(|versions| - 1);
      } else {
        r := AddDelta(properties);
      }
    }

    lemma AnchorExact(properties: Properties)
      requires Valid() && AnchorDue()
      ensures Exact(versions + [Anchor(properties)], written + [properties], anchorInterval)
    {
      hide LosslessHistory, Cycle, Reconstructed, Recoverable, Faithful;
      if versions == [] {
        FirstExact(anchorInterval, properties);
        assert versions + [Anchor(properties)] == [Anchor(properties)] && written + [properties] == [properties];
      } else {
        CycleStep(|versions| - 1, anchorInterval);
        ExtendWithAnchor(versions, written, anchorInterval, properties);
        ExtendExact(versions, written, anchorInterval, Anchor(properties), properties);
      }
    }

    method AddAnchor(properties: Properties)
      requires Valid() && |versions| < maxVersions && AnchorDue()
      modifies this
      ensures Valid() && written == old(written) + [properties] && sinceAnchor == 0
      ensures versions == old(versions) + [Anchor(properties)]
      ensures propertyCache == old(propertyCache)[|old(versions)| := properties]
      ensures anchorCache == old(anchorCache)[|old(versions)| := properties]
      ensures Faithful(old(versions), old(written)) ==> Faithful(versions, written)
    {
      ExtendWithAnchor(versions, written, anchorInterval, properties);
      AnchorExact(properties);
      AnchorsExtend(anchorCache, versions, written, Anchor(properties), properties);
      hide ChainOk, Exact, Reconstructed, Depth, Faithful, CopiesOk, AnchorsOk;
      var id := |versions|;
      Append(Anchor(properties), 0, properties);
      anchorCache := anchorCache[id := properties];
    }

    method AddDelta(properties: Properties) returns (r: Result<nat>)
      requires Valid() && Bounded(properties) && |versions| < maxVersions && !AnchorDue()
      modifies this
      ensures Valid()
      ensures Failure(r) == old(ReadFailure(|versions| - 1))
      ensures r.Ok? ==> r.value == |old(versions)| && written == old(written) + [properties]
      ensures r.Ok? ==> versions == old(versions) + [Delta(Diff(old(CachedRead(|versions| - 1)), properties))]
      ensures r.Ok? ==> r.value in propertyCache && propertyCache[r.value] == properties
      ensures r.Err? ==> versions == old(versions) && written == old(written) && sinceAnchor == old(sinceAnchor)
      ensures r.Ok? && Faithful(old(versions), old(written)) ==>
                (Faithful(versions, written) <==> LosslessStep(old(written)[r.value - 1], properties))
    {
      hide Diff, Depth, Faithful, LosslessStep, ReadFailure, CachedRead, ChainOk, Exact, Bounded, CopiesOk, AnchorsOk;
      var delta := NextDelta(properties);
      if delta.Err? {
        return Err(delta.error);
      }
      r := Ok(|versions|);
      Append(Delta(delta.value), sinceAnchor + 1, properties);
    }

    /** Diff against the previous version as the cached read gives it. */
    method NextDelta(properties: Properties) returns (r: Result<PropertyDelta>)
      requires Valid() && Bounded(properties) && !AnchorDue()
      modifies `propertyCache
      ensures Valid()
      ensures Failure(r) == old(ReadFailure(|versions| - 1))
      ensures r.Ok? ==> r.value == Diff(old(CachedRead(|versions| - 1)), properties)
      ensures r.Ok? ==> ChainOk(versions + [Delta(r.value)], written + [properties], anchorInterval)
      ensures r.Ok? ==> Depth(versions + [Delta(r.value)], |versions|) == sinceAnchor + 1
      ensures r.Ok? && Faithful(versions, written) ==>
                (Faithful(versions + [Delta(r.value)], written + [properties]) <==>
                   LosslessStep(written[|versions| - 1], properties))
      ensures r.Ok? ==> Exact(versions + [Delta(r.value)], written + [properties], anchorInterval)
    {
      hide Diff, Apply, Close, Reconstructed, Faithful, LosslessStep, LosslessHistory, Cycle, ReadFailure, CachedRead;
      var was := Read(|versions| - 1);
      if was.Err? {
        return Err(was.error);
      }
      var delta := DiffProperties(was.value, properties);
      ExtendWithDelta(versions, written, anchorInterval, was.value, properties, delta);
      if Faithful(versions, written) {
        DeltaExactness(versions, written, properties, delta);
      }
      CycleStep(|versions| - 1, anchorInterval);
      ExtendExact(versions, written, anchorInterval, Delta(delta), properties);
      r := Ok(delta);
    }

    /** Store a version and cache its properties as they were written. */
    method Append(version: Version, since: nat, properties: Properties)
      requires Valid() && |versions| < maxVersions
      requires ChainOk(versions + [version], written + [properties], anchorInterval)
      requires Exact(versions + [version], written + [properties], anchorInterval)
      requires since == Depth(versions + [version], |versions|)
      modifies this
      ensures Valid() && sinceAnchor == since
      ensures versions == old(versions) + [version] && written == old(written) + [properties]
      ensures anchorCache == old(anchorCache) && propertyCache == old(propertyCache)[|old(versions)| := properties]
    {
      hide ChainOk, Exact, Depth, CopiesOk, AnchorsOk;
      CopiesExtend(propertyCache, versions, written, version, properties);
      AnchorsExtend(anchorCache, versions, written, version, properties);
      assert |versions + [version]| - 1 == |versions|;
      propertyCache := propertyCache[|versions| := properties];
      versions, sinceAnchor, written := versions + [version], since, written + [properties];
    }
  }

  // ------------------------------------------------------------------------
  // Why reads of one version can differ

  const KEY: Key := "embedding"

  function Embedding(steps: nat): Properties {
    map[KEY := Vector([steps as real * EPSILON])]
  }

  lemma EmbeddingStep(base: nat, was: nat, now: nat)
    requires was < now
    ensures Apply(Diff(Embedding(was), Embedding(now)), Embedding(base)) ==
              if now == was + 1 then Embedding(base) else Embedding(now)
  {
    var u, v := [was as real * EPSILON], [now as real * EPSILON];
    assert v[0] - u[0] == (now - was) as real * EPSILON;
    assert Far(u[0], v[0]) <==> now > was + 1;
    assert Changes(u, v, 0) == [];
    assert Changes(u, v, 1) == if Far(u[0], v[0]) then [(0, v[0])] else [];
  }

  /** A history in which every write after the first is stored as a delta. */
  ghost predicate Roomy(h: NodeHistory)
    reads h
  {
    h.Valid() && h.anchorInterval == 10 && h.maxDepth == 100 && h.maxVersions == 100
  }

  /** The first two writes, with warm caches: the delta of the second is empty. */
  method TwoWrites() returns (h: NodeHistory)
    ensures fresh(h) && Roomy(h) && h.sinceAnchor == 1
    ensures h.versions == [Anchor(Embedding(0)), Delta(Diff(Embedding(0), Embedding(1)))]
    ensures 1 in h.propertyCache && h.propertyCache[1] == Embedding(1)
    ensures Reconstructed(h.versions, 1) == Embedding(0)
  {
    hide Diff, Apply, Close, ChainOk, Exact, CopiesOk, AnchorsOk, Faithful, LosslessStep;
    h := new NodeHistory(10, 100, 100);
    EmbeddingBounded(0);
    EmbeddingBounded(1);
    EmbeddingStep(0, 0, 1);
    var first := h.AddVersion(Embedding(0));
    var second := h.AddVersion(Embedding(1));
    assert Depth(h.versions, 0) == 0;
    assert Reconstructed(h.versions, 0) == Embedding(0);
  }

  lemma EmbeddingBounded(steps: nat)
    ensures Bounded(Embedding(steps))
  {
  }

  lemma ThirdWrite(versions: seq<Version>, was: nat)
    requires |versions| == 2 && Reconstructed(versions, 1) == Embedding(0) && was < 2
    ensures Reconstructed(versions + [Delta(Diff(Embedding(was), Embedding(2)))], 2) ==
              if was == 1 then Embedding(0) else Embedding(2)
  {
    hide Diff, Apply;
    EmbeddingStep(0, was, 2);
    ChainLast(versions, Diff(Embedding(was), Embedding(2)));
  }

  /** A third write, and both kinds of read of it. */
  method WriteAndRead(h: NodeHistory, ghost was: nat) returns (warm: Result<Properties>, cold: Result<Properties>)
    requires Roomy(h) && h.sinceAnchor == 1 && |h.versions| == 2 && Reconstructed(h.versions, 1) == Embedding(0)
    requires was < 2 && h.ReadFailure(1) == None && h.CachedRead(1) == Embedding(was)
    modifies h
    ensures warm == Ok(Embedding(2)) && cold == Ok(if was == 1 then Embedding(0) else Embedding(2))
  {
    hide Diff, Apply, Close, Faithful, LosslessStep, ChainOk, Exact, CopiesOk, AnchorsOk;
    EmbeddingBounded(2);
    ThirdWrite(h.versions, was);
    ChainLast(h.versions, Diff(Embedding(was), Embedding(2)));
    assert Depth(h.versions, 1) <= 1;
    var third := h.AddVersion(Embedding(2));
    warm := h.Read(2);
    h.Evict(h.propertyCache.Keys, h.anchorCache.Keys);
    cold := h.Read(2);
  }

  /**
   Three writes that each move one component by EPSILON.  With the caches warm the
   third version reads as written, and as the first one, two EPSILONs away, once
   its cached copy is gone; with the caches dropped before the third write it reads
   as written even then.  So what a version reads as depends on the caches, now
   and at the time of the write, although a cached copy is never invalidated.
   */
  method DriftDependsOnCache() returns (warm: Result<Properties>, cold: Result<Properties>, kept: Result<Properties>)
    ensures warm == Ok(Embedding(2)) && cold == Ok(Embedding(0)) && kept == Ok(Embedding(2))
    ensures !Close(Embedding(0), Embedding(2), EPSILON)
  {
    hide Diff, Apply, Close, Reconstructed, ChainOk, Embedding;
    var h := TwoWrites();
    warm, cold := WriteAndRead(h, 1);
    var g := TwoWrites();
    g.Evict(g.propertyCache.Keys, g.anchorCache.Keys);
    var ignored;
    ignored, kept := WriteAndRead(g, 0);
    NotClose();
  }

  lemma NotClose()
    ensures !Close(Embedding(0), Embedding(2), EPSILON)
  {
    assert Embedding(2)[KEY].components[0] - Embedding(0)[KEY].components[0] == 2.0 * EPSILON;
    assert !CloseValues(Embedding(0)[KEY], Embedding(2)[KEY], EPSILON);
  }

  // ------------------------------------------------------------------------
  // Why the depth limit must cover the anchor interval

  /**
   Otherwise a history can be written, with every write accepted, whose last
   version cannot be read once the caches have dropped it; nor can the next
   version be written, if it is due as a delta.
   */
  method DeepHistory(anchorInterval: nat, maxDepth: nat, maxVersions: nat) returns (h: NodeHistory)
    requires maxDepth == 0 || maxDepth < anchorInterval
    requires maxDepth < maxVersions
    ensures h.Valid() && h.anchorInterval == anchorInterval && h.maxDepth == maxDepth && h.maxVersions == maxVersions
    ensures |h.versions| == maxDepth + 1 && h.ReadFailure(maxDepth) == Some(MaxDepthExceeded)
    ensures maxDepth + 1 < maxVersions && maxDepth + 1 < anchorInterval ==> h.WriteFailure() == Some(MaxDepthExceeded)
  {
    hide Diff, Apply, Close, Reconstructed, ChainOk, Exact, CopiesOk, AnchorsOk, Faithful, LosslessStep;
    h := new NodeHistory(anchorInterval, maxDepth, maxVersions);
    for n := 0 to maxDepth + 1
      invariant fresh(h) && h.Valid()
      invariant h.anchorInterval == anchorInterval && h.maxDepth == maxDepth && h.maxVersions == maxVersions
      invariant |h.versions| == n && (n > 0 ==> h.sinceAnchor == n - 1 && n - 1 in h.propertyCache)
    {
      assert Bounded(map[]);
      ghost var before := h.versions;
      var r := h.AddVersion(map[]);
      if n > 0 {
        ChainLast(before, h.versions[n].delta);
      }
    }
    h.Evict(h.propertyCache.Keys, h.anchorCache.Keys);
  }
}
