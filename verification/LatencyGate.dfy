/**
 The measurement and gate pipeline of the round-trip benchmark, from timed calls
 to the exit code. What the clock shows is a parameter: how long each call took,
 and how long each injected sleep took.
 */
module LatencyGate {
  import opened Common
  import opened OrderStatistics

  datatype Scenario = Scenario(name: string, tool: string, gated: bool)

  datatype Config = Config(
    sampleSize: nat,
    enforceLatency: bool,
    enforceRelative: bool,
    multiplier: real,
    injectMs: real,
    injectScenario: string)

  /** Nanoseconds of each measured call, of the sleep after it, and of each direct call. */
  datatype Timing = Timing(calls: seq<nat>, sleeps: seq<nat>, direct: Option<seq<nat>>)

  datatype Outcome = Outcome(name: string, gated: bool, roundTrip: Stats, direct: Option<Stats>)

  datatype Ratio = Finite(value: real) | Infinite

  datatype Row = Row(name: string, current: real, baseline: real, ratio: Ratio, regressed: bool)

  const GATE_NS := 5_000_000

  /** The configured latency, for the one gated scenario that bears the configured name. */
  function Inject(sc: Scenario, cfg: Config): real {
    if sc.gated && sc.name == cfg.injectScenario then cfg.injectMs else 0.0
  }

  /** A duration is a whole number of nanoseconds. */
  function Nanoseconds(ms: real): int {
    Round(ms * 1_000_000.0)
  }

  /** What the clock may show: one reading per sample, and no sleep shorter than asked for. */
  ghost predicate Plausible(sc: Scenario, cfg: Config, t: Timing) {
    && |t.calls| == |t.sleeps| == cfg.sampleSize
    && (forall i :: 0 <= i < |t.sleeps| ==> Nanoseconds(Inject(sc, cfg)) <= t.sleeps[i])
  }

  /** The sleep is inside the timed region. */
  function RoundTrip(sc: Scenario, cfg: Config, t: Timing): (rt: seq<int>)
    requires |t.calls| == |t.sleeps|
    ensures |rt| == |t.calls|
  {
    seq(|t.calls|, i requires 0 <= i < |t.calls| => t.calls[i] + (if Inject(sc, cfg) > 0.0 then t.sleeps[i] else 0))
  }

  function Measured(sc: Scenario, cfg: Config, t: Timing): Outcome
    requires |t.calls| == |t.sleeps|
  {
    Outcome(sc.name, sc.gated, FromSamples(RoundTrip(sc, cfg, t)),
            if t.direct.Some? then Some(FromSamples(t.direct.value)) else None)
  }

  method MeasureScenario(sc: Scenario, cfg: Config, t: Timing) returns (r: Outcome)
    requires |t.calls| == |t.sleeps| == cfg.sampleSize
    ensures r == Measured(sc, cfg, t)
  {
    var inject := Inject(sc, cfg);
    var rt: seq<int> := [];
    for i := 0 to cfg.sampleSize
      invariant |rt| == i && forall j :: 0 <= j < i ==> rt[j] == RoundTrip(sc, cfg, t)[j]
    {
      var elapsed := t.calls[i];
      if inject > 0.0 {
        elapsed := elapsed + t.sleeps[i];
      }
      assert elapsed == RoundTrip(sc, cfg, t)[i];
      rt := rt + [elapsed];
    }
    assert rt == RoundTrip(sc, cfg, t);
    var direct := None;
    if t.direct.Some? {
      direct := Some(FromSamples(t.direct.value));
    }
    r := Outcome(sc.name, sc.gated, FromSamples(rt), direct);
  }

  // ------------------------------------------------------------------------
  // Gates

  predicate OverGate(r: Outcome) {
    r.gated && r.roundTrip.p99 as real / 1_000_000.0 >= 5.0
  }

  function GateFailures(rs: seq<Outcome>): seq<string> {
    if |rs| == 0 then []
    else if OverGate(rs[|rs| - 1]) then GateFailures(rs[..|rs| - 1]) + [rs[|rs| - 1].name]
    else GateFailures(rs[..|rs| - 1])
  }

  method EvaluateLatency(rs: seq<Outcome>) returns (failures: seq<string>)
    ensures failures == GateFailures(rs)
  {
    failures := [];
    for i := 0 to |rs|
      invariant failures == GateFailures(rs[..i])
    {
      if rs[i].gated && rs[i].roundTrip.p99 as real / 1_000_000.0 >= 5.0 {
        failures := failures + [rs[i].name];
      }
      assert rs[..i + 1][..i] == rs[..i];
    }
    assert rs[..|rs|] == rs;
  }

  function RatioOf(current: real, base: real): Ratio {
    if base > 0.0 then Finite(current / base) else Infinite
  }

  predicate Exceeds(r: Ratio, multiplier: real) {
    r.Infinite? || r.value > multiplier
  }

  /** The row a gated scenario with a baseline gets. */
  function RowOf(r: Outcome, base: real, multiplier: real): Row {
    var current := r.roundTrip.p50 as real / 1000.0;
    var ratio := RatioOf(current, base);
    Row(r.name, current, base, ratio, Exceeds(ratio, multiplier))
  }

  function Rows(rs: seq<Outcome>, baseline: map<string, real>, multiplier: real): seq<Row> {
    if |rs| == 0 then []
    else
      var r, rows := rs[|rs| - 1], Rows(rs[..|rs| - 1], baseline, multiplier);
      if r.gated && r.name in baseline then rows + [RowOf(r, baseline[r.name], multiplier)] else rows
  }

  method EvaluateRelative(rs: seq<Outcome>, baseline: map<string, real>, multiplier: real) returns (rows: seq<Row>)
    ensures rows == Rows(rs, baseline, multiplier)
  {
    rows := [];
    for i := 0 to |rs|
      invariant rows == Rows(rs[..i], baseline, multiplier)
    {
      var r := rs[i];
      if r.gated && r.name in baseline {
        var base := baseline[r.name];
        var current := r.roundTrip.p50 as real / 1000.0;
        var ratio := if base > 0.0 then Finite(current / base) else Infinite;
        rows := rows + [Row(r.name, current, base, ratio, ratio.Infinite? || ratio.value > multiplier)];
      }
      assert rs[..i + 1][..i] == rs[..i];
    }
    assert rs[..|rs|] == rs;
  }

  predicate AnyRegressed(rows: seq<Row>) {
    exists i :: 0 <= i < |rows| && rows[i].regressed
  }

  function RegressionRows(cfg: Config, rs: seq<Outcome>, baseline: Option<map<string, real>>): seq<Row> {
    if baseline.Some? then Rows(rs, baseline.value, cfg.multiplier) else []
  }

  /** 2: a tool without scenario; 3: the absolute gate; 4: the relative gate. */
  function ExitCode(cfg: Config, missing: bool, rs: seq<Outcome>, baseline: Option<map<string, real>>): int {
    if missing then 2
    else if cfg.enforceLatency && GateFailures(rs) != [] then 3
    else if cfg.enforceRelative && AnyRegressed(RegressionRows(cfg, rs, baseline)) then 4
    else 0
  }

  // ------------------------------------------------------------------------
  // The whole run

  function Outcomes(scs: seq<Scenario>, cfg: Config, ts: seq<Timing>): seq<Outcome>
    requires |scs| == |ts| && forall i :: 0 <= i < |ts| ==> |ts[i].calls| == |ts[i].sleeps|
  {
    seq(|scs|, i requires 0 <= i < |scs| => Measured(scs[i], cfg, ts[i]))
  }

  predicate Covers(scs: seq<Scenario>, tool: string) {
    exists j :: 0 <= j < |scs| && scs[j].tool == tool
  }

  predicate Missing(advertised: seq<string>, scs: seq<Scenario>) {
    exists i :: 0 <= i < |advertised| && !Covers(scs, advertised[i])
  }

  ghost predicate PlausibleRun(scs: seq<Scenario>, cfg: Config, ts: seq<Timing>) {
    |scs| == |ts| && forall i :: 0 <= i < |scs| ==> Plausible(scs[i], cfg, ts[i])
  }

  method FindMissing(advertised: seq<string>, scs: seq<Scenario>) returns (missing: seq<string>)
    ensures missing != [] <==> Missing(advertised, scs)
    ensures forall t :: t in missing ==> t in advertised && !Covers(scs, t)
  {
    var covered: set<string> := {};
    for j := 0 to |scs|
      invariant forall t :: t in covered <==> Covers(scs[..j], t)
    {
      covered := covered + {scs[j].tool};
      CoversOneMore(scs, j);
    }
    assert scs[..|scs|] == scs;
    missing := [];
    for i := 0 to |advertised|
      invariant missing == [] <==> forall k :: 0 <= k < i ==> advertised[k] in covered
      invariant forall t :: t in missing ==> t in advertised && t !in covered
    {
      if advertised[i] !in covered {
        missing := missing + [advertised[i]];
      }
    }
  }

  lemma CoversOneMore(scs: seq<Scenario>, j: nat)
    requires j < |scs|
    ensures forall t :: Covers(scs[..j + 1], t) <==> Covers(scs[..j], t) || scs[j].tool == t
  {
    forall t ensures Covers(scs[..j + 1], t) <==> Covers(scs[..j], t) || scs[j].tool == t {
      if Covers(scs[..j], t) {
        var k :| 0 <= k < j && scs[..j][k].tool == t;
        assert scs[..j + 1][k].tool == t;
      }
      assert scs[..j + 1][j] == scs[j];
      if Covers(scs[..j + 1], t) {
        var k :| 0 <= k <= j && scs[..j + 1][k].tool == t;
        assert k < j ==> scs[..j][k].tool == t;
      }
    }
  }

  method HasRegression(rows: seq<Row>) returns (names: seq<string>)
    ensures names != [] <==> AnyRegressed(rows)
  {
    names := [];
    for i := 0 to |rows|
      invariant names != [] <==> exists j :: 0 <= j < i && rows[j].regressed
    {
      if rows[i].regressed {
        names := names + [rows[i].name];
      }
    }
  }

  method RunBenchmark(advertised: seq<string>, scs: seq<Scenario>, cfg: Config, ts: seq<Timing>,
                      baseline: Option<map<string, real>>) returns (exit: int)
    requires PlausibleRun(scs, cfg, ts)
    ensures exit == ExitCode(cfg, Missing(advertised, scs), Outcomes(scs, cfg, ts), baseline)
  {
    hide Measured, GateFailures, Rows, AnyRegressed, Missing;
    var missing := FindMissing(advertised, scs);
    var results: seq<Outcome> := [];
    for i := 0 to |scs|
      invariant results == Outcomes(scs, cfg, ts)[..i]
    {
      assert Plausible(scs[i], cfg, ts[i]);
      var r := MeasureScenario(scs[i], cfg, ts[i]);
      results := results + [r];
    }
    assert results == Outcomes(scs, cfg, ts);
    var latencyFailures := EvaluateLatency(results);
    var rows := [];
    if baseline.Some? {
      rows := EvaluateRelative(results, baseline.value, cfg.multiplier);
    }
    var regressions := HasRegression(rows);
    if missing != [] {
      return 2;
    }
    if cfg.enforceLatency && latencyFailures != [] {
      return 3;
    }
    if cfg.enforceRelative && regressions != [] {
      return 4;
    }
    return 0;
  }

  // ------------------------------------------------------------------------
  // What the gates see

  predicate AnyOverGate(rs: seq<Outcome>) {
    exists i :: 0 <= i < |rs| && OverGate(rs[i])
  }

  lemma {:induction false} GateFailuresExactly(rs: seq<Outcome>)
    ensures GateFailures(rs) != [] <==> AnyOverGate(rs)
  {
    if |rs| > 0 {
      var early := rs[..|rs| - 1];
      GateFailuresExactly(early);
      if AnyOverGate(rs) {
        var i :| 0 <= i < |rs| && OverGate(rs[i]);
        assert i < |early| ==> OverGate(early[i]);
      }
    }
  }

  /** The largest median in nanoseconds that the relative gate lets through; the baseline is in microseconds. */
  function Allowance(base: real, multiplier: real): real {
    multiplier * base * 1000.0
  }

  /** A gated scenario whose baseline is unusable, or whose median exceeds its allowance. */
  predicate Regresses(r: Outcome, baseline: map<string, real>, multiplier: real) {
    r.gated && r.name in baseline
    && (baseline[r.name] <= 0.0 || r.roundTrip.p50 as real > Allowance(baseline[r.name], multiplier))
  }

  lemma QuotientExceeds(x: real, base: real, m: real)
    requires base > 0.0
    ensures (x / 1000.0) / base > m <==> x > Allowance(base, m)
  {
    var q := (x / 1000.0) / base;
    assert q * base == x / 1000.0;
    var d := q - m;
    assert d * base == x / 1000.0 - m * base;
    assert d > 0.0 <==> d * base > 0.0;
  }

  lemma RowRegresses(r: Outcome, baseline: map<string, real>, multiplier: real)
    requires r.gated && r.name in baseline
    ensures RowOf(r, baseline[r.name], multiplier).regressed <==> Regresses(r, baseline, multiplier)
  {
    if baseline[r.name] > 0.0 {
      QuotientExceeds(r.roundTrip.p50 as real, baseline[r.name], multiplier);
    }
  }

  predicate AnyRegresses(rs: seq<Outcome>, baseline: map<string, real>, multiplier: real) {
    exists i :: 0 <= i < |rs| && Regresses(rs[i], baseline, multiplier)
  }

  lemma RegressedSnoc(rows: seq<Row>, row: Row)
    ensures AnyRegressed(rows + [row]) <==> AnyRegressed(rows) || row.regressed
  {
    if AnyRegressed(rows) {
      var i :| 0 <= i < |rows| && rows[i].regressed;
      assert (rows + [row])[i].regressed;
    }
    assert (rows + [row])[|rows|] == row;
  }

  lemma RegressesSnoc(rs: seq<Outcome>, baseline: map<string, real>, multiplier: real)
    requires |rs| > 0
    ensures AnyRegresses(rs, baseline, multiplier) <==>
              AnyRegresses(rs[..|rs| - 1], baseline, multiplier) || Regresses(rs[|rs| - 1], baseline, multiplier)
  {
    var early := rs[..|rs| - 1];
    if AnyRegresses(rs, baseline, multiplier) {
      var i :| 0 <= i < |rs| && Regresses(rs[i], baseline, multiplier);
      assert i < |early| ==> Regresses(early[i], baseline, multiplier);
    }
    if AnyRegresses(early, baseline, multiplier) {
      var i :| 0 <= i < |early| && Regresses(early[i], baseline, multiplier);
      assert Regresses(rs[i], baseline, multiplier);
    }
  }

  lemma {:induction false} RegressionsExactly(rs: seq<Outcome>, baseline: map<string, real>, multiplier: real)
    ensures AnyRegressed(Rows(rs, baseline, multiplier)) <==> AnyRegresses(rs, baseline, multiplier)
  {
    if |rs| > 0 {
      var early, last := rs[..|rs| - 1], rs[|rs| - 1];
      RegressionsExactly(early, baseline, multiplier);
      RegressesSnoc(rs, baseline, multiplier);
      if last.gated && last.name in baseline {
        RowRegresses(last, baseline, multiplier);
        RegressedSnoc(Rows(early, baseline, multiplier), RowOf(last, baseline[last.name], multiplier));
      }
    }
  }

  /** The exit code is zero exactly when no enforced gate has anything to report. */
  lemma PassesExactly(cfg: Config, missing: bool, rs: seq<Outcome>, baseline: Option<map<string, real>>)
    ensures ExitCode(cfg, missing, rs, baseline) == 0 <==>
              && !missing
              && (cfg.enforceLatency ==> forall i :: 0 <= i < |rs| && rs[i].gated ==> rs[i].roundTrip.p99 < GATE_NS)
              && (cfg.enforceRelative && baseline.Some? ==>
                    forall i :: 0 <= i < |rs| ==> !Regresses(rs[i], baseline.value, cfg.multiplier))
  {
    GateFailuresExactly(rs);
    if baseline.Some? {
      RegressionsExactly(rs, baseline.value, cfg.multiplier);
    }
  }

  /** No figure a gate looks at is smaller in the second outcome. */
  predicate NoFaster(x: Outcome, y: Outcome) {
    x.name == y.name && x.gated == y.gated && x.roundTrip.p50 <= y.roundTrip.p50 && x.roundTrip.p99 <= y.roundTrip.p99
  }

  lemma GatesMonotone(cfg: Config, missing: bool, rs: seq<Outcome>, qs: seq<Outcome>,
                      baseline: Option<map<string, real>>)
    requires |rs| == |qs| && forall i :: 0 <= i < |rs| ==> NoFaster(rs[i], qs[i])
    ensures var x, y := ExitCode(cfg, missing, rs, baseline), ExitCode(cfg, missing, qs, baseline);
            && (x != 0 ==> y != 0)
            && (x == 2 <==> y == 2) && (x == 3 ==> y == 3) && (x == 4 ==> y == 3 || y == 4)
  {
    GateFailuresExactly(rs);
    GateFailuresExactly(qs);
    if AnyOverGate(rs) {
      var i :| 0 <= i < |rs| && OverGate(rs[i]);
      assert NoFaster(rs[i], qs[i]) && OverGate(qs[i]);
    }
    if baseline.Some? {
      RegressionsExactly(rs, baseline.value, cfg.multiplier);
      RegressionsExactly(qs, baseline.value, cfg.multiplier);
      if AnyRegresses(rs, baseline.value, cfg.multiplier) {
        var i :| 0 <= i < |rs| && Regresses(rs[i], baseline.value, cfg.multiplier);
        assert NoFaster(rs[i], qs[i]) && Regresses(qs[i], baseline.value, cfg.multiplier);
      }
    }
  }

  // ------------------------------------------------------------------------
  // Injected latency

  lemma InjectedOutcome(sc: Scenario, cfg: Config, t: Timing)
    requires Plausible(sc, cfg, t) && cfg.sampleSize > 0 && Inject(sc, cfg) > 0.0
    ensures var st := Measured(sc, cfg, t).roundTrip;
            Nanoseconds(Inject(sc, cfg)) <= st.p50 && Nanoseconds(Inject(sc, cfg)) <= st.p99
  {
    var rt := RoundTrip(sc, cfg, t);
    SummaryOrdered(rt);
    assert FromSamples(rt).min in rt;
  }

  lemma ThresholdIsOver(r: Outcome, ms: real)
    requires r.gated && ms >= 5.0 && Nanoseconds(ms) <= r.roundTrip.p99
    ensures OverGate(r)
  {
  }

  /**
   Injecting at least the gate threshold into a gated scenario, with the latency
   gate enforced, never passes: a complete registry ends in 3, an incomplete one in 2.
   */
  lemma InjectionIsCaught(missing: bool, scs: seq<Scenario>, cfg: Config, ts: seq<Timing>,
                          baseline: Option<map<string, real>>, i: nat)
    requires PlausibleRun(scs, cfg, ts) && cfg.sampleSize > 0
    requires i < |scs| && scs[i].gated && scs[i].name == cfg.injectScenario
    requires cfg.injectMs >= 5.0 && cfg.enforceLatency
    ensures ExitCode(cfg, missing, Outcomes(scs, cfg, ts), baseline) == if missing then 2 else 3
  {
    var rs := Outcomes(scs, cfg, ts);
    assert OverGate(rs[i]) by {
      assert Plausible(scs[i], cfg, ts[i]);
      InjectedOutcome(scs[i], cfg, ts[i]);
      ThresholdIsOver(rs[i], cfg.injectMs);
    }
    GateFailuresExactly(rs);
  }

  /** The same for the relative gate, once the injection exceeds the allowed multiple of a baseline. */
  lemma InjectionRegresses(missing: bool, scs: seq<Scenario>, cfg: Config, ts: seq<Timing>,
                           baseline: map<string, real>, i: nat)
    requires PlausibleRun(scs, cfg, ts) && cfg.sampleSize > 0
    requires i < |scs| && scs[i].gated && scs[i].name == cfg.injectScenario && scs[i].name in baseline
    requires cfg.injectMs > 0.0 && cfg.enforceRelative
    requires Nanoseconds(cfg.injectMs) as real > Allowance(baseline[scs[i].name], cfg.multiplier)
    ensures ExitCode(cfg, missing, Outcomes(scs, cfg, ts), Some(baseline)) != 0
  {
    var rs := Outcomes(scs, cfg, ts);
    assert Regresses(rs[i], baseline, cfg.multiplier) by {
      assert Plausible(scs[i], cfg, ts[i]);
      InjectedOutcome(scs[i], cfg, ts[i]);
    }
    RegressionsExactly(rs, baseline, cfg.multiplier);
  }

  // ------------------------------------------------------------------------
  // Slower runs

  /** `u` is `t` with no call or sleep faster. */
  ghost predicate SlowerTiming(t: Timing, u: Timing) {
    && |t.calls| == |t.sleeps| == |u.calls| == |u.sleeps|
    && forall i :: 0 <= i < |t.calls| ==> t.calls[i] <= u.calls[i] && t.sleeps[i] <= u.sleeps[i]
  }

  ghost predicate SlowerRun(ts: seq<Timing>, us: seq<Timing>) {
    |ts| == |us| && forall i :: 0 <= i < |ts| ==> SlowerTiming(ts[i], us[i])
  }

  lemma SlowerOutcome(sc: Scenario, cfg: Config, t: Timing, u: Timing)
    requires SlowerTiming(t, u) && |t.calls| > 0
    ensures NoFaster(Measured(sc, cfg, t), Measured(sc, cfg, u))
  {
    SlowerSummary(RoundTrip(sc, cfg, t), RoundTrip(sc, cfg, u), 0);
  }

  lemma SlowerOutcomes(scs: seq<Scenario>, cfg: Config, ts: seq<Timing>, us: seq<Timing>, i: nat)
    requires PlausibleRun(scs, cfg, ts) && PlausibleRun(scs, cfg, us) && SlowerRun(ts, us) && cfg.sampleSize > 0
    requires i < |scs|
    ensures NoFaster(Outcomes(scs, cfg, ts)[i], Outcomes(scs, cfg, us)[i])
  {
    assert Plausible(scs[i], cfg, ts[i]) && SlowerTiming(ts[i], us[i]);
    SlowerOutcome(scs[i], cfg, ts[i], us[i]);
  }

  /**
   Every gate is monotone: a run in which no reading is faster never passes where
   the faster run fails, and never reports a lesser failure.
   */
  lemma SlowerNeverPasses(missing: bool, scs: seq<Scenario>, cfg: Config, ts: seq<Timing>, us: seq<Timing>,
                          baseline: Option<map<string, real>>)
    requires PlausibleRun(scs, cfg, ts) && PlausibleRun(scs, cfg, us) && SlowerRun(ts, us) && cfg.sampleSize > 0
    ensures var x := ExitCode(cfg, missing, Outcomes(scs, cfg, ts), baseline);
            var y := ExitCode(cfg, missing, Outcomes(scs, cfg, us), baseline);
            && (x != 0 ==> y != 0)
            && (x == 2 <==> y == 2) && (x == 3 ==> y == 3) && (x == 4 ==> y == 3 || y == 4)
  {
    var rs, qs := Outcomes(scs, cfg, ts), Outcomes(scs, cfg, us);
    forall i | 0 <= i < |rs| ensures NoFaster(rs[i], qs[i]) {
      SlowerOutcomes(scs, cfg, ts, us, i);
    }
    GatesMonotone(cfg, missing, rs, qs, baseline);
  }

  // ------------------------------------------------------------------------
  // Overhead

  function SaturatingSub(a: int, b: int): int {
    if a < b then 0 else a - b
  }

  /** Round-trip minus direct, per percentile, never below zero. */
  function Overhead(r: Outcome): Option<(int, int, int)> {
    if r.direct.None? then None
    else
      var d := r.direct.value;
      Some((SaturatingSub(r.roundTrip.p50, d.p50),
            SaturatingSub(r.roundTrip.p95, d.p95),
            SaturatingSub(r.roundTrip.p99, d.p99)))
  }

  /**
   A transport that adds `c` to the direct cost of every call is reported as
   exactly `c` of overhead at every percentile.
   */
  lemma OverheadIsTransportCost(direct: seq<int>, roundTrip: seq<int>, c: nat, name: string, gated: bool)
    requires |direct| == |roundTrip| && |direct| > 0 && forall i :: 0 <= i < |direct| ==> roundTrip[i] == direct[i] + c
    ensures Overhead(Outcome(name, gated, FromSamples(roundTrip), Some(FromSamples(direct)))) == Some((c, c, c))
  {
    ShiftedSummary(direct, roundTrip, c);
    ShiftedOverhead(Outcome(name, gated, FromSamples(roundTrip), Some(FromSamples(direct))), FromSamples(direct), c);
  }

  lemma ShiftedOverhead(r: Outcome, d: Stats, c: nat)
    requires r.direct == Some(d) && r.roundTrip == Shift(d, c)
    ensures Overhead(r) == Some((c, c, c))
  {
  }
}
