/**
 The persistent-worker protocol of the concurrent id-generation benchmark: N
 workers and one driver meet at two reusable barriers, and a stop flag ends it.

 Each barrier is an arrival count and a generation; arriving and leaving are
 separate steps, so a released thread may linger inside the barrier while
 others run on.  A run is any interleaving of the threads' steps.
 */
module BarrierProtocol {

  /** Threads, ids drawn per thread and round, rounds, and the largest id the generator may hand out. */
  datatype Config = Config(workers: nat, ids: nat, rounds: nat, maxId: nat)

  datatype Barrier = Barrier(count: nat, generation: nat)

  datatype WorkerPc =
    | ToStart
    | AtStart(generation: nat)
    | Check
    | Calling(left: nat)
    | ToDone
    | AtDone(generation: nat)
    | Exited
    | Panicked

  /** A worker, the rounds it has finished and the ids it has drawn. */
  datatype Worker = Worker(pc: WorkerPc, finished: nat, calls: nat)

  datatype DriverPc =
    | Top
    | InStart(generation: nat)
    | BeforeDone
    | InDone(generation: nat)
    | BeforeFinal
    | InFinal(generation: nat)
    | Joining(next: nat)
    | Finished

  datatype State = State(
    workers: seq<Worker>,
    driver: DriverPc,
    driven: nat,
    start: Barrier,
    done: Barrier,
    stop: bool,
    nextId: nat)

  datatype Action = StepWorker(i: nat) | StepDriver

  function Init(c: Config): State {
    State(seq(c.workers, _ => Worker(ToStart, 0, 0)), Top, 0, Barrier(0, 0), Barrier(0, 0), false, 0)
  }

  // ------------------------------------------------------------------------
  // Steps

  /** The last of the `workers + 1` threads to arrive does not wait. */
  predicate Leads(c: Config, b: Barrier) {
    b.count + 1 >= c.workers + 1
  }

  function Arrive(c: Config, b: Barrier): Barrier {
    if Leads(c, b) then Barrier(0, b.generation + 1) else Barrier(b.count + 1, b.generation)
  }

  predicate WorkerEnabled(s: State, w: Worker) {
    match w.pc
    case AtStart(g) => s.start.generation != g
    case AtDone(g) => s.done.generation != g
    case Exited => false
    case Panicked => false
    case _ => true
  }

  predicate DriverEnabled(s: State) {
    match s.driver
    case InStart(g) => s.start.generation != g
    case InDone(g) => s.done.generation != g
    case InFinal(g) => s.start.generation != g
    case Joining(i) => i < |s.workers| ==> s.workers[i].pc.Exited?
    case Finished => false
    case _ => true
  }

  predicate Enabled(s: State, a: Action) {
    match a
    case StepWorker(i) => i < |s.workers| && WorkerEnabled(s, s.workers[i])
    case StepDriver => DriverEnabled(s)
  }

  function SetWorker(s: State, i: nat, w: Worker): State
    requires i < |s.workers|
  {
    s.(workers := s.workers[i := w])
  }

  function WorkerStep(c: Config, s: State, i: nat): State
    requires i < |s.workers| && WorkerEnabled(s, s.workers[i])
  {
    var w := s.workers[i];
    match w.pc
    case ToStart =>
      SetWorker(s, i, w.(pc := if Leads(c, s.start) then Check else AtStart(s.start.generation)))
        .(start := Arrive(c, s.start))
    case AtStart(_) => SetWorker(s, i, w.(pc := Check))
    case Check => SetWorker(s, i, w.(pc := if s.stop then Exited else Calling(c.ids)))
    case Calling(left) =>
      if left == 0 then SetWorker(s, i, w.(pc := ToDone))
      else if s.nextId > c.maxId then SetWorker(s, i, w.(pc := Panicked)).(nextId := s.nextId + 1)
      else SetWorker(s, i, w.(pc := Calling(left - 1), calls := w.calls + 1)).(nextId := s.nextId + 1)
    case ToDone =>
      SetWorker(s, i, if Leads(c, s.done) then w.(pc := ToStart, finished := w.finished + 1)
                      else w.(pc := AtDone(s.done.generation)))
        .(done := Arrive(c, s.done))
    case AtDone(_) => SetWorker(s, i, w.(pc := ToStart, finished := w.finished + 1))
  }

  function DriverStep(c: Config, s: State): State
    requires DriverEnabled(s)
  {
    match s.driver
    case Top =>
      if s.driven < c.rounds then
        s.(driver := if Leads(c, s.start) then BeforeDone else InStart(s.start.generation), start := Arrive(c, s.start))
      else
        s.(driver := BeforeFinal, stop := true)
    case InStart(_) => s.(driver := BeforeDone)
    case BeforeDone =>
      if Leads(c, s.done) then s.(driver := Top, driven := s.driven + 1, done := Arrive(c, s.done))
      else s.(driver := InDone(s.done.generation), done := Arrive(c, s.done))
    case InDone(_) => s.(driver := Top, driven := s.driven + 1)
    case BeforeFinal =>
      s.(driver := if Leads(c, s.start) then Joining(0) else InFinal(s.start.generation), start := Arrive(c, s.start))
    case InFinal(_) => s.(driver := Joining(0))
    case Joining(i) => s.(driver := if i < |s.workers| then Joining(i + 1) else Finished)
  }

  function Step(c: Config, s: State, a: Action): State
    requires Enabled(s, a)
  {
    match a
    case StepWorker(i) => WorkerStep(c, s, i)
    case StepDriver => DriverStep(c, s)
  }

  // ------------------------------------------------------------------------
  // Sums over the workers

  function Sum(xs: seq<nat>): nat {
    if xs == [] then 0 else Sum(xs[..|xs| - 1]) + xs[|xs| - 1]
  }

  lemma {:induction false} SumUpdate(xs: seq<nat>, i: nat, x: nat)
    requires i < |xs|
    ensures Sum(xs[i := x]) + xs[i] == Sum(xs) + x
  {
    var n := |xs| - 1;
    if i < n {
      SumUpdate(xs[..n], i, x);
      assert xs[i := x][..n] == xs[..n][i := x];
    } else {
      assert xs[i := x][..n] == xs[..n];
    }
  }

  /** A sum of terms bounded by `b`, and what it takes to reach the bound. */
  lemma {:induction false} SumBound(xs: seq<nat>, b: nat)
    requires forall i :: 0 <= i < |xs| ==> xs[i] <= b
    ensures Sum(xs) <= |xs| * b
    ensures (forall i :: 0 <= i < |xs| ==> xs[i] == b) ==> Sum(xs) == |xs| * b
    ensures Sum(xs) == |xs| * b ==> forall i :: 0 <= i < |xs| ==> xs[i] == b
  {
    if xs != [] {
      var n := |xs| - 1;
      SumBound(xs[..n], b);
      assert |xs| * b == n * b + b;
    }
  }

  function Hits(ws: seq<Worker>, pc: WorkerPc): seq<nat> {
    seq(|ws|, i requires 0 <= i < |ws| => if ws[i].pc == pc then 1 else 0)
  }

  /** How many workers are at `pc`. */
  function Count(ws: seq<Worker>, pc: WorkerPc): nat {
    Sum(Hits(ws, pc))
  }

  function Calls(ws: seq<Worker>): seq<nat> {
    seq(|ws|, i requires 0 <= i < |ws| => ws[i].calls)
  }

  lemma CountUpdate(ws: seq<Worker>, i: nat, w: Worker, pc: WorkerPc)
    requires i < |ws|
    ensures Count(ws[i := w], pc) + (if ws[i].pc == pc then 1 else 0) == Count(ws, pc) + (if w.pc == pc then 1 else 0)
  {
    SumUpdate(Hits(ws, pc), i, if w.pc == pc then 1 else 0);
    assert Hits(ws[i := w], pc) == Hits(ws, pc)[i := if w.pc == pc then 1 else 0];
  }

  lemma CountBound(ws: seq<Worker>, pc: WorkerPc)
    ensures Count(ws, pc) <= |ws|
    ensures Count(ws, pc) == |ws| ==> forall i :: 0 <= i < |ws| ==> ws[i].pc == pc
  {
    SumBound(Hits(ws, pc), 1);
    if Count(ws, pc) == |ws| {
      forall i | 0 <= i < |ws|
        ensures ws[i].pc == pc
      {
        assert Hits(ws, pc)[i] == 1;
      }
    }
  }

  lemma CountNone(ws: seq<Worker>, pc: WorkerPc)
    requires forall i :: 0 <= i < |ws| ==> ws[i].pc != pc
    ensures Count(ws, pc) == 0
  {
    SumBound(Hits(ws, pc), 0);
  }

  /** When all but one worker could be at `pc` and all those are, then everyone else is. */
  lemma CountAllBut(ws: seq<Worker>, i: nat, pc: WorkerPc)
    requires i < |ws| && ws[i].pc != pc
    ensures Count(ws, pc) <= |ws| - 1
    ensures Count(ws, pc) == |ws| - 1 ==> forall j :: 0 <= j < |ws| && j != i ==> ws[j].pc == pc
  {
    var w := ws[i].(pc := pc);
    CountUpdate(ws, i, w, pc);
    CountBound(ws[i := w], pc);
    if Count(ws, pc) == |ws| - 1 {
      forall j | 0 <= j < |ws| && j != i
        ensures ws[j].pc == pc
      {
        assert ws[i := w][j] == ws[j];
      }
    }
  }

  // ------------------------------------------------------------------------
  // The invariant

  /** Nobody has passed the start barrier of round `r` yet. */
  predicate GatheringWorker(r: nat, w: Worker) {
    match w.pc
    case ToStart => w.finished == r
    case AtStart(g) => g == r && w.finished == r
    case AtDone(g) => g + 1 == r && w.finished + 1 == r
    case _ => false
  }

  predicate GatheringDriver(c: Config, s: State, r: nat) {
    match s.driver
    case Top => s.driven == r && !s.stop
    case InStart(g) => g == r && s.driven == r && r < c.rounds && !s.stop
    case InDone(g) => g + 1 == r && s.driven + 1 == r && !s.stop
    case BeforeFinal => s.driven == r == c.rounds && s.stop
    case InFinal(g) => g == r && s.driven == r == c.rounds && s.stop
    case _ => false
  }

  /** Round `r` has started and its done barrier has not opened. */
  predicate WorkingWorker(c: Config, r: nat, w: Worker) {
    && w.finished == r
    && match w.pc
       case AtStart(g) => g == r
       case Check => true
       case Calling(left) => left <= c.ids
       case ToDone => true
       case AtDone(g) => g == r
       case _ => false
  }

  predicate WorkingDriver(s: State, r: nat) {
    && s.driven == r && !s.stop
    && match s.driver
       case InStart(g) => g == r
       case BeforeDone => true
       case InDone(g) => g == r
       case _ => false
  }

  /** The last start barrier has opened with the stop flag set. */
  predicate LeavingWorker(r: nat, w: Worker) {
    && w.finished == r
    && match w.pc
       case AtStart(g) => g == r
       case Check => true
       case Exited => true
       case _ => false
  }

  predicate LeavingDriver(s: State, r: nat) {
    && s.driven == r && s.stop
    && match s.driver
       case InFinal(g) => g == r
       case Joining(i) => i <= |s.workers| && forall j :: 0 <= j < i ==> s.workers[j].pc.Exited?
       case Finished => forall j :: 0 <= j < |s.workers| ==> s.workers[j].pc.Exited?
       case _ => false
  }

  predicate Gathering(c: Config, s: State) {
    var r := s.done.generation;
    && s.start.generation == r <= c.rounds
    && (forall i :: 0 <= i < |s.workers| ==> GatheringWorker(r, s.workers[i]))
    && GatheringDriver(c, s, r)
    && s.start.count == Count(s.workers, AtStart(r)) + (if s.driver.InStart? || s.driver.InFinal? then 1 else 0)
    && s.start.count <= |s.workers|
    && s.done.count == 0
  }

  predicate Working(c: Config, s: State) {
    var r := s.done.generation;
    && s.start.generation == r + 1 && r < c.rounds
    && (forall i :: 0 <= i < |s.workers| ==> WorkingWorker(c, r, s.workers[i]))
    && WorkingDriver(s, r)
    && s.done.count == Count(s.workers, AtDone(r)) + (if s.driver.InDone? then 1 else 0)
    && s.done.count <= |s.workers|
    && s.start.count == 0
  }

  predicate Leaving(c: Config, s: State) {
    var r := s.done.generation;
    && s.start.generation == r + 1 && r == c.rounds
    && (forall i :: 0 <= i < |s.workers| ==> LeavingWorker(r, s.workers[i]))
    && LeavingDriver(s, r)
    && s.start.count == 0 && s.done.count == 0
  }

  /** Ids drawn in the round a worker is in. */
  function Drawn(c: Config, pc: WorkerPc): int {
    match pc
    case Calling(left) => c.ids - left
    case ToDone => c.ids
    case AtDone(_) => c.ids
    case _ => 0
  }

  predicate CallsOk(c: Config, w: Worker) {
    w.calls == w.finished * c.ids + Drawn(c, w.pc)
  }

  predicate Inv(c: Config, s: State) {
    && |s.workers| == c.workers
    && (Gathering(c, s) || Working(c, s) || Leaving(c, s))
    && (forall i :: 0 <= i < |s.workers| ==> CallsOk(c, s.workers[i]))
    && Sum(Calls(s.workers)) == s.nextId
  }

  lemma InitInv(c: Config)
    ensures Inv(c, Init(c))
  {
    var ws := Init(c).workers;
    CountNone(ws, AtStart(0));
    SumBound(Calls(ws), 0);
  }

  /** The generator is exhausted and this worker is about to draw from it. */
  predicate Panics(c: Config, s: State, a: Action) {
    && a.StepWorker? && a.i < |s.workers|
    && s.workers[a.i].pc.Calling? && s.workers[a.i].pc.left > 0 && s.nextId > c.maxId
  }

  // ------------------------------------------------------------------------
  // Preservation: control

  lemma GatheringWorkerStep(c: Config, s: State, i: nat)
    requires Gathering(c, s) && |s.workers| == c.workers && Enabled(s, StepWorker(i))
    ensures var t := WorkerStep(c, s, i); Gathering(c, t) || Working(c, t) || Leaving(c, t)
  {
    var r, w, t := s.done.generation, s.workers[i], WorkerStep(c, s, i);
    assert GatheringWorker(r, w);
    CountUpdate(s.workers, i, t.workers[i], AtStart(r));
    CountAllBut(s.workers, i, AtStart(r));
    if w.pc.ToStart? && Leads(c, s.start) {
      forall j | 0 <= j < |t.workers|
        ensures t.workers[j].finished == r && (t.workers[j].pc == AtStart(r) || t.workers[j].pc == Check)
      {
        assert GatheringWorker(r, s.workers[j]);
      }
      CountNone(t.workers, AtDone(r));
      assert s.driver.InStart? ==> Working(c, t);
      assert s.driver.InFinal? ==> Leaving(c, t);
    } else {
      assert Gathering(c, t);
    }
  }

  lemma WorkingWorkerStep(c: Config, s: State, i: nat)
    requires Working(c, s) && |s.workers| == c.workers && Enabled(s, StepWorker(i)) && !Panics(c, s, StepWorker(i))
    ensures var t := WorkerStep(c, s, i); Gathering(c, t) || Working(c, t)
  {
    var r, w, t := s.done.generation, s.workers[i], WorkerStep(c, s, i);
    assert WorkingWorker(c, r, w);
    CountUpdate(s.workers, i, t.workers[i], AtDone(r));
    CountAllBut(s.workers, i, AtDone(r));
    if w.pc.ToDone? && Leads(c, s.done) {
      forall j | 0 <= j < |t.workers|
        ensures GatheringWorker(r + 1, t.workers[j]) && t.workers[j].pc != AtStart(r + 1)
      {
        assert WorkingWorker(c, r, s.workers[j]);
      }
      CountNone(t.workers, AtStart(r + 1));
      assert Gathering(c, t);
    } else {
      assert Working(c, t);
    }
  }

  lemma LeavingWorkerStep(c: Config, s: State, i: nat)
    requires Leaving(c, s) && Enabled(s, StepWorker(i))
    ensures Leaving(c, WorkerStep(c, s, i))
  {
    assert LeavingWorker(s.done.generation, s.workers[i]);
  }

  lemma GatheringDriverStep(c: Config, s: State)
    requires Gathering(c, s) && |s.workers| == c.workers && DriverEnabled(s)
    ensures var t := DriverStep(c, s); Gathering(c, t) || Working(c, t) || Leaving(c, t)
  {
    var r, t := s.done.generation, DriverStep(c, s);
    CountBound(s.workers, AtStart(r));
    if t.start.generation == r {
      assert Gathering(c, t);
    } else {
      CountNone(t.workers, AtDone(r));
      assert s.driver.Top? ==> Working(c, t);
      assert s.driver.BeforeFinal? ==> Leaving(c, t);
    }
  }

  lemma WorkingDriverStep(c: Config, s: State)
    requires Working(c, s) && |s.workers| == c.workers && DriverEnabled(s)
    ensures var t := DriverStep(c, s); Gathering(c, t) || Working(c, t)
  {
    var r, t := s.done.generation, DriverStep(c, s);
    CountBound(s.workers, AtDone(r));
    if t.done.generation == r {
      assert Working(c, t);
    } else {
      forall j | 0 <= j < |t.workers|
        ensures GatheringWorker(r + 1, t.workers[j]) && t.workers[j].pc != AtStart(r + 1)
      {
        assert WorkingWorker(c, r, s.workers[j]);
      }
      CountNone(t.workers, AtStart(r + 1));
      assert Gathering(c, t);
    }
  }

  lemma LeavingDriverStep(c: Config, s: State)
    requires Leaving(c, s) && DriverEnabled(s)
    ensures Leaving(c, DriverStep(c, s))
  {
  }

  // ------------------------------------------------------------------------
  // Preservation: ids

  lemma WorkerCalls(c: Config, s: State, i: nat)
    requires Enabled(s, StepWorker(i)) && !Panics(c, s, StepWorker(i)) && CallsOk(c, s.workers[i])
    ensures var t := WorkerStep(c, s, i);
            && CallsOk(c, t.workers[i])
            && t.nextId - s.nextId == t.workers[i].calls - s.workers[i].calls
            && t.workers == s.workers[i := t.workers[i]]
  {
    var w := s.workers[i];
    assert (w.finished + 1) * c.ids == w.finished * c.ids + c.ids;
  }

  lemma CallsStep(c: Config, s: State, i: nat)
    requires forall j :: 0 <= j < |s.workers| ==> CallsOk(c, s.workers[j])
    requires Sum(Calls(s.workers)) == s.nextId
    requires Enabled(s, StepWorker(i)) && !Panics(c, s, StepWorker(i))
    ensures var t := WorkerStep(c, s, i);
            && Sum(Calls(t.workers)) == t.nextId
            && forall j :: 0 <= j < |t.workers| ==> CallsOk(c, t.workers[j])
  {
    var t := WorkerStep(c, s, i);
    WorkerCalls(c, s, i);
    SumUpdate(Calls(s.workers), i, t.workers[i].calls);
    assert Calls(t.workers) == Calls(s.workers)[i := t.workers[i].calls];
  }

  lemma StepInv(c: Config, s: State, a: Action)
    requires Inv(c, s) && Enabled(s, a) && !Panics(c, s, a)
    ensures Inv(c, Step(c, s, a))
  {
    match a
    case StepWorker(i) =>
      CallsStep(c, s, i);
      if Gathering(c, s) {
        GatheringWorkerStep(c, s, i);
      } else if Working(c, s) {
        WorkingWorkerStep(c, s, i);
      } else {
        LeavingWorkerStep(c, s, i);
      }
    case StepDriver =>
      if Gathering(c, s) {
        GatheringDriverStep(c, s);
      } else if Working(c, s) {
        WorkingDriverStep(c, s);
      } else {
        LeavingDriverStep(c, s);
      }
  }

  // ------------------------------------------------------------------------
  // Safety in every reachable state

  /** Barriers a worker has come out of. */
  function Passed(w: Worker): nat {
    2 * w.finished + (if w.pc.ToStart? || w.pc.AtStart? then 0 else 1)
  }

  /** No worker is ever more than one barrier ahead of another. */
  lemma WorkersStayInStep(c: Config, s: State, i: nat, j: nat)
    requires Inv(c, s) && i < |s.workers| && j < |s.workers|
    ensures Passed(s.workers[i]) <= Passed(s.workers[j]) + 1
  {
    var r, v, w := s.done.generation, s.workers[i], s.workers[j];
    if Gathering(c, s) {
      assert GatheringWorker(r, v) && GatheringWorker(r, w);
    } else if Working(c, s) {
      assert WorkingWorker(c, r, v) && WorkingWorker(c, r, w);
    } else {
      assert LeavingWorker(r, v) && LeavingWorker(r, w);
    }
  }

  /** Once the stop flag is up nobody works, arrives at the done barrier or is held in it. */
  lemma NoWorkAfterStop(c: Config, s: State, i: nat)
    requires Inv(c, s) && s.stop && i < |s.workers|
    ensures var pc := s.workers[i].pc; !pc.Calling? && !pc.ToDone? && (pc.AtDone? ==> Enabled(s, StepWorker(i)))
  {
    if Gathering(c, s) {
      assert GatheringWorker(s.done.generation, s.workers[i]);
    } else {
      assert LeavingWorker(s.done.generation, s.workers[i]);
    }
  }

  /** As long as the driver has not finished, some thread can move. */
  lemma NeverStuck(c: Config, s: State)
    requires Inv(c, s) && !s.driver.Finished?
    ensures exists a :: Enabled(s, a)
  {
    if !Enabled(s, StepDriver) {
      var r := s.done.generation;
      if Gathering(c, s) {
        if forall i :: 0 <= i < |s.workers| ==> s.workers[i].pc == AtStart(r) {
          SumBound(Hits(s.workers, AtStart(r)), 1);
          assert false;
        }
        var i :| 0 <= i < |s.workers| && s.workers[i].pc != AtStart(r);
        assert GatheringWorker(r, s.workers[i]) && Enabled(s, StepWorker(i));
      } else if Working(c, s) {
        if forall i :: 0 <= i < |s.workers| ==> s.workers[i].pc == AtDone(r) {
          SumBound(Hits(s.workers, AtDone(r)), 1);
          assert false;
        }
        var i :| 0 <= i < |s.workers| && s.workers[i].pc != AtDone(r);
        assert WorkingWorker(c, r, s.workers[i]) && Enabled(s, StepWorker(i));
      } else {
        var i := s.driver.next;
        assert LeavingWorker(r, s.workers[i]) && Enabled(s, StepWorker(i));
      }
    }
  }

  /** When the driver has finished, every worker has exited with exactly its share of ids. */
  lemma FinishedMeansDone(c: Config, s: State)
    requires Inv(c, s) && s.driver.Finished?
    ensures forall i :: 0 <= i < |s.workers| ==> s.workers[i].pc.Exited? && s.workers[i].calls == c.rounds * c.ids
    ensures s.nextId == c.workers * (c.rounds * c.ids)
  {
    forall i | 0 <= i < |s.workers|
      ensures s.workers[i].calls == c.rounds * c.ids
    {
      assert LeavingWorker(s.done.generation, s.workers[i]) && CallsOk(c, s.workers[i]);
    }
    SumBound(Calls(s.workers), c.rounds * c.ids);
  }

  // ------------------------------------------------------------------------
  // The id generator's capacity

  /** Ids 0 to `maxId` are enough for the whole run. */
  predicate Capacity(c: Config) {
    c.workers * (c.rounds * c.ids) <= c.maxId + 1
  }

  lemma CallsBound(c: Config, s: State, i: nat)
    requires Inv(c, s) && i < |s.workers|
    ensures s.workers[i].calls <= c.rounds * c.ids
    ensures s.workers[i].pc.Calling? && s.workers[i].pc.left > 0 ==> s.workers[i].calls < c.rounds * c.ids
  {
    var w := s.workers[i];
    assert CallsOk(c, w);
    assert (w.finished + 1) * c.ids == w.finished * c.ids + c.ids;
    if Gathering(c, s) {
      assert GatheringWorker(s.done.generation, w);
      if w.pc.AtDone? {
        MulMonotone(w.finished + 1, c.rounds, c.ids);
      } else {
        MulMonotone(w.finished, c.rounds, c.ids);
      }
    } else if Working(c, s) {
      assert WorkingWorker(c, s.done.generation, w);
      MulMonotone(w.finished + 1, c.rounds, c.ids);
    } else {
      assert LeavingWorker(s.done.generation, w);
    }
  }

  lemma MulMonotone(a: nat, b: nat, k: nat)
    requires a <= b
    ensures a * k <= b * k
  {
  }

  lemma NoPanic(c: Config, s: State, a: Action)
    requires Inv(c, s) && Capacity(c) && Enabled(s, a)
    ensures !Panics(c, s, a)
  {
    if Panics(c, s, a) {
      var calls := Calls(s.workers);
      forall j | 0 <= j < |calls|
        ensures calls[j] <= c.rounds * c.ids
      {
        CallsBound(c, s, j);
      }
      CallsBound(c, s, a.i);
      assert calls[a.i] < c.rounds * c.ids;
      SumBound(calls, c.rounds * c.ids);
    }
  }

  /** A panicked worker is never joined. */
  predicate Dead(s: State, i: nat) {
    && i < |s.workers| && s.workers[i].pc.Panicked?
    && !s.driver.Finished?
    && (s.driver.Joining? ==> s.driver.next <= i)
  }

  lemma PanicIsForever(c: Config, s: State, a: Action, i: nat)
    requires Dead(s, i) && Enabled(s, a)
    ensures Dead(Step(c, s, a), i)
  {
  }

  lemma PanicIsDead(c: Config, s: State, a: Action)
    requires Inv(c, s) && Enabled(s, a) && Panics(c, s, a)
    ensures Dead(Step(c, s, a), a.i)
  {
    assert Gathering(c, s) ==> GatheringWorker(s.done.generation, s.workers[a.i]);
    assert Leaving(c, s) ==> LeavingWorker(s.done.generation, s.workers[a.i]);
  }

  // ------------------------------------------------------------------------
  // A measure every step decreases

  function WorkerRank(c: Config, w: Worker): nat {
    var togo := if w.finished < c.rounds then c.rounds - w.finished else 0;
    var later := if togo > 0 then (togo - 1) * (c.ids + 6) else 0;
    match w.pc
    case ToStart => togo * (c.ids + 6) + 3
    case AtStart(_) => togo * (c.ids + 6) + 2
    case Check => togo * (c.ids + 6) + 1
    case Calling(left) => later + 6 + left
    case ToDone => later + 5
    case AtDone(_) => later + 4
    case Exited => 0
    case Panicked => 0
  }

  function DriverRank(c: Config, s: State): nat {
    var togo := if s.driven < c.rounds then c.rounds - s.driven else 0;
    match s.driver
    case Top => 4 * togo + c.workers + 5
    case InStart(_) => 4 * togo + c.workers + 4
    case BeforeDone => 4 * togo + c.workers + 3
    case InDone(_) => 4 * togo + c.workers + 2
    case BeforeFinal => c.workers + 4
    case InFinal(_) => c.workers + 3
    case Joining(i) => if i <= c.workers then c.workers - i + 1 else 1
    case Finished => 0
  }

  function Ranks(c: Config, ws: seq<Worker>): seq<nat> {
    seq(|ws|, i requires 0 <= i < |ws| => WorkerRank(c, ws[i]))
  }

  function Rank(c: Config, s: State): nat {
    Sum(Ranks(c, s.workers)) + DriverRank(c, s)
  }

  lemma WorkerRankDrops(c: Config, s: State, i: nat)
    requires Inv(c, s) && Enabled(s, StepWorker(i)) && !Panics(c, s, StepWorker(i))
    ensures WorkerRank(c, WorkerStep(c, s, i).workers[i]) < WorkerRank(c, s.workers[i])
  {
    var r, w := s.done.generation, s.workers[i];
    if Gathering(c, s) {
      assert GatheringWorker(r, w);
    } else if Working(c, s) {
      assert WorkingWorker(c, r, w);
      var togo := c.rounds - w.finished;
      assert togo * (c.ids + 6) == (togo - 1) * (c.ids + 6) + c.ids + 6;
    } else {
      assert LeavingWorker(r, w);
    }
  }

  lemma DriverRankDrops(c: Config, s: State)
    requires Inv(c, s) && Enabled(s, StepDriver)
    ensures var t := Step(c, s, StepDriver); t.workers == s.workers && DriverRank(c, t) < DriverRank(c, s)
  {
  }

  lemma RankDrops(c: Config, s: State, a: Action)
    requires Inv(c, s) && Enabled(s, a) && !Panics(c, s, a)
    ensures Rank(c, Step(c, s, a)) < Rank(c, s)
  {
    hide WorkerRank;
    match a
    case StepWorker(i) =>
      var t := WorkerStep(c, s, i);
      WorkerRankDrops(c, s, i);
      WorkerCalls(c, s, i);
      SumUpdate(Ranks(c, s.workers), i, WorkerRank(c, t.workers[i]));
      assert Ranks(c, t.workers) == Ranks(c, s.workers)[i := WorkerRank(c, t.workers[i])];
    case StepDriver =>
      DriverRankDrops(c, s);
  }

  // ------------------------------------------------------------------------
  // Whole runs

  predicate CanRun(c: Config, s: State, run: seq<Action>)
    decreases |run|
  {
    run == [] || (Enabled(s, run[0]) && CanRun(c, Step(c, s, run[0]), run[1..]))
  }

  function Run(c: Config, s: State, run: seq<Action>): State
    requires CanRun(c, s, run)
    decreases |run|
  {
    if run == [] then s else Run(c, Step(c, s, run[0]), run[1..])
  }

  lemma {:induction false} RunInv(c: Config, s: State, run: seq<Action>)
    requires Inv(c, s) && Capacity(c) && CanRun(c, s, run)
    ensures Inv(c, Run(c, s, run))
    ensures |run| + Rank(c, Run(c, s, run)) <= Rank(c, s)
    decreases |run|
  {
    if run != [] {
      NoPanic(c, s, run[0]);
      StepInv(c, s, run[0]);
      RankDrops(c, s, run[0]);
      RunInv(c, Step(c, s, run[0]), run[1..]);
    }
  }

  /**
   Every schedule completes: its length is bounded in advance, it can be
   continued as long as the driver has not finished, and once the driver has
   finished every worker has exited with exactly `rounds * ids` calls, which
   together are the ids 0 .. workers * rounds * ids.
   */
  lemma EveryScheduleCompletes(c: Config, run: seq<Action>)
    requires Capacity(c) && CanRun(c, Init(c), run)
    ensures |run| <= Rank(c, Init(c))
    ensures var s := Run(c, Init(c), run);
            if s.driver.Finished?
            then
              && (forall i :: 0 <= i < |s.workers| ==>
                    s.workers[i].pc.Exited? && s.workers[i].calls == c.rounds * c.ids)
              && |s.workers| == c.workers && s.nextId == c.workers * (c.rounds * c.ids)
            else exists a :: Enabled(s, a)
  {
    InitInv(c);
    RunInv(c, Init(c), run);
    var s := Run(c, Init(c), run);
    if s.driver.Finished? {
      FinishedMeansDone(c, s);
    } else {
      NeverStuck(c, s);
    }
  }

  lemma {:induction false} SomeRunFinishes(c: Config, s: State) returns (run: seq<Action>)
    requires Inv(c, s) && Capacity(c)
    ensures CanRun(c, s, run) && Run(c, s, run).driver.Finished?
    decreases Rank(c, s)
  {
    if s.driver.Finished? {
      run := [];
    } else {
      NeverStuck(c, s);
      var a :| Enabled(s, a);
      NoPanic(c, s, a);
      StepInv(c, s, a);
      RankDrops(c, s, a);
      var rest := SomeRunFinishes(c, Step(c, s, a));
      run := [a] + rest;
      assert run[1..] == rest;
    }
  }

  lemma {:induction false} DeadRun(c: Config, s: State, i: nat, run: seq<Action>)
    requires Dead(s, i) && CanRun(c, s, run)
    ensures !Run(c, s, run).driver.Finished?
    decreases |run|
  {
    if run != [] {
      PanicIsForever(c, s, run[0], i);
      DeadRun(c, Step(c, s, run[0]), i, run[1..]);
    }
  }

  lemma {:induction false} FinishingNeedsCapacity(c: Config, s: State, run: seq<Action>)
    requires Inv(c, s) && s.nextId <= c.maxId + 1 && CanRun(c, s, run) && Run(c, s, run).driver.Finished?
    ensures Capacity(c)
    decreases |run|
  {
    if run == [] {
      FinishedMeansDone(c, s);
    } else if Panics(c, s, run[0]) {
      PanicIsDead(c, s, run[0]);
      DeadRun(c, Step(c, s, run[0]), run[0].i, run[1..]);
    } else {
      StepInv(c, s, run[0]);
      FinishingNeedsCapacity(c, Step(c, s, run[0]), run[1..]);
    }
  }

  /**
   `next().unwrap()` panics once the generator is exhausted, and a panicked
   worker leaves the others waiting: the benchmark can finish exactly when
   the id space holds every id the workers draw.
   */
  lemma FinishesExactlyWithinCapacity(c: Config)
    ensures Capacity(c) <==> exists run :: CanRun(c, Init(c), run) && Run(c, Init(c), run).driver.Finished?
  {
    InitInv(c);
    if Capacity(c) {
      var run := SomeRunFinishes(c, Init(c));
    }
    forall run | CanRun(c, Init(c), run) && Run(c, Init(c), run).driver.Finished?
      ensures Capacity(c)
    {
      FinishingNeedsCapacity(c, Init(c), run);
    }
  }

  /** One worker drawing one id in each of two rounds, from a generator that has a single id. */
  lemma ExhaustedNeverFinishes(run: seq<Action>)
    requires CanRun(Config(1, 1, 2, 0), Init(Config(1, 1, 2, 0)), run)
    ensures !Run(Config(1, 1, 2, 0), Init(Config(1, 1, 2, 0)), run).driver.Finished?
  {
    FinishesExactlyWithinCapacity(Config(1, 1, 2, 0));
  }
}
