/**
 The commit clock: one 128-bit frontier word that committers advance under a
 mutex and that any number of readers load and compare-exchange without a lock.
 On a replica, an applier replays batches of the primary's commits into storage
 without that mutex and raises the clock afterwards.

 Every access to the clock's two cells is a step of its own, and so is each
 change of storage as readers see it: a commit's writes, or a whole batch.  A run
 is an arbitrary interleaving of readers, committers and the applier.  The
 history fields (`storage`, `published`, `raised`, `stamped`, `issued` and a
 reader's `Seen`) record what has happened; no guard of a step looks at them.
 */
module CommitClock {

  /** A hybrid logical timestamp; ordered by wallclock, then by logical counter. */
  datatype Stamp = Stamp(wallclock: int, logical: nat)

  const MAX_LOGICAL: nat := 0xFFFF_FFFF

  predicate Before(a: Stamp, b: Stamp) {
    a.wallclock < b.wallclock || (a.wallclock == b.wallclock && a.logical < b.logical)
  }

  predicate AtMost(a: Stamp, b: Stamp) {
    a == b || Before(a, b)
  }

  /** The frontier cell: a stamp plus the in-flight and the reserved bit. */
  datatype Word = Word(stamp: Stamp, inFlight: bool, reserved: bool)

  // ------------------------------------------------------------------------
  // The 128-bit encoding

  const TWO_32: int := 0x1_0000_0000
  const TWO_63: int := 0x8000_0000_0000_0000
  const TWO_64: int := 0x1_0000_0000_0000_0000
  const TWO_96: int := 0x1_0000_0000_0000_0000_0000_0000
  const TWO_126: int := 0x4000_0000_0000_0000_0000_0000_0000_0000
  const TWO_127: int := 0x8000_0000_0000_0000_0000_0000_0000_0000

  predicate Representable(s: Stamp) {
    -TWO_63 <= s.wallclock < TWO_63 && s.logical <= MAX_LOGICAL
  }

  /** Flipping the sign bit of an i64 adds 2^63 to it. */
  function Pack(s: Stamp): int {
    (s.wallclock + TWO_63) * TWO_32 + s.logical
  }

  function Unpack(v: int): Stamp {
    Stamp(v / TWO_32 % TWO_64 - TWO_63, v % TWO_32)
  }

  function Encode(w: Word): int {
    Pack(w.stamp) + (if w.inFlight then TWO_127 else 0) + (if w.reserved then TWO_126 else 0)
  }

  /** The mask keeps everything below the two flag bits. */
  function Masked(v: int): int {
    v % TWO_126
  }

  /** Packing loses nothing, keeps the order and stays clear of the flag bits. */
  lemma PackRoundTrip(a: Stamp, b: Stamp)
    requires Representable(a) && Representable(b)
    ensures 0 <= Pack(a) < TWO_96
    ensures Unpack(Pack(a)) == a
    ensures Pack(a) < Pack(b) <==> Before(a, b)
  {
    assert Pack(a) / TWO_32 == a.wallclock + TWO_63;
    assert Pack(a) % TWO_32 == a.logical;
  }

  /**
   The words a compare-exchange can tell apart are exactly the ones this model
   tells apart, and masking recovers the stamp whatever the flags are.
   */
  lemma EncodeFaithful(a: Word, b: Word)
    requires Representable(a.stamp) && Representable(b.stamp)
    ensures Encode(a) == Encode(b) <==> a == b
    ensures Unpack(Masked(Encode(a))) == a.stamp
  {
    PackRoundTrip(a.stamp, b.stamp);
    PackRoundTrip(b.stamp, a.stamp);
    var flags := (if a.inFlight then 2 else 0) + (if a.reserved then 1 else 0);
    assert Encode(a) == Pack(a.stamp) + TWO_126 * flags;
    assert Masked(Encode(a)) == Pack(a.stamp);
  }

  // ------------------------------------------------------------------------
  // States

  /** A commit in this database: its own, or one replayed from the primary. */
  datatype Commit = Commit(at: Stamp, replicated: bool)

  /** What had happened when a reader loaded the frontier. */
  datatype Seen = Seen(published: set<Commit>, raised: set<Commit>, issued: set<Stamp>)

  datatype Reader =
    | Idle
    | Loaded(word: Word, seen: Seen)
    | Swapping(word: Word, snapshot: Stamp, seen: Seen)

  /** Who holds the serialization mutex, and how far they have come. */
  datatype Holder =
    | Free
    | Locked
    | Observed(word: Word)
    | InFlight(commit: Stamp)
    | Applied(commit: Stamp)
    | Publishing(commit: Stamp)
    | Raising
    | RaiseObserved(word: Word)
    | RaiseStored

  /** The applier, between replaying a batch and having raised the clock to its newest stamp. */
  datatype Applier = Quiet | Raise(batch: set<Commit>, target: Stamp)

  /** A snapshot handed to a reader, with the world as it was at that moment. */
  datatype Snapshot = Snapshot(at: Stamp, visible: set<Commit>, stamped: set<Commit>, seen: Seen)

  datatype State = State(
    frontier: Word,
    applied: Stamp,
    holder: Holder,
    applier: Applier,
    readers: seq<Reader>,
    storage: set<Commit>,
    published: set<Commit>,
    raised: set<Commit>,
    stamped: set<Commit>,
    issued: set<Snapshot>)

  function Init(ts: Stamp, readers: nat): State {
    State(Word(ts, false, false), ts, Free, Quiet, seq(readers, _ => Idle), {}, {}, {}, {}, {})
  }

  /** MVCC visibility: a commit is visible to a snapshot strictly after it. */
  function Visible(storage: set<Commit>, at: Stamp): set<Commit> {
    set c | c in storage && Before(c.at, at)
  }

  function Own(stamp: Stamp): Commit {
    Commit(stamp, false)
  }

  function Replicated(stamps: set<Stamp>): set<Commit> {
    set c | c in stamps :: Commit(c, true)
  }

  predicate Pending(h: Holder) {
    h.InFlight? || h.Applied? || h.Publishing?
  }

  // ------------------------------------------------------------------------
  // Steps

  datatype Action =
    | ReadLoad(r: nat)
    | ReadDecide(r: nat, now: int)
    | ReadSwap(r: nat, spurious: bool)
    | Lock
    | CommitLoad
    | CommitSwap(stamp: Stamp, spurious: bool)
    | ApplyWrites
    | StoreApplied
    | ClearInFlight
    | DropGuard
    | ApplyBatch(stamps: set<Stamp>, newest: Stamp)
    | RaiseLock
    | RaiseLoad
    | RaiseStore
    | RaiseStoreApplied

  predicate Enabled(s: State, a: Action) {
    match a
    case ReadLoad(r) => r < |s.readers| && s.readers[r].Idle?
    case ReadDecide(r, _) => r < |s.readers| && s.readers[r].Loaded?
    case ReadSwap(r, _) => r < |s.readers| && s.readers[r].Swapping?
    case Lock => s.holder.Free?
    case CommitLoad => s.holder.Locked?
    case CommitSwap(c, _) => s.holder.Observed? && Before(s.holder.word.stamp, c)
    case ApplyWrites => s.holder.InFlight?
    case StoreApplied => s.holder.Applied?
    case ClearInFlight => s.holder.Publishing?
    case DropGuard => s.holder.Locked? || s.holder.Observed? || s.holder.InFlight? || s.holder.Applied?
    case ApplyBatch(stamps, newest) => s.applier.Quiet? && forall c :: c in stamps ==> AtMost(c, newest)
    case RaiseLock => s.applier.Raise? && s.holder.Free?
    case RaiseLoad => s.applier.Raise? && s.holder.Raising?
    case RaiseStore => s.applier.Raise? && s.holder.RaiseObserved?
    case RaiseStoreApplied => s.applier.Raise? && s.holder.RaiseStored?
  }

  function SetReader(s: State, r: nat, reader: Reader): State
    requires r < |s.readers|
  {
    s.(readers := s.readers[r := reader])
  }

  /** The snapshot at `at`, were it handed out now. */
  function Taken(s: State, at: Stamp, seen: Seen): Snapshot {
    Snapshot(at, Visible(s.storage, at), s.stamped, seen)
  }

  /** Return `at` to reader `r`. */
  function Issue(s: State, r: nat, at: Stamp, seen: Seen): State
    requires r < |s.readers|
  {
    SetReader(s, r, Idle).(issued := s.issued + {Taken(s, at, seen)})
  }

  function IssuedStamps(s: State): set<Stamp> {
    set sn | sn in s.issued :: sn.at
  }

  function StepReadLoad(s: State, r: nat): State
    requires r < |s.readers|
  {
    var seen := Seen(s.published, s.raised, IssuedStamps(s));
    if s.frontier.inFlight then
      Issue(s, r, s.frontier.stamp, seen)
    else
      SetReader(s, r, Loaded(s.frontier, seen))
  }

  /** Share a live reservation, or work out a newest stamp, or fail on overflow. */
  function StepReadDecide(s: State, r: nat, wallclock: int): State
    requires r < |s.readers| && s.readers[r].Loaded?
  {
    var word, seen := s.readers[r].word, s.readers[r].seen;
    var last, now := word.stamp, Stamp(wallclock, 0);
    if word.reserved && AtMost(now, last) then
      Issue(s, r, last, seen)
    else if Before(last, now) then
      SetReader(s, r, Swapping(word, now, seen))
    else if last.logical < MAX_LOGICAL then
      SetReader(s, r, Swapping(word, Stamp(last.wallclock, last.logical + 1), seen))
    else
      SetReader(s, r, Idle)
  }

  /** A weak compare-exchange may fail although the word matches. */
  function StepReadSwap(s: State, r: nat, spurious: bool): State
    requires r < |s.readers| && s.readers[r].Swapping?
  {
    var reader := s.readers[r];
    if s.frontier == reader.word && !spurious then
      Issue(s.(frontier := Word(reader.snapshot, false, true)), r, reader.snapshot, reader.seen)
    else
      SetReader(s, r, Idle)
  }

  function StepCommitSwap(s: State, c: Stamp, spurious: bool): State
    requires s.holder.Observed?
  {
    if s.frontier == s.holder.word && !spurious then
      s.(frontier := Word(c, true, false), holder := InFlight(c), stamped := s.stamped + {Own(c)})
    else
      s.(holder := Locked)
  }

  /** A batch lands in storage at once, under the primary's stamps, before the clock is looked at. */
  function StepApplyBatch(s: State, stamps: set<Stamp>, newest: Stamp): State {
    var batch := Replicated(stamps);
    s.(storage := s.storage + batch, stamped := s.stamped + batch, applier := Raise(batch, newest))
  }

  function ClearBit(w: Word): Word {
    w.(inFlight := false)
  }

  function Step(s: State, a: Action): State
    requires Enabled(s, a)
  {
    match a
    case ReadLoad(r) => StepReadLoad(s, r)
    case ReadDecide(r, now) => StepReadDecide(s, r, now)
    case ReadSwap(r, spurious) => StepReadSwap(s, r, spurious)
    case Lock => s.(holder := Locked)
    case CommitLoad => s.(holder := Observed(s.frontier))
    case CommitSwap(c, spurious) => StepCommitSwap(s, c, spurious)
    case ApplyWrites => s.(holder := Applied(s.holder.commit), storage := s.storage + {Own(s.holder.commit)})
    case StoreApplied => s.(holder := Publishing(s.holder.commit), applied := s.holder.commit)
    case ClearInFlight =>
      s.(frontier := ClearBit(s.frontier), holder := Free, published := s.published + {Own(s.holder.commit)})
    case DropGuard =>
      s.(frontier := if Pending(s.holder) then ClearBit(s.frontier) else s.frontier, holder := Free)
    case ApplyBatch(stamps, newest) => StepApplyBatch(s, stamps, newest)
    case RaiseLock => s.(holder := Raising)
    case RaiseLoad =>
      if AtMost(s.applier.target, s.frontier.stamp) then
        s.(holder := Free, applier := Quiet, raised := s.raised + s.applier.batch)
      else
        s.(holder := RaiseObserved(s.frontier))
    case RaiseStore =>
      s.(frontier := Word(s.applier.target, false, false), holder := RaiseStored, raised := s.raised + s.applier.batch)
    case RaiseStoreApplied => s.(applied := s.applier.target, holder := Free, applier := Quiet)
  }

  /** The batch brings a commit that some snapshot already handed out should have seen, or ties with. */
  predicate Late(s: State, stamps: set<Stamp>) {
    exists c, sn :: c in stamps && Commit(c, true) !in s.storage && sn in s.issued && !Before(sn.at, c)
  }

  /** The one store that can move the frontier backwards: the plain store of `raise_to`. */
  predicate Lowers(s: State) {
    s.applier.Raise? && s.holder.RaiseObserved? && Before(s.applier.target, s.frontier.stamp)
  }

  /** The two steps of the applier that can break a promise. */
  predicate Breaks(s: State, a: Action) {
    (a.ApplyBatch? && Late(s, a.stamps)) || (a.RaiseStore? && Lowers(s))
  }

  // ------------------------------------------------------------------------
  // What a snapshot is promised

  /** The set of commits a snapshot sees never changes after it is handed out. */
  predicate Stable(s: State, sn: Snapshot) {
    Visible(s.storage, sn.at) == sn.visible
  }

  /**
   It includes every commit published before the reader's load, and every
   replicated one the clock had been raised over, except one at its very stamp.
   */
  predicate Fresh(sn: Snapshot) {
    sn.seen.published <= sn.visible && forall c :: c in sn.seen.raised ==> c in sn.visible || c.at == sn.at
  }

  /** Every commit that gets its stamp, or arrives, afterwards sorts strictly after it. */
  predicate SortsLaterCommits(s: State, sn: Snapshot) {
    forall c :: c in s.stamped && c !in sn.stamped ==> Before(sn.at, c.at)
  }

  /** It is not behind any snapshot handed out before the reader's load. */
  predicate Monotone(sn: Snapshot) {
    forall p :: p in sn.seen.issued ==> AtMost(p, sn.at)
  }

  predicate Promise(s: State, sn: Snapshot) {
    Stable(s, sn) && Fresh(sn) && SortsLaterCommits(s, sn) && Monotone(sn)
  }

  predicate Correct(s: State) {
    forall sn :: sn in s.issued ==> Promise(s, sn)
  }

  // ------------------------------------------------------------------------
  // The inductive invariant

  predicate StorageMatches(s: State) {
    && s.published <= s.storage <= s.stamped && s.raised <= s.storage
    && (forall c :: c in s.stamped && c.replicated ==> c in s.storage)
    && (forall c :: c in s.published ==> !c.replicated)
  }

  predicate CommitsBehindFrontier(s: State) {
    && StorageMatches(s)
    && AtMost(s.applied, s.frontier.stamp)
    && (forall c :: c in s.stamped && !c.replicated ==> AtMost(c.at, s.frontier.stamp))
    && (forall c :: c in s.raised ==> AtMost(c.at, s.frontier.stamp))
    && (s.frontier.reserved ==> Own(s.frontier.stamp) !in s.stamped)
  }

  predicate ApplierMatches(s: State) {
    && (s.applier.Raise? ==>
          s.applier.batch <= s.storage && forall c :: c in s.applier.batch ==> AtMost(c.at, s.applier.target))
    && (s.holder.Raising? || s.holder.RaiseObserved? || s.holder.RaiseStored? ==> s.applier.Raise?)
    && (s.holder.RaiseObserved? ==>
          && Before(s.holder.word.stamp, s.applier.target)
          && (s.frontier == s.holder.word || s.frontier.reserved))
    && (s.holder.RaiseStored? ==> AtMost(s.applier.target, s.frontier.stamp))
  }

  predicate HolderMatches(s: State) {
    && (s.frontier.inFlight <==> Pending(s.holder))
    && (Pending(s.holder) ==>
          && !s.frontier.reserved
          && s.frontier.stamp == s.holder.commit
          && Own(s.holder.commit) in s.stamped
          && Own(s.holder.commit) !in s.published
          && (Own(s.holder.commit) in s.storage <==> !s.holder.InFlight?)
          && (forall c :: c in s.raised ==> Before(c.at, s.holder.commit)))
    && ApplierMatches(s)
  }

  predicate LoadedOk(s: State, word: Word, seen: Seen) {
    && !word.inFlight
    && AtMost(word.stamp, s.frontier.stamp)
    && (Pending(s.holder) ==> Before(word.stamp, s.holder.commit))
    && seen.published <= s.storage && seen.raised <= s.storage
    && (forall c :: c in seen.published + seen.raised ==> AtMost(c.at, word.stamp))
    && (word.reserved ==> forall c :: c in seen.published ==> c.at != word.stamp)
    && (forall p :: p in seen.issued ==> AtMost(p, word.stamp))
  }

  predicate ReaderOk(s: State, r: Reader) {
    match r
    case Idle => true
    case Loaded(word, seen) => LoadedOk(s, word, seen)
    case Swapping(word, snapshot, seen) => LoadedOk(s, word, seen) && Before(word.stamp, snapshot)
  }

  predicate ReadersOk(s: State) {
    forall r :: 0 <= r < |s.readers| ==> ReaderOk(s, s.readers[r])
  }

  predicate IssuedBehindFrontier(s: State) {
    && (forall sn :: sn in s.issued ==> AtMost(sn.at, s.frontier.stamp))
    && (s.frontier.reserved ==> exists sn :: sn in s.issued && sn.at == s.frontier.stamp)
    && (forall sn :: sn in s.issued ==> sn.stamped <= s.stamped)
  }

  predicate Inv(s: State) {
    CommitsBehindFrontier(s) && HolderMatches(s) && ReadersOk(s) && IssuedBehindFrontier(s) && Correct(s)
  }

  lemma InitInv(ts: Stamp, readers: nat)
    ensures Inv(Init(ts, readers))
  {
  }

  // ------------------------------------------------------------------------
  // Preservation, one kind of step at a time

  lemma SetReaderInv(s: State, r: nat, reader: Reader)
    requires Inv(s) && r < |s.readers| && ReaderOk(s, reader)
    ensures Inv(SetReader(s, r, reader))
  {
  }

  /** Handing out `at` is safe when no commit still in flight sorts before it. */
  lemma IssueInv(s: State, r: nat, at: Stamp, seen: Seen)
    requires CommitsBehindFrontier(s) && HolderMatches(s) && ReadersOk(s) && Correct(s)
    requires r < |s.readers|
    requires forall sn :: sn in s.issued ==> AtMost(sn.at, s.frontier.stamp) && sn.stamped <= s.stamped
    requires s.frontier.reserved ==> at == s.frontier.stamp || exists sn :: sn in s.issued && sn.at == s.frontier.stamp
    requires AtMost(at, s.frontier.stamp)
    requires seen.published <= s.storage && forall c :: c in seen.published ==> Before(c.at, at)
    requires seen.raised <= s.storage && forall c :: c in seen.raised ==> AtMost(c.at, at)
    requires forall p :: p in seen.issued ==> AtMost(p, at)
    ensures Inv(Issue(s, r, at, seen))
  {
    var t := Issue(s, r, at, seen);
    var newest := Snapshot(at, Visible(s.storage, at), s.stamped, seen);
    assert t.issued == s.issued + {newest};
    forall sn | sn in t.issued
      ensures Promise(t, sn)
    {
      if sn != newest {
        assert Promise(s, sn);
      }
    }
    if t.frontier.reserved {
      if at == s.frontier.stamp {
        assert newest in t.issued && newest.at == t.frontier.stamp;
      } else {
        var sn :| sn in s.issued && sn.at == s.frontier.stamp;
        assert sn in t.issued;
      }
    }
  }

  lemma ReadLoadInv(s: State, r: nat)
    requires Inv(s) && Enabled(s, ReadLoad(r))
    ensures Inv(StepReadLoad(s, r))
  {
    var seen := Seen(s.published, s.raised, IssuedStamps(s));
    if s.frontier.inFlight {
      IssueInv(s, r, s.frontier.stamp, seen);
    } else {
      SetReaderInv(s, r, Loaded(s.frontier, seen));
    }
  }

  lemma ReadDecideInv(s: State, r: nat, now: int)
    requires Inv(s) && Enabled(s, ReadDecide(r, now))
    ensures Inv(StepReadDecide(s, r, now))
  {
    var word, seen := s.readers[r].word, s.readers[r].seen;
    assert ReaderOk(s, s.readers[r]);
    if word.reserved && AtMost(Stamp(now, 0), word.stamp) {
      IssueInv(s, r, word.stamp, seen);
    } else {
      SetReaderInv(s, r, StepReadDecide(s, r, now).readers[r]);
    }
  }

  lemma ReadSwapInv(s: State, r: nat, spurious: bool)
    requires Inv(s) && Enabled(s, ReadSwap(r, spurious))
    ensures Inv(StepReadSwap(s, r, spurious))
    ensures AtMost(s.frontier.stamp, StepReadSwap(s, r, spurious).frontier.stamp)
  {
    var reader := s.readers[r];
    assert ReaderOk(s, reader);
    if s.frontier == reader.word && !spurious {
      var u := s.(frontier := Word(reader.snapshot, false, true));
      assert ReadersOk(u) by {
        forall q | 0 <= q < |u.readers|
          ensures ReaderOk(u, u.readers[q])
        {
          assert ReaderOk(s, s.readers[q]);
        }
      }
      assert Correct(u) by {
        forall sn | sn in u.issued
          ensures Promise(u, sn)
        {
          assert Promise(s, sn);
        }
      }
      IssueInv(u, r, reader.snapshot, reader.seen);
    } else {
      SetReaderInv(s, r, Idle);
    }
  }

  /** Steps of the mutex holder and the applier: readers and old snapshots keep their promises. */
  lemma OtherStepInv(s: State, t: State)
    requires Inv(s)
    requires t.readers == s.readers && t.issued == s.issued
    requires CommitsBehindFrontier(t) && HolderMatches(t)
    requires s.storage <= t.storage && s.stamped <= t.stamped
    requires AtMost(s.frontier.stamp, t.frontier.stamp)
    requires t.frontier.reserved ==> t.frontier == s.frontier
    requires Pending(t.holder) ==>
               (Pending(s.holder) && t.holder.commit == s.holder.commit) || Before(s.frontier.stamp, t.holder.commit)
    requires forall c, sn :: c in t.storage && c !in s.storage && sn in s.issued ==> !Before(c.at, sn.at)
    requires forall c, sn :: c in t.stamped && c !in s.stamped && sn in s.issued ==> Before(sn.at, c.at)
    ensures Inv(t)
  {
    forall r | 0 <= r < |t.readers|
      ensures ReaderOk(t, t.readers[r])
    {
      assert ReaderOk(s, s.readers[r]);
    }
    forall sn | sn in t.issued
      ensures Promise(t, sn)
    {
      assert Promise(s, sn);
      assert Visible(t.storage, sn.at) == Visible(s.storage, sn.at);
    }
  }

  /** A batch that is not late leaves every snapshot as it was. */
  lemma ApplyBatchInv(s: State, stamps: set<Stamp>, newest: Stamp)
    requires Inv(s) && Enabled(s, ApplyBatch(stamps, newest)) && !Late(s, stamps)
    ensures Inv(StepApplyBatch(s, stamps, newest))
  {
    var t := StepApplyBatch(s, stamps, newest);
    forall c, sn | c in t.stamped && c !in s.stamped && sn in s.issued
      ensures Before(sn.at, c.at)
    {
      assert c == Commit(c.at, true) && c.at in stamps;
    }
    forall c, sn | c in t.storage && c !in s.storage && sn in s.issued
      ensures !Before(c.at, sn.at)
    {
      assert c == Commit(c.at, true) && c.at in stamps;
    }
    OtherStepInv(s, t);
  }

  predicate OfCommitter(a: Action) {
    || a.Lock? || a.CommitLoad? || a.CommitSwap? || a.DropGuard?
    || a.ApplyWrites? || a.StoreApplied? || a.ClearInFlight?
  }

  lemma CommitterInv(s: State, a: Action)
    requires Inv(s) && OfCommitter(a) && Enabled(s, a)
    ensures Inv(Step(s, a)) && AtMost(s.frontier.stamp, Step(s, a).frontier.stamp)
  {
    hide LoadedOk, Promise, Visible;
    OtherStepInv(s, Step(s, a));
  }

  predicate OfRaise(a: Action) {
    a.RaiseLock? || a.RaiseLoad? || a.RaiseStore? || a.RaiseStoreApplied?
  }

  lemma RaiseInv(s: State, a: Action)
    requires Inv(s) && OfRaise(a) && Enabled(s, a) && !Breaks(s, a)
    ensures Inv(Step(s, a)) && AtMost(s.frontier.stamp, Step(s, a).frontier.stamp)
  {
    hide LoadedOk, Promise, Visible;
    OtherStepInv(s, Step(s, a));
  }

  /** Every step but those two keeps the invariant and never moves the clock back. */
  lemma StepInv(s: State, a: Action)
    requires Inv(s) && Enabled(s, a) && !Breaks(s, a)
    ensures Inv(Step(s, a))
    ensures s.issued <= Step(s, a).issued
    ensures AtMost(s.frontier.stamp, Step(s, a).frontier.stamp)
  {
    hide Inv;
    match a
    case ReadLoad(r) => ReadLoadInv(s, r);
    case ReadDecide(r, now) => ReadDecideInv(s, r, now);
    case ReadSwap(r, spurious) => ReadSwapInv(s, r, spurious);
    case ApplyBatch(stamps, newest) => ApplyBatchInv(s, stamps, newest);
    case _ =>
      if OfRaise(a) {
        RaiseInv(s, a);
      } else {
        CommitterInv(s, a);
      }
  }

  // ------------------------------------------------------------------------
  // Whole runs

  predicate CanRun(s: State, run: seq<Action>)
    decreases |run|
  {
    run == [] || (Enabled(s, run[0]) && CanRun(Step(s, run[0]), run[1..]))
  }

  function Run(s: State, run: seq<Action>): State
    requires CanRun(s, run)
    decreases |run|
  {
    if run == [] then s else Run(Step(s, run[0]), run[1..])
  }

  predicate NeverBreaks(s: State, run: seq<Action>)
    requires CanRun(s, run)
    decreases |run|
  {
    run == [] || (!Breaks(s, run[0]) && NeverBreaks(Step(s, run[0]), run[1..]))
  }

  lemma {:induction false} RunInv(s: State, run: seq<Action>)
    requires Inv(s) && CanRun(s, run) && NeverBreaks(s, run)
    ensures Inv(Run(s, run))
    ensures s.issued <= Run(s, run).issued
    decreases |run|
  {
    if run != [] {
      StepInv(s, run[0]);
      RunInv(Step(s, run[0]), run[1..]);
    }
  }

  lemma {:induction false} RunSplits(s: State, first: seq<Action>, rest: seq<Action>)
    requires CanRun(s, first + rest)
    ensures CanRun(s, first) && CanRun(Run(s, first), rest)
    ensures Run(s, first + rest) == Run(Run(s, first), rest)
    ensures NeverBreaks(s, first + rest) ==> NeverBreaks(s, first) && NeverBreaks(Run(s, first), rest)
    decreases |first|
  {
    if first == [] {
      assert first + rest == rest;
    } else {
      assert (first + rest)[1..] == first[1..] + rest;
      RunSplits(Step(s, first[0]), first[1..], rest);
    }
  }

  lemma {:induction false} RunJoins(s: State, first: seq<Action>, rest: seq<Action>)
    requires CanRun(s, first) && CanRun(Run(s, first), rest)
    ensures CanRun(s, first + rest) && Run(s, first + rest) == Run(Run(s, first), rest)
    ensures NeverBreaks(s, first) && NeverBreaks(Run(s, first), rest) ==> NeverBreaks(s, first + rest)
    decreases |first|
  {
    if first == [] {
      assert first + rest == rest;
    } else {
      assert (first + rest)[1..] == first[1..] + rest;
      RunJoins(Step(s, first[0]), first[1..], rest);
    }
  }

  /**
   What every snapshot of the earlier state is owed in the later one: it sees the
   same commits, it saw what was finished before it was asked for, everything that
   came since sorts after it, and it is not behind the snapshots before it.
   */
  predicate Isolated(early: State, later: State) {
    forall sn :: sn in early.issued ==>
      && Visible(later.storage, sn.at) == Visible(early.storage, sn.at)
      && sn.seen.published <= Visible(later.storage, sn.at)
      && (forall c :: c in sn.seen.raised ==> c in Visible(later.storage, sn.at) || c.at == sn.at)
      && (forall c :: c in later.stamped && c !in early.stamped ==> Before(sn.at, c.at))
      && (forall p :: p in sn.seen.issued ==> AtMost(p, sn.at))
  }

  /** On a replica, along every run whose applier takes neither of the two breaking steps. */
  lemma ReplicaIsolation(ts: Stamp, readers: nat, first: seq<Action>, rest: seq<Action>)
    requires CanRun(Init(ts, readers), first + rest) && NeverBreaks(Init(ts, readers), first + rest)
    ensures CanRun(Init(ts, readers), first)
    ensures Isolated(Run(Init(ts, readers), first), Run(Init(ts, readers), first + rest))
  {
    InitInv(ts, readers);
    RunSplits(Init(ts, readers), first, rest);
    RunInv(Init(ts, readers), first);
    RunInv(Run(Init(ts, readers), first), rest);
    var early, later := Run(Init(ts, readers), first), Run(Init(ts, readers), first + rest);
    forall sn | sn in early.issued
      ensures Promise(early, sn) && Promise(later, sn) && sn.stamped <= early.stamped
    {
    }
  }

  predicate NoBatches(run: seq<Action>) {
    forall i :: 0 <= i < |run| ==> !run[i].ApplyBatch?
  }

  lemma {:induction false} PrimaryNeverBreaks(s: State, run: seq<Action>)
    requires s.applier.Quiet? && CanRun(s, run) && NoBatches(run)
    ensures NeverBreaks(s, run)
    decreases |run|
  {
    if run != [] {
      assert !run[0].ApplyBatch?;
      PrimaryNeverBreaks(Step(s, run[0]), run[1..]);
    }
  }

  /**
   Snapshot isolation on a primary: for any number of readers and any schedule of
   readers and committers, with no further hypothesis.
   */
  lemma SnapshotIsolation(ts: Stamp, readers: nat, first: seq<Action>, rest: seq<Action>)
    requires CanRun(Init(ts, readers), first + rest) && NoBatches(first + rest)
    ensures CanRun(Init(ts, readers), first)
    ensures Isolated(Run(Init(ts, readers), first), Run(Init(ts, readers), first + rest))
  {
    PrimaryNeverBreaks(Init(ts, readers), first + rest);
    ReplicaIsolation(ts, readers, first, rest);
  }

  // ------------------------------------------------------------------------
  // The two steps that break promises

  /** `states` lists the state before and after each action of `run`. */
  predicate Trace(states: seq<State>, run: seq<Action>) {
    && |states| == |run| + 1
    && forall i :: 0 <= i < |run| ==> Enabled(states[i], run[i]) && states[i + 1] == Step(states[i], run[i])
  }

  lemma {:induction false} TraceRuns(states: seq<State>, run: seq<Action>)
    requires Trace(states, run)
    ensures CanRun(states[0], run) && Run(states[0], run) == states[|run|]
    ensures (forall i :: 0 <= i < |run| ==> !Breaks(states[i], run[i])) ==> NeverBreaks(states[0], run)
    decreases |run|
  {
    if run != [] {
      assert Trace(states[1..], run[1..]);
      TraceRuns(states[1..], run[1..]);
    }
  }

  /** A late batch breaks a promise at once. */
  lemma LateBatchBreaks(s: State, stamps: set<Stamp>, newest: Stamp)
    requires Inv(s) && Enabled(s, ApplyBatch(stamps, newest)) && Late(s, stamps)
    ensures !Correct(StepApplyBatch(s, stamps, newest))
  {
    var c, sn :| c in stamps && Commit(c, true) !in s.storage && sn in s.issued && !Before(sn.at, c);
    var t := StepApplyBatch(s, stamps, newest);
    assert Commit(c, true) in t.stamped && Commit(c, true) !in sn.stamped;
    assert !SortsLaterCommits(t, sn);
  }

  /** A commit that takes the stamp of a live reservation. */
  function Collision(at: Stamp): seq<Action> {
    [RaiseStoreApplied, Lock, CommitLoad, CommitSwap(at, false)]
  }

  lemma StepThenRun(s: State, a: Action, rest: seq<Action>)
    requires Enabled(s, a) && CanRun(Step(s, a), rest)
    ensures CanRun(s, [a] + rest) && Run(s, [a] + rest) == Run(Step(s, a), rest)
    ensures !Breaks(s, a) && NeverBreaks(Step(s, a), rest) ==> NeverBreaks(s, [a] + rest)
  {
    assert ([a] + rest)[1..] == rest;
  }

  /** Where it leads, when nobody holds the mutex. */
  lemma CollisionRuns(s: State, at: Stamp)
    requires s.holder.RaiseStored? && s.applier.Raise? && Before(s.frontier.stamp, at)
    ensures CanRun(s, Collision(at)) && NeverBreaks(s, Collision(at))
    ensures var t := Run(s, Collision(at)); Own(at) in t.stamped && t.issued == s.issued
  {
    var s2 := s.(applied := s.applier.target, holder := Free, applier := Quiet);
    var s3 := s2.(holder := Locked);
    var s4 := s2.(holder := Observed(s2.frontier));
    var swap := CommitSwap(at, false);
    assert Enabled(s, RaiseStoreApplied) && Step(s, RaiseStoreApplied) == s2;
    assert Enabled(s2, Lock) && Step(s2, Lock) == s3;
    assert Enabled(s3, CommitLoad) && Step(s3, CommitLoad) == s4;
    assert Enabled(s4, swap) && Own(at) in Step(s4, swap).stamped && Step(s4, swap).issued == s.issued;
    assert CanRun(Step(s4, swap), []) && NeverBreaks(Step(s4, swap), []);
    assert Run(Step(s4, swap), []) == Step(s4, swap);
    hide CanRun, Run, NeverBreaks, Step, Enabled;
    StepThenRun(s4, swap, []);
    StepThenRun(s3, CommitLoad, [swap]);
    StepThenRun(s2, Lock, [CommitLoad, swap]);
    StepThenRun(s, RaiseStoreApplied, [Lock, CommitLoad, swap]);
  }

  lemma LoweringCollides(s: State)
    requires Inv(s) && Lowers(s)
    ensures var run := Collision(s.frontier.stamp);
            && CanRun(Step(s, RaiseStore), run)
            && NeverBreaks(Step(s, RaiseStore), run)
            && !Correct(Run(Step(s, RaiseStore), run))
  {
    hide CanRun, Run, NeverBreaks, Collision;
    var at := s.frontier.stamp;
    var sn :| sn in s.issued && sn.at == at;
    CollisionRuns(Step(s, RaiseStore), at);
    var t := Run(Step(s, RaiseStore), Collision(at));
    assert Own(at) in t.stamped && Own(at) !in sn.stamped;
    assert sn in t.issued && !SortsLaterCommits(t, sn);
  }

  /** After the step, whatever else happens, every promise holds. */
  ghost predicate SafeForever(t: State) {
    forall run | CanRun(t, run) && NeverBreaks(t, run) :: Correct(Run(t, run))
  }

  /**
   A step leaves every promise intact for every continuation exactly when it is
   neither a late batch nor a lowering store: the stamps a batch brings must lie
   after all snapshots handed out, and the target of the pending store must not be
   behind the frontier it is about to overwrite.
   */
  lemma StepIsSafeExactly(s: State, a: Action)
    requires Inv(s) && Enabled(s, a)
    ensures !Breaks(s, a) <==> SafeForever(Step(s, a))
  {
    if !Breaks(s, a) {
      StepInv(s, a);
      forall run | CanRun(Step(s, a), run) && NeverBreaks(Step(s, a), run)
        ensures Correct(Run(Step(s, a), run))
      {
        RunInv(Step(s, a), run);
      }
    } else if a.ApplyBatch? {
      LateBatchBreaks(s, a.stamps, a.newest);
      assert CanRun(Step(s, a), []) && NeverBreaks(Step(s, a), []) && Run(Step(s, a), []) == Step(s, a);
    } else {
      LoweringCollides(s);
    }
  }

  // ------------------------------------------------------------------------
  // When a raised commit is missed

  /** The snapshots a step hands out: at most one. */
  function Handed(s: State, a: Action): set<Snapshot>
    requires Enabled(s, a)
  {
    match a
    case ReadLoad(_) =>
      if s.frontier.inFlight then {Taken(s, s.frontier.stamp, Seen(s.published, s.raised, IssuedStamps(s)))} else {}
    case ReadDecide(r, now) =>
      if Shares(s.readers[r].word, now) then {Taken(s, s.readers[r].word.stamp, s.readers[r].seen)} else {}
    case ReadSwap(r, spurious) =>
      var reader := s.readers[r];
      if s.frontier == reader.word && !spurious then {Taken(s, reader.snapshot, reader.seen)} else {}
    case _ => {}
  }

  /** The reader shares the reservation it has loaded. */
  predicate Shares(word: Word, now: int) {
    word.reserved && AtMost(Stamp(now, 0), word.stamp)
  }

  /** It lacks a commit the clock had been raised over when the reader loaded the frontier. */
  predicate Misses(sn: Snapshot) {
    exists c :: c in sn.seen.raised && c !in sn.visible
  }

  /** A reservation is shared although a commit at its very stamp had been raised over. */
  predicate SharesTie(s: State, a: Action)
    requires Enabled(s, a)
  {
    && a.ReadDecide?
    && var reader := s.readers[a.r];
       Shares(reader.word, a.now) && exists c :: c in reader.seen.raised && c.at == reader.word.stamp
  }

  /** What is taken at `at` misses a commit exactly when one of those behind it is not before it. */
  lemma TakenMisses(s: State, at: Stamp, seen: Seen)
    requires seen.raised <= s.storage
    ensures Misses(Taken(s, at, seen)) <==> exists c :: c in seen.raised && !Before(c.at, at)
  {
  }

  /**
   A step hands out a snapshot that misses a raised commit exactly when it shares
   such a reservation.  Loads beside a commit in flight and compare-exchanges never do.
   */
  lemma MissesExactly(s: State, a: Action)
    requires Inv(s) && Enabled(s, a)
    ensures Step(s, a).issued == s.issued + Handed(s, a)
    ensures (exists sn :: sn in Handed(s, a) && Misses(sn)) <==> SharesTie(s, a)
  {
    hide Misses, Visible, Promise;
    match a
    case ReadLoad(r) =>
      TakenMisses(s, s.frontier.stamp, Seen(s.published, s.raised, IssuedStamps(s)));
    case ReadDecide(r, now) =>
      assert ReaderOk(s, s.readers[r]);
      TakenMisses(s, s.readers[r].word.stamp, s.readers[r].seen);
    case ReadSwap(r, spurious) =>
      assert ReaderOk(s, s.readers[r]);
      TakenMisses(s, s.readers[r].snapshot, s.readers[r].seen);
    case _ =>
  }

  predicate NeverSharesTie(s: State, run: seq<Action>)
    requires CanRun(s, run)
    decreases |run|
  {
    run == [] || (!SharesTie(s, run[0]) && NeverSharesTie(Step(s, run[0]), run[1..]))
  }

  predicate NoneMissed(s: State) {
    forall sn :: sn in s.issued ==> !Misses(sn)
  }

  /** Along whole runs: no snapshot ever misses a raised commit exactly when no step shares a tie. */
  lemma {:induction false} RunMissesExactly(s: State, run: seq<Action>)
    requires Inv(s) && CanRun(s, run) && NeverBreaks(s, run)
    ensures NoneMissed(Run(s, run)) <==> NoneMissed(s) && NeverSharesTie(s, run)
    decreases |run|
  {
    hide Inv, Misses, Step, SharesTie;
    if run != [] {
      StepInv(s, run[0]);
      MissesExactly(s, run[0]);
      RunMissesExactly(Step(s, run[0]), run[1..]);
    }
  }

  // ------------------------------------------------------------------------
  // Both happen

  const NOTHING := Seen({}, {}, {})
  const START := Word(Stamp(0, 0), false, false)
  const TEN := Commit(Stamp(10, 0), true)
  const TWENTY := Commit(Stamp(20, 0), true)

  /** The only reader reserves 20. */
  const RESERVE := [ReadLoad(0), ReadDecide(0, 20), ReadSwap(0, false)]

  function AfterReserve(s: State): State {
    s.(frontier := Word(Stamp(20, 0), false, true),
       issued := {Snapshot(Stamp(20, 0), Visible(s.storage, Stamp(20, 0)), s.stamped, NOTHING)})
  }

  lemma ReserveRuns(s: State)
    requires s.frontier == START && s.readers == [Idle] && s.published == s.raised == {} && s.issued == {}
    ensures CanRun(s, RESERVE) && NeverBreaks(s, RESERVE) && Run(s, RESERVE) == AfterReserve(s)
  {
    hide Visible, Late, Lowers, Correct;
    assert IssuedStamps(s) == {};
    var s1 := s.(readers := [Loaded(START, NOTHING)]);
    var s2 := s.(readers := [Swapping(START, Stamp(20, 0), NOTHING)]);
    assert Enabled(s, ReadLoad(0)) && Step(s, ReadLoad(0)) == s1;
    assert Enabled(s1, ReadDecide(0, 20)) && Step(s1, ReadDecide(0, 20)) == s2;
    assert Enabled(s2, ReadSwap(0, false)) && Step(s2, ReadSwap(0, false)) == AfterReserve(s);
    hide Step, Enabled;
    TraceRuns([s, s1, s2, AfterReserve(s)], RESERVE);
  }

  lemma Empty()
    ensures Init(Stamp(0, 0), 1) == State(START, Stamp(0, 0), Free, Quiet, [Idle], {}, {}, {}, {}, {})
  {
  }

  const AT_20 := Snapshot(Stamp(20, 0), {}, {}, NOTHING)

  /**
   Ordinary replication lag: a reader holds 20 when a batch with the commits 10 and
   30 arrives.  The clock only moves forward, and the snapshot has changed.
   */
  lemma LagBreaksSnapshot()
    ensures CanRun(Init(Stamp(0, 0), 1), RESERVE)
    ensures var s := Run(Init(Stamp(0, 0), 1), RESERVE);
            var run := [ApplyBatch({Stamp(10, 0), Stamp(30, 0)}, Stamp(30, 0)), RaiseLock, RaiseLoad, RaiseStore];
            && CanRun(s, run)
            && Before(s.frontier.stamp, Run(s, run).frontier.stamp)
            && AT_20 in s.issued && AT_20 in Run(s, run).issued
            && Stable(s, AT_20) && !Stable(Run(s, run), AT_20)
  {
    Empty();
    ReserveRuns(Init(Stamp(0, 0), 1));
    var s := AfterReserve(Init(Stamp(0, 0), 1));
    assert Visible({}, Stamp(20, 0)) == {};
    var s1 := Step(s, ApplyBatch({Stamp(10, 0), Stamp(30, 0)}, Stamp(30, 0)));
    var s2 := Step(s1, RaiseLock);
    var s3 := Step(s2, RaiseLoad);
    var s4 := Step(s3, RaiseStore);
    assert TEN in Visible(s4.storage, AT_20.at);
    TraceRuns([s, s1, s2, s3, s4],
              [ApplyBatch({Stamp(10, 0), Stamp(30, 0)}, Stamp(30, 0)), RaiseLock, RaiseLoad, RaiseStore]);
  }

  lemma NoneIssued(s: State, stamps: set<Stamp>)
    requires s.issued == {}
    ensures !Late(s, stamps)
  {
  }

  const RACED := Snapshot(Stamp(20, 0), {TEN}, {TEN}, NOTHING)

  /** A reader has just been handed 20 while the applier is about to store 10. */
  const RACE := State(Word(Stamp(20, 0), false, true), Stamp(0, 0), RaiseObserved(START), Raise({TEN}, Stamp(10, 0)),
                      [Idle], {TEN}, {}, {}, {TEN}, {RACED})

  const REPLAY := [ApplyBatch({Stamp(10, 0)}, Stamp(10, 0)), RaiseLock, RaiseLoad]

  function Replayed(s: State): State {
    s.(storage := s.storage + {TEN}, stamped := s.stamped + {TEN},
       applier := Raise({TEN}, Stamp(10, 0)), holder := RaiseObserved(s.frontier))
  }

  lemma ReplayRuns(s: State)
    requires s.frontier == START && s.applier.Quiet? && s.holder.Free? && s.issued == {}
    ensures CanRun(s, REPLAY) && NeverBreaks(s, REPLAY) && Run(s, REPLAY) == Replayed(s)
  {
    assert Replicated({Stamp(10, 0)}) == {TEN};
    NoneIssued(s, {Stamp(10, 0)});
    hide Late, Correct;
    var s1 := Replayed(s).(holder := Free);
    var s2 := Replayed(s).(holder := Raising);
    assert Enabled(s, REPLAY[0]) && Step(s, REPLAY[0]) == s1;
    assert Enabled(s1, RaiseLock) && Step(s1, RaiseLock) == s2;
    assert Enabled(s2, RaiseLoad) && Step(s2, RaiseLoad) == Replayed(s);
    hide Step, Enabled;
    TraceRuns([s, s1, s2, Replayed(s)], REPLAY);
  }

  /** The applier replays 10 and loads the frontier; then the reader reserves 20.  No step so far breaks anything. */
  lemma RaceIsReachable()
    ensures var s, run := Init(Stamp(0, 0), 1), REPLAY + RESERVE;
            CanRun(s, run) && NeverBreaks(s, run) && Run(s, run) == RACE
  {
    hide CanRun, Run, NeverBreaks;
    Empty();
    ReplayRuns(Init(Stamp(0, 0), 1));
    var s := Replayed(Init(Stamp(0, 0), 1));
    ReserveRuns(s);
    assert s.storage == s.stamped == {TEN};
    assert Visible({TEN}, Stamp(20, 0)) == {TEN};
    assert AfterReserve(s) == RACE;
    RunJoins(Init(Stamp(0, 0), 1), REPLAY, RESERVE);
  }

  /** From there a commit stamped 11 turns up below the snapshot at 20. */
  lemma RaceBreaksSnapshot()
    ensures var run := [RaiseStore, RaiseStoreApplied, Lock, CommitLoad, CommitSwap(Stamp(11, 0), false), ApplyWrites];
            && CanRun(RACE, run)
            && RACED in RACE.issued && RACED in Run(RACE, run).issued
            && Stable(RACE, RACED) && !Stable(Run(RACE, run), RACED)
  {
    var s1 := Step(RACE, RaiseStore);
    var s2 := Step(s1, RaiseStoreApplied);
    var s3 := Step(s2, Lock);
    var s4 := Step(s3, CommitLoad);
    var s5 := Step(s4, CommitSwap(Stamp(11, 0), false));
    var s6 := Step(s5, ApplyWrites);
    assert Visible({TEN}, Stamp(20, 0)) == {TEN};
    assert Own(Stamp(11, 0)) in Visible(s6.storage, RACED.at);
    TraceRuns([RACE, s1, s2, s3, s4, s5, s6],
              [RaiseStore, RaiseStoreApplied, Lock, CommitLoad, CommitSwap(Stamp(11, 0), false), ApplyWrites]);
  }

  const TIE := [RaiseLock, RaiseLoad, ReadLoad(0), ReadDecide(0, 20)]

  /** A batch at 20 has been replayed, and a reader has reserved 20 since. */
  const TIED := State(Word(Stamp(20, 0), false, true), Stamp(0, 0), Free, Raise({TWENTY}, Stamp(20, 0)),
                      [Idle], {TWENTY}, {}, {}, {TWENTY}, {Snapshot(Stamp(20, 0), {}, {TWENTY}, NOTHING)})

  lemma TiedIsReachable()
    ensures var s, run := Init(Stamp(0, 0), 1), [ApplyBatch({Stamp(20, 0)}, Stamp(20, 0))] + RESERVE;
            CanRun(s, run) && NeverBreaks(s, run) && Run(s, run) == TIED
  {
    Empty();
    var s, batch := Init(Stamp(0, 0), 1), [ApplyBatch({Stamp(20, 0)}, Stamp(20, 0))];
    assert Replicated({Stamp(20, 0)}) == {TWENTY};
    var t := s.(storage := {TWENTY}, stamped := {TWENTY}, applier := Raise({TWENTY}, Stamp(20, 0)));
    TraceRuns([s, t], batch);
    hide CanRun, Run, NeverBreaks;
    ReserveRuns(t);
    assert Visible({TWENTY}, Stamp(20, 0)) == {};
    RunJoins(s, batch, RESERVE);
  }

  lemma ShareRuns(s: State)
    requires s.frontier == Word(Stamp(20, 0), false, true) && s.holder.Free? && s.readers == [Idle]
    requires s.applier.Raise? && s.applier.target == Stamp(20, 0)
    ensures CanRun(s, TIE) && NeverBreaks(s, TIE)
    ensures Snapshot(Stamp(20, 0), Visible(s.storage, Stamp(20, 0)), s.stamped,
                     Seen(s.published, s.raised + s.applier.batch, IssuedStamps(s))) in Run(s, TIE).issued
  {
    hide Visible, Late, Lowers, Correct;
    var s1 := s.(holder := Raising);
    var s2 := s.(applier := Quiet, raised := s.raised + s.applier.batch);
    assert IssuedStamps(s2) == IssuedStamps(s);
    var s3 := s2.(readers := [Loaded(s.frontier, Seen(s.published, s2.raised, IssuedStamps(s)))]);
    var s4 := Step(s3, ReadDecide(0, 20));
    assert Enabled(s, RaiseLock) && Step(s, RaiseLock) == s1;
    assert Enabled(s1, RaiseLoad) && Step(s1, RaiseLoad) == s2;
    assert Enabled(s2, ReadLoad(0)) && Step(s2, ReadLoad(0)) == s3;
    hide Enabled, IssuedStamps;
    TraceRuns([s, s1, s2, s3, s4], TIE);
  }

  /**
   From there the clock counts as raised, and the next reader shares 20 and misses
   the commit, which is the exception in `Fresh`.  No step breaks anything.
   */
  lemma RaisedTieIsMissed()
    ensures CanRun(TIED, TIE) && NeverBreaks(TIED, TIE)
    ensures exists sn :: sn in Run(TIED, TIE).issued && TWENTY in sn.seen.raised && TWENTY !in sn.visible
    ensures !NoneMissed(Run(TIED, TIE))
  {
    hide CanRun, Run, NeverBreaks;
    ShareRuns(TIED);
    var sn := Snapshot(Stamp(20, 0), Visible(TIED.storage, Stamp(20, 0)), TIED.stamped,
                       Seen(TIED.published, TIED.raised + TIED.applier.batch, IssuedStamps(TIED)));
    assert sn in Run(TIED, TIE).issued && TWENTY in sn.seen.raised && TWENTY !in sn.visible;
  }
}
