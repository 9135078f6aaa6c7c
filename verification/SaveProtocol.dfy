/** Concurrent mutators and savers of one state file (Put, Delete, SetHealthReport
    and Save in internal/state/file.go), interleaved lock by lock. */
module SaveProtocol {
  import opened Text
  import opened State

  // ---------- mutations ----------

  function Replay(start: Contents, log: seq<Mutation>): Contents {
    if log == [] then start else Apply(Replay(start, log[..|log| - 1]), log[|log| - 1])
  }

  predicate ValidContents(c: Contents) { ValidRecords(c.records) && c.health.Valid() }

  lemma {:induction false} ReplayValid(start: Contents, log: seq<Mutation>)
    requires ValidContents(start)
    ensures ValidContents(Replay(start, log))
  {
    if log != [] { ReplayValid(start, log[..|log| - 1]); }
  }

  // ---------- the protocol ----------

  /** Where a call of Save is: waiting for the save lock; holding it; with a snapshot
      of the first `version` mutations; with the file replaced; back. */
  datatype Phase = Waiting | Locked | Taken(doc: Document, version: nat) | Replaced(version: nat)
                 | Returned(failed: bool)

  /** `called` counts the mutations finished when the call began. */
  datatype Saver = Saver(called: nat, phase: Phase)

  datatype Protocol = Protocol(memory: Contents, log: seq<Mutation>, savers: seq<Saver>, saveLock: Option<nat>,
                               disk: Disk, writes: seq<nat>)

  datatype Step = Mutate(mutation: Mutation) // any goroutine
                | Call                       // a new call of Save
                | Lock(id: nat)              // it takes the save lock
                | Snapshot(id: nat)          // copies the store under the read lock
                | Replace(id: nat)           // renames the temporary file
                | Return(id: nat, failed: bool) // and unlocks

  ghost predicate Enabled(p: Protocol, step: Step) {
    match step
    case Mutate(_) => true
    case Call => true
    case Lock(i) => i < |p.savers| && p.savers[i].phase.Waiting? && p.saveLock.None?
    case Snapshot(i) => i < |p.savers| && p.savers[i].phase.Locked?
    case Replace(i) => i < |p.savers| && p.savers[i].phase.Taken?
    case Return(i, failed) => // without error only after the replacement; with one from then on too
      i < |p.savers| && (p.savers[i].phase.Replaced? || (failed && p.savers[i].phase.Taken?))
  }

  function Moved(p: Protocol, i: nat, phase: Phase): Protocol
    requires i < |p.savers|
  {
    p.(savers := p.savers[i := p.savers[i].(phase := phase)])
  }

  ghost function Next(p: Protocol, step: Step): Protocol
    requires Enabled(p, step)
  {
    match step
    case Mutate(m) => p.(memory := Apply(p.memory, m), log := p.log + [m])
    case Call => p.(savers := p.savers + [Saver(|p.log|, Waiting)])
    case Lock(i) => Moved(p, i, Locked).(saveLock := Some(i))
    case Snapshot(i) => Moved(p, i, Taken(DocumentOf(p.memory.records, p.memory.health), |p.log|))
    case Replace(i) =>
      var s := p.savers[i].phase;
      Moved(p, i, Replaced(s.version)).(disk := Content(s.doc), writes := p.writes + [s.version])
    case Return(i, failed) => Moved(p, i, Returned(failed)).(saveLock := None)
  }

  /** A store just opened from its file, or an empty one over a file that does not open. */
  ghost predicate Opened(p: Protocol) {
    && p.memory == Found(p.disk)
    && p.log == [] && p.savers == [] && p.saveLock.None? && p.writes == []
  }

  ghost predicate Possible(p: Protocol, run: seq<Step>)
    decreases |run|, 0
  {
    run == [] || (Possible(p, run[..|run| - 1]) && Enabled(After(p, run[..|run| - 1]), run[|run| - 1]))
  }

  ghost function After(p: Protocol, run: seq<Step>): Protocol
    requires Possible(p, run)
    decreases |run|, 1
  {
    if run == [] then p else Next(After(p, run[..|run| - 1]), run[|run| - 1])
  }

  // ---------- what every step keeps ----------

  /** How many mutations the file holds. */
  function Version(p: Protocol): nat { if p.writes == [] then 0 else p.writes[|p.writes| - 1] }

  predicate Inside(phase: Phase) { phase.Locked? || phase.Taken? || phase.Replaced? }

  /** A start would find exactly the first Version(p) mutations; once replaced, the file
      opens. */
  ghost predicate FileHolds(start: Contents, p: Protocol) {
    && Version(p) <= |p.log| && Found(p.disk) == Replay(start, p.log[..Version(p)])
    && (p.writes != [] ==> Restore(p.disk).Success?)
  }

  ghost predicate SaverKeeps(start: Contents, p: Protocol, s: Saver) {
    && s.called <= |p.log|
    && (s.phase.Taken? ==>
          && s.called <= s.phase.version <= |p.log| && Version(p) <= s.phase.version
          && s.phase.doc == DocumentOf(Replay(start, p.log[..s.phase.version]).records,
            Replay(start, p.log[..s.phase.version]).health))
    && (s.phase.Replaced? ==> p.writes != [] && s.called <= s.phase.version == Version(p))
    && (s.phase == Returned(false) ==> p.writes != [] && s.called <= Version(p))
  }

  ghost predicate Ordered(writes: seq<nat>) { forall i, j :: 0 <= i < j < |writes| ==> writes[i] <= writes[j] }

  ghost predicate Keeps(start: Contents, p: Protocol) {
    && p.memory == Replay(start, p.log)
    && FileHolds(start, p) && Ordered(p.writes)
    && (p.saveLock.Some? ==> p.saveLock.value < |p.savers|)
    && (forall i: nat :: i < |p.savers| ==> (Inside(p.savers[i].phase) <==> p.saveLock == Some(i)))
    && (forall i: nat :: i < |p.savers| ==> SaverKeeps(start, p, p.savers[i]))
  }

  lemma PrefixSame(log: seq<Mutation>, m: Mutation, v: nat)
    requires v <= |log|
    ensures (log + [m])[..v] == log[..v]
  {
  }

  lemma MutateKeeps(start: Contents, p: Protocol, m: Mutation)
    requires Keeps(start, p)
    ensures Keeps(start, Next(p, Mutate(m)))
  {
    var q := Next(p, Mutate(m));
    HeadTail(p.log, [m]);
    PrefixSame(p.log, m, Version(p));
    forall i: nat | i < |q.savers| ensures SaverKeeps(start, q, q.savers[i]) {
      assert SaverKeeps(start, p, p.savers[i]);
      if p.savers[i].phase.Taken? { PrefixSame(p.log, m, p.savers[i].phase.version); }
    }
  }

  lemma SnapshotKeeps(start: Contents, p: Protocol, i: nat)
    requires Keeps(start, p) && Enabled(p, Snapshot(i))
    ensures Keeps(start, Next(p, Snapshot(i)))
  {
    var q := Next(p, Snapshot(i));
    assert p.log[..|p.log|] == p.log;
    forall j: nat | j < |q.savers|
      ensures SaverKeeps(start, q, q.savers[j])
    {
      assert SaverKeeps(start, p, p.savers[j]);
    }
  }

  lemma OrderedMore(writes: seq<nat>, v: nat)
    requires Ordered(writes) && (writes != [] ==> writes[|writes| - 1] <= v)
    ensures Ordered(writes + [v])
  {
  }

  lemma ReplaceKeeps(start: Contents, p: Protocol, i: nat)
    requires ValidContents(start) && Keeps(start, p) && Enabled(p, Replace(i))
    ensures Keeps(start, Next(p, Replace(i)))
  {
    var q, v := Next(p, Replace(i)), p.savers[i].phase.version;
    assert SaverKeeps(start, p, p.savers[i]);
    ReplayValid(start, p.log[..v]);
    RestoreSaved(Replay(start, p.log[..v]).records, Replay(start, p.log[..v]).health);
    OrderedMore(p.writes, v);
    forall j: nat | j < |q.savers| ensures SaverKeeps(start, q, q.savers[j]) {
      assert SaverKeeps(start, p, p.savers[j]);
      assert j != i ==> !Inside(p.savers[j].phase);
    }
  }

  lemma CallKeeps(start: Contents, p: Protocol)
    requires Keeps(start, p)
    ensures Keeps(start, Next(p, Call))
  {
    var q := Next(p, Call);
    forall j: nat | j < |q.savers| ensures SaverKeeps(start, q, q.savers[j]) {
      if j < |p.savers| { assert SaverKeeps(start, p, p.savers[j]); }
    }
  }

  lemma LockKeeps(start: Contents, p: Protocol, i: nat)
    requires Keeps(start, p) && Enabled(p, Lock(i))
    ensures Keeps(start, Next(p, Lock(i)))
  {
    var q := Next(p, Lock(i));
    forall j: nat | j < |q.savers| ensures SaverKeeps(start, q, q.savers[j]) {
      assert SaverKeeps(start, p, p.savers[j]);
    }
  }

  lemma ReturnKeeps(start: Contents, p: Protocol, i: nat, failed: bool)
    requires Keeps(start, p) && Enabled(p, Return(i, failed))
    ensures Keeps(start, Next(p, Return(i, failed)))
  {
    var q := Next(p, Return(i, failed));
    forall j: nat | j < |q.savers| ensures SaverKeeps(start, q, q.savers[j]) {
      assert SaverKeeps(start, p, p.savers[j]);
    }
  }

  lemma {:induction false} RunKeeps(p: Protocol, run: seq<Step>)
    requires Opened(p) && Possible(p, run)
    ensures Keeps(p.memory, After(p, run))
  {
    FoundValid(p.disk);
    if run != [] {
      var front, last := run[..|run| - 1], run[|run| - 1];
      RunKeeps(p, front);
      match last
      case Mutate(m) => MutateKeeps(p.memory, After(p, front), m);
      case Snapshot(i) => SnapshotKeeps(p.memory, After(p, front), i);
      case Replace(i) => ReplaceKeeps(p.memory, After(p, front), i);
      case Call => CallKeeps(p.memory, After(p, front));
      case Lock(i) => LockKeeps(p.memory, After(p, front), i);
      case Return(i, failed) => ReturnKeeps(p.memory, After(p, front), i, failed);
    }
  }

  // ---------- main results ----------

  /** In every interleaving, snapshots reach the file in the order they were taken:
      the number of mutations a start would find in it never goes down.  It opens from
      the first replacement on, and before if it did at the start. */
  lemma FileNeverGoesBack(p: Protocol, run: seq<Step>)
    requires Opened(p) && Possible(p, run)
    ensures Ordered(After(p, run).writes) && Version(After(p, run)) <= |After(p, run).log|
    ensures Found(After(p, run).disk) == Replay(p.memory, After(p, run).log[..Version(After(p, run))])
    ensures Restore(After(p, run).disk).Success? <==> After(p, run).writes != [] || Restore(p.disk).Success?
  {
    RunKeeps(p, run);
    if After(p, run).writes == [] { Unwritten(p, run); }
  }

  lemma {:induction false} Unwritten(p: Protocol, run: seq<Step>)
    requires Opened(p) && Possible(p, run) && After(p, run).writes == []
    ensures After(p, run).disk == p.disk
  {
    if run != [] { Unwritten(p, run[..|run| - 1]); }
  }

  /** A Save that has returned without error leaves in the file every mutation that
      was finished before the call, then and ever after. */
  lemma SavedIsDurable(p: Protocol, run: seq<Step>, i: nat)
    requires Opened(p) && Possible(p, run)
    requires i < |After(p, run).savers| && After(p, run).savers[i].phase == Returned(false)
    ensures var q := After(p, run);
      exists v: nat :: q.savers[i].called <= v <= |q.log| && Restore(q.disk) == Success(Replay(p.memory, q.log[..v]))
  {
    RunKeeps(p, run);
    var q := After(p, run);
    assert SaverKeeps(p.memory, q, q.savers[i]);
    assert q.savers[i].called <= Version(q) <= |q.log|;
  }

  /** At most one call is between taking and releasing the save lock. */
  lemma OneSaverInside(p: Protocol, run: seq<Step>, i: nat, j: nat)
    requires Opened(p) && Possible(p, run)
    requires i < |After(p, run).savers| && j < |After(p, run).savers|
    requires Inside(After(p, run).savers[i].phase) && Inside(After(p, run).savers[j].phase)
    ensures i == j
  {
    RunKeeps(p, run);
  }
}
