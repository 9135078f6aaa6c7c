/** No false recovery, end to end: from what the collectors and the management API
    said to the records that a reconciliation removes. */
module Recovery {
  import opened Text
  import opened State
  import opened AlertModel
  import opened AlertLaws
  import A = AuthRule
  import C = Collector
  import Disk
  import F = SingleFlight
  import R = Rule
  import Runs = AlertRuns

  /** A credential's record is removed only when the list was judged as a whole and
      no entry with that trimmed index is unhealthy, duplicates and entries without
      an index included. */
  lemma NoFalseAuthRecovery(cfg: Config, records: Records, files: seq<A.AuthFile>, lower: string -> string, a: Answers,
                            index: string)
    requires Proper(cfg, records, A.AuthBatch(A.Entries(files, lower)), a)
    requires A.AuthKey(index) in records
      && A.AuthKey(index) !in Reconciled(cfg, records, A.AuthBatch(A.Entries(files, lower)), a)
    ensures forall f <- files ::
      TrimSpace(f.authIndex) == index || TrimSpace(f.authIndex) == "" ==> A.Reasons(f, lower) == []
  {
    RemovedOnlyIfGone(cfg, records, A.AuthBatch(A.Entries(files, lower)), a, A.AuthKey(index));
    A.AbsentMeansHealthy(files, lower, index);
  }

  /** A complete collection that raises no condition for a mount point has measured
      everything, and that mount point below the threshold. */
  lemma AbsentMeansBelow(mounts: seq<Disk.Mount>, outcome: string -> Disk.StatOutcome, cancelled: Option<nat>,
                         threshold: real, point: string)
    requires Disk.CollectedWithin(Disk.Normalized(mounts), outcome, cancelled).complete
    requires R.DiskKey(point) !in
      R.FullestByKey(Disk.CollectedWithin(Disk.Normalized(mounts), outcome, cancelled).disks, threshold)
    ensures forall m <- Disk.Normalized(mounts) ::
      var measured := Disk.Measure(m, outcome(m.mountPoint));
      measured.Success? && (m.mountPoint == point ==> measured.value.usedPercent < threshold)
  {
    var ms := Disk.Normalized(mounts);
    Disk.CutShortIncomplete(ms, outcome, cancelled);
    R.FullestExact(Disk.Collected(ms, outcome).disks, threshold);
    forall m | m in ms
      ensures Disk.Measure(m, outcome(m.mountPoint)).Success?
      ensures m.mountPoint == point ==> Disk.Measure(m, outcome(m.mountPoint)).value.usedPercent < threshold
    {
      Disk.CompleteMeansMeasured(mounts, outcome, m);
    }
  }

  /** The same of the figures of this cycle. */
  lemma CurrentlyBelow(mounts: seq<Disk.Mount>, outcome: string -> Disk.StatOutcome, cancelled: Option<nat>,
                       threshold: real, point: string,
                       history: seq<F.Step>, run: seq<F.Step>, world: F.World)
    requires var ms := Disk.Normalized(mounts);
      && C.Continues(history, run, world)
      && C.Gathered(history, run, ms[..Disk.Reached(ms, outcome, cancelled, 0)], outcome)
    requires Disk.CollectedWithin(Disk.Normalized(mounts), outcome, cancelled).complete
    requires R.DiskKey(point) !in
      R.FullestByKey(Disk.CollectedWithin(Disk.Normalized(mounts), outcome, cancelled).disks, threshold)
    ensures forall m <- Disk.Normalized(mounts) :: !F.Stale(F.After(history).shared, m.mountPoint, world.since) ==>
      var current := Disk.Measure(m, Disk.Done(world.stat(m.mountPoint)));
      current.Success? && (m.mountPoint == point ==> current.value.usedPercent < threshold)
  {
    var ms := Disk.Normalized(mounts);
    AbsentMeansBelow(mounts, outcome, cancelled, threshold, point);
    Disk.CutShortIncomplete(ms, outcome, cancelled);
    Disk.AllOf(ms);
    C.FreshMeasurements(history, run, ms, outcome, world);
  }

  lemma RemovedDisk(cfg: Config, records: Records, input: Disk.DiskBatch, threshold: real, a: Answers, point: string)
    requires Proper(cfg, records, R.DiskBatchOf(input, threshold), a)
    requires R.DiskKey(point) in records
      && R.DiskKey(point) !in Reconciled(cfg, records, R.DiskBatchOf(input, threshold), a)
    ensures input.complete && R.DiskKey(point) !in R.FullestByKey(input.disks, threshold)
  {
    RemovedOnlyIfGone(cfg, records, R.DiskBatchOf(input, threshold), a, R.DiskKey(point));
    R.DiskBatchExact(input, threshold);
  }

  /** A disk's record is removed only when every monitored mount point was measured
      and the one with that key, if it is still mounted, is below the threshold; also
      when the collection was cancelled or measurements timed out.  The measurements
      are what the file system says in this cycle, except for mount points on which
      an earlier cycle left a call in the table: one that has finished, or one that may
      have asked the file system before this cycle. */
  lemma NoFalseDiskRecovery(cfg: Config, records: Records, mounts: seq<Disk.Mount>, outcome: string -> Disk.StatOutcome,
                            cancelled: Option<nat>, threshold: real, a: Answers, point: string,
                            history: seq<F.Step>, run: seq<F.Step>, world: F.World)
    requires var ms := Disk.Normalized(mounts);
      && C.Continues(history, run, world)
      && C.Gathered(history, run, ms[..Disk.Reached(ms, outcome, cancelled, 0)], outcome)
    requires var input := Disk.CollectedWithin(Disk.Normalized(mounts), outcome, cancelled);
      && Proper(cfg, records, R.DiskBatchOf(input, threshold), a)
      && R.DiskKey(point) in records
      && R.DiskKey(point) !in Reconciled(cfg, records, R.DiskBatchOf(input, threshold), a)
    ensures forall m <- Disk.Normalized(mounts) ::
      var measured := Disk.Measure(m, outcome(m.mountPoint));
      measured.Success? && (m.mountPoint == point ==> measured.value.usedPercent < threshold)
    ensures forall m <- Disk.Normalized(mounts) :: !F.Stale(F.After(history).shared, m.mountPoint, world.since) ==>
      var current := Disk.Measure(m, Disk.Done(world.stat(m.mountPoint)));
      current.Success? && (m.mountPoint == point ==> current.value.usedPercent < threshold)
  {
    RemovedDisk(cfg, records, Disk.CollectedWithin(Disk.Normalized(mounts), outcome, cancelled), threshold, a, point);
    AbsentMeansBelow(mounts, outcome, cancelled, threshold, point);
    CurrentlyBelow(mounts, outcome, cancelled, threshold, point, history, run, world);
  }

  /** Over any run of batches made by the rules, deliveries and removals of every key
      strictly alternate. */
  lemma RulesAlternate(cfg: Config, start: Records, run: seq<Call>)
    requires Runs.PossibleRun(cfg, start, run) && Runs.Scoped(start, R.ScopeOf)
    requires forall c <- run :: R.WellFormed(c.batch)
    ensures Runs.Trace(start.Keys, Runs.History(cfg, start, run)) == Some(Runs.After(cfg, start, run).Keys)
    ensures Runs.Scoped(Runs.After(cfg, start, run), R.ScopeOf)
  {
    forall c | c in run ensures Runs.ScopedBatch(c.batch, R.ScopeOf) { R.WellFormedScoped(c.batch); }
    Runs.RunAlternates(cfg, start, run, R.ScopeOf);
  }
}
