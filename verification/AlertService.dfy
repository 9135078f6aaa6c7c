/** The alert manager between saves and restarts: what the state file holds, and
    why restarting from a clean state is invisible. */
module AlertService {
  import opened State
  import opened AlertModel
  import opened AlertLaws
  import N = Notification

  datatype SaveOutcome = Saved | FailedBefore | FailedAfter

  /** The alert manager, the store it shares with the report scheduler, and the file. */
  datatype Service = Service(records: Records, health: HealthState, dirty: bool, disk: Disk)

  datatype Step = Reconcile(call: Call, outcome: SaveOutcome)
                | Report(schedule: HealthState, outcome: SaveOutcome)
                | Restart

  ghost function DiskAfter(s: Service, outcome: SaveOutcome): Disk {
    if outcome.FailedBefore? then s.disk else Content(DocumentOf(s.records, s.health))
  }

  /** The end of a reconciliation: a save if one is owed, dirty until it succeeds. */
  ghost function Persisted(s: Service, owed: bool, outcome: SaveOutcome): Service {
    if owed then s.(dirty := !outcome.Saved?, disk := DiskAfter(s, outcome)) else s
  }

  ghost predicate Enabled(cfg: Config, s: Service, step: Step) {
    match step
    case Reconcile(c, _) => Proper(cfg, s.records, c.batch, c.answers)
    case Report(schedule, _) => schedule.Valid()
    case Restart => true
  }

  ghost function Next(cfg: Config, s: Service, step: Step): Service
    requires Enabled(cfg, s, step)
  {
    match step
    case Reconcile(c, outcome) =>
      var after := s.(records := Reconciled(cfg, s.records, c.batch, c.answers));
      Persisted(after, s.dirty || after.records != s.records, outcome)
    case Report(schedule, outcome) =>
      var after := s.(health := schedule);
      after.(disk := DiskAfter(after, outcome))
    case Restart =>
      Service(Found(s.disk).records, Found(s.disk).health, false, s.disk)
  }

  /** While clean, the records are those a start would find. */
  ghost predicate Sound(s: Service) {
    ValidRecords(s.records) && s.health.Valid() && (s.dirty || s.records == Found(s.disk).records)
  }

  ghost predicate Opens(s: Service) { Restore(s.disk).Success? }

  /** Every step, with every outcome of its save, keeps "clean means the records are
      those a start would find", and a file that opens keeps opening; a restart from
      a clean state changes no record. */
  lemma StepSound(cfg: Config, s: Service, step: Step)
    requires Sound(s) && Enabled(cfg, s, step)
    ensures Sound(Next(cfg, s, step))
    ensures Opens(s) ==> Opens(Next(cfg, s, step))
    ensures step.Restart? && !s.dirty ==> Next(cfg, s, step).records == s.records
  {
    match step
    case Reconcile(c, outcome) =>
      ReconcileSound(cfg, s, c, outcome);
    case Report(schedule, outcome) =>
      RestoreSaved(s.records, schedule);
    case Restart =>
      FoundValid(s.disk);
  }

  lemma ReconcileSound(cfg: Config, s: Service, c: Call, outcome: SaveOutcome)
    requires Sound(s) && Proper(cfg, s.records, c.batch, c.answers)
    ensures Sound(Next(cfg, s, Reconcile(c, outcome)))
    ensures Opens(s) ==> Opens(Next(cfg, s, Reconcile(c, outcome)))
  {
    var after := s.(records := Reconciled(cfg, s.records, c.batch, c.answers));
    ReconciledValid(cfg, s.records, c.batch, c.answers);
    PersistedSound(after, s.dirty || after.records != s.records, outcome);
  }

  /** The end of a reconciliation, whose records are in place. */
  lemma PersistedSound(s: Service, owed: bool, outcome: SaveOutcome)
    requires ValidRecords(s.records) && s.health.Valid() && (owed || Sound(s))
    ensures Sound(Persisted(s, owed, outcome)) && (Opens(s) ==> Opens(Persisted(s, owed, outcome)))
    ensures NoBlanks(s) ==> NoBlanks(Persisted(s, owed, outcome))
  {
    RestoreSaved(s.records, s.health);
  }

  // ---------- runs ----------

  ghost predicate Possible(cfg: Config, s: Service, run: seq<Step>)
    decreases |run|
  {
    run == [] || (Enabled(cfg, s, run[0]) && Possible(cfg, Next(cfg, s, run[0]), run[1..]))
  }

  /** The run restarts only while clean. */
  ghost predicate RestartsClean(cfg: Config, s: Service, run: seq<Step>)
    requires Possible(cfg, s, run)
    decreases |run|
  {
    run == [] || ((run[0].Restart? ==> !s.dirty) && RestartsClean(cfg, Next(cfg, s, run[0]), run[1..]))
  }

  /** Everything handed to the sender during a run. */
  ghost function Sent(cfg: Config, s: Service, run: seq<Step>): seq<N.Attempt>
    requires Possible(cfg, s, run)
    decreases |run|
  {
    if run == [] then []
    else SentBy(cfg, s, run[0]) + Sent(cfg, Next(cfg, s, run[0]), run[1..])
  }

  ghost function SentBy(cfg: Config, s: Service, step: Step): seq<N.Attempt>
    requires Enabled(cfg, s, step)
  {
    match step
    case Reconcile(c, _) => Attempts(cfg, s.records, c.batch, c.answers)
    case _ => []
  }

  function WithoutRestarts(run: seq<Step>): seq<Step> {
    if run == [] then []
    else if run[0].Restart? then WithoutRestarts(run[1..])
    else [run[0]] + WithoutRestarts(run[1..])
  }

  lemma KeptFirst(run: seq<Step>)
    requires run != [] && !run[0].Restart?
    ensures WithoutRestarts(run) != [] && WithoutRestarts(run)[0] == run[0]
    ensures WithoutRestarts(run)[1..] == WithoutRestarts(run[1..])
  {
  }

  ghost predicate SameAlerts(s: Service, t: Service) { s.records == t.records && s.dirty == t.dirty }

  lemma SameNext(cfg: Config, s: Service, t: Service, step: Step)
    requires SameAlerts(s, t) && Enabled(cfg, s, step) && !step.Restart?
    ensures Enabled(cfg, t, step) && SameAlerts(Next(cfg, s, step), Next(cfg, t, step))
    ensures SentBy(cfg, s, step) == SentBy(cfg, t, step)
  {
  }

  /** Restarting while clean is invisible: the same run without its restarts is
      possible and sends exactly the same messages. */
  lemma {:induction false} RestartInvisible(cfg: Config, s: Service, t: Service, run: seq<Step>)
    requires Sound(s) && Sound(t) && SameAlerts(s, t) && Possible(cfg, s, run) && RestartsClean(cfg, s, run)
    ensures Possible(cfg, t, WithoutRestarts(run))
    ensures Sent(cfg, t, WithoutRestarts(run)) == Sent(cfg, s, run)
    decreases |run|
  {
    if run != [] {
      StepSound(cfg, s, run[0]);
      if run[0].Restart? {
        RestartInvisible(cfg, Next(cfg, s, run[0]), t, run[1..]);
      } else {
        StepSound(cfg, t, run[0]);
        SameNext(cfg, s, t, run[0]);
        RestartInvisible(cfg, Next(cfg, s, run[0]), Next(cfg, t, run[0]), run[1..]);
        KeptFirst(run);
      }
    }
  }

  // ---------- messages of a run ----------

  /** No blank key in the store or in the file. */
  ghost predicate NoBlanks(s: Service) {
    NoBlankKeys(s.records) && NoBlankKeys(Found(s.disk).records)
  }

  lemma StepNoBlanks(cfg: Config, s: Service, step: Step)
    requires Sound(s) && NoBlanks(s) && Enabled(cfg, s, step)
    ensures NoBlanks(Next(cfg, s, step))
  {
    match step
    case Reconcile(c, outcome) =>
      var after := s.(records := Reconciled(cfg, s.records, c.batch, c.answers));
      NoBlankKeysKept(cfg, s.records, c.batch, c.answers);
      ReconciledValid(cfg, s.records, c.batch, c.answers);
      PersistedSound(after, s.dirty || after.records != s.records, outcome);
    case Report(schedule, outcome) =>
      RestoreSaved(s.records, schedule);
    case Restart =>
  }

  /** Over any run, restarts in a dirty state included, that begins without blank keys,
      every message handed to the sender passes ValidateBatch exactly when its time is
      not the zero time. */
  lemma {:induction false} SentValid(cfg: Config, s: Service, run: seq<Step>)
    requires Sound(s) && NoBlanks(s) && Possible(cfg, s, run)
    ensures forall m <- Sent(cfg, s, run) :: N.ValidBatch(m.batch) <==> m.batch.timestamp != 0
    decreases |run|
  {
    if run != [] {
      StepSound(cfg, s, run[0]);
      StepNoBlanks(cfg, s, run[0]);
      SentValid(cfg, Next(cfg, s, run[0]), run[1..]);
      if run[0].Reconcile? { AttemptsValid(cfg, s.records, run[0].call.batch, run[0].call.answers); }
    }
  }
}
