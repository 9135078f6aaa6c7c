/** One monitoring cycle (internal/monitor/runner.go). */
module Monitor {
  import opened Text
  import opened State
  import opened RuleTypes
  import opened AlertModel
  import opened AlertLaws
  import A = AuthRule
  import Alerter
  import Disk
  import H = HealthReport
  import R = Rule
  import Runs = AlertRuns
  import N = Notification
  import S = AlertService

  // ---------- what a cycle learns ----------

  /** The answers of the health check, the host collector and the management API. */
  datatype Facts = Facts(health: Option<string>, memory: Option<R.MemoryUsage>, disks: Disk.DiskBatch,
                         diskError: Option<Disk.Error>, tcp: Option<R.TcpUsage>, files: Option<seq<A.AuthFile>>)

  datatype Thresholds = Thresholds(memory: real, disk: real, totalTcp: int, serviceTcp: int, servicePort: int)

  datatype RunError = CheckFailed(scope: string) | ReconcileFailed(scope: string) | ReportFailed | ContextEnded

  datatype Snapshot = Snapshot(memoryPercent: real, highestDisk: real, mountCount: nat, totalTcp: int, serviceTcp: int,
                               accountsKnown: bool, accountCount: nat)

  const SERVER_SCOPES := {SCOPE_HEALTH, SCOPE_MEMORY, SCOPE_DISK, SCOPE_NETWORK}

  function IncompleteBatch(scope: string): (b: Batch) { Batch(scope, false, [], [Collection]) }

  /** A collector error makes the collection incomplete, whatever it says. */
  function Adjusted(disks: Disk.DiskBatch, error: Option<Disk.Error>): Disk.DiskBatch {
    if error.None? then disks
    else disks.(complete := false, errors := if disks.errors == [] then [Disk.MountError("", error.value)]
      else disks.errors)
  }

  ghost function MemoryBatch(f: Facts, t: Thresholds): Batch {
    if f.memory.None? then IncompleteBatch(SCOPE_MEMORY) else R.Memory(f.memory.value, t.memory)
  }

  ghost function DisksBatch(f: Facts, t: Thresholds): Batch { R.DiskBatchOf(Adjusted(f.disks, f.diskError), t.disk) }

  ghost function TcpBatch(f: Facts, t: Thresholds): Batch {
    if f.tcp.None? then IncompleteBatch(SCOPE_NETWORK) else R.TcpBatchOf(f.tcp.value, t.servicePort, t.totalTcp,
      t.serviceTcp)
  }

  ghost function AccountsBatch(f: Facts, lower: string -> string): Batch {
    if f.files.None? then IncompleteBatch(SCOPE_AUTH) else A.AuthBatch(A.Entries(f.files.value, lower))
  }

  /** The batches of a cycle, in the order of the checks. */
  ghost function Plan(f: Facts, t: Thresholds, lower: string -> string): seq<Batch> {
    [R.Health(f.health), MemoryBatch(f, t), DisksBatch(f, t), TcpBatch(f, t), AccountsBatch(f, lower)]
  }

  /** Whatever the collector's error, the disks measured keep their conditions: a mount point
      is told exactly when some report for it reaches the threshold. */
  lemma DisksKept(f: Facts, t: Thresholds)
    ensures var m := ByKey(DisksBatch(f, t).conditions);
      && R.DisksTold(m, f.disks.disks, t.disk)
      && forall d <- f.disks.disks :: d.usedPercent >= t.disk ==> R.DiskKey(d.mountPoint) in m
  {
    R.DisksExactly(Adjusted(f.disks, f.diskError), t.disk);
  }

  /** With an error the batch is incomplete and has errors: those collected, or else the
      collector's own. */
  lemma DisksAdmitted(f: Facts, t: Thresholds)
    ensures var b := DisksBatch(f, t);
      && (b.complete <==> f.diskError.None? && f.disks.complete && f.disks.errors == [])
      && (f.disks.errors == [] ==> b.errors == if f.diskError.Some? then [DiskEntry("")] else [])
      && (f.disks.errors != [] ==>
            |b.errors| == |f.disks.errors| &&
            forall i :: 0 <= i < |b.errors| ==> b.errors[i] == DiskEntry(f.disks.errors[i].mountPoint))
  {
  }

  /** A cycle checks the scopes in this order, and the accounts by their own list. */
  lemma PlanScopes(f: Facts, t: Thresholds, lower: string -> string)
    ensures var plan := Plan(f, t, lower);
      && |plan| == 5 && plan[0].scope == "health" && plan[1].scope == "memory" && plan[2].scope == "disk"
      && plan[3].scope == "network" && plan[4].scope == "auth"
    ensures f.files.Some? ==> Plan(f, t, lower)[4] == A.AuthBatch(A.Entries(f.files.value, lower))
  {
  }

  /** A missing answer gives an incomplete batch that says so; any other gives a complete
      one, whose conditions are those of the figures at or above their thresholds. */
  lemma ServerTold(f: Facts, t: Thresholds)
    ensures var b := R.Health(f.health);
      b.complete && b.errors == [] && (R.HEALTH_KEY in ByKey(b.conditions) <==> f.health.Some?)
    ensures var b := MemoryBatch(f, t);
      && (b.complete <==> f.memory.Some?) && b.errors == (if f.memory.Some? then [] else [Collection])
      && (R.MEMORY_KEY in ByKey(b.conditions) <==> f.memory.Some? && f.memory.value.usedPercent >= t.memory)
  {
    SingleByKey(R.Health(f.health).conditions);
    SingleByKey(MemoryBatch(f, t).conditions);
  }

  lemma NetworkTold(f: Facts, t: Thresholds)
    ensures var b := TcpBatch(f, t);
      && (b.complete <==> f.tcp.Some?) && b.errors == (if f.tcp.Some? then [] else [Collection])
      && if f.tcp.None? then b.conditions == []
         else R.TcpTold(ByKey(b.conditions), f.tcp.value, t.servicePort, t.totalTcp, t.serviceTcp)
  {
    if f.tcp.Some? { R.TcpExactly(f.tcp.value, t.servicePort, t.totalTcp, t.serviceTcp); }
  }

  /** Without the list of accounts nothing is said about them, and the batch is incomplete. */
  lemma AccountsUnknown(f: Facts, lower: string -> string)
    requires f.files.None?
    ensures var b := AccountsBatch(f, lower); !b.complete && b.conditions == [] && b.errors == [Collection]
  {
  }

  lemma SingleByKey(conditions: seq<Condition>)
    requires |conditions| <= 1
    ensures ByKey(conditions).Keys == if conditions == [] then {} else {conditions[0].key}
  {
  }

  /** The server is known to be healthy in all four respects. */
  ghost predicate Healthy(f: Facts, t: Thresholds) {
    && f.health.None?
    && f.memory.Some? && f.memory.value.usedPercent < t.memory
    && f.diskError.None? && f.disks.complete && f.disks.errors == []
      && (forall d <- f.disks.disks :: d.usedPercent < t.disk)
    && f.tcp.Some? && f.tcp.value.total < t.totalTcp && f.tcp.value.servicePort < t.serviceTcp
  }

  predicate Fine(b: Batch) { b.complete && b.conditions == [] && b.errors == [] }

  /** Four fine batches mean exactly that everything was collected and lies below
      its threshold. */
  lemma FineExactly(f: Facts, t: Thresholds)
    ensures Fine(R.Health(f.health)) && Fine(MemoryBatch(f, t)) && Fine(DisksBatch(f, t)) && Fine(TcpBatch(f, t))
      <==> Healthy(f, t)
  {
    R.NoDiskCondition(Adjusted(f.disks, f.diskError), t.disk);
    if f.tcp.Some? { R.TcpEmpty(f.tcp.value, t.servicePort, t.totalTcp, t.serviceTcp); }
  }

  lemma IncompleteWellFormed(scope: string)
    requires scope in {SCOPE_HEALTH, SCOPE_MEMORY, SCOPE_DISK, SCOPE_NETWORK, SCOPE_AUTH}
    ensures R.WellFormed(IncompleteBatch(scope))
  {
  }

  lemma MemoryBatchWellFormed(f: Facts, t: Thresholds)
    ensures R.WellFormed(MemoryBatch(f, t))
  {
    if f.memory.Some? { R.MemoryWellFormed(f.memory.value, t.memory); } else { IncompleteWellFormed(SCOPE_MEMORY); }
  }

  lemma TcpBatchWellFormed(f: Facts, t: Thresholds)
    ensures R.WellFormed(TcpBatch(f, t))
  {
    if f.tcp.Some? { R.TcpWellFormed(f.tcp.value, t.servicePort, t.totalTcp, t.serviceTcp); }
    else { IncompleteWellFormed(SCOPE_NETWORK); }
  }

  lemma AccountsBatchWellFormed(f: Facts, lower: string -> string)
    ensures R.WellFormed(AccountsBatch(f, lower))
  {
    if f.files.Some? { A.AuthWellFormed(A.Entries(f.files.value, lower)); } else { IncompleteWellFormed(SCOPE_AUTH); }
  }

  /** Every batch of a cycle is well formed, so its keys determine its scope and, with
      a host name and a base URL configured, the manager never rejects it. */
  lemma PlanWellFormed(cfg: Config, f: Facts, t: Thresholds, lower: string -> string, b: Batch)
    requires b in Plan(f, t, lower)
    ensures R.WellFormed(b)
    ensures !Blank(cfg.hostname) && !Blank(cfg.baseUrl) ==> ValidInput(cfg, b)
  {
    if b == R.Health(f.health) { R.HealthWellFormed(f.health); }
    else if b == MemoryBatch(f, t) { MemoryBatchWellFormed(f, t); }
    else if b == DisksBatch(f, t) { R.DiskBatchExact(Adjusted(f.disks, f.diskError), t.disk); }
    else if b == TcpBatch(f, t) { TcpBatchWellFormed(f, t); }
    else { AccountsBatchWellFormed(f, lower); }
    WellFormedValid(cfg, b);
  }

  lemma WellFormedValid(cfg: Config, b: Batch)
    requires R.WellFormed(b)
    ensures !Blank(cfg.hostname) && !Blank(cfg.baseUrl) ==> ValidInput(cfg, b)
  {
    R.ScopesNotBlank(b.scope);
  }

  // ---------- records and files without server alerts ----------

  ghost predicate Clear(records: Records, scopes: set<string>) { forall k <- records :: records[k].scope !in scopes }

  /** A start would find no alert of these scopes: the state file, if it can be opened,
      holds none. */
  ghost predicate ClearFile(disk: State.Disk, scopes: set<string>) { Clear(Found(disk).records, scopes) }

  /** A fine batch reconciled without error leaves its scope empty. */
  lemma FineStep(cfg: Config, s: S.Service, c: Call, outcome: S.SaveOutcome, done: set<string>)
    requires S.Sound(s) && Clear(s.records, done) && Fine(c.batch)
    requires Proper(cfg, s.records, c.batch, c.answers) && AllDelivered(c.answers)
    ensures Clear(S.Next(cfg, s, S.Reconcile(c, outcome)).records, done + {c.batch.scope})
  {
    FineRecords(cfg, s.records, c, done);
  }

  lemma FineRecords(cfg: Config, records: Records, c: Call, done: set<string>)
    requires Clear(records, done) && Fine(c.batch) && Proper(cfg, records, c.batch, c.answers)
      && AllDelivered(c.answers)
    ensures Clear(Reconciled(cfg, records, c.batch, c.answers), done + {c.batch.scope})
  {
    var after := Reconciled(cfg, records, c.batch, c.answers);
    DeliveredOutcome(cfg, records, c.batch, c.answers);
    forall k | k in after ensures after[k].scope !in done + {c.batch.scope} {
      Confined(cfg, records, c.batch, c.answers, k);
      assert k !in InScope(after, c.batch.scope);
    }
  }

  /** A batch of another scope adds none to these, in memory or in the file,
      whatever is delivered and however its save ends. */
  lemma OtherStep(cfg: Config, s: S.Service, c: Call, outcome: S.SaveOutcome, scopes: set<string>)
    requires S.Sound(s) && !s.dirty && Clear(s.records, scopes) && c.batch.scope !in scopes
    requires Proper(cfg, s.records, c.batch, c.answers)
    ensures var t := S.Next(cfg, s, S.Reconcile(c, outcome)); Clear(t.records, scopes) && ClearFile(t.disk, scopes)
  {
    var t := S.Next(cfg, s, S.Reconcile(c, outcome));
    forall k | k in t.records ensures t.records[k].scope !in scopes {
      Confined(cfg, s.records, c.batch, c.answers, k);
    }
    ReconciledValid(cfg, s.records, c.batch, c.answers);
    RestoreSaved(t.records, s.health);
  }

  // ---------- the turns of a cycle ----------

  /** The context has ended when it is looked at for the n-th time; it never revives. */
  predicate Over(ends: Option<nat>, n: nat) { ends.Some? && ends.value <= n }

  /** One batch handed to the manager: whether the context had ended by then, the
      reconciliation, unless it was refused, and whether it ended with an error. */
  datatype Turn = Turn(batch: Batch, ended: bool, call: Option<Call>, failed: bool)

  /** What the turns work on: the active records, whether some are unsaved, and the
      messages sent so far. */
  datatype Point = Point(records: Records, dirty: bool, log: seq<N.Attempt>)

  /** A turn is refused exactly if the batch is bad or the context has ended; otherwise it
      is a reconciliation whose messages are the next ones in the log, and it fails
      exactly if something was not delivered or is left unsaved. */
  ghost predicate Turned(cfg: Config, before: Point, t: Turn, after: Point) {
    if ValidInput(cfg, t.batch) && !t.ended then
      && t.call.Some? && t.call.value.batch == t.batch
      && Proper(cfg, before.records, t.batch, t.call.value.answers)
      && after.records == Reconciled(cfg, before.records, t.batch, t.call.value.answers)
      && after.log == before.log + Attempts(cfg, before.records, t.batch, t.call.value.answers)
      && (t.failed <==> !AllDelivered(t.call.value.answers) || after.dirty)
    else
      t.call.None? && t.failed && after == before
  }

  /** The turns so far, with the points before and after each. */
  ghost predicate Recorded(cfg: Config, turns: seq<Turn>, trail: seq<Point>, start: Point, now: Point) {
    && |trail| == |turns| + 1 && trail[0] == start && trail[|turns|] == now && ValidRecords(start.records)
    && forall i {:trigger turns[i]} :: 0 <= i < |turns| ==> Turned(cfg, trail[i], turns[i], trail[i + 1])
  }

  lemma RecordedMore(cfg: Config, turns: seq<Turn>, trail: seq<Point>, start: Point, now: Point, t: Turn, after: Point)
    requires Recorded(cfg, turns, trail, start, now) && Turned(cfg, now, t, after)
    ensures Recorded(cfg, turns + [t], trail + [after], start, after)
  {
    forall i | 0 <= i < |turns + [t]| { TurnedMore(cfg, turns, trail, start, now, t, after, i); }
  }

  lemma TurnedMore(cfg: Config, turns: seq<Turn>, trail: seq<Point>, start: Point, now: Point, t: Turn, after: Point,
                   i: nat)
    requires Recorded(cfg, turns, trail, start, now) && Turned(cfg, now, t, after) && i <= |turns|
    ensures Turned(cfg, (trail + [after])[i], (turns + [t])[i], (trail + [after])[i + 1])
  {
    var n := |turns|;
    assert i < n ==> (turns + [t])[i] == turns[i] && (trail + [after])[i + 1] == trail[i + 1];
    assert (turns + [t])[n] == t && (trail + [after])[n + 1] == after && (trail + [after])[i] == trail[i];
  }

  ghost function BatchesOf(turns: seq<Turn>): seq<Batch> {
    seq(|turns|, i requires 0 <= i < |turns| => turns[i].batch)
  }

  /** The reconciliations among the turns. */
  ghost function CallsOf(turns: seq<Turn>): seq<Call> {
    if turns == [] then []
    else CallsOf(turns[..|turns| - 1])
         + if turns[|turns| - 1].call.Some? then [turns[|turns| - 1].call.value] else []
  }

  /** They are a run of the manager, and the log shows its messages. */
  lemma {:induction false} TurnsAreRun(cfg: Config, turns: seq<Turn>, trail: seq<Point>, start: Point, now: Point)
    requires Recorded(cfg, turns, trail, start, now)
    ensures Runs.PossibleRun(cfg, start.records, CallsOf(turns))
    ensures Runs.After(cfg, start.records, CallsOf(turns)) == now.records
    ensures now.log == start.log + Runs.Messages(cfg, start.records, CallsOf(turns))
    ensures forall c <- CallsOf(turns) :: c.batch in BatchesOf(turns)
  {
    if turns == [] {
      EmptyFirst(start.log);
    } else {
      var n := |turns| - 1;
      var front, before := turns[..n], trail[n];
      RecordedFront(cfg, turns, trail, start, now);
      TurnsAreRun(cfg, front, trail[..n + 1], start, before);
      BatchesFront(turns);
      LastTurn(cfg, start, CallsOf(front), before, turns[n], now);
      EmptyFirst(CallsOf(front));
    }
  }

  lemma RecordedFront(cfg: Config, turns: seq<Turn>, trail: seq<Point>, start: Point, now: Point)
    requires Recorded(cfg, turns, trail, start, now) && turns != []
    ensures var n := |turns| - 1;
      Recorded(cfg, turns[..n], trail[..n + 1], start, trail[n]) && Turned(cfg, trail[n], turns[n], now)
  {
    var n := |turns| - 1;
    var front, points := turns[..n], trail[..n + 1];
    forall i | 0 <= i < n ensures Turned(cfg, points[i], front[i], points[i + 1]) { assert front[i] == turns[i]; }
    assert Turned(cfg, trail[n], turns[n], trail[n + 1]);
  }

  lemma BatchesFront(turns: seq<Turn>)
    requires turns != []
    ensures BatchesOf(turns) == BatchesOf(turns[..|turns| - 1]) + [turns[|turns| - 1].batch]
  {
  }

  lemma LastTurn(cfg: Config, start: Point, calls: seq<Call>, before: Point, t: Turn, now: Point)
    requires Runs.PossibleRun(cfg, start.records, calls) && Runs.After(cfg, start.records, calls) == before.records
    requires before.log == start.log + Runs.Messages(cfg, start.records, calls) && Turned(cfg, before, t, now)
    ensures t.call.Some? ==>
      var more := calls + [t.call.value];
      && t.call.value.batch == t.batch
      && Runs.PossibleRun(cfg, start.records, more) && Runs.After(cfg, start.records, more) == now.records
      && now.log == start.log + Runs.Messages(cfg, start.records, more)
    ensures t.call.None? ==> now == before
  {
    if t.call.Some? {
      var made := Attempts(cfg, before.records, t.batch, t.call.value.answers);
      Runs.RunMore(cfg, start.records, calls, t.call.value);
      Runs.MessagesMore(cfg, start.records, calls, t.call.value);
      SumAgain(start.log, Runs.Messages(cfg, start.records, calls), made);
    }
  }

  /** The errors a turn leaves: the check's, if the batch tells any, then the
      reconciliation's. */
  function TurnErrors(t: Turn): seq<RunError> {
    (if t.batch.errors == [] then [] else [CheckFailed(t.batch.scope)])
    + if t.failed then [ReconcileFailed(t.batch.scope)] else []
  }

  function ErrorsOf(turns: seq<Turn>): seq<RunError> {
    if turns == [] then [] else ErrorsOf(turns[..|turns| - 1]) + TurnErrors(turns[|turns| - 1])
  }

  lemma ErrorsMore(turns: seq<Turn>, t: Turn)
    ensures ErrorsOf(turns + [t]) == ErrorsOf(turns) + TurnErrors(t)
  {
    HeadTail(turns, [t]);
  }

  /** A cycle leaves errors about exactly the scopes whose batch told some or whose
      reconciliation failed. */
  lemma {:induction false} ErrorsExactly(turns: seq<Turn>)
    ensures forall e :: e in ErrorsOf(turns) <==> exists t :: t in turns && e in TurnErrors(t)
    ensures ContextEnded !in ErrorsOf(turns) && ReportFailed !in ErrorsOf(turns)
  {
    if turns != [] {
      FrontLast(turns);
      ErrorsExactly(turns[..|turns| - 1]);
    }
  }

  /** The turns follow the plan; the context had not ended when they began, and it ended
      before the next one, if any is missing. */
  ghost predicate Follows(mine: seq<Turn>, plan: seq<Batch>, ends: Option<nat>) {
    && |mine| <= |plan|
    && forall i :: 0 <= i < |mine| ==>
      mine[i].batch == plan[i] && mine[i].ended == Over(ends, 2 * i + 1) && !Over(ends, 2 * i)
  }

  lemma FollowsMore(mine: seq<Turn>, plan: seq<Batch>, ends: Option<nat>, t: Turn)
    requires Follows(mine, plan, ends) && |mine| < |plan|
    requires t.batch == plan[|mine|] && t.ended == Over(ends, 2 * |mine| + 1) && !Over(ends, 2 * |mine|)
    ensures Follows(mine + [t], plan, ends)
  {
  }

  /** All turns of the plan that the context allows. */
  ghost predicate Complete(mine: seq<Turn>, plan: seq<Batch>, ends: Option<nat>) {
    Follows(mine, plan, ends) && (|mine| < |plan| ==> Over(ends, 2 * |mine|))
  }

  /** So far without error and with fine batches only: nothing is active in the
      scopes done. */
  ghost predicate OnTrack(s: S.Service, done: set<string>, errors: seq<RunError>, fine: bool) {
    errors == [] && fine ==> Clear(s.records, done) && (done != {} ==> !s.dirty)
  }

  ghost function Scopes(batches: seq<Batch>): set<string> { set b | b in batches :: b.scope }

  predicate AllFine(batches: seq<Batch>) { forall b <- batches :: Fine(b) }

  /** After some of the server checks of a plan. */
  ghost predicate Progress(s: S.Service, mine: seq<Turn>, plan: seq<Batch>, ends: Option<nat>) {
    && Follows(mine, plan, ends)
    && OnTrack(s, Scopes(plan[..|mine|]), ErrorsOf(mine), AllFine(plan[..|mine|]))
  }

  lemma ProgressMore(s: S.Service, mine: seq<Turn>, plan: seq<Batch>, ends: Option<nat>, t: Turn)
    requires |mine| < |plan| && Follows(mine, plan, ends) && t.batch == plan[|mine|]
    requires t.ended == Over(ends, 2 * |mine| + 1) && !Over(ends, 2 * |mine|)
    requires var n := |mine|;
      OnTrack(s, Scopes(plan[..n]) + {t.batch.scope}, ErrorsOf(mine) + TurnErrors(t),
              AllFine(plan[..n]) && Fine(t.batch))
    ensures Progress(s, mine + [t], plan, ends)
  {
    var n := |mine|;
    FollowsMore(mine, plan, ends, t);
    ErrorsMore(mine, t);
    SliceMore(plan, n);
    assert Scopes(plan[..n] + [t.batch]) == Scopes(plan[..n]) + {t.batch.scope};
    FineMore(plan[..n], t.batch);
  }

  lemma FineMore(batches: seq<Batch>, b: Batch)
    ensures AllFine(batches + [b]) <==> AllFine(batches) && Fine(b)
  {
    if AllFine(batches + [b]) {
      forall x | x in batches ensures Fine(x) { assert x in batches + [b]; }
      assert (batches + [b])[|batches|] == b;
    }
  }

  lemma AccountsApart()
    ensures SCOPE_AUTH !in SERVER_SCOPES
  {
  }

  // ---------- the report ----------

  method BatchesHealthy(batches: seq<Batch>) returns (healthy: bool)
    ensures healthy <==> forall b <- batches :: Fine(b)
  {
    for i := 0 to |batches|
      invariant forall j :: 0 <= j < i ==> Fine(batches[j])
    {
      if !batches[i].complete || |batches[i].conditions| != 0 || |batches[i].errors| != 0 {
        assert batches[i] in batches;
        return false;
      }
    }
    return true;
  }

  method HighestDisk(disks: seq<Disk.Usage>) returns (highest: real)
    ensures highest >= 0.0 && forall d <- disks :: d.usedPercent <= highest
    ensures highest == 0.0 || exists d :: d in disks && d.usedPercent == highest
  {
    highest := 0.0;
    for i := 0 to |disks|
      invariant highest >= 0.0 && forall j :: 0 <= j < i ==> disks[j].usedPercent <= highest
      invariant highest == 0.0 || exists d :: d in disks && d.usedPercent == highest
    {
      if disks[i].usedPercent > highest {
        highest := disks[i].usedPercent;
        assert disks[i] in disks;
      }
    }
  }

  /** The figures reported are those collected, and lie below the thresholds. */
  ghost predicate Truthful(s: Snapshot, f: Facts, t: Thresholds) {
    && f.memory.Some? && s.memoryPercent == f.memory.value.usedPercent < t.memory
    && (forall d <- f.disks.disks :: d.usedPercent <= s.highestDisk) && s.highestDisk < t.disk
    && (s.highestDisk == 0.0 || exists d :: d in f.disks.disks && d.usedPercent == s.highestDisk)
    && s.mountCount == |f.disks.disks|
    && f.tcp.Some? && s.totalTcp == f.tcp.value.total < t.totalTcp
      && s.serviceTcp == f.tcp.value.servicePort < t.serviceTcp
    && (s.accountsKnown <==> f.files.Some?) && s.accountCount == if f.files.Some? then |f.files.value| else 0
  }

  method TakeSnapshot(f: Facts, t: Thresholds) returns (s: Snapshot)
    requires Healthy(f, t) && t.disk > 0.0
    ensures Truthful(s, f, t)
  {
    var highest := HighestDisk(f.disks.disks);
    s := Snapshot(f.memory.value.usedPercent, highest, |f.disks.disks|, f.tcp.value.total, f.tcp.value.servicePort,
                  f.files.Some?, if f.files.Some? then |f.files.value| else 0);
  }

  /** The reporter's log shows one more attempt, at this time, or none. */
  ghost predicate Asked(after: seq<H.Tick>, before: seq<H.Tick>, attempted: bool, now: int) {
    if attempted then |after| == |before| + 1 && before == after[..|before|] && after[|before|].now == now
    else after == before
  }

  /** What a reconciliation does to the invariant and to the scopes done. */
  lemma ReconcileLaws(cfg: Config, s: S.Service, c: Call, outcome: S.SaveOutcome, done: set<string>)
    requires S.Sound(s) && Proper(cfg, s.records, c.batch, c.answers)
    ensures var t := S.Next(cfg, s, S.Reconcile(c, outcome));
      && S.Sound(t) && (S.Opens(s) ==> S.Opens(t))
      && (AllDelivered(c.answers) && Fine(c.batch) && Clear(s.records, done) ==>
            Clear(t.records, done + {c.batch.scope}))
      && (!s.dirty && Clear(s.records, done) && c.batch.scope !in done ==>
            Clear(t.records, done) && ClearFile(t.disk, done))
  {
    S.ReconcileSound(cfg, s, c, outcome);
    if AllDelivered(c.answers) && Fine(c.batch) && Clear(s.records, done) { FineStep(cfg, s, c, outcome, done); }
    if !s.dirty && Clear(s.records, done) && c.batch.scope !in done { OtherStep(cfg, s, c, outcome, done); }
  }

  lemma StayedClear(s: S.Service, done: set<string>)
    requires S.Sound(s) && !s.dirty && Clear(s.records, done)
    ensures ClearFile(s.disk, done)
  {
  }

  // ---------- the runner ----------

  ghost predicate AllWellFormed(turns: seq<Turn>) { forall t <- turns :: R.WellFormed(t.batch) }

  class Runner {
    const manager: Alerter.Manager
    const reporter: H.Manager?
    const thresholds: Thresholds
    ghost const readable: bool   // the state file could be opened at the start
    ghost const start: Point     // what the manager had at the start
    ghost var turns: seq<Turn>   // batches given to the manager, oldest first
    ghost var trail: seq<Point>  // the points before the first of them and after each

    ghost predicate Valid()
      reads this, manager, manager.router, manager.store, if reporter == null then {} else {reporter}
    {
      Sound() && Recorded(manager.config, turns, trail, start, Here())
    }

    ghost function Here(): Point
      reads manager, manager.router, manager.store
    {
      Point(manager.store.records, manager.dirty, manager.router.log)
    }

    ghost predicate Sound()
      reads manager, manager.router, manager.store, if reporter == null then {} else {reporter}
    {
      && manager.Valid() && S.Sound(manager.Now()) && (readable ==> S.Opens(manager.Now()))
      && (reporter != null ==> reporter.store == manager.store && reporter.Valid())
    }

    constructor (manager: Alerter.Manager, reporter: H.Manager?, thresholds: Thresholds)
      requires manager.Valid() && S.Sound(manager.Now())
      requires reporter != null ==> reporter.store == manager.store && reporter.Valid()
      ensures Valid() && this.manager == manager && this.reporter == reporter && this.thresholds == thresholds
      ensures turns == [] && start == Here() && readable == S.Opens(manager.Now())
    {
      this.manager, this.reporter, this.thresholds := manager, reporter, thresholds;
      readable := S.Opens(manager.Now());
      start := Point(manager.store.records, manager.dirty, manager.router.log);
      turns, trail := [], [Point(manager.store.records, manager.dirty, manager.router.log)];
    }

    /** Over all cycles: the messages are those of a run of the manager, and when the
        records found at the start respect the scopes of their keys, deliveries and
        removals of every key strictly alternate, and the active keys are those whose
        last event is a delivery. */
    lemma AlertsAlternate()
      requires Valid() && AllWellFormed(turns)
      ensures var cfg, calls := manager.config, CallsOf(turns);
        && Runs.PossibleRun(cfg, start.records, calls)
        && manager.router.log == start.log + Runs.Messages(cfg, start.records, calls)
        && (Runs.Scoped(start.records, R.ScopeOf) ==>
              Runs.Trace(start.records.Keys, Runs.History(cfg, start.records, calls))
                == Some(manager.store.records.Keys))
    {
      TurnsAreRun(manager.config, turns, trail, start, Here());
      if Runs.Scoped(start.records, R.ScopeOf) {
        CallsScoped(turns);
        Runs.RunAlternates(manager.config, start.records, CallsOf(turns), R.ScopeOf);
      }
    }

    predicate ReportDue(schedule: HealthState, now: int)
      requires reporter != null
    {
      reporter.enabled && H.Due(schedule, now, reporter.interval, reporter.retry)
    }

    method Reconcile(batch: Batch, ended: bool, ghost done: set<string>) returns (failed: bool, ghost t: Turn)
      requires Valid()
      modifies this`turns, this`trail, manager`dirty, manager.router
      modifies manager.store`records, manager.store`disk, manager.store`saves
      ensures Valid() && turns == old(turns) + [t] && t.batch == batch && t.ended == ended && t.failed == failed
      ensures !failed ==> !manager.dirty
      ensures !failed && Fine(batch) && Clear(old(manager.store.records), done) ==>
        Clear(manager.store.records, done + {batch.scope})
      ensures old(!manager.dirty && Clear(manager.store.records, done)) && batch.scope !in done ==>
        Clear(manager.store.records, done) && ClearFile(manager.store.disk, done)
    {
      ghost var was := Here();
      failed, t := Hand(batch, ended, done);
      Note(was, t);
    }

    ghost method Note(was: Point, t: Turn)
      requires Sound() && Recorded(manager.config, turns, trail, start, was)
      requires Turned(manager.config, was, t, Here())
      modifies this`turns, this`trail
      ensures Valid() && turns == old(turns) + [t]
    {
      RecordedMore(manager.config, turns, trail, start, was, t, Here());
      turns, trail := turns + [t], trail + [Here()];
    }

    /** Hands a batch to the manager. */
    method Hand(batch: Batch, ended: bool, ghost done: set<string>) returns (failed: bool, ghost t: Turn)
      requires Sound()
      modifies manager`dirty, manager.router, manager.store`records, manager.store`disk, manager.store`saves
      ensures Sound() && t.batch == batch && t.ended == ended && t.failed == failed
      ensures Turned(manager.config, old(Here()), t, Here())
      ensures !failed ==> !manager.dirty
      ensures !failed && Fine(batch) && Clear(old(manager.store.records), done) ==>
        Clear(manager.store.records, done + {batch.scope})
      ensures old(!manager.dirty && Clear(manager.store.records, done)) && batch.scope !in done ==>
        Clear(manager.store.records, done) && ClearFile(manager.store.disk, done)
    {
      ghost var s := manager.Now();
      var failures, answers, outcome := manager.Reconcile(batch, ended);
      failed := |failures| > 0;
      t := Turn(batch, ended, None, failed);
      if !Alerter.Refused(failures) {
        Alerter.NoErrorExactly(s.records, batch, answers, manager.dirty);
        ReconcileLaws(manager.config, s, Call(batch, answers), outcome, done);
        t := Turn(batch, ended, Some(Call(batch, answers)), failed);
      } else {
        if !s.dirty && Clear(s.records, done) { StayedClear(s, done); }
      }
    }

    /** One check: note its failure, then reconcile its batch in any case. */
    method Check(batch: Batch, checkFailed: bool, ended: bool, errors: seq<RunError>, ghost done: set<string>,
                 ghost fine: bool)
      returns (all: seq<RunError>, ghost t: Turn)
      requires Valid() && OnTrack(manager.Now(), done, errors, fine) && (checkFailed <==> batch.errors != [])
      modifies this`turns, this`trail, manager`dirty, manager.router
      modifies manager.store`records, manager.store`disk, manager.store`saves
      ensures Valid() && turns == old(turns) + [t] && t.batch == batch && t.ended == ended
      ensures all == errors + TurnErrors(t)
      ensures OnTrack(manager.Now(), done + {batch.scope}, all, fine && Fine(batch))
      ensures old(!manager.dirty && Clear(manager.store.records, done)) && batch.scope !in done ==>
        Clear(manager.store.records, done) && ClearFile(manager.store.disk, done)
    {
      all := errors;
      if checkFailed { all := all + [CheckFailed(batch.scope)]; }
      var failed;
      failed, t := Reconcile(batch, ended, done);
      if failed { all := all + [ReconcileFailed(batch.scope)]; }
    }

    /** The next check of the plan; the manager looks at the context once more. */
    method ServerCheck(batch: Batch, checkFailed: bool, errors: seq<RunError>, ends: Option<nat>, look: nat,
                       ghost mine: seq<Turn>, ghost plan: seq<Batch>, ghost base: seq<Turn>)
      returns (all: seq<RunError>, ghost more: seq<Turn>)
      requires Valid() && turns == base + mine && Progress(manager.Now(), mine, plan, ends) && errors == ErrorsOf(mine)
      requires |mine| < |plan| && batch == plan[|mine|] && look == 2 * |mine| && !Over(ends, look)
      requires checkFailed <==> batch.errors != []
      modifies this`turns, this`trail, manager`dirty, manager.router
      modifies manager.store`records, manager.store`disk, manager.store`saves
      ensures Valid() && turns == base + more && |more| == |mine| + 1
      ensures Progress(manager.Now(), more, plan, ends) && all == ErrorsOf(more)
    {
      ghost var n, t := |mine|, Turn(batch, false, None, false);
      all, t := Check(batch, checkFailed, Over(ends, look + 1), errors, Scopes(plan[..n]), AllFine(plan[..n]));
      more := mine + [t];
      SumAgain(base, mine, [t]);
      ErrorsMore(mine, t);
      ProgressMore(manager.Now(), mine, plan, ends, t);
    }

    /** The first check, unless the context has ended. */
    method HealthCheck(f: Facts, ends: Option<nat>, ghost plan: seq<Batch>)
      returns (errors: seq<RunError>, batches: seq<Batch>, ghost mine: seq<Turn>)
      requires Valid() && |plan| == 5 && plan[0] == R.Health(f.health)
      modifies this`turns, this`trail, manager`dirty, manager.router
      modifies manager.store`records, manager.store`disk, manager.store`saves
      ensures Valid() && turns == old(turns) + mine && Halfway(manager.Now(), mine, plan, ends, errors, batches, 1)
    {
      ghost var base := turns;
      errors, batches, mine := [], [], [];
      EmptyFirst(base);
      if Over(ends, 0) { return; }
      var health := R.Health(f.health);
      errors, mine := ServerCheck(health, false, errors, ends, 0, mine, plan, base);
      batches := [health];
    }

    /** The next one, unless the context has ended by then. */
    method NextCheck(batch: Batch, checkFailed: bool, ends: Option<nat>, n: nat, before: seq<RunError>,
                     done: seq<Batch>, ghost mine: seq<Turn>, ghost plan: seq<Batch>, ghost base: seq<Turn>)
      returns (errors: seq<RunError>, batches: seq<Batch>, ghost more: seq<Turn>)
      requires Valid() && turns == base + mine && n < |plan|
      requires Halfway(manager.Now(), mine, plan, ends, before, done, n)
      requires batch == plan[n] && (checkFailed <==> batch.errors != [])
      modifies this`turns, this`trail, manager`dirty, manager.router
      modifies manager.store`records, manager.store`disk, manager.store`saves
      ensures Valid() && turns == base + more && Halfway(manager.Now(), more, plan, ends, errors, batches, n + 1)
    {
      errors, batches, more := before, done, mine;
      if |batches| < n || Over(ends, 2 * n) { return; }
      errors, more := ServerCheck(batch, checkFailed, errors, ends, 2 * n, more, plan, base);
      batches := batches + [batch];
      SliceMore(plan, n);
    }

    /** The other server checks. */
    method ResourceChecks(f: Facts, ends: Option<nat>, before: seq<RunError>, done: seq<Batch>,
                          ghost mine: seq<Turn>, ghost plan: seq<Batch>, ghost base: seq<Turn>)
      returns (errors: seq<RunError>, batches: seq<Batch>, ghost more: seq<Turn>)
      requires Valid() && turns == base + mine && |plan| == 5
      requires Halfway(manager.Now(), mine, plan, ends, before, done, 1)
      requires plan[1] == MemoryBatch(f, thresholds) && plan[2] == DisksBatch(f, thresholds)
        && plan[3] == TcpBatch(f, thresholds)
      modifies this`turns, this`trail, manager`dirty, manager.router
      modifies manager.store`records, manager.store`disk, manager.store`saves
      ensures Valid() && turns == base + more && Halfway(manager.Now(), more, plan, ends, errors, batches, 4)
    {
      var memory, disk, tcp := ReadResources(f);
      errors, batches, more := NextCheck(memory, f.memory.None?, ends, 1, before, done, mine, plan, base);
      errors, batches, more :=
        NextCheck(disk, f.diskError.Some? || |disk.errors| > 0, ends, 2, errors, batches, more, plan, base);
      errors, batches, more := NextCheck(tcp, f.tcp.None?, ends, 3, errors, batches, more, plan, base);
    }

    /** The batches of these checks. */
    method ReadResources(f: Facts) returns (memory: Batch, disk: Batch, tcp: Batch)
      ensures memory == MemoryBatch(f, thresholds) && (f.memory.None? <==> memory.errors != [])
      ensures disk == DisksBatch(f, thresholds) && (f.diskError.Some? || |disk.errors| > 0 <==> disk.errors != [])
      ensures tcp == TcpBatch(f, thresholds) && (f.tcp.None? <==> tcp.errors != [])
    {
      memory :=
        if f.memory.None? then IncompleteBatch(SCOPE_MEMORY) else R.Memory(f.memory.value, thresholds.memory);
      disk := R.Disks(Adjusted(f.disks, f.diskError), thresholds.disk);
      tcp := ReadTcp(f);
    }

    method ReadTcp(f: Facts) returns (batch: Batch)
      ensures batch == TcpBatch(f, thresholds)
    {
      if f.tcp.None? {
        batch := IncompleteBatch(SCOPE_NETWORK);
      } else {
        batch := R.Tcp(f.tcp.value, thresholds.servicePort, thresholds.totalTcp, thresholds.serviceTcp);
      }
    }

    method AccountCheck(f: Facts, lower: string -> string, ends: Option<nat>, errors: seq<RunError>,
                        ghost mine: seq<Turn>, ghost plan: seq<Batch>, ghost base: seq<Turn>)
      returns (all: seq<RunError>, ghost more: seq<Turn>)
      requires Valid() && turns == base + mine && |plan| == 5 && plan[4] == AccountsBatch(f, lower)
      requires Follows(mine, plan, ends) && |mine| == 4 && !Over(ends, 8) && errors == ErrorsOf(mine)
      modifies this`turns, this`trail, manager`dirty, manager.router
      modifies manager.store`records, manager.store`disk, manager.store`saves
      ensures Valid() && turns == base + more && Follows(more, plan, ends) && |more| == 5 && more[..4] == mine
      ensures all == ErrorsOf(more)
      ensures old(!manager.dirty && Clear(manager.store.records, SERVER_SCOPES)) ==> AllClear(manager.Now())
    {
      var batch := IncompleteBatch(SCOPE_AUTH);
      if f.files.Some? { batch := A.Auth(f.files.value, lower); }
      AccountsApart();
      ghost var t;
      all, t := Check(batch, f.files.None? || |batch.errors| > 0, Over(ends, 9), errors, SERVER_SCOPES, false);
      more := mine + [t];
      SumAgain(base, mine, [t]);
      HeadTail(mine, [t]);
      ErrorsMore(mine, t);
      FollowsMore(mine, plan, ends, t);
    }

    /** The five checks of a cycle, as far as the context allows. */
    method Checks(f: Facts, lower: string -> string, ends: Option<nat>)
      returns (errors: seq<RunError>, batches: seq<Batch>, serverErrors: nat, completed: bool, ghost mine: seq<Turn>)
      requires Valid()
      modifies this`turns, this`trail, manager`dirty, manager.router
      modifies manager.store`records, manager.store`disk, manager.store`saves
      ensures Valid() && turns == old(turns) + mine
      ensures Complete(mine, Plan(f, thresholds, lower), ends) && errors == ErrorsOf(mine)
      ensures completed <==> |mine| == 5
      ensures completed ==>
        && batches == Plan(f, thresholds, lower)[..4] && serverErrors == |ErrorsOf(mine[..4])|
        && (serverErrors == 0 && AllFine(batches) ==> AllClear(manager.Now()))
    {
      ghost var plan, base := Plan(f, thresholds, lower), turns;
      errors, batches, mine := HealthCheck(f, ends, plan);
      errors, batches, mine := ResourceChecks(f, ends, errors, batches, mine, plan, base);
      serverErrors, completed := |errors|, false;
      if |batches| < 4 || Over(ends, 8) { return; }
      ghost var four := mine;
      ServerScopes(f, thresholds, lower);
      errors, mine := AccountCheck(f, lower, ends, errors, mine, plan, base);
      completed := true;
    }

    /** Asks the reporter, whose answer is the last error of the cycle. */
    method Report(f: Facts, now: int) returns (failed: bool, ghost snapshot: Snapshot)
      requires Valid() && reporter != null && Healthy(f, thresholds) && thresholds.disk > 0.0
      modifies reporter, manager.store`health, manager.store`disk, manager.store`saves
      ensures Valid() && Truthful(snapshot, f, thresholds)
      ensures Asked(reporter.log, old(reporter.log), ReportDue(old(manager.store.health), now), now)
      ensures !ReportDue(old(manager.store.health), now) ==> !failed
      ensures ReportDue(old(manager.store.health), now) && !failed ==> reporter.log[|reporter.log| - 1].sent
    {
      snapshot := TakeSnapshot(f, thresholds);
      ghost var s := manager.Now();
      var result, tick, outcome := reporter.ReportHealthy(now);
      failed := result != H.NotSent && result != H.Sent;
      if manager.store.health != s.health || manager.store.disk != s.disk {
        ReportSound(manager.config, s, manager.store.health, outcome);
      }
    }

    method ReportIfHealthy(f: Facts, now: int, errors: seq<RunError>, batches: seq<Batch>, serverErrors: nat)
      returns (all: seq<RunError>, ghost reported: Option<Snapshot>)
      requires Valid() && thresholds.disk > 0.0 && (AllFine(batches) <==> Healthy(f, thresholds))
      modifies manager.store`health, manager.store`disk, manager.store`saves, if reporter == null then {}
        else {reporter}
      ensures Valid()
      ensures all == errors || (reported.Some? && all == errors + [ReportFailed])
      ensures reported.Some? <==> serverErrors == 0 && Healthy(f, thresholds) && reporter != null
      ensures reported.Some? ==> Truthful(reported.value, f, thresholds)
      ensures reporter != null ==>
        Asked(reporter.log, old(reporter.log), reported.Some? && ReportDue(old(manager.store.health), now), now)
      ensures reported.Some? ==> Answer(all == errors, ReportDue(old(manager.store.health), now), reporter.log)
    {
      all, reported := errors, None;
      var healthy := BatchesHealthy(batches);
      if serverErrors == 0 && healthy && reporter != null {
        var failed, snapshot := Report(f, now);
        reported := Some(snapshot);
        if failed { all := all + [ReportFailed]; }
      }
    }

    /** One cycle: every scope is reconciled with its batch, whatever happened to the
        others, until the context ends; the healthy report comes last. */
    method RunOnce(f: Facts, lower: string -> string, now: int, ends: Option<nat>)
      returns (errors: seq<RunError>, ghost mine: seq<Turn>, ghost reported: Option<Snapshot>,
               ghost before: S.Service)
      requires Valid() && thresholds.disk > 0.0
      modifies this`turns, this`trail, manager`dirty, manager.router, manager.store
      modifies if reporter == null then {} else {reporter}
      // the turns of this cycle are those of the plan that the context allows, and leave its errors
      ensures Valid() && turns == old(turns) + mine && Complete(mine, Plan(f, thresholds, lower), ends)
      ensures Over(ends, 10) ==> errors == ErrorsOf(mine) + [ContextEnded]
      ensures !Over(ends, 10) ==>
        errors == ErrorsOf(mine) || (reported.Some? && errors == ErrorsOf(mine) + [ReportFailed])
      // a report goes out exactly when the four server checks were fine and left no error
      ensures reported.Some? <==>
        reporter != null && !Over(ends, 10) && Healthy(f, thresholds) && ErrorsOf(mine[..4]) == []
      // it means: nothing is active in the server's scopes, neither in the store nor in the state file
      ensures reported.Some? ==>
        && Truthful(reported.value, f, thresholds)
        && AllClear(before) && (readable ==> S.Opens(before)) && manager.store.records == before.records
      // the reporter attempts one exactly when it is asked and one is due
      ensures reporter != null ==>
        Asked(reporter.log, old(reporter.log), reported.Some? && ReportDue(old(manager.store.health), now), now)
      ensures reported.Some? ==>
        Answer(errors == ErrorsOf(mine), ReportDue(old(manager.store.health), now), reporter.log)
    {
      reported := None;
      var batches, serverErrors, completed;
      errors, batches, serverErrors, completed, mine := Checks(f, lower, ends);
      before := manager.Now();
      if !completed || Over(ends, 10) { return errors + [ContextEnded], mine, reported, before; }
      PlanFine(f, thresholds, lower, batches);
      ghost var turns', trail' := turns, trail;
      errors, reported := ReportIfHealthy(f, now, errors, batches, serverErrors);
      assert turns == turns' && trail == trail';
    }

    /** One cycle after another, whatever errors they end with: over the whole run of the
        daemon the messages are those of a run of the manager, and deliveries and removals
        of every key strictly alternate. */
    method RunDaemon(cycles: seq<Cycle>, lower: string -> string)
      requires Valid() && thresholds.disk > 0.0 && AllWellFormed(turns)
      modifies this`turns, this`trail, manager`dirty, manager.router, manager.store
      modifies if reporter == null then {} else {reporter}
      ensures Valid() && AllWellFormed(turns) && old(turns) <= turns
      ensures var cfg, calls := manager.config, CallsOf(turns);
        && Runs.PossibleRun(cfg, start.records, calls)
        && manager.router.log == start.log + Runs.Messages(cfg, start.records, calls)
        && (Runs.Scoped(start.records, R.ScopeOf) ==>
              Runs.Trace(start.records.Keys, Runs.History(cfg, start.records, calls))
                == Some(manager.store.records.Keys))
    {
      for i := 0 to |cycles|
        invariant Valid() && AllWellFormed(turns) && old(turns) <= turns
      {
        ghost var was := turns;
        var errors, mine, reported, before := RunOnce(cycles[i].facts, lower, cycles[i].now, cycles[i].ends);
        TurnsWellFormed(cycles[i].facts, thresholds, lower, mine, cycles[i].ends, was);
      }
      AlertsAlternate();
    }
  }

  /** What a cycle of the daemon finds, its clock, and when the context ends. */
  datatype Cycle = Cycle(facts: Facts, now: int, ends: Option<nat>)

  /** No error from a report that was due means that it was sent. */
  ghost predicate Answer(fine: bool, due: bool, log: seq<H.Tick>) {
    if due then fine ==> log != [] && log[|log| - 1].sent else fine
  }

  /** After as many of the first n checks as the context allows. */
  ghost predicate Halfway(s: S.Service, mine: seq<Turn>, plan: seq<Batch>, ends: Option<nat>, errors: seq<RunError>,
                          batches: seq<Batch>, n: nat) {
    && |mine| <= n <= |plan| && Progress(s, mine, plan, ends) && errors == ErrorsOf(mine)
    && batches == plan[..|mine|] && (|mine| < n ==> Over(ends, 2 * |mine|))
  }

  lemma CallsScoped(turns: seq<Turn>)
    requires AllWellFormed(turns) && forall c <- CallsOf(turns) :: c.batch in BatchesOf(turns)
    ensures forall c <- CallsOf(turns) :: Runs.ScopedBatch(c.batch, R.ScopeOf)
  {
    forall c | c in CallsOf(turns) ensures Runs.ScopedBatch(c.batch, R.ScopeOf) {
      var i :| 0 <= i < |turns| && turns[i].batch == c.batch;
      assert turns[i] in turns;
      R.WellFormedScoped(c.batch);
    }
  }

  lemma TurnsWellFormed(f: Facts, t: Thresholds, lower: string -> string, mine: seq<Turn>, ends: Option<nat>,
                        before: seq<Turn>)
    requires Follows(mine, Plan(f, t, lower), ends) && AllWellFormed(before)
    ensures AllWellFormed(before + mine)
  {
    var plan := Plan(f, t, lower);
    forall b | b in plan ensures R.WellFormed(b) { PlanWellFormed(Config("", "", false), f, t, lower, b); }
    forall x | x in mine ensures R.WellFormed(x.batch) {
      var i :| 0 <= i < |mine| && mine[i] == x;
      assert plan[i] in plan;
    }
  }

  /** No alert of the server is active in the store, nor, if it can be opened, in the
      state file. */
  ghost predicate AllClear(s: S.Service) { Clear(s.records, SERVER_SCOPES) && ClearFile(s.disk, SERVER_SCOPES) }

  lemma ServerScopes(f: Facts, t: Thresholds, lower: string -> string)
    ensures Scopes(Plan(f, t, lower)[..4]) == SERVER_SCOPES
  {
    var batches := Plan(f, t, lower)[..4];
    assert batches[0] in batches && batches[1] in batches && batches[2] in batches && batches[3] in batches;
  }

  lemma PlanFine(f: Facts, t: Thresholds, lower: string -> string, batches: seq<Batch>)
    requires batches == Plan(f, t, lower)[..4]
    ensures AllFine(batches) <==> Healthy(f, t)
  {
    FineExactly(f, t);
    assert batches[0] in batches && batches[1] in batches && batches[2] in batches && batches[3] in batches;
  }

  /** A report changes no alert and keeps the state sound. */
  lemma ReportSound(cfg: Config, s: S.Service, schedule: HealthState, outcome: S.SaveOutcome)
    requires S.Sound(s) && schedule.Valid()
    ensures var t := s.(health := schedule, disk := S.DiskAfter(s.(health := schedule), outcome));
      S.Sound(t) && (S.Opens(s) ==> S.Opens(t))
  {
    S.StepSound(cfg, s, S.Report(schedule, outcome));
  }
}
