/** Collecting the disks through the shared statfs calls (collectDisks and
    statFSForMount in internal/collector/proc.go). */
module Collector {
  import opened Text
  import opened State
  import opened Disk
  import F = SingleFlight

  // ---------- runs that go on ----------

  /** A run goes on from a history, and the calls made on the way tell what the file
      system says. */
  ghost predicate Continues(history: seq<F.Step>, run: seq<F.Step>, world: F.World) {
    && F.Possible(history) && F.Possible(run) && history <= run && F.Truthful(run, |history|, world)
    && world.since <= |F.After(history).shared.calls|
  }

  lemma ContinuesMore(history: seq<F.Step>, run: seq<F.Step>, world: F.World, step: F.Step)
    requires Continues(history, run, world) && F.Enabled(F.After(run), step)
    requires step.Complete? && step.c >= world.since ==>
      step.reply == world.stat(F.After(run).shared.calls[step.c].path)
    ensures Continues(history, run + [step], world) && F.After(run + [step]) == F.Next(F.After(run), step)
  {
    F.RunMore(run, step);
    assert (run + [step])[..|run|] == run;
  }

  /** The table is in the state the run leads to. */
  ghost predicate Follows(now: F.Shared, run: seq<F.Step>) { F.Possible(run) && F.After(run).shared == now }

  /** Request r was answered so. */
  ghost predicate Answer(run: seq<F.Step>, r: nat, path: string, outcome: StatOutcome)
    requires F.Possible(run)
  {
    r < |F.After(run).requests| && F.After(run).requests[r].path == path &&
    match outcome
    case Done(reply) => F.After(run).requests[r].phase.Served? && F.After(run).requests[r].phase.reply == reply
    case _ => F.After(run).requests[r].phase.GaveUp?
  }

  /** Some request made since the history was answered so. */
  ghost predicate Answered(history: seq<F.Step>, run: seq<F.Step>, path: string, outcome: StatOutcome)
    requires F.Possible(history) && F.Possible(run)
  {
    exists r: nat :: |F.After(history).requests| <= r && Answer(run, r, path, outcome)
  }

  lemma AnsweredStays(history: seq<F.Step>, middle: seq<F.Step>, run: seq<F.Step>, path: string, outcome: StatOutcome)
    requires F.Possible(history) && F.Possible(middle) && F.Possible(run) && middle <= run
    requires Answered(history, middle, path, outcome)
    ensures Answered(history, run, path, outcome)
  {
    var r: nat :| |F.After(history).requests| <= r && Answer(middle, r, path, outcome);
    assert run[..|middle|] == middle;
    F.ThroughStays(run, |middle|, r);
    assert Answer(run, r, path, outcome);
  }

  /** The outcomes of these mounts are answers given since the history. */
  ghost predicate Gathered(history: seq<F.Step>, run: seq<F.Step>, ms: seq<Mount>, outcome: string -> StatOutcome)
    requires F.Possible(history) && F.Possible(run)
  {
    forall m <- ms :: Answered(history, run, m.mountPoint, outcome(m.mountPoint))
  }

  /** Every request made on the way was served, and the earlier ones are as they were. */
  ghost predicate ServedSince(before: seq<F.Step>, run: seq<F.Step>)
    requires F.Possible(before) && F.Possible(run)
  {
    var n := |F.After(before).requests|;
    && n <= |F.After(run).requests| && F.After(run).requests[..n] == F.After(before).requests
    && forall r: nat :: n <= r < |F.After(run).requests| ==> F.After(run).requests[r].phase.Served?
  }

  lemma ServedOn(before: seq<F.Step>, middle: seq<F.Step>, run: seq<F.Step>)
    requires F.Possible(before) && F.Possible(middle) && F.Possible(run)
    requires ServedSince(before, middle) && ServedSince(middle, run)
    ensures ServedSince(before, run)
  {
    var b, m, q := F.After(before).requests, F.After(middle).requests, F.After(run).requests;
    assert q[..|b|] == q[..|m|][..|b|];
    forall r: nat | |b| <= r < |q| ensures q[r].phase.Served? {
      if r < |m| { assert q[r] == q[..|m|][r]; }
    }
  }

  /** Where all requests were served before, all are now. */
  lemma StillServed(before: seq<F.Step>, run: seq<F.Step>, path: string)
    requires F.Possible(before) && F.Possible(run) && ServedSince(before, run)
    requires F.AllServed(F.After(before), path)
    ensures F.AllServed(F.After(run), path)
  {
    var b, q := F.After(before).requests, F.After(run).requests;
    forall x | x in q && x.path == path ensures x.phase.Served? {
      var r :| 0 <= r < |q| && q[r] == x;
      if r < |b| { assert q[..|b|][r] == b[r] && b[r] in b; }
    }
  }

  // ---------- one mount ----------

  /** The workers go on: any calls may finish, and call c surely does if asked to. */
  method Work(table: F.Table, world: F.World, c: nat, surely: bool, ghost history: seq<F.Step>,
              ghost before: seq<F.Step>)
    returns (ghost run: seq<F.Step>)
    requires Follows(table.Now(), before) && Continues(history, before, world) && c < |table.calls|
    modifies table`calls
    ensures Follows(table.Now(), run) && Continues(history, run, world) && before <= run
    ensures F.After(run).requests == F.After(before).requests && |table.calls| == |old(table.calls)|
    ensures surely ==> table.calls[c].result.Some?
  {
    run := before;
    for k := 0 to |table.calls|
      invariant |table.calls| == |old(table.calls)|
      invariant Follows(table.Now(), run) && Continues(history, run, world) && before <= run
      invariant F.After(run).requests == F.After(before).requests
      invariant surely && k > c ==> table.calls[c].result.Some?
    {
      var finishes: bool := *;
      if (finishes || (surely && k == c)) && table.calls[k].result.None? {
        var reply: F.Reply := *; // whatever an earlier call may tell
        if world.since <= k { reply := world.stat(table.calls[k].path); }
        ContinuesMore(history, run, world, F.Complete(k, reply));
        table.Complete(k, reply);
        run := run + [F.Complete(k, reply)];
      }
    }
  }

  /** Joins or makes a call and waits for it, as long as it takes if `patient`. */
  method StatFSForMount(table: F.Table, path: string, world: F.World, patient: bool,
                        ghost history: seq<F.Step>, ghost before: seq<F.Step>)
    returns (outcome: StatOutcome, ghost run: seq<F.Step>)
    requires Follows(table.Now(), before) && Continues(history, before, world)
    modifies table
    ensures Follows(table.Now(), run) && Continues(history, run, world) && before <= run
    ensures Answer(run, |F.After(before).requests|, path, outcome)
    ensures patient ==> outcome.Done? && ServedSince(before, run)
  {
    ghost var r := |F.After(before).requests|;
    JoinRun(history, before, world, path);
    run := before + [F.Start(path)] + [F.Look(r)];
    var c := table.Lookup(path);
    run := Work(table, world, c, patient, history, run);
    outcome, run := Await(table, path, c, patient, world, history, run, r);
    assert F.After(run).requests[..r] == F.After(before).requests;
  }

  lemma JoinRun(history: seq<F.Step>, before: seq<F.Step>, world: F.World, path: string)
    requires Continues(history, before, world)
    ensures var f := F.After(before);
      var run := before + [F.Start(path)] + [F.Look(|f.requests|)];
      && Continues(history, run, world) && before <= run
      && F.After(run).shared == F.WithCall(f.shared, path)
      && F.After(run).requests == f.requests + [F.Request(path, F.Waiting(F.CallFor(f.shared, path)))]
      && F.CallFor(f.shared, path) < |F.After(run).shared.calls|
  {
    var r := |F.After(before).requests|;
    ContinuesMore(history, before, world, F.Start(path));
    ContinuesMore(history, before + [F.Start(path)], world, F.Look(r));
    F.RunKeeps(before);
  }

  /** The select of the request: done, timed out or cancelled. */
  method Await(table: F.Table, path: string, c: nat, patient: bool, world: F.World,
               ghost history: seq<F.Step>, ghost before: seq<F.Step>, ghost r: nat)
    returns (outcome: StatOutcome, ghost run: seq<F.Step>)
    requires Follows(table.Now(), before) && Continues(history, before, world) && c < |table.calls|
    requires r < |F.After(before).requests| && F.After(before).requests[r] == F.Request(path, F.Waiting(c))
    requires patient ==> table.calls[c].result.Some?
    modifies table`entries
    ensures Follows(table.Now(), run) && Continues(history, run, world) && before <= run
    ensures Answer(run, r, path, outcome)
    ensures F.After(run).requests == F.After(before).requests[r := F.After(run).requests[r]]
    ensures patient ==> outcome.Done?
  {
    var waits: bool := *;
    if table.calls[c].result.Some? && (patient || waits) {
      ConcludeRun(history, before, world, r);
      table.Finish(path, c);
      run := before + [F.Observe(r)] + [F.Conclude(r)];
      outcome := Done(table.calls[c].result.value);
    } else {
      ContinuesMore(history, before, world, F.GiveUp(r));
      run := before + [F.GiveUp(r)];
      var cancelled: bool := *;
      outcome := if cancelled then Stopped else Late;
    }
  }

  lemma ConcludeRun(history: seq<F.Step>, before: seq<F.Step>, world: F.World, r: nat)
    requires Continues(history, before, world) && F.Enabled(F.After(before), F.Observe(r))
    ensures var f := F.After(before);
      var q, run := f.requests[r], before + [F.Observe(r)] + [F.Conclude(r)];
      && Continues(history, run, world) && before <= run
      && F.After(run).shared == F.Retired(f.shared, q.path, q.phase.call)
      && Answer(run, r, q.path, Done(f.shared.calls[q.phase.call].result.value))
      && F.After(run).requests == f.requests[r := F.After(run).requests[r]]
  {
    ContinuesMore(history, before, world, F.Observe(r));
    ContinuesMore(history, before + [F.Observe(r)], world, F.Conclude(r));
  }

  // ---------- all mounts ----------

  /** What has been learnt so far; nothing about the rest. */
  function OutcomeOf(known: map<string, StatOutcome>): string -> StatOutcome {
    (path: string) => if path in known then known[path] else Late
  }

  /** The loop after the first i mounts, apart from whether it stops. */
  ghost predicate Collecting(history: seq<F.Step>, run: seq<F.Step>, ms: seq<Mount>, known: map<string, StatOutcome>,
                             patient: bool, batch: DiskBatch, i: nat)
    requires F.Possible(history) && F.Possible(run) && i <= |ms|
  {
    && Gathered(history, run, ms[..i], OutcomeOf(known))
    && (forall p <- known :: p in Keys(PointOf, ms[..i]))
    && (patient ==> forall m <- ms[..i] :: OutcomeOf(known)(m.mountPoint).Done?)
    && batch == Collected(ms[..i], OutcomeOf(known))
  }

  ghost predicate NoStop(ms: seq<Mount>, outcome: string -> StatOutcome, cancelled: Option<nat>, i: nat)
    requires i <= |ms|
  {
    forall j: nat :: j < i ==> !StopsAt(ms, outcome, cancelled, j)
  }

  lemma NextMount(ms: seq<Mount>, i: nat)
    requires i < |ms| && Distinct(Keys(PointOf, ms))
    ensures ms[..i + 1] == ms[..i] + [ms[i]]
    ensures Keys(PointOf, ms[..i + 1]) == Keys(PointOf, ms[..i]) + [ms[i].mountPoint]
    ensures ms[i].mountPoint !in Keys(PointOf, ms[..i])
  {
    assert ms[..i + 1] == ms[..i] + [ms[i]];
    KeysSnoc(PointOf, ms[..i], ms[i]);
    DistinctSlice(PointOf, ms, 0, i + 1);
    assert ms[0..i + 1] == ms[..i + 1];
  }

  /** Learning the outcome of the next mount changes no earlier one. */
  lemma EarlierSame(ms: seq<Mount>, i: nat, known: map<string, StatOutcome>, o: StatOutcome)
    requires i < |ms| && Distinct(Keys(PointOf, ms))
    ensures forall m <- ms[..i] ::
      OutcomeOf(known[ms[i].mountPoint := o])(m.mountPoint) == OutcomeOf(known)(m.mountPoint)
  {
    NextMount(ms, i);
    forall m | m in ms[..i]
      ensures OutcomeOf(known[ms[i].mountPoint := o])(m.mountPoint) == OutcomeOf(known)(m.mountPoint)
    {
      InKeys(PointOf, ms[..i], m.mountPoint);
      assert PointOf(m) == m.mountPoint;
    }
  }

  lemma LearnStops(ms: seq<Mount>, known: map<string, StatOutcome>, cancelled: Option<nat>, i: nat, o: StatOutcome)
    requires i < |ms| && Distinct(Keys(PointOf, ms)) && NoStop(ms, OutcomeOf(known), cancelled, i)
    ensures NoStop(ms, OutcomeOf(known[ms[i].mountPoint := o]), cancelled, i)
  {
    EarlierSame(ms, i, known, o);
    var f, g := OutcomeOf(known), OutcomeOf(known[ms[i].mountPoint := o]);
    forall j: nat | j < i ensures !StopsAt(ms, g, cancelled, j) {
      assert ms[..i][j] in ms[..i] && !StopsAt(ms, f, cancelled, j);
    }
  }

  lemma LearnGathered(history: seq<F.Step>, before: seq<F.Step>, run: seq<F.Step>, ms: seq<Mount>, i: nat,
                      f: string -> StatOutcome, g: string -> StatOutcome)
    requires F.Possible(history) && F.Possible(before) && F.Possible(run) && before <= run
    requires i < |ms| && Gathered(history, before, ms[..i], f)
      && (forall m <- ms[..i] :: g(m.mountPoint) == f(m.mountPoint))
    requires Answered(history, run, ms[i].mountPoint, g(ms[i].mountPoint))
    ensures Gathered(history, run, ms[..i + 1], g)
  {
    assert ms[..i + 1] == ms[..i] + [ms[i]];
    forall m | m in ms[..i + 1] ensures Answered(history, run, m.mountPoint, g(m.mountPoint)) {
      if m in ms[..i] { AnsweredStays(history, before, run, m.mountPoint, f(m.mountPoint)); }
    }
  }

  lemma LearnCollected(ms: seq<Mount>, i: nat, f: string -> StatOutcome, g: string -> StatOutcome)
    requires i < |ms| && forall m <- ms[..i] :: g(m.mountPoint) == f(m.mountPoint)
    ensures Collected(ms[..i + 1], g) == Added(Collected(ms[..i], f), ms[i], g(ms[i].mountPoint))
  {
    CollectedSame(ms[..i], g, f);
    CollectedMore(ms, i, g);
  }

  lemma Learn(history: seq<F.Step>, before: seq<F.Step>, run: seq<F.Step>, ms: seq<Mount>,
              known: map<string, StatOutcome>, patient: bool, batch: DiskBatch, i: nat, o: StatOutcome)
    requires F.Possible(history) && F.Possible(before) && F.Possible(run) && before <= run
    requires i < |ms| && Distinct(Keys(PointOf, ms)) && Collecting(history, before, ms, known, patient, batch, i)
    requires Answered(history, run, ms[i].mountPoint, o) && (patient ==> o.Done?)
    ensures Collecting(history, run, ms, known[ms[i].mountPoint := o], patient, Added(batch, ms[i], o), i + 1)
  {
    var f, g := OutcomeOf(known), OutcomeOf(known[ms[i].mountPoint := o]);
    NextMount(ms, i);
    EarlierSame(ms, i, known, o);
    assert g(ms[i].mountPoint) == o;
    LearnGathered(history, before, run, ms, i, f, g);
    LearnCollected(ms, i, f, g);
  }

  /** What the loop over the mounts gives: the batch of the answers its requests came
      to, as far as it got. */
  ghost predicate Outcomes(history: seq<F.Step>, run: seq<F.Step>, ms: seq<Mount>, world: F.World,
                           cancelled: Option<nat>, patient: bool, batch: DiskBatch, outcome: string -> StatOutcome)
  {
    var n := Reached(ms, outcome, cancelled, 0);
    && Continues(history, run, world)
    && batch == CollectedWithin(ms, outcome, cancelled)
    && Gathered(history, run, ms[..n], outcome)
    && (patient ==> ServedSince(history, run) && forall m <- ms[..n] :: outcome(m.mountPoint).Done?)
  }

  /** The loop after the first i mounts; it did not stop before number `checked`. */
  ghost predicate Looping(history: seq<F.Step>, run: seq<F.Step>, ms: seq<Mount>, world: F.World,
                          cancelled: Option<nat>, patient: bool, batch: DiskBatch, known: map<string, StatOutcome>,
                          i: nat, checked: nat)
    requires i <= |ms| && checked <= |ms|
  {
    && Continues(history, run, world) && Collecting(history, run, ms, known, patient, batch, i)
    && NoStop(ms, OutcomeOf(known), cancelled, checked) && (patient ==> ServedSince(history, run))
  }

  lemma LoopDone(history: seq<F.Step>, run: seq<F.Step>, ms: seq<Mount>, world: F.World, cancelled: Option<nat>,
                 patient: bool, batch: DiskBatch, known: map<string, StatOutcome>, i: nat, checked: nat)
    requires checked <= i <= |ms| && Looping(history, run, ms, world, cancelled, patient, batch, known, i, checked)
    requires checked == i == |ms| || (checked == i - 1 && StopsAt(ms, OutcomeOf(known), cancelled, checked))
    ensures Outcomes(history, run, ms, world, cancelled, patient, batch, OutcomeOf(known))
  {
    ReachedIs(ms, OutcomeOf(known), cancelled, 0, i);
  }

  lemma LoopGoesOn(history: seq<F.Step>, run: seq<F.Step>, ms: seq<Mount>, world: F.World, cancelled: Option<nat>,
                   patient: bool, batch: DiskBatch, known: map<string, StatOutcome>, i: nat)
    requires i < |ms| && Looping(history, run, ms, world, cancelled, patient, batch, known, i + 1, i)
    requires !StopsAt(ms, OutcomeOf(known), cancelled, i)
    ensures Looping(history, run, ms, world, cancelled, patient, batch, known, i + 1, i + 1)
  {
  }

  /** The loop over the mounts: `outcome` is what the requests came to. */
  method CollectEach(table: F.Table, ms: seq<Mount>, world: F.World, cancelled: Option<nat>, patient: bool,
                     ghost history: seq<F.Step>)
    returns (batch: DiskBatch, ghost outcome: string -> StatOutcome, ghost run: seq<F.Step>)
    requires Distinct(Keys(PointOf, ms)) && Follows(table.Now(), history) && world.since <= |table.calls|
    modifies table
    ensures Follows(table.Now(), run) && Outcomes(history, run, ms, world, cancelled, patient, batch, outcome)
  {
    batch := DiskBatch([], true, []);
    run := history;
    ghost var known: map<string, StatOutcome> := map[];
    for i := 0 to |ms|
      invariant Follows(table.Now(), run)
      invariant Looping(history, run, ms, world, cancelled, patient, batch, known, i, i)
    {
      var o;
      o, batch, run := CollectMount(table, ms, i, world, cancelled, patient, history, run, batch, known);
      known := known[ms[i].mountPoint := o];
      if cancelled.Some? && cancelled.value <= i && Measure(ms[i], o).Failure? {
        LoopDone(history, run, ms, world, cancelled, patient, batch, known, i + 1, i);
        return batch, OutcomeOf(known), run;
      }
      LoopGoesOn(history, run, ms, world, cancelled, patient, batch, known, i);
    }
    LoopDone(history, run, ms, world, cancelled, patient, batch, known, |ms|, |ms|);
    outcome := OutcomeOf(known);
  }

  /** One turn of that loop. */
  method CollectMount(table: F.Table, ms: seq<Mount>, i: nat, world: F.World, ghost cancelled: Option<nat>,
                      patient: bool, ghost history: seq<F.Step>, ghost before: seq<F.Step>, batch: DiskBatch,
                      ghost known: map<string, StatOutcome>)
    returns (o: StatOutcome, more: DiskBatch, ghost run: seq<F.Step>)
    requires i < |ms| && Distinct(Keys(PointOf, ms)) && Follows(table.Now(), before)
    requires Looping(history, before, ms, world, cancelled, patient, batch, known, i, i)
    modifies table
    ensures Follows(table.Now(), run)
    ensures Looping(history, run, ms, world, cancelled, patient, more, known[ms[i].mountPoint := o], i + 1, i)
  {
    o, run := StatFSForMount(table, ms[i].mountPoint, world, patient, history, before);
    Reply(history, before, run, ms[i].mountPoint, o);
    Learn(history, before, run, ms, known, patient, batch, i, o);
    LearnStops(ms, known, cancelled, i, o);
    if patient { ServedOn(history, before, run); }
    var usage := Measure(ms[i], o);
    if usage.Success? {
      more := batch.(disks := batch.disks + [usage.value]);
    } else {
      more := batch.(complete := false, errors := batch.errors + [MountError(ms[i].mountPoint, usage.error)]);
    }
  }

  lemma Reply(history: seq<F.Step>, before: seq<F.Step>, run: seq<F.Step>, path: string, o: StatOutcome)
    requires F.Possible(history) && F.Possible(before) && F.Possible(run) && history <= before
    requires Answer(run, |F.After(before).requests|, path, o)
    ensures Answered(history, run, path, o)
  {
    assert before[..|history|] == history;
    F.RequestsGrow(before, |history|);
  }

  /** Answered in time and with nothing stale on their paths, the requests give what the
      file system says, so the collection is the plain one. */
  lemma PatientIsPlain(history: seq<F.Step>, run: seq<F.Step>, ms: seq<Mount>, outcome: string -> StatOutcome,
                       world: F.World)
    requires Continues(history, run, world) && Gathered(history, run, ms, outcome)
    requires forall m <- ms ::
      outcome(m.mountPoint).Done? && !F.Stale(F.After(history).shared, m.mountPoint, world.since)
    ensures Collected(ms, outcome) == Collected(ms, Undisturbed(world.stat))
  {
    forall m | m in ms ensures outcome(m.mountPoint) == Undisturbed(world.stat)(m.mountPoint) {
      FreshAnswer(history, run, m.mountPoint, outcome(m.mountPoint), world);
    }
    CollectedSame(ms, outcome, Undisturbed(world.stat));
  }

  /** An answer in time is what the file system says from the history on, unless the
      path was shared: by a finished call, whose result it then may be, or by one that
      may have asked before. */
  lemma FreshAnswer(history: seq<F.Step>, run: seq<F.Step>, path: string, o: StatOutcome, world: F.World)
    requires Continues(history, run, world) && Answered(history, run, path, o) && o.Done?
    ensures var before := F.After(history).shared;
      || o == Done(world.stat(path))
      || (F.Stale(before, path, world.since) && (F.Leftover(before, path) ==> o == LeftoverOf(history, path)))
  {
    var r: nat :| |F.After(history).requests| <= r && Answer(run, r, path, o);
    assert run[..|history|] == history;
    F.FreshOrStale(run, |history|, r, world);
  }

  lemma FreshMeasurements(history: seq<F.Step>, run: seq<F.Step>, ms: seq<Mount>, outcome: string -> StatOutcome,
                          world: F.World)
    requires Continues(history, run, world) && Gathered(history, run, ms, outcome)
    requires forall m <- ms :: Measure(m, outcome(m.mountPoint)).Success?
    ensures forall m <- ms :: !F.Stale(F.After(history).shared, m.mountPoint, world.since) ==>
      outcome(m.mountPoint) == Done(world.stat(m.mountPoint))
  {
    forall m | m in ms && !F.Stale(F.After(history).shared, m.mountPoint, world.since)
      ensures outcome(m.mountPoint) == Done(world.stat(m.mountPoint))
    {
      FreshAnswer(history, run, m.mountPoint, outcome(m.mountPoint), world);
    }
  }

  ghost function LeftoverOf(history: seq<F.Step>, path: string): StatOutcome
    requires F.Possible(history) && F.Leftover(F.After(history).shared, path)
  {
    var s := F.After(history).shared;
    Done(s.calls[s.table[path]].result.value)
  }

  /** A result left over is what the next request may be answered. */
  lemma LeftoverAnswers(history: seq<F.Step>, path: string, world: F.World) returns (run: seq<F.Step>)
    requires F.Possible(history) && F.Leftover(F.After(history).shared, path)
    requires world.since <= |F.After(history).shared.calls|
    ensures Continues(history, run, world) && Answered(history, run, path, LeftoverOf(history, path))
  {
    var r := |F.After(history).requests|;
    JoinRun(history, history, world, path);
    run := history + [F.Start(path)] + [F.Look(r)];
    ConcludeRun(history, run, world, r);
    run := run + [F.Observe(r)] + [F.Conclude(r)];
    assert Answer(run, r, path, LeftoverOf(history, path));
  }

  /** An unfinished call that may have asked before may answer anything. */
  lemma StaleAnswers(history: seq<F.Step>, path: string, world: F.World, reply: F.Reply) returns (run: seq<F.Step>)
    requires F.Possible(history) && world.since <= |F.After(history).shared.calls|
    requires F.Stale(F.After(history).shared, path, world.since) && !F.Leftover(F.After(history).shared, path)
    ensures Continues(history, run, world) && Answered(history, run, path, Done(reply))
  {
    var r, c := |F.After(history).requests|, F.After(history).shared.table[path];
    F.RunKeeps(history);
    JoinRun(history, history, world, path);
    run := history + [F.Start(path)] + [F.Look(r)];
    ContinuesMore(history, run, world, F.Complete(c, reply));
    run := run + [F.Complete(c, reply)];
    ConcludeRun(history, run, world, r);
    run := run + [F.Observe(r)] + [F.Conclude(r)];
    assert Answer(run, r, path, Done(reply));
  }

  /** Every answer in time to a request made from now on is what the file system says,
      for every way the run goes on. */
  ghost predicate AlwaysFresh(history: seq<F.Step>, path: string, world: F.World)
    requires F.Possible(history)
  {
    forall run, o: StatOutcome :: Continues(history, run, world) && Answered(history, run, path, o) && o.Done? ==>
      o == Done(world.stat(path))
  }

  /** So it is exactly if nothing stale is shared on the path, or what is left over there
      happens to be true. */
  lemma FreshExactly(history: seq<F.Step>, path: string, world: F.World)
    requires F.Possible(history) && world.since <= |F.After(history).shared.calls|
    ensures var before := F.After(history).shared;
      AlwaysFresh(history, path, world) <==>
      (F.Stale(before, path, world.since) ==>
         F.Leftover(before, path) && LeftoverOf(history, path) == Done(world.stat(path)))
  {
    var before := F.After(history).shared;
    forall run, o: StatOutcome | Continues(history, run, world) && Answered(history, run, path, o) && o.Done?
      ensures o == Done(world.stat(path)) || F.Stale(before, path, world.since)
      ensures o == Done(world.stat(path)) || (F.Leftover(before, path) ==> o == LeftoverOf(history, path))
    {
      FreshAnswer(history, run, path, o, world);
    }
    if F.Leftover(before, path) {
      var run := LeftoverAnswers(history, path, world);
    } else if F.Stale(before, path, world.since) {
      var other: F.Reply := if world.stat(path).Success? then Failure(NoStatFS) else Success(Info(0, 0, 0));
      var run := StaleAnswers(history, path, world, other);
    }
  }

  /** Nothing on these mount points is stale. */
  ghost predicate AllFresh(s: F.Shared, ms: seq<Mount>, since: nat) {
    forall m <- ms :: !F.Stale(s, m.mountPoint, since)
  }

  /** Earlier requests that were all served leave nothing stale. */
  lemma ServedMeansFresh(history: seq<F.Step>, ms: seq<Mount>, since: nat)
    requires F.Possible(history) && forall m <- ms :: F.AllServed(F.After(history), m.mountPoint)
    ensures AllFresh(F.After(history).shared, ms, since)
  {
    forall m | m in ms ensures !F.Stale(F.After(history).shared, m.mountPoint, since) {
      F.ServedLeaveNothing(history, m.mountPoint);
    }
  }

  lemma UndisturbedIsPlain(history: seq<F.Step>, run: seq<F.Step>, ms: seq<Mount>, outcome: string -> StatOutcome,
                           world: F.World, batch: DiskBatch)
    requires Outcomes(history, run, ms, world, None, true, batch, outcome)
    requires AllFresh(F.After(history).shared, ms, world.since)
    ensures batch == Collected(ms, Undisturbed(world.stat))
  {
    AllOf(ms);
    PatientIsPlain(history, run, ms, outcome, world);
  }

  /** The collector of the program.  Neither cancelled nor timed out, and started with
      nothing stale on the mounts it collects, in particular without outstanding calls,
      it is the plain collector; without timeouts all its requests are served. */
  method CollectDisks(table: F.Table, mounts: seq<Mount>, world: Option<F.World>, cancelled: Option<nat>,
                      patient: bool, ghost history: seq<F.Step>)
    returns (batch: DiskBatch, ghost outcome: string -> StatOutcome, ghost run: seq<F.Step>)
    requires Follows(table.Now(), history) && (world.Some? ==> world.value.since <= |table.calls|)
    modifies table
    ensures Follows(table.Now(), run) && history <= run
    ensures world.None? ==> batch == DiskBatch([], false, [MountError("", NoStatFS)]) && ServedSince(history, run)
    ensures world.Some? ==>
      Outcomes(history, run, Normalized(mounts), world.value, cancelled, patient, batch, outcome)
    ensures world.Some? && patient && cancelled.None?
            && AllFresh(old(table.Now()), Normalized(mounts), world.value.since) ==>
      batch == Collected(Normalized(mounts), Undisturbed(world.value.stat))
  {
    var normalized := NormalizeMounts(mounts);
    run := history;
    outcome := OutcomeOf(map[]);
    if world.None? { return DiskBatch([], false, [MountError("", NoStatFS)]), outcome, run; }
    NormalizedExact(mounts);
    AscendingDistinct(Keys(PointOf, normalized));
    batch, outcome, run := CollectEach(table, normalized, world.value, cancelled, patient, history);
    if patient && cancelled.None? && AllFresh(old(table.Now()), normalized, world.value.since) {
      UndisturbedIsPlain(history, run, normalized, outcome, world.value, batch);
    }
  }

  /** What one cycle of the daemon collects: the mount table, and what the file system
      says during the cycle. */
  datatype Cycle = Cycle(mounts: seq<Mount>, stat: string -> F.Reply)

  ghost function PlainOf(c: Cycle): DiskBatch { Collected(Normalized(c.mounts), Undisturbed(c.stat)) }

  ghost function Plain(cycles: seq<Cycle>): seq<DiskBatch> {
    if cycles == [] then [] else Plain(cycles[..|cycles| - 1]) + [PlainOf(cycles[|cycles| - 1])]
  }

  lemma PlainMore(cycles: seq<Cycle>, i: nat)
    requires i < |cycles|
    ensures Plain(cycles[..i + 1]) == Plain(cycles[..i]) + [PlainOf(cycles[i])]
  {
    assert cycles[..i + 1][..i] == cycles[..i];
  }

  /** Every request ever made was served. */
  ghost predicate Quiet(run: seq<F.Step>)
    requires F.Possible(run)
  {
    forall q <- F.After(run).requests :: q.phase.Served?
  }

  lemma StillQuiet(before: seq<F.Step>, run: seq<F.Step>)
    requires F.Possible(before) && F.Possible(run) && Quiet(before) && ServedSince(before, run)
    ensures Quiet(run)
  {
    forall q | q in F.After(run).requests ensures q.phase.Served? {
      StillServed(before, run, q.path);
      assert F.AllServed(F.After(run), q.path);
    }
  }

  method CollectOnce(table: F.Table, cycle: Cycle, ghost history: seq<F.Step>)
    returns (batch: DiskBatch, ghost run: seq<F.Step>)
    requires Follows(table.Now(), history) && Quiet(history)
    modifies table
    ensures Follows(table.Now(), run) && Quiet(run)
    ensures batch == PlainOf(cycle)
  {
    ServedMeansFresh(history, Normalized(cycle.mounts), |table.calls|);
    ghost var outcome;
    batch, outcome, run := CollectDisks(table, cycle.mounts, Some(F.World(cycle.stat, |table.calls|)), None, true,
      history);
    StillQuiet(history, run);
  }

  /** Cycle after cycle with one table, without timeouts and cancellations: nothing is ever
      left behind, so every collection is the plain collector's of its own cycle. */
  method CollectCycles(cycles: seq<Cycle>) returns (batches: seq<DiskBatch>)
    ensures batches == Plain(cycles)
  {
    batches := [];
    var table := new F.Table();
    ghost var run: seq<F.Step> := [];
    for i := 0 to |cycles|
      invariant fresh(table) && Follows(table.Now(), run) && Quiet(run)
      invariant batches == Plain(cycles[..i])
    {
      var batch;
      batch, run := CollectOnce(table, cycles[i], run);
      PlainMore(cycles, i);
      batches := batches + [batch];
    }
    assert cycles[..|cycles|] == cycles;
  }
}
