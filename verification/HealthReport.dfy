/** The schedule of healthy-status reports (internal/healthreport/manager.go). */
module HealthReport {
  import opened Text
  import opened State
  import S = AlertService

  // ---------- when a report is due ----------

  predicate Due(current: HealthState, now: int, interval: int, retry: int) {
    if current.lastSent == 0 then
      current.lastAttempt == 0 || now >= current.lastAttempt + retry
    else
      && now >= current.lastSent + interval
      && (current.lastAttempt > current.lastSent ==> now >= current.lastAttempt + retry)
  }

  /** The last attempt failed: no report was ever delivered, or the last one before it. */
  predicate LastFailed(current: HealthState) {
    current.lastAttempt != 0 && (current.lastSent == 0 || current.lastAttempt > current.lastSent)
  }

  /** A report waits for the interval after the last one delivered, and for the retry
      interval after an attempt that failed, and for nothing else. */
  lemma DueExactly(current: HealthState, interval: int, retry: int)
    requires current.Valid()
    ensures forall now :: Due(current, now, interval, retry) <==>
      && (current.lastSent != 0 ==> now >= current.lastSent + interval)
      && (LastFailed(current) ==> now >= current.lastAttempt + retry)
  {
  }

  /** Being due is a threshold in time: once due a report stays due, and every report is
      due at some time. */
  lemma DueStays(current: HealthState, interval: int, retry: int) returns (from: int)
    requires current.Valid()
    ensures forall now, later :: Due(current, now, interval, retry) && now <= later ==>
      Due(current, later, interval, retry)
    ensures forall now :: now >= from ==> Due(current, now, interval, retry)
  {
    from := if current.lastSent + interval > current.lastAttempt + retry then current.lastSent + interval
      else current.lastAttempt + retry;
  }

  function Attempted(current: HealthState, now: int, sent: bool): HealthState {
    HealthState(now, if sent then now else current.lastSent)
  }

  /** When the store accepts an attempt's outcome: after a report, whatever the
      clock says; after a failure, for every clock later than the zero time. */
  lemma AcceptedExactly(current: HealthState, now: int, sent: bool, interval: int, retry: int)
    requires current.Valid() && interval > 0 && retry > 0 && Due(current, now, interval, retry)
    ensures Attempted(current, now, sent).Valid() <==> sent || (if current.lastSent == 0 then now >= 0 else now != 0)
  {
  }

  /** The next report is due exactly at the time the sent one announces. */
  lemma AnnouncedTimeIsDue(current: HealthState, now: int, interval: int, retry: int)
    requires now != 0 && interval > 0
    ensures forall later :: Due(Attempted(current, now, true), later, interval, retry) <==> later >= now + interval
  {
  }

  // ---------- whole runs ----------

  /** One healthy cycle: the clock, and whether a report would be delivered. */
  datatype Tick = Tick(now: int, sent: bool)

  /** The schedule after a cycle; an outcome the store refuses leaves it as it was. */
  function Step(current: HealthState, t: Tick, interval: int, retry: int): HealthState {
    if Due(current, t.now, interval, retry) && Attempted(current, t.now, t.sent).Valid()
      then Attempted(current, t.now, t.sent)
    else current
  }

  /** The store takes the attempt, and its time is not the zero time. */
  predicate Kept(current: HealthState, t: Tick) {
    t.now != 0 && Attempted(current, t.now, t.sent).Valid()
  }

  /** How long to wait after an attempt. */
  function Pause(t: Tick, interval: int, retry: int): int { if t.sent then interval else retry }

  /** After an attempt the next one waits its full time exactly if the attempt was
      kept: not at the zero time, and accepted by the store. */
  lemma AttemptSpaced(current: HealthState, t: Tick, interval: int, retry: int)
    requires current.Valid() && interval > 0 && retry > 0 && Due(current, t.now, interval, retry)
    ensures (forall later :: Due(Step(current, t, interval, retry), later, interval, retry) ==>
               later >= t.now + Pause(t, interval, retry))
      <==> Kept(current, t)
  {
    assert !Kept(current, t) ==> Due(Step(current, t, interval, retry), t.now, interval, retry);
  }

  /** Then the next one is due from the end of that time on, not earlier and not later. */
  lemma NextDueExactly(current: HealthState, t: Tick, interval: int, retry: int)
    requires current.Valid() && interval > 0 && retry > 0
    requires Due(current, t.now, interval, retry) && Kept(current, t)
    ensures forall later ::
      Due(Step(current, t, interval, retry), later, interval, retry) <==> later >= t.now + Pause(t, interval, retry)
  {
  }

  /** Which the clock shows beforehand: it is past the zero time, or before it and the
      report is delivered or another one was before. */
  lemma KeptExactly(current: HealthState, t: Tick, interval: int, retry: int)
    requires current.Valid() && interval > 0 && retry > 0 && Due(current, t.now, interval, retry)
    ensures Kept(current, t) <==> t.now > 0 || (t.now < 0 && (t.sent || current.lastSent != 0))
  {
    AcceptedExactly(current, t.now, t.sent, interval, retry);
  }

  function After(start: HealthState, run: seq<Tick>, interval: int, retry: int): HealthState {
    if run == [] then start else Step(After(start, run[..|run| - 1], interval, retry), run[|run| - 1], interval, retry)
  }

  /** The ticks at which a report was attempted. */
  function Attempts(start: HealthState, run: seq<Tick>, interval: int, retry: int): seq<Tick> {
    if run == [] then []
    else
      var last := run[|run| - 1];
      Attempts(start, run[..|run| - 1], interval, retry)
      + if Due(After(start, run[..|run| - 1], interval, retry), last.now, interval, retry) then [last] else []
  }

  /** Every attempt of a run was kept. */
  predicate AllKept(start: HealthState, run: seq<Tick>, interval: int, retry: int) {
    run == [] ||
    (var before, last := After(start, run[..|run| - 1], interval, retry), run[|run| - 1];
     AllKept(start, run[..|run| - 1], interval, retry)
       && (Due(before, last.now, interval, retry) ==> Kept(before, last)))
  }

  /** The spacing every list of attempts keeps. */
  ghost predicate Spaced(attempts: seq<Tick>, interval: int, retry: int) {
    forall i, j :: 0 <= i < j < |attempts| ==>
      attempts[i].now < attempts[j].now && attempts[j].now >= attempts[i].now + Pause(attempts[i], interval, retry)
  }

  /** The schedule remembers the last attempt and the last report, including
      those of before the run. */
  ghost predicate Remembers(current: HealthState, start: HealthState, attempts: seq<Tick>) {
    && current.Valid()
    && current.lastAttempt == (if attempts == [] then start.lastAttempt else attempts[|attempts| - 1].now)
    && (forall t <- attempts :: t.sent ==> current.lastSent != 0 && t.now <= current.lastSent)
    && ((forall t <- attempts :: !t.sent) ==> current.lastSent == start.lastSent)
    && (attempts != [] && !attempts[|attempts| - 1].sent && current.lastSent != 0 ==>
      current.lastAttempt > current.lastSent)
    && (attempts != [] ==> current.lastAttempt != 0)
    && (start.lastSent != 0 ==> start.lastSent <= current.lastSent && current.lastSent != 0)
  }

  ghost predicate SentAt(attempts: seq<Tick>, time: int) { exists t :: t in attempts && t.sent && t.now == time }

  /** Over any clock and any answers, a run whose attempts were all kept is spaced. */
  lemma {:induction false} RunSpaced(start: HealthState, run: seq<Tick>, interval: int, retry: int)
    requires start.Valid() && interval > 0 && retry > 0 && AllKept(start, run, interval, retry)
    ensures Spaced(Attempts(start, run, interval, retry), interval, retry)
    ensures Remembers(After(start, run, interval, retry), start, Attempts(start, run, interval, retry))
  {
    if run != [] {
      var front, last := run[..|run| - 1], run[|run| - 1];
      RunSpaced(start, front, interval, retry);
      var before, attempts := After(start, front, interval, retry), Attempts(start, front, interval, retry);
      if Due(before, last.now, interval, retry) { NextSpaced(before, start, attempts, last, interval, retry); }
    }
  }

  /** In such a run the time of every attempt follows from the attempts before it: the next
      one is due as soon as the interval has passed since every report delivered, and the
      retry interval since the last attempt, if that failed. */
  lemma DueByHistory(start: HealthState, run: seq<Tick>, interval: int, retry: int, now: int)
    requires start.Valid() && interval > 0 && retry > 0 && AllKept(start, run, interval, retry)
    ensures var made := Attempts(start, run, interval, retry);
      Due(After(start, run, interval, retry), now, interval, retry) <==>
      && (start.lastSent != 0 ==> now >= start.lastSent + interval)
      && (forall t <- made :: t.sent ==> now >= t.now + interval)
      && (if made == [] then LastFailed(start) ==> now >= start.lastAttempt + retry
          else !made[|made| - 1].sent ==> now >= made[|made| - 1].now + retry)
  {
    RunSpaced(start, run, interval, retry);
    ReportAttained(start, run, interval, retry);
    if Attempts(start, run, interval, retry) == [] { NothingAttempted(start, run, interval, retry); }
    DueSince(After(start, run, interval, retry), start, Attempts(start, run, interval, retry), interval, retry, now);
  }

  lemma DueSince(current: HealthState, start: HealthState, made: seq<Tick>, interval: int, retry: int, now: int)
    requires start.Valid() && Remembers(current, start, made) && (made == [] ==> current == start)
    requires current.lastSent == start.lastSent || SentAt(made, current.lastSent)
    ensures Due(current, now, interval, retry) <==>
      && (start.lastSent != 0 ==> now >= start.lastSent + interval)
      && (forall t <- made :: t.sent ==> now >= t.now + interval)
      && (if made == [] then LastFailed(start) ==> now >= start.lastAttempt + retry
          else !made[|made| - 1].sent ==> now >= made[|made| - 1].now + retry)
  {
    DueExactly(current, interval, retry);
    if made != [] { SinceEveryReport(current, start, made, now - interval); }
  }

  /** The last report remembered is the latest of all. */
  lemma SinceEveryReport(current: HealthState, start: HealthState, made: seq<Tick>, time: int)
    requires made != [] && Remembers(current, start, made)
    requires current.lastSent == start.lastSent || SentAt(made, current.lastSent)
    ensures (current.lastSent != 0 ==> time >= current.lastSent) <==>
      (start.lastSent != 0 ==> time >= start.lastSent) && forall t <- made :: t.sent ==> time >= t.now
    ensures LastFailed(current) <==> !made[|made| - 1].sent
  {
    assert made[|made| - 1] in made;
  }

  lemma {:induction false} ReportAttained(start: HealthState, run: seq<Tick>, interval: int, retry: int)
    ensures var current := After(start, run, interval, retry);
      current.lastSent == start.lastSent || SentAt(Attempts(start, run, interval, retry), current.lastSent)
  {
    if run != [] {
      var front, last := run[..|run| - 1], run[|run| - 1];
      ReportAttained(start, front, interval, retry);
      SentAtMore(Attempts(start, front, interval, retry), last, After(start, front, interval, retry).lastSent);
    }
  }

  lemma SentAtMore(made: seq<Tick>, t: Tick, time: int)
    ensures SentAt(made, time) ==> SentAt(made + [t], time)
    ensures t.sent ==> SentAt(made + [t], t.now)
    ensures SentAt(made, time) ==> SentAt(made + [], time)
  {
    EmptyFirst(made);
    assert (made + [t])[|made|] == t;
    if SentAt(made, time) {
      var s :| s in made && s.sent && s.now == time;
      assert s in made + [t];
    }
  }

  lemma {:induction false} NothingAttempted(start: HealthState, run: seq<Tick>, interval: int, retry: int)
    requires Attempts(start, run, interval, retry) == []
    ensures After(start, run, interval, retry) == start
  {
    if run != [] { NothingAttempted(start, run[..|run| - 1], interval, retry); }
  }

  lemma NextSpaced(before: HealthState, start: HealthState, attempts: seq<Tick>, t: Tick, interval: int, retry: int)
    requires interval > 0 && retry > 0 && Due(before, t.now, interval, retry) && Kept(before, t)
    requires Spaced(attempts, interval, retry) && Remembers(before, start, attempts)
    ensures Spaced(attempts + [t], interval, retry)
    ensures Remembers(Attempted(before, t.now, t.sent), start, attempts + [t])
  {
    forall i | 0 <= i < |attempts|
      ensures attempts[i].now < t.now && t.now >= attempts[i].now + Pause(attempts[i], interval, retry)
    {
      var last := attempts[|attempts| - 1];
      assert attempts[i] in attempts && last in attempts;
      assert i < |attempts| - 1 ==> attempts[i].now < last.now;
    }
  }

  /** With a clock after the zero time every attempt is kept. */
  lemma {:induction false} PositiveClockKept(start: HealthState, run: seq<Tick>, interval: int, retry: int)
    requires start.Valid() && interval > 0 && retry > 0 && forall t <- run :: t.now > 0
    ensures AllKept(start, run, interval, retry) && After(start, run, interval, retry).Valid()
  {
    if run != [] {
      var front, last := run[..|run| - 1], run[|run| - 1];
      forall t | t in front ensures t.now > 0 { assert t in run; }
      assert last in run;
      PositiveClockKept(start, front, interval, retry);
      PositiveTickKept(After(start, front, interval, retry), last, interval, retry);
    }
  }

  lemma PositiveTickKept(current: HealthState, t: Tick, interval: int, retry: int)
    requires current.Valid() && interval > 0 && retry > 0 && t.now > 0
    ensures Due(current, t.now, interval, retry) ==> Kept(current, t)
    ensures Step(current, t, interval, retry).Valid()
  {
    if Due(current, t.now, interval, retry) { AcceptedExactly(current, t.now, t.sent, interval, retry); }
  }

  /** An attempt that was not kept can be followed at once by another: some next tick
      breaks the spacing, whatever happened before. */
  lemma UnkeptBreaks(start: HealthState, run: seq<Tick>, t: Tick, interval: int, retry: int) returns (next: Tick)
    requires interval > 0 && retry > 0
    requires After(start, run, interval, retry).Valid()
    requires Due(After(start, run, interval, retry), t.now, interval, retry)
    requires !Kept(After(start, run, interval, retry), t)
    ensures !Spaced(Attempts(start, run + [t, next], interval, retry), interval, retry)
  {
    var before := After(start, run, interval, retry);
    AttemptSpaced(before, t, interval, retry);
    var later :|
      Due(Step(before, t, interval, retry), later, interval, retry) && later < t.now + Pause(t, interval, retry);
    next := Tick(later, false);
    var two := run + [t, next];
    assert two[..|two| - 1] == run + [t] && (run + [t])[..|run|] == run;
    var attempts := Attempts(start, run, interval, retry);
    assert Attempts(start, two, interval, retry) == attempts + [t] + [next];
    assert Attempts(start, two, interval, retry)[|attempts|] == t;
    assert Attempts(start, two, interval, retry)[|attempts| + 1] == next;
  }

  /** For instance a failed first attempt at the zero time. */
  lemma ZeroClockForgotten(retry: int)
    requires retry > 1
    ensures Attempts(NEVER, [Tick(0, false), Tick(1, false)], retry, retry) == [Tick(0, false), Tick(1, false)]
    ensures !Spaced(Attempts(NEVER, [Tick(0, false), Tick(1, false)], retry, retry), retry, retry)
  {
    var run := [Tick(0, false), Tick(1, false)];
    assert run[..1] == [Tick(0, false)] && run[..1][..0] == [];
    assert After(NEVER, run[..1], retry, retry) == NEVER;
    assert Attempts(NEVER, run[..1], retry, retry) == [Tick(0, false)];
    assert Attempts(NEVER, run, retry, retry)[0].now + retry > Attempts(NEVER, run, retry, retry)[1].now;
  }

  // ---------- the manager ----------

  datatype Result = NotSent | Sent | SendFailed | StateRejected | SaveFailed(sent: bool)

  /** What a due call returns. */
  ghost function Outcome(current: HealthState, t: Tick, outcome: S.SaveOutcome): Result {
    if !Attempted(current, t.now, t.sent).Valid() then StateRejected
    else if !outcome.Saved? then SaveFailed(t.sent)
    else if t.sent then Sent else SendFailed
  }

  /** No error exactly when the report was sent and its time saved; otherwise the first
      thing that went wrong in storing it, or the failed delivery. */
  lemma OutcomeExactly(current: HealthState, t: Tick, outcome: S.SaveOutcome)
    ensures var r, accepted := Outcome(current, t, outcome), Attempted(current, t.now, t.sent).Valid();
      && !r.NotSent?
      && (r.Sent? <==> accepted && outcome.Saved? && t.sent)
      && (r.SendFailed? <==> accepted && outcome.Saved? && !t.sent)
      && (r.SaveFailed? <==> accepted && !outcome.Saved?) && (r.SaveFailed? ==> r.sent == t.sent)
      && (r.StateRejected? <==> !accepted)
  {
  }

  /** As long as every attempt was kept they are spaced, and the schedule remembers the
      last ones. */
  ghost predicate Minded(kept: bool, health: HealthState, start: HealthState, log: seq<Tick>, interval: int,
                         retry: int) {
    kept ==> Spaced(log, interval, retry) && Remembers(health, start, log)
  }

  lemma MindedMore(kept: bool, health: HealthState, start: HealthState, log: seq<Tick>, t: Tick, interval: int,
                   retry: int)
    requires interval > 0 && retry > 0 && Minded(kept, health, start, log, interval, retry)
    requires Due(health, t.now, interval, retry)
    ensures Minded(kept && Kept(health, t), Step(health, t, interval, retry), start, log + [t], interval, retry)
  {
    if kept && Kept(health, t) { NextSpaced(health, start, log, t, interval, retry); }
  }

  class Manager {
    const enabled: bool
    const interval: int
    const retry: int
    const store: File
    ghost const start: HealthState // the schedule found in the store
    ghost var log: seq<Tick> // attempts, oldest first
    ghost var kept: bool // all of them were kept

    ghost predicate Valid()
      reads this, store`health
    {
      interval > 0 && retry > 0 && Minded(kept, store.health, start, log, interval, retry)
    }

    constructor (enabled: bool, interval: int, retry: int, store: File)
      requires interval > 0 && retry > 0 && store.health.Valid()
      ensures Valid() && this.enabled == enabled && this.interval == interval && this.retry == retry
        && this.store == store
      ensures start == store.health && log == [] && kept
    {
      this.enabled, this.interval, this.retry, this.store := enabled, interval, retry, store;
      start, log, kept := store.health, [], true;
    }

    /** The sender's answer, noted in the log. */
    method SendHealth(now: int) returns (sent: bool)
      modifies this`log
      ensures log == old(log) + [Tick(now, sent)]
    {
      sent := *;
      log := log + [Tick(now, sent)];
    }

    /** Sends when due; records the attempt and saves whatever the sender said. */
    method ReportHealthy(now: int) returns (result: Result, ghost tick: Tick, ghost outcome: S.SaveOutcome)
      requires Valid() && store.Valid()
      modifies this`log, this`kept, store`health, store`disk, store`saves
      ensures Valid() && store.Valid() && tick.now == now
      ensures !enabled || !Due(old(store.health), now, interval, retry) ==>
        && result.NotSent? && log == old(log) && kept == old(kept)
        && store.health == old(store.health) && store.disk == old(store.disk)
      ensures enabled && Due(old(store.health), now, interval, retry) ==>
        && log == old(log) + [tick] && result == Outcome(old(store.health), tick, outcome)
        && (kept <==> old(kept) && Kept(old(store.health), tick))
        && store.health == Step(old(store.health), tick, interval, retry)
        && (result.StateRejected? ==> store.disk == old(store.disk))
        && (!result.StateRejected? ==>
              store.disk == S.DiskAfter(S.Service(store.records, store.health, false, old(store.disk)), outcome))
      ensures now > 0 ==> !result.StateRejected? && kept == old(kept)
    {
      tick, outcome := Tick(now, false), S.Saved;
      if !enabled { return NotSent, tick, outcome; }
      var current := store.health;
      if !Due(current, now, interval, retry) { return NotSent, tick, outcome; }
      ghost var made := log;
      var sent := SendHealth(now);
      tick := Tick(now, sent);
      AcceptedExactly(current, now, sent, interval, retry);
      MindedMore(kept, current, start, made, tick, interval, retry);
      kept := kept && Kept(current, tick);
      current := current.(lastAttempt := now);
      if sent { current := current.(lastSent := now); }
      var rejected := store.SetHealthReport(current);
      if rejected { return StateRejected, tick, outcome; }
      var failed := store.Save();
      outcome := if !failed then S.Saved else if store.disk == old(store.disk) then S.FailedBefore else S.FailedAfter;
      if failed { return SaveFailed(sent), tick, outcome; }
      return if sent then Sent else SendFailed, tick, outcome;
    }
  }
}
