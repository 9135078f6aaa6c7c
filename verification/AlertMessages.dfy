/** What the messages of a reconciliation tell, and what is stored about them. */
module AlertMessages {
  import opened Text
  import opened State
  import opened RuleTypes
  import opened AlertModel
  import opened AlertLaws
  import N = Notification
  import Details

  /** The details text reads back as these fields, if they can be read back at all. */
  predicate TellsDetails(text: string, fields: map<string, string>) {
    Details.Clean(fields) ==> Details.Parsed(text) == fields
  }

  /** An event from this host about this service. */
  predicate FromHere(e: N.Event, cfg: Config, b: N.Batch) {
    && e.hostname == cfg.hostname && e.baseUrl == cfg.baseUrl
    && e.kind == b.kind && e.scope == b.scope && e.timestamp == b.timestamp
  }

  predicate TellsCondition(e: N.Event, c: Condition) {
    && e.key == c.key && e.current == c.current && e.threshold == c.threshold && TellsDetails(e.details, c.details)
    && e.subject == ObjectName(c.summary, c.key)
  }

  predicate TellsRecovery(e: N.Event, r: Record) {
    && e.key == r.key && e.current == "recovered" && e.threshold == r.threshold && TellsDetails(e.details, r.details)
    && e.subject == ObjectName(r.summary, r.key) + " recovered"
  }

  /** An alert message tells the conditions of its group, one event each, in order. */
  ghost predicate TellsAlerts(m: N.Attempt, cfg: Config, scope: string, group: seq<Condition>, reply: Reply) {
    && m.delivered == reply.delivered && m.batch.timestamp == reply.timestamp
    && m.batch.kind.Alert? && m.batch.scope == scope && m.batch.hostname == cfg.hostname
    && |m.batch.events| == |group|
    && forall i :: 0 <= i < |group| ==>
      FromHere(m.batch.events[i], cfg, m.batch) && TellsCondition(m.batch.events[i], group[i])
  }

  ghost predicate TellsRecoveries(m: N.Attempt, cfg: Config, scope: string, group: seq<Record>, reply: Reply) {
    && m.delivered == reply.delivered && m.batch.timestamp == reply.timestamp
    && m.batch.kind.Recovery? && m.batch.scope == scope && m.batch.hostname == cfg.hostname
    && |m.batch.events| == |group|
    && forall i :: 0 <= i < |group| ==>
      FromHere(m.batch.events[i], cfg, m.batch) && TellsRecovery(m.batch.events[i], group[i])
  }

  lemma AlertEventTells(cfg: Config, c: Condition, t: int)
    ensures TellsCondition(AlertEvent(cfg, c, t), c)
    ensures var e := AlertEvent(cfg, c, t);
      && e.kind.Alert? && e.scope == c.scope && e.timestamp == t
      && e.hostname == cfg.hostname && e.baseUrl == cfg.baseUrl
  {
    Details.DetailsRoundTrip(c.details);
  }

  lemma RecoveryEventTells(cfg: Config, r: Record, t: int)
    ensures TellsRecovery(RecoveryEvent(cfg, r, t), r)
    ensures var e := RecoveryEvent(cfg, r, t);
      && e.kind.Recovery? && e.scope == r.scope && e.timestamp == t
      && e.hostname == cfg.hostname && e.baseUrl == cfg.baseUrl
  {
    Details.DetailsRoundTrip(r.details);
  }

  lemma AlertBatchTells(cfg: Config, scope: string, group: seq<Condition>, reply: Reply)
    requires forall c <- group :: c.scope == scope
    ensures TellsAlerts(N.Attempt(AlertBatch(cfg, scope, group, reply.timestamp), reply.delivered), cfg, scope, group,
      reply)
  {
    forall i | 0 <= i < |group| { AlertEventTells(cfg, group[i], reply.timestamp); }
  }

  lemma RecoveryBatchTells(cfg: Config, scope: string, group: seq<Record>, reply: Reply)
    requires forall r <- group :: r.scope == scope
    ensures TellsRecoveries(N.Attempt(RecoveryBatch(cfg, scope, group, reply.timestamp), reply.delivered), cfg, scope,
      group, reply)
  {
    forall i | 0 <= i < |group| { RecoveryEventTells(cfg, group[i], reply.timestamp); }
  }

  /** One message for every group, each telling its group and nothing else. */
  ghost predicate AlertsTold(sent: seq<N.Attempt>, cfg: Config, scope: string, groups: seq<seq<Condition>>,
                             replies: seq<Reply>) {
    |sent| == |groups| == |replies| &&
    forall g :: 0 <= g < |groups| ==> TellsAlerts(sent[g], cfg, scope, groups[g], replies[g])
  }

  ghost predicate RecoveriesTold(sent: seq<N.Attempt>, cfg: Config, scope: string, groups: seq<seq<Record>>,
                                 replies: seq<Reply>) {
    |sent| == |groups| == |replies| &&
    forall g :: 0 <= g < |groups| ==> TellsRecoveries(sent[g], cfg, scope, groups[g], replies[g])
  }

  lemma AllAlertsTold(cfg: Config, scope: string, groups: seq<seq<Condition>>, replies: seq<Reply>)
    requires |groups| == |replies| && forall group <- groups :: forall c <- group :: c.scope == scope
    ensures AlertsTold(AlertAttempts(cfg, scope, groups, replies), cfg, scope, groups, replies)
  {
    var sent := AlertAttempts(cfg, scope, groups, replies);
    forall g | 0 <= g < |groups| ensures TellsAlerts(sent[g], cfg, scope, groups[g], replies[g]) {
      assert groups[g] in groups;
      AlertBatchTells(cfg, scope, groups[g], replies[g]);
    }
  }

  lemma AllRecoveriesTold(cfg: Config, scope: string, groups: seq<seq<Record>>, replies: seq<Reply>)
    requires |groups| == |replies| && forall group <- groups :: forall r <- group :: r.scope == scope
    ensures RecoveriesTold(RecoveryAttempts(cfg, scope, groups, replies), cfg, scope, groups, replies)
  {
    var sent := RecoveryAttempts(cfg, scope, groups, replies);
    forall g | 0 <= g < |groups| ensures TellsRecoveries(sent[g], cfg, scope, groups[g], replies[g]) {
      assert groups[g] in groups;
      RecoveryBatchTells(cfg, scope, groups[g], replies[g]);
    }
  }

  /** The messages of a reconciliation: first those about the new conditions, then, if
      recoveries are announced, those about the recovered records. */
  lemma MessagesTell(cfg: Config, records: Records, batch: Batch, a: Answers)
    requires Proper(cfg, records, batch, a)
    ensures var sent, n := Attempts(cfg, records, batch, a), |a.alerts|;
      && n <= |sent| && (!cfg.sendRecovery ==> |sent| == n)
      && AlertsTold(sent[..n], cfg, batch.scope, Groups(batch.scope, NewConditions(records, batch)), a.alerts)
      && (cfg.sendRecovery ==>
            RecoveriesTold(sent[n..], cfg, batch.scope, Groups(batch.scope, Recovered(records, batch)), a.recoveries))
  {
    var added := Groups(batch.scope, NewConditions(records, batch));
    var gone := Groups(batch.scope, Recovered(records, batch));
    var alerts, recoveries := AlertAttempts(cfg, batch.scope, added, a.alerts),
      RecoveryAttempts(cfg, batch.scope, gone, a.recoveries);
    AddedGroups(cfg, records, batch);
    GoneGroups(records, batch);
    AllAlertsTold(cfg, batch.scope, added, a.alerts);
    AllRecoveriesTold(cfg, batch.scope, gone, a.recoveries);
    HeadTail(alerts, if cfg.sendRecovery then recoveries else []);
  }

  lemma AddedGroups(cfg: Config, records: Records, batch: Batch)
    requires ValidInput(cfg, batch)
    ensures forall group <- Groups(batch.scope, NewConditions(records, batch)) :: forall c <- group ::
      c.scope == batch.scope
  {
    NewFacts(cfg, records, batch);
    GroupItems(batch.scope, NewConditions(records, batch));
  }

  lemma GoneGroups(records: Records, batch: Batch)
    requires ValidRecords(records)
    ensures forall group <- Groups(batch.scope, Recovered(records, batch)) :: forall r <- group ::
      r.scope == batch.scope
  {
    GoneFacts(records, batch);
    GroupItems(batch.scope, Recovered(records, batch));
  }

  lemma GroupItems<T>(scope: string, items: seq<T>)
    ensures forall group <- Groups(scope, items) :: forall x <- group :: x in items
  {
  }

  /** What is stored about a condition: all it tells, and when the message went out. */
  predicate Remembers(r: Record, c: Condition, t: int) {
    && r.key == c.key && r.scope == c.scope && r.summary == c.summary && r.current == c.current
    && r.threshold == c.threshold && r.details == c.details && r.activatedAt == t
  }

  /** A condition that was new is stored exactly when its message was delivered, as it
      was told and with the time of that message. */
  lemma StoredAsTold(cfg: Config, records: Records, batch: Batch, a: Answers, i: nat)
    requires Proper(cfg, records, batch, a) && i < |NewConditions(records, batch)|
    requires NewConditions(records, batch)[i].key !in records
    ensures var c, after, g := NewConditions(records, batch)[i], Reconciled(cfg, records, batch, a),
      GroupOf(batch.scope, i);
      && g < |Groups(batch.scope, NewConditions(records, batch))|
      && c in Groups(batch.scope, NewConditions(records, batch))[g]
      && (c.key in after <==> Attempts(cfg, records, batch, a)[g].delivered)
      && (c.key in after ==> Remembers(after[c.key], c, Attempts(cfg, records, batch, a)[g].batch.timestamp))
  {
    ReconciledNew(cfg, records, batch, a, i);
    MessagesTell(cfg, records, batch, a);
    ItsGroup(batch.scope, NewConditions(records, batch), i);
  }

  lemma ItsGroup<T>(scope: string, items: seq<T>, i: nat)
    requires i < |items| && GroupOf(scope, i) < |Groups(scope, items)|
    ensures items[i] in Groups(scope, items)[GroupOf(scope, i)]
  {
    if scope == SCOPE_AUTH { assert items[i..i + 1][0] == items[i]; }
  }
}
