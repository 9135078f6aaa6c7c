/** Laws of one reconciliation. */
module AlertLaws {
  import opened Text
  import opened State
  import opened RuleTypes
  import opened AlertModel
  import N = Notification

  /** The new conditions: from the batch, valid, not active in its scope, distinct. */
  lemma NewFacts(cfg: Config, records: Records, batch: Batch)
    requires ValidInput(cfg, batch)
    ensures var items := NewConditions(records, batch);
      && Enumerates(ConditionKey, items, NewByKey(records, batch))
      && (forall c <- items :: c in batch.conditions && !Blank(c.key) && c.key != "" && c.scope == batch.scope
                               && c.key !in InScope(records, batch.scope))
  {
    ByKeyEnumerates(batch.conditions);
    ValuesInOrderMembers(ConditionKey, NewByKey(records, batch));
  }

  /** The recovered records: active in the scope, no longer reported, distinct. */
  lemma GoneFacts(records: Records, batch: Batch)
    requires ValidRecords(records)
    ensures var items := Recovered(records, batch);
      && Enumerates(KeyOf, items, GoneByKey(records, batch))
      && (forall r <- items :: batch.complete && r.key in records && records[r.key] == r && r.scope == batch.scope
                               && r.key !in ByKey(batch.conditions))
  {
    ValuesInOrderMembers(KeyOf, GoneByKey(records, batch));
  }

  ghost predicate Proper(cfg: Config, records: Records, batch: Batch, a: Answers) {
    ValidRecords(records) && ValidInput(cfg, batch) && Answered(cfg, records, batch, a)
  }

  /** A new condition is stored exactly when its group was delivered. */
  lemma ReconciledNew(cfg: Config, records: Records, batch: Batch, a: Answers, i: nat)
    requires Proper(cfg, records, batch, a) && i < |NewConditions(records, batch)|
    ensures GroupOf(batch.scope, i) < |a.alerts|
    ensures var c, reply, after := NewConditions(records, batch)[i], a.alerts[GroupOf(batch.scope, i)],
      Reconciled(cfg, records, batch, a);
      if reply.delivered then c.key in after && after[c.key] == RecordFrom(c, reply.timestamp)
      else (c.key in after <==> c.key in records) && (c.key in after ==> after[c.key] == records[c.key])
  {
    var items, gone := NewConditions(records, batch), Recovered(records, batch);
    GroupSlice(batch.scope, items, |a.alerts|);
    GroupSlice(batch.scope, gone, |a.recoveries|);
    NewFacts(cfg, records, batch);
    GoneFacts(records, batch);
    var k := items[i].key;
    assert items[i] in items;
    ActivateItem(records, items, batch.scope, a.alerts, i);
    NotRecovered(records, batch, k);
    RetireAt(Activate(records, items, batch.scope, a.alerts, |items|), gone, batch.scope, a.recoveries, |gone|, k);
  }

  lemma NotRecovered(records: Records, batch: Batch, k: string)
    requires ValidRecords(records) && k !in GoneByKey(records, batch)
    ensures forall j: nat :: j < |Recovered(records, batch)| ==> Recovered(records, batch)[j].key != k
  {
    GoneFacts(records, batch);
    var gone := Recovered(records, batch);
    forall j: nat | j < |gone| ensures gone[j].key != k { assert gone[j] in gone; }
  }

  lemma NotNew(cfg: Config, records: Records, batch: Batch, k: string)
    requires ValidInput(cfg, batch) && k !in NewByKey(records, batch)
    ensures forall j: nat :: j < |NewConditions(records, batch)| ==> NewConditions(records, batch)[j].key != k
  {
    NewFacts(cfg, records, batch);
    var items := NewConditions(records, batch);
    forall j: nat | j < |items| ensures items[j].key != k { assert items[j] in items; }
  }

  /** A recovered record is removed exactly when its group was delivered. */
  lemma ReconciledGone(cfg: Config, records: Records, batch: Batch, a: Answers, i: nat)
    requires Proper(cfg, records, batch, a) && i < |Recovered(records, batch)|
    ensures GroupOf(batch.scope, i) < |a.recoveries|
    ensures var r, after := Recovered(records, batch)[i], Reconciled(cfg, records, batch, a);
      if a.recoveries[GroupOf(batch.scope, i)].delivered then r.key !in after
      else r.key in after && after[r.key] == r
  {
    var items, gone := NewConditions(records, batch), Recovered(records, batch);
    GroupSlice(batch.scope, items, |a.alerts|);
    GroupSlice(batch.scope, gone, |a.recoveries|);
    GoneFacts(records, batch);
    var k := gone[i].key;
    assert gone[i] in gone;
    NotNew(cfg, records, batch, k);
    NewFacts(cfg, records, batch);
    ActivateAt(records, items, batch.scope, a.alerts, |items|, k);
    RetireItem(Activate(records, items, batch.scope, a.alerts, |items|), gone, batch.scope, a.recoveries, i);
  }

  /** Every other key is left alone. */
  lemma ReconciledOther(cfg: Config, records: Records, batch: Batch, a: Answers, k: string)
    requires Proper(cfg, records, batch, a)
    requires k !in NewByKey(records, batch) && k !in GoneByKey(records, batch)
    ensures var after := Reconciled(cfg, records, batch, a);
      (k in after <==> k in records) && (k in after ==> after[k] == records[k])
  {
    var items, gone := NewConditions(records, batch), Recovered(records, batch);
    GroupSlice(batch.scope, items, |a.alerts|);
    GroupSlice(batch.scope, gone, |a.recoveries|);
    NotNew(cfg, records, batch, k);
    NotRecovered(records, batch, k);
    NewFacts(cfg, records, batch);
    ActivateAt(records, items, batch.scope, a.alerts, |items|, k);
    RetireAt(Activate(records, items, batch.scope, a.alerts, |items|), gone, batch.scope, a.recoveries, |gone|, k);
  }

  lemma NewPosition(cfg: Config, records: Records, batch: Batch, k: string) returns (i: nat)
    requires ValidInput(cfg, batch) && k in NewByKey(records, batch)
    ensures i < |NewConditions(records, batch)| && NewConditions(records, batch)[i] == NewByKey(records, batch)[k]
    ensures NewByKey(records, batch)[k].key == k
  {
    ByKeyEnumerates(batch.conditions);
    NewFacts(cfg, records, batch);
    assert NewByKey(records, batch)[k] in NewConditions(records, batch);
    i :| i < |NewConditions(records, batch)| && NewConditions(records, batch)[i] == NewByKey(records, batch)[k];
  }

  lemma GonePosition(records: Records, batch: Batch, k: string) returns (i: nat)
    requires ValidRecords(records) && k in GoneByKey(records, batch)
    ensures i < |Recovered(records, batch)| && Recovered(records, batch)[i] == records[k]
  {
    GoneFacts(records, batch);
    assert records[k] in Recovered(records, batch);
    i :| i < |Recovered(records, batch)| && Recovered(records, batch)[i] == records[k];
  }

  // ---------- main laws ----------

  lemma ReconciledValid(cfg: Config, records: Records, batch: Batch, a: Answers)
    requires Proper(cfg, records, batch, a)
    ensures ValidRecords(Reconciled(cfg, records, batch, a))
  {
    var after := Reconciled(cfg, records, batch, a);
    forall k | k in after ensures after[k].key == k && ValidRecord(after[k]) {
      if k in NewByKey(records, batch) {
        var i := NewPosition(cfg, records, batch, k);
        ReconciledNew(cfg, records, batch, a, i);
        NewFacts(cfg, records, batch);
        assert NewConditions(records, batch)[i] in NewConditions(records, batch);
      } else if k in GoneByKey(records, batch) {
        var i := GonePosition(records, batch, k);
        ReconciledGone(cfg, records, batch, a, i);
      } else {
        ReconciledOther(cfg, records, batch, a, k);
      }
    }
  }

  /** The outcome when everything is delivered: a complete batch leaves exactly
      its own keys active in the scope, an incomplete one the union. */
  lemma DeliveredOutcome(cfg: Config, records: Records, batch: Batch, a: Answers)
    requires Proper(cfg, records, batch, a) && AllDelivered(a)
    ensures var after := Reconciled(cfg, records, batch, a);
      forall k :: k in InScope(after, batch.scope) <==>
        k in ByKey(batch.conditions) || (!batch.complete && k in InScope(records, batch.scope))
  {
    var after := Reconciled(cfg, records, batch, a);
    forall k ensures k in InScope(after, batch.scope) <==>
        k in ByKey(batch.conditions) || (!batch.complete && k in InScope(records, batch.scope))
    {
      if k in NewByKey(records, batch) {
        var i := NewPosition(cfg, records, batch, k);
        ReconciledNew(cfg, records, batch, a, i);
        NewFacts(cfg, records, batch);
        assert NewConditions(records, batch)[i] in NewConditions(records, batch);
      } else if k in GoneByKey(records, batch) {
        var i := GonePosition(records, batch, k);
        ReconciledGone(cfg, records, batch, a, i);
      } else {
        ReconciledOther(cfg, records, batch, a, k);
      }
    }
  }

  /** Whatever was delivered: a record of another scope is never added, and one
      is lost only to a new alert under the same key; an active record that stays
      is the record it was, with its activation time. */
  lemma Confined(cfg: Config, records: Records, batch: Batch, a: Answers, k: string)
    requires Proper(cfg, records, batch, a)
    ensures var after := Reconciled(cfg, records, batch, a);
      && (k in after && after[k].scope != batch.scope ==> k in records && after[k] == records[k])
      && (k in records && records[k].scope != batch.scope && k !in ByKey(batch.conditions) ==>
        k in after && after[k] == records[k])
      && (k in InScope(records, batch.scope) && k in after ==> after[k] == records[k])
  {
    if k in NewByKey(records, batch) {
      var i := NewPosition(cfg, records, batch, k);
      ReconciledNew(cfg, records, batch, a, i);
      NewFacts(cfg, records, batch);
      assert NewConditions(records, batch)[i] in NewConditions(records, batch);
    } else if k in GoneByKey(records, batch) {
      var i := GonePosition(records, batch, k);
      ReconciledGone(cfg, records, batch, a, i);
    } else {
      ReconciledOther(cfg, records, batch, a, k);
    }
  }

  /** No false recovery: an active key disappears only when a complete batch
      no longer reports it. */
  lemma RemovedOnlyIfGone(cfg: Config, records: Records, batch: Batch, a: Answers, k: string)
    requires Proper(cfg, records, batch, a)
    requires k in records && k !in Reconciled(cfg, records, batch, a)
    ensures batch.complete && k !in ByKey(batch.conditions) && records[k].scope == batch.scope
  {
    if k in NewByKey(records, batch) {
      var i := NewPosition(cfg, records, batch, k);
      ReconciledNew(cfg, records, batch, a, i);
    } else if k !in GoneByKey(records, batch) {
      ReconciledOther(cfg, records, batch, a, k);
    }
  }

  lemma AnsweredGroup(scope: string, n: nat, g: nat, replies: seq<Reply>)
    requires g < |replies|
    requires scope == SCOPE_AUTH ==> |replies| == n
    requires scope != SCOPE_AUTH ==> |replies| <= 1 && n > 0
    ensures exists i: nat :: i < n && GroupOf(scope, i) == g
  {
    var i := if scope == SCOPE_AUTH then g else 0;
    assert GroupOf(scope, i) == g;
  }

  ghost predicate SomeDelivered(a: Answers) {
    (exists r :: r in a.alerts && r.delivered) || (exists r :: r in a.recoveries && r.delivered)
  }

  lemma DeliveredAlertShows(cfg: Config, records: Records, batch: Batch, a: Answers, g: nat)
    requires Proper(cfg, records, batch, a) && g < |a.alerts| && a.alerts[g].delivered
    ensures Reconciled(cfg, records, batch, a) != records
  {
    var items := NewConditions(records, batch);
    AnsweredGroup(batch.scope, |items|, g, a.alerts);
    var i: nat :| i < |items| && GroupOf(batch.scope, i) == g;
    ReconciledNew(cfg, records, batch, a, i);
    NewFacts(cfg, records, batch);
    assert items[i] in items;
    assert items[i].key in InScope(Reconciled(cfg, records, batch, a), batch.scope);
  }

  lemma DeliveredRecoveryShows(cfg: Config, records: Records, batch: Batch, a: Answers, g: nat)
    requires Proper(cfg, records, batch, a) && g < |a.recoveries| && a.recoveries[g].delivered
    ensures Reconciled(cfg, records, batch, a) != records
  {
    var gone := Recovered(records, batch);
    AnsweredGroup(batch.scope, |gone|, g, a.recoveries);
    var i: nat :| i < |gone| && GroupOf(batch.scope, i) == g;
    ReconciledGone(cfg, records, batch, a, i);
    GoneFacts(records, batch);
    assert gone[i] in gone;
  }

  lemma RefusedChangesNothing(cfg: Config, records: Records, batch: Batch, a: Answers)
    requires Proper(cfg, records, batch, a) && !SomeDelivered(a)
    ensures Reconciled(cfg, records, batch, a) == records
  {
    var items, gone := NewConditions(records, batch), Recovered(records, batch);
    GroupSlice(batch.scope, items, |a.alerts|);
    GroupSlice(batch.scope, gone, |a.recoveries|);
    ActivateRefused(records, items, batch.scope, a.alerts, 0, |items|);
    RetireRefused(records, gone, batch.scope, a.recoveries, 0, |gone|);
  }

  /** The records change exactly when something was delivered. */
  lemma ChangedIffDelivered(cfg: Config, records: Records, batch: Batch, a: Answers)
    requires Proper(cfg, records, batch, a)
    ensures Reconciled(cfg, records, batch, a) != records <==> SomeDelivered(a)
  {
    if SomeDelivered(a) {
      DeliveredShows(cfg, records, batch, a);
    } else {
      RefusedChangesNothing(cfg, records, batch, a);
    }
  }

  lemma DeliveredShows(cfg: Config, records: Records, batch: Batch, a: Answers)
    requires Proper(cfg, records, batch, a) && SomeDelivered(a)
    ensures Reconciled(cfg, records, batch, a) != records
  {
    if r :| r in a.alerts && r.delivered {
      var g :| 0 <= g < |a.alerts| && a.alerts[g] == r;
      DeliveredAlertShows(cfg, records, batch, a, g);
    } else {
      var r :| r in a.recoveries && r.delivered;
      var g :| 0 <= g < |a.recoveries| && a.recoveries[g] == r;
      DeliveredRecoveryShows(cfg, records, batch, a, g);
    }
  }

  /** Repeating a delivered batch sends nothing and changes nothing. */
  lemma RepeatIsSilent(cfg: Config, records: Records, batch: Batch, a: Answers, again: Answers)
    requires Proper(cfg, records, batch, a) && AllDelivered(a)
    requires Answered(cfg, Reconciled(cfg, records, batch, a), batch, again)
    ensures var after := Reconciled(cfg, records, batch, a);
      Attempts(cfg, after, batch, again) == [] && Reconciled(cfg, after, batch, again) == after
  {
    var after := Reconciled(cfg, records, batch, a);
    ReconciledValid(cfg, records, batch, a);
    DeliveredOutcome(cfg, records, batch, a);
    NothingToDo(after, batch);
    NothingDone(cfg, after, batch, again);
  }

  /** Nothing is new and nothing is gone once the scope holds what the batch says. */
  lemma NothingToDo(records: Records, batch: Batch)
    requires forall k <- ByKey(batch.conditions) :: k in InScope(records, batch.scope)
    requires batch.complete ==> forall k <- InScope(records, batch.scope) :: k in ByKey(batch.conditions)
    ensures NewByKey(records, batch) == map[] && GoneByKey(records, batch) == map[]
  {
  }

  lemma NothingDone(cfg: Config, records: Records, batch: Batch, a: Answers)
    requires NewByKey(records, batch) == map[] && GoneByKey(records, batch) == map[]
    requires Answered(cfg, records, batch, a)
    ensures Attempts(cfg, records, batch, a) == [] && Reconciled(cfg, records, batch, a) == records
  {
    assert NewConditions(records, batch) == [] && Recovered(records, batch) == [];
  }

  lemma SameMembers(xs: seq<Condition>, ys: seq<Condition>)
    requires multiset(xs) == multiset(ys)
    ensures forall c :: c in xs <==> c in ys
  {
    forall c ensures c in xs <==> c in ys { assert c in multiset(xs) <==> c in multiset(ys); }
  }

  lemma SameByKey(xs: seq<Condition>, ys: seq<Condition>)
    requires Distinct(Keys(ConditionKey, xs)) && Distinct(Keys(ConditionKey, ys))
    requires forall c :: c in xs <==> c in ys
    ensures ByKey(xs) == ByKey(ys)
  {
    ByKeyEnumerates(xs);
    ByKeyEnumerates(ys);
    forall k ensures k in ByKey(xs) <==> k in ByKey(ys) {
      if k in ByKey(xs) { assert ByKey(xs)[k] in xs; }
      if k in ByKey(ys) { assert ByKey(ys)[k] in ys; }
    }
    forall k | k in ByKey(ys) ensures ByKey(xs)[k] == ByKey(ys)[k] { assert ByKey(ys)[k] in xs; }
  }

  /** The order in which a batch lists its conditions does not matter. */
  lemma OrderIrrelevant(cfg: Config, records: Records, batch: Batch, other: Batch, a: Answers)
    requires Proper(cfg, records, batch, a)
    requires other == batch.(conditions := other.conditions) && multiset(other.conditions) == multiset(batch.conditions)
    ensures ValidInput(cfg, other) && Answered(cfg, records, other, a)
    ensures Reconciled(cfg, records, other, a) == Reconciled(cfg, records, batch, a)
    ensures Attempts(cfg, records, other, a) == Attempts(cfg, records, batch, a)
  {
    DistinctPermuted(ConditionKey, batch.conditions, other.conditions);
    SameMembers(other.conditions, batch.conditions);
    SameByKey(other.conditions, batch.conditions);
    assert NewByKey(records, other) == NewByKey(records, batch);
    assert GoneByKey(records, other) == GoneByKey(records, batch);
  }

  // ---------- messages ----------

  /** Every batch handed to the sender meets the contract of ValidateBatch, for
      every clock reading but the zero time. */
  lemma AlertBatchValid(cfg: Config, records: Records, batch: Batch, g: nat, t: int)
    requires ValidInput(cfg, batch) && g < |Groups(batch.scope, NewConditions(records, batch))|
    ensures N.ValidBatch(AlertBatch(cfg, batch.scope, Groups(batch.scope, NewConditions(records, batch))[g], t))
      <==> t != 0
  {
    var items := NewConditions(records, batch);
    NewFacts(cfg, records, batch);
    GroupSlice(batch.scope, items, g);
    GroupNotEmpty(batch.scope, items, g);
    var group := Groups(batch.scope, items)[g];
    DistinctSlice(ConditionKey, items, DoneAfter(batch.scope, items, g), DoneAfter(batch.scope, items, g + 1));
    AlertEventsValid(cfg, batch.scope, group, t);
  }

  lemma AlertEventsValid(cfg: Config, scope: string, group: seq<Condition>, t: int)
    requires !Blank(scope) && !Blank(cfg.hostname) && group != []
    requires forall c <- group :: !Blank(c.key) && c.scope == scope
    requires Distinct(Keys(ConditionKey, group))
    ensures N.ValidBatch(AlertBatch(cfg, scope, group, t)) <==> t != 0
  {
    var b := AlertBatch(cfg, scope, group, t);
    forall i | 0 <= i < |group| ensures Keys(N.EventKey, b.events)[i] == Keys(ConditionKey, group)[i] {
      assert N.EventKey(b.events[i]) == ConditionKey(group[i]);
    }
    assert Keys(N.EventKey, b.events) == Keys(ConditionKey, group);
    forall e | e in b.events ensures e.scope == scope && !Blank(e.key) && e.kind == b.kind && e.timestamp == t
      && e.hostname == b.hostname {
      var i :| 0 <= i < |group| && e == b.events[i];
      assert group[i] in group;
    }
  }

  lemma GroupNotEmpty<T>(scope: string, items: seq<T>, g: nat)
    requires g < |Groups(scope, items)|
    ensures Groups(scope, items)[g] != [] && forall x <- Groups(scope, items)[g] :: x in items
  {
  }

  /** A recovery batch passes too, unless one of its keys is blank: the state file may
      hold such a record, which no transport lets go. */
  lemma RecoveryBatchValid(cfg: Config, records: Records, batch: Batch, g: nat, t: int)
    requires ValidInput(cfg, batch) && ValidRecords(records)
    requires g < |Groups(batch.scope, Recovered(records, batch))|
    ensures var group := Groups(batch.scope, Recovered(records, batch))[g];
      N.ValidBatch(RecoveryBatch(cfg, batch.scope, group, t)) <==> t != 0 && forall r <- group :: !Blank(r.key)
  {
    var items := Recovered(records, batch);
    GoneFacts(records, batch);
    GroupSlice(batch.scope, items, g);
    GroupNotEmpty(batch.scope, items, g);
    var group := Groups(batch.scope, items)[g];
    DistinctSlice(KeyOf, items, DoneAfter(batch.scope, items, g), DoneAfter(batch.scope, items, g + 1));
    if r :| r in group && Blank(r.key) {
      RecoveryEventsBlank(cfg, batch.scope, group, t, r);
    } else {
      RecoveryEventsValid(cfg, batch.scope, group, t);
    }
  }

  lemma RecoveryEventsBlank(cfg: Config, scope: string, group: seq<Record>, t: int, r: Record)
    requires r in group && Blank(r.key)
    ensures !N.ValidBatch(RecoveryBatch(cfg, scope, group, t))
  {
    var i :| 0 <= i < |group| && r == group[i];
    var e := RecoveryBatch(cfg, scope, group, t).events[i];
    assert e in RecoveryBatch(cfg, scope, group, t).events && e.key == r.key;
  }

  lemma RecoveryEventsValid(cfg: Config, scope: string, group: seq<Record>, t: int)
    requires !Blank(scope) && !Blank(cfg.hostname) && group != []
    requires forall r <- group :: !Blank(r.key) && r.scope == scope
    requires Distinct(Keys(KeyOf, group))
    ensures N.ValidBatch(RecoveryBatch(cfg, scope, group, t)) <==> t != 0
  {
    var b := RecoveryBatch(cfg, scope, group, t);
    forall i | 0 <= i < |group| ensures Keys(N.EventKey, b.events)[i] == Keys(KeyOf, group)[i] {
      assert N.EventKey(b.events[i]) == KeyOf(group[i]);
    }
    assert Keys(N.EventKey, b.events) == Keys(KeyOf, group);
    forall e | e in b.events
      ensures e.scope == scope && !Blank(e.key) && e.kind == b.kind && e.timestamp == t && e.hostname == b.hostname
    {
      var i :| 0 <= i < |group| && e == b.events[i];
      assert group[i] in group;
    }
  }

  /** Records put by the manager have keys that are not blank. */
  ghost predicate NoBlankKeys(records: Records) { forall k <- records :: !Blank(k) }

  lemma NoBlankKeysKept(cfg: Config, records: Records, batch: Batch, a: Answers)
    requires Proper(cfg, records, batch, a) && NoBlankKeys(records)
    ensures NoBlankKeys(Reconciled(cfg, records, batch, a))
  {
    var after := Reconciled(cfg, records, batch, a);
    forall k | k in after ensures !Blank(k) {
      if k in NewByKey(records, batch) {
        var i := NewPosition(cfg, records, batch, k);
        NewFacts(cfg, records, batch);
        assert NewConditions(records, batch)[i] in NewConditions(records, batch);
      } else if k !in GoneByKey(records, batch) {
        ReconciledOther(cfg, records, batch, a, k);
      }
    }
  }

  lemma AlertAttemptsValid(cfg: Config, records: Records, batch: Batch, replies: seq<Reply>)
    requires ValidInput(cfg, batch) && |replies| <= |Groups(batch.scope, NewConditions(records, batch))|
    ensures forall m <- AlertAttempts(cfg, batch.scope, Groups(batch.scope, NewConditions(records, batch)), replies) ::
      N.ValidBatch(m.batch) <==> m.batch.timestamp != 0
  {
    var made := AlertAttempts(cfg, batch.scope, Groups(batch.scope, NewConditions(records, batch)), replies);
    forall m | m in made ensures N.ValidBatch(m.batch) <==> m.batch.timestamp != 0 {
      var g: nat :| g < |made| && made[g] == m;
      AlertBatchValid(cfg, records, batch, g, replies[g].timestamp);
    }
  }

  lemma RecoveryAttemptsValid(cfg: Config, records: Records, batch: Batch, replies: seq<Reply>)
    requires ValidInput(cfg, batch) && ValidRecords(records) && NoBlankKeys(records)
    requires |replies| <= |Groups(batch.scope, Recovered(records, batch))|
    ensures forall m <- RecoveryAttempts(cfg, batch.scope, Groups(batch.scope, Recovered(records, batch)), replies) ::
      N.ValidBatch(m.batch) <==> m.batch.timestamp != 0
  {
    var made := RecoveryAttempts(cfg, batch.scope, Groups(batch.scope, Recovered(records, batch)), replies);
    forall m | m in made ensures N.ValidBatch(m.batch) <==> m.batch.timestamp != 0 {
      var g: nat :| g < |made| && made[g] == m;
      RecoveryBatchValid(cfg, records, batch, g, replies[g].timestamp);
      RecoveredKeys(records, batch, g);
    }
  }

  lemma RecoveredKeys(records: Records, batch: Batch, g: nat)
    requires ValidRecords(records) && NoBlankKeys(records) && g < |Groups(batch.scope, Recovered(records, batch))|
    ensures forall r <- Groups(batch.scope, Recovered(records, batch))[g] :: !Blank(r.key)
  {
    GoneFacts(records, batch);
    GroupNotEmpty(batch.scope, Recovered(records, batch), g);
  }

  /** From a store without blank keys, every message of a reconciliation passes
      ValidateBatch exactly when its time is not the zero time. */
  lemma AttemptsValid(cfg: Config, records: Records, batch: Batch, a: Answers)
    requires Proper(cfg, records, batch, a) && NoBlankKeys(records)
    ensures forall m <- Attempts(cfg, records, batch, a) :: N.ValidBatch(m.batch) <==> m.batch.timestamp != 0
  {
    AlertAttemptsValid(cfg, records, batch, a.alerts);
    RecoveryAttemptsValid(cfg, records, batch, a.recoveries);
  }
}
