/** The alert manager (internal/alerter/manager.go): one reconciliation sends,
    updates the store and saves it. */
module Alerter {
  import opened Text
  import opened State
  import opened RuleTypes
  import opened AlertModel
  import opened AlertLaws
  import S = AlertService
  import N = Notification
  import Details

  datatype Invalid = HostnameRequired | BaseUrlRequired | ScopeRequired | KeyRequired(position: nat)
                   | ScopeMismatch(key: string) | DuplicateCondition(key: string)

  datatype Failed = Rejected(reason: Invalid) | Cancelled | AlertNotSent(keys: seq<string>)
                  | RecoveryNotSent(keys: seq<string>) | NotActivated(key: string) | NotSaved

  class Manager {
    const config: Config
    const router: N.Router
    const store: File
    var dirty: bool

    ghost predicate Valid()
      reads this, router, store
    {
      router.Valid() && store.Valid()
    }

    /** The state as the transition system of AlertService sees it. */
    ghost function Now(): S.Service
      reads this, store
    {
      S.Service(store.records, store.health, dirty, store.disk)
    }

    constructor (config: Config, router: N.Router, store: File)
      requires router.Valid() && store.Valid()
      ensures Valid() && !dirty && this.config == config && this.router == router && this.store == store
    {
      this.config, this.router, this.store := config, router, store;
      dirty := false;
    }

    method Validate(batch: Batch) returns (reason: Option<Invalid>)
      ensures reason.None? <==> ValidInput(config, batch)
      ensures reason.Some? ==> Blames(reason.value, config, batch)
    {
      if Blank(config.hostname) { return Some(HostnameRequired); }
      if Blank(config.baseUrl) { return Some(BaseUrlRequired); }
      if Blank(batch.scope) { return Some(ScopeRequired); }
      var seen: set<string> := {};
      var i := 0;
      while i < |batch.conditions|
        invariant 0 <= i <= |batch.conditions| && Checked(batch.conditions[..i], batch.scope, seen)
      {
        reason := Inspect(batch, i, seen);
        if reason.Some? { return; }
        seen := seen + {batch.conditions[i].key};
        i := i + 1;
      }
      assert batch.conditions[..i] == batch.conditions;
      return None;
    }

    /** One turn of that loop: a blank key, another scope or a key seen before. */
    method Inspect(batch: Batch, i: nat, seen: set<string>) returns (reason: Option<Invalid>)
      requires i < |batch.conditions| && Checked(batch.conditions[..i], batch.scope, seen)
      requires !Blank(config.hostname) && !Blank(config.baseUrl) && !Blank(batch.scope)
      ensures reason.None? ==> Checked(batch.conditions[..i + 1], batch.scope, seen + {batch.conditions[i].key})
      ensures reason.Some? ==> !ValidInput(config, batch) && Blames(reason.value, config, batch)
    {
      var condition := batch.conditions[i];
      CheckedMore(batch.conditions, i, batch.scope, seen);
      BlamesFirst(config, batch, i, seen);
      if Blank(condition.key) { return Some(KeyRequired(i + 1)); }
      if condition.scope != batch.scope { return Some(ScopeMismatch(condition.key)); }
      if condition.key in seen {
        NotDistinctFront(ConditionKey, batch.conditions, i + 1);
        return Some(DuplicateCondition(condition.key));
      }
      return None;
    }

    /** The new conditions and the recovered records, each in key order, whatever
        order the maps are ranged over. */
    method Compare(batch: Batch) returns (added: seq<Condition>, recovered: seq<Record>)
      requires store.Valid() && ValidInput(config, batch)
      ensures added == NewConditions(store.records, batch)
      ensures recovered == Recovered(store.records, batch)
    {
      var conditions := ConditionsByKey(batch.conditions);
      ByKeyEnumerates(batch.conditions);
      var active := store.ByScope(batch.scope);
      var activeByKey := Index(active, InScope(store.records, batch.scope));
      added := CollectNew(conditions, activeByKey, NewByKey(store.records, batch));
      GoneAmongActive(store.records, batch);
      recovered := CollectGone(conditions, activeByKey, batch.complete, GoneByKey(store.records, batch));
    }

    method ConditionsByKey(list: seq<Condition>) returns (conditions: map<string, Condition>)
      ensures conditions == ByKey(list)
    {
      conditions := map[];
      for i := 0 to |list|
        invariant conditions == ByKey(list[..i])
      {
        assert list[..i + 1][..i] == list[..i];
        conditions := conditions[list[i].key := list[i]];
      }
      assert list[..|list|] == list;
    }

    method Index(active: seq<Record>, ghost want: Records) returns (m: Records)
      requires ValidRecords(want) && active == ValuesInOrder(want)
      ensures m == want
    {
      m := map[];
      for i := 0 to |active|
        invariant m == Indexed(active[..i])
      {
        IndexedMore(active, i);
        m := m[active[i].key := active[i]];
      }
      assert active[..|active|] == active;
      IndexedAll(active, want);
    }

    method CollectNew(conditions: map<string, Condition>, activeByKey: Records, ghost want: map<string, Condition>)
      returns (added: seq<Condition>)
      requires KeyedBy(ConditionKey, conditions)
      requires want == map k | k in conditions && k !in activeByKey :: conditions[k]
      ensures added == ValuesInOrder(want)
    {
      added := [];
      var pending := conditions.Keys;
      VisitNone(ConditionKey, want, pending);
      while pending != {}
        invariant pending <= conditions.Keys
        invariant Visited(ConditionKey, added, want, pending)
        decreases pending
      {
        var key :| key in pending;
        if key in activeByKey {
          VisitSkip(ConditionKey, added, want, pending, key);
        } else {
          VisitTake(ConditionKey, added, want, pending, key);
          added := added + [conditions[key]];
        }
        pending := pending - {key};
      }
      VisitedAll(ConditionKey, added, want);
      added := SortBy(ConditionKey, added);
    }

    method CollectGone(conditions: map<string, Condition>, activeByKey: Records, complete: bool, ghost want: Records)
      returns (recovered: seq<Record>)
      requires KeyedBy(KeyOf, activeByKey)
      requires want == map k | complete && k in activeByKey && k !in conditions :: activeByKey[k]
      ensures recovered == ValuesInOrder(want)
    {
      recovered := [];
      if complete {
        var pending := activeByKey.Keys;
        VisitNone(KeyOf, want, pending);
        while pending != {}
          invariant pending <= activeByKey.Keys
          invariant Visited(KeyOf, recovered, want, pending)
          decreases pending
        {
          var key :| key in pending;
          if key in conditions {
            VisitSkip(KeyOf, recovered, want, pending, key);
          } else {
            VisitTake(KeyOf, recovered, want, pending, key);
            recovered := recovered + [activeByKey[key]];
          }
          pending := pending - {key};
        }
      }
      VisitedAll(KeyOf, recovered, want);
      recovered := SortBy(KeyOf, recovered);
    }

    method AlertMessage(scope: string, group: seq<Condition>, timestamp: int) returns (message: N.Batch)
      ensures message == AlertBatch(config, scope, group, timestamp)
    {
      var events: seq<N.Event> := [];
      for i := 0 to |group|
        invariant |events| == i && forall j :: 0 <= j < i ==> events[j] == AlertEvent(config, group[j], timestamp)
      {
        var details := Details.FormatDetails(group[i].details);
        events := events + [N.Event(N.Alert, group[i].scope, ObjectName(group[i].summary, group[i].key),
                                    config.hostname, timestamp, group[i].key, group[i].current, group[i].threshold,
                                    details, config.baseUrl)];
      }
      message := N.Batch(N.Alert, scope, config.hostname, timestamp, events);
    }

    method RecoveryMessage(scope: string, group: seq<Record>, timestamp: int) returns (message: N.Batch)
      ensures message == RecoveryBatch(config, scope, group, timestamp)
    {
      var events: seq<N.Event> := [];
      for i := 0 to |group|
        invariant |events| == i && forall j :: 0 <= j < i ==> events[j] == RecoveryEvent(config, group[j], timestamp)
      {
        var details := Details.FormatDetails(group[i].details);
        events := events + [N.Event(N.Recovery, group[i].scope,
                                    ObjectName(group[i].summary, group[i].key) + " recovered", config.hostname,
                                    timestamp, group[i].key, "recovered", group[i].threshold, details,
                                    config.baseUrl)];
      }
      message := N.Batch(N.Recovery, scope, config.hostname, timestamp, events);
    }

    /** Sends the alert groups in order and stores what was accepted. */
    method SendAlerts(scope: string, items: seq<Condition>)
      returns (failures: seq<Failed>, mutated: bool, ghost replies: seq<Reply>)
      requires Valid() && Storable(items)
      modifies router, store`records
      ensures Valid()
      ensures |replies| == |Groups(scope, items)| && Covers(scope, |items|, replies)
      ensures store.records == Activate(old(store.records), items, scope, replies, |items|)
      ensures router.log == old(router.log) + AlertAttempts(config, scope, Groups(scope, items), replies)
      ensures failures == AlertFailures(Groups(scope, items), replies)
      ensures mutated <==> SomeAccepted(replies)
    {
      var groups := Groups(scope, items);
      failures, mutated, replies := [], false, [];
      var g := 0;
      while g < |groups|
        invariant 0 <= g == |replies| <= |groups| && Valid()
        invariant AlertsDone(scope, items, replies, old(store.records), old(router.log))
        invariant failures == AlertFailures(groups, replies)
        invariant mutated <==> SomeAccepted(replies)
      {
        var failed;
        ghost var reply;
        failed, reply := SendAlertGroup(scope, items, groups[g], old(store.records), old(router.log), replies);
        AlertAnswered(groups, replies, reply);
        replies := replies + [reply];
        if failed {
          failures := failures + [AlertNotSent(Keys(ConditionKey, groups[g]))];
        } else {
          mutated := true;
        }
        g := g + 1;
      }
      GroupSlice(scope, items, g);
    }

    /** The groups answered so far have been sent and stored. */
    ghost predicate AlertsDone(scope: string, items: seq<Condition>, replies: seq<Reply>, before: Records,
                               log: seq<N.Attempt>)
      requires |replies| <= |Groups(scope, items)|
      reads router, store
    {
      var n := DoneAfter(scope, items, |replies|);
      GroupSlice(scope, items, |replies|);
      && store.records == Activate(before, items, scope, replies, n)
      && router.log == log + AlertAttempts(config, scope, Groups(scope, items), replies)
    }

    method SendAlertGroup(scope: string, items: seq<Condition>, group: seq<Condition>,
                          ghost before: Records, ghost log: seq<N.Attempt>, ghost replies: seq<Reply>)
      returns (failed: bool, ghost reply: Reply)
      requires Valid() && Storable(items)
      requires |replies| < |Groups(scope, items)| && group == Groups(scope, items)[|replies|]
      requires AlertsDone(scope, items, replies, before, log)
      modifies router, store`records
      ensures Valid() && reply.delivered == !failed
      ensures AlertsDone(scope, items, replies + [reply], before, log)
    {
      var timestamp;
      failed, timestamp, reply := AnnounceAlerts(scope, Groups(scope, items), group, log, replies);
      AlertGroupStep(before, items, scope, replies, reply);
      ghost var all, n, m := replies + [reply], DoneAfter(scope, items, |replies|),
        DoneAfter(scope, items, |replies| + 1);
      assert |all| == |replies| + 1;
      if !failed {
        PutGroup(scope, items, group, timestamp, n, m, before, all);
      } else {
        assert store.records == Activate(before, items, scope, replies, n);
      }
    }

    method AnnounceAlerts(scope: string, ghost groups: seq<seq<Condition>>, group: seq<Condition>,
                          ghost log: seq<N.Attempt>, ghost replies: seq<Reply>)
      returns (failed: bool, timestamp: int, ghost reply: Reply)
      requires router.Valid() && |replies| < |groups| && group == groups[|replies|]
      requires router.log == log + AlertAttempts(config, scope, groups, replies)
      modifies router
      ensures router.Valid() && reply == Reply(timestamp, !failed)
      ensures router.log == log + AlertAttempts(config, scope, groups, replies + [reply])
    {
      timestamp := *;
      var message := AlertMessage(scope, group, timestamp);
      var cancelled: bool := *;
      failed := router.SendBatch(message, cancelled);
      reply := Reply(timestamp, !failed);
      AlertLogged(log, config, scope, groups, replies, reply);
    }

    /** Stores a delivered group; Put has nothing to reject. */
    method PutGroup(scope: string, items: seq<Condition>, group: seq<Condition>, timestamp: int,
                    ghost done: nat, ghost end: nat, ghost before: Records, ghost replies: seq<Reply>)
      requires Valid() && Storable(items)
      requires done <= end <= |items| && group == items[done..end]
      requires Covers(scope, done, replies) && Covers(scope, end, replies)
      requires forall i: nat :: done <= i < end ==> replies[GroupOf(scope, i)] == Reply(timestamp, true)
      requires store.records == Activate(before, items, scope, replies, done)
      modifies store`records
      ensures Valid()
      ensures store.records == Activate(before, items, scope, replies, end)
    {
      for j := 0 to |group|
        invariant Valid()
        invariant store.records == Activate(before, items, scope, replies, done + j)
      {
        assert group[j] == items[done + j] && items[done + j] in items;
        var failed := store.Put(RecordFrom(group[j], timestamp));
        assert !failed;
      }
    }

    /** Sends the recovery groups if recoveries are announced, and removes what
        was accepted. */
    method SendRecoveries(scope: string, items: seq<Record>)
      returns (failures: seq<Failed>, mutated: bool, ghost replies: seq<Reply>)
      requires Valid() && Present(store.records, items, 0) && Distinct(Keys(KeyOf, items))
      modifies router, store`records
      ensures Valid()
      ensures |replies| == |Groups(scope, items)| && Covers(scope, |items|, replies)
      ensures !config.sendRecovery ==> AllAccepted(replies)
      ensures store.records == Retire(old(store.records), items, scope, replies, |items|)
      ensures router.log == old(router.log) + Announced(config, scope, Groups(scope, items), replies)
      ensures failures == RecoveryFailures(Groups(scope, items), replies)
      ensures mutated <==> SomeAccepted(replies)
    {
      var groups := Groups(scope, items);
      failures, mutated, replies := [], false, [];
      var g := 0;
      while g < |groups|
        invariant 0 <= g == |replies| <= |groups| && Valid()
        invariant RecoveriesDone(scope, items, replies, old(store.records), old(router.log))
        invariant DoneAfter(scope, items, g) <= |items|
        invariant Present(store.records, items, DoneAfter(scope, items, g))
        invariant !config.sendRecovery ==> AllAccepted(replies)
        invariant failures == RecoveryFailures(groups, replies)
        invariant mutated <==> SomeAccepted(replies)
      {
        var delivered, removed;
        ghost var reply;
        delivered, removed, reply := SendRecoveryGroup(scope, items, groups[g], old(store.records), old(router.log),
          replies);
        RecoveryAnswered(groups, replies, reply);
        replies := replies + [reply];
        if !delivered { failures := failures + [RecoveryNotSent(Keys(KeyOf, groups[g]))]; }
        mutated := mutated || removed;
        g := g + 1;
      }
      GroupSlice(scope, items, g);
    }

    ghost predicate RecoveriesDone(scope: string, items: seq<Record>, replies: seq<Reply>, before: Records,
                                   log: seq<N.Attempt>)
      requires |replies| <= |Groups(scope, items)|
      reads router, store
    {
      var n := DoneAfter(scope, items, |replies|);
      GroupSlice(scope, items, |replies|);
      && store.records == Retire(before, items, scope, replies, n)
      && router.log == log + Announced(config, scope, Groups(scope, items), replies)
    }

    method SendRecoveryGroup(scope: string, items: seq<Record>, group: seq<Record>,
                             ghost before: Records, ghost log: seq<N.Attempt>, ghost replies: seq<Reply>)
      returns (delivered: bool, removed: bool, ghost reply: Reply)
      requires Valid() && Distinct(Keys(KeyOf, items))
      requires |replies| < |Groups(scope, items)| && group == Groups(scope, items)[|replies|]
      requires RecoveriesDone(scope, items, replies, before, log)
      requires DoneAfter(scope, items, |replies|) <= |items|
      requires Present(store.records, items, DoneAfter(scope, items, |replies|))
      modifies router, store`records
      ensures Valid() && reply.delivered == delivered == removed
      ensures !config.sendRecovery ==> delivered
      ensures RecoveriesDone(scope, items, replies + [reply], before, log)
      ensures DoneAfter(scope, items, |replies| + 1) <= |items|
      ensures Present(store.records, items, DoneAfter(scope, items, |replies| + 1))
    {
      delivered, reply := AnnounceRecoveries(scope, Groups(scope, items), group, log, replies);
      RecoveryGroupStep(before, items, scope, replies, reply);
      ghost var all, n, m := replies + [reply], DoneAfter(scope, items, |replies|),
        DoneAfter(scope, items, |replies| + 1);
      assert |all| == |replies| + 1;
      removed := false;
      if delivered {
        removed := DeleteGroup(scope, items, group, n, m, before, all);
      } else {
        assert store.records == Retire(before, items, scope, replies, n);
      }
    }

    method AnnounceRecoveries(scope: string, ghost groups: seq<seq<Record>>, group: seq<Record>,
                              ghost log: seq<N.Attempt>, ghost replies: seq<Reply>)
      returns (delivered: bool, ghost reply: Reply)
      requires router.Valid() && |replies| < |groups| && group == groups[|replies|]
      requires router.log == log + Announced(config, scope, groups, replies)
      modifies router
      ensures router.Valid() && reply.delivered == delivered && (!config.sendRecovery ==> delivered)
      ensures router.log == log + Announced(config, scope, groups, replies + [reply])
    {
      delivered := true;
      var timestamp: int := *;
      if config.sendRecovery {
        var message := RecoveryMessage(scope, group, timestamp);
        var cancelled: bool := *;
        var failed := router.SendBatch(message, cancelled);
        delivered := !failed;
      }
      reply := Reply(timestamp, delivered);
      RecoveryLogged(log, config, scope, groups, replies, reply);
    }

    /** One reconciliation.  `answers` is what the clock and the sender replied, and
        `ended` tells whether the context has ended when it begins. */
    method Reconcile(batch: Batch, ended: bool)
      returns (failures: seq<Failed>, ghost answers: Answers, ghost outcome: S.SaveOutcome)
      requires Valid()
      modifies this`dirty, router, store`records, store`disk, store`saves
      ensures Valid()
      // a bad batch or an ended context touches nothing
      ensures Refused(failures) <==> !ValidInput(config, batch) || ended
      ensures !ValidInput(config, batch) ==> failures[0].Rejected? && Blames(failures[0].reason, config, batch)
      ensures Refused(failures) ==>
        Now() == old(Now()) && router.log == old(router.log) && store.saves == old(store.saves)
      // otherwise it is one step of the service, determined by the answers and the outcome of the save
      ensures !Refused(failures) ==>
        && Proper(config, old(store.records), batch, answers)
        && Now() == S.Next(config, old(Now()), S.Reconcile(Call(batch, answers), outcome))
        && router.log == old(router.log) + Attempts(config, old(store.records), batch, answers)
      // the errors are those of the groups refused and of the save
      ensures !Refused(failures) ==> failures == WithSave(Failures(old(store.records), batch, answers), dirty)
      // one save, and only if something changed or an earlier save is owed
      ensures !Refused(failures) ==>
        store.saves == old(store.saves)
          + (if old(dirty) || store.records != old(store.records) then [dirty] else [])
    {
      answers, outcome := Answers([], []), S.Saved;
      var reason := Validate(batch);
      if reason.Some? { return [Rejected(reason.value)], answers, outcome; }
      if ended { return [Cancelled], answers, outcome; }
      failures, answers, outcome := DeliverAndSave(batch);
    }

    /** A reconciliation of a valid batch. */
    method DeliverAndSave(batch: Batch) returns (failures: seq<Failed>, ghost answers: Answers,
                          ghost outcome: S.SaveOutcome)
      requires Valid() && ValidInput(config, batch)
      modifies this`dirty, router, store`records, store`disk, store`saves
      ensures Valid() && !Refused(failures)
      ensures Proper(config, old(store.records), batch, answers)
      ensures Now() == S.Next(config, old(Now()), S.Reconcile(Call(batch, answers), outcome))
      ensures router.log == old(router.log) + Attempts(config, old(store.records), batch, answers)
      ensures failures == WithSave(Failures(old(store.records), batch, answers), dirty)
      ensures store.saves == old(store.saves)
        + (if old(dirty) || store.records != old(store.records) then [dirty] else [])
    {
      var mutated;
      failures, mutated, answers := Deliver(batch);
      FailuresKnown(old(store.records), batch, answers);
      ChangedIffDelivered(config, old(store.records), batch, answers);
      var failed;
      failed, outcome := Persist(mutated);
      SaveFailureAdded(failures, failed);
      failures := WithSave(failures, failed);
    }

    /** Saves if there is anything to save; stays dirty until a save succeeds. */
    method Persist(mutated: bool) returns (failed: bool, ghost outcome: S.SaveOutcome)
      requires store.Valid()
      modifies this`dirty, store`disk, store`saves
      ensures failed <==> dirty
      ensures store.saves == old(store.saves) + (if old(dirty) || mutated then [failed] else [])
      ensures Now() == S.Persisted(old(Now()), old(dirty) || mutated, outcome)
    {
      if mutated { dirty := true; }
      failed, outcome := false, S.Saved;
      if dirty {
        failed := store.Save();
        outcome := if !failed then S.Saved else if store.disk == old(store.disk) then S.FailedBefore else S.FailedAfter;
        if !failed { dirty := false; }
      }
    }

    /** The deliveries of a reconciliation and their effect on the store. */
    method Deliver(batch: Batch) returns (failures: seq<Failed>, mutated: bool, ghost answers: Answers)
      requires Valid() && ValidInput(config, batch)
      modifies router, store`records
      ensures Valid()
      ensures Proper(config, old(store.records), batch, answers)
      ensures store.records == Reconciled(config, old(store.records), batch, answers)
      ensures router.log == old(router.log) + Attempts(config, old(store.records), batch, answers)
      ensures failures == Failures(old(store.records), batch, answers)
      ensures mutated <==> SomeDelivered(answers)
    {
      var added, recovered := Compare(batch);
      Deliverable(config, store.records, batch);
      var recoveryFailures, removed;
      ghost var alerts, recoveries;
      failures, mutated, alerts := SendAlerts(batch.scope, added);
      StillPresent(config, old(store.records), batch, alerts);
      recoveryFailures, removed, recoveries := SendRecoveries(batch.scope, recovered);
      failures, mutated := failures + recoveryFailures, mutated || removed;
      answers := Answers(alerts, recoveries);
      DeliverySum(config, old(store.records), old(router.log), batch, alerts, recoveries);
    }

    /** Removes a delivered group; every record is still there to remove. */
    method DeleteGroup(scope: string, items: seq<Record>, group: seq<Record>,
                       ghost done: nat, ghost end: nat, ghost before: Records, ghost replies: seq<Reply>)
      returns (removed: bool)
      requires Valid() && Distinct(Keys(KeyOf, items))
      requires done < end <= |items| && group == items[done..end]
      requires Present(store.records, items, done)
      requires Covers(scope, done, replies) && Covers(scope, end, replies)
      requires forall i: nat :: done <= i < end ==> replies[GroupOf(scope, i)].delivered
      requires store.records == Retire(before, items, scope, replies, done)
      modifies store`records
      ensures Valid() && removed
      ensures store.records == Retire(before, items, scope, replies, end)
      ensures Present(store.records, items, end)
    {
      removed := false;
      assert |group| == end - done;
      for j := 0 to |group|
        invariant Valid() && (j > 0 ==> removed)
        invariant store.records == Retire(before, items, scope, replies, done + j)
        invariant Present(store.records, items, done + j)
      {
        var found := DeleteItem(scope, items, group, j, done, end, before, replies);
        if found { removed := true; }
      }
    }

    /** One turn of that loop. */
    method DeleteItem(scope: string, items: seq<Record>, group: seq<Record>, j: nat,
                      ghost done: nat, ghost end: nat, ghost before: Records, ghost replies: seq<Reply>)
      returns (found: bool)
      requires Valid() && Distinct(Keys(KeyOf, items))
      requires done < end <= |items| && group == items[done..end] && j < |group|
      requires Covers(scope, done, replies) && Covers(scope, end, replies)
      requires forall i: nat :: done <= i < end ==> replies[GroupOf(scope, i)].delivered
      requires store.records == Retire(before, items, scope, replies, done + j)
      requires Present(store.records, items, done + j)
      modifies store`records
      ensures Valid() && found
      ensures store.records == Retire(before, items, scope, replies, done + j + 1)
      ensures Present(store.records, items, done + j + 1)
    {
      DeleteStep(before, items, group, scope, replies, done, end, j);
      found := store.Delete(group[j].key);
    }
  }

  /** The errors of the alert phase: the keys of every group refused, in order. */
  ghost function AlertFailures(groups: seq<seq<Condition>>, replies: seq<Reply>): seq<Failed>
    requires |replies| <= |groups|
  {
    if replies == [] then []
    else
      var n := |replies| - 1;
      AlertFailures(groups, replies[..n])
      + if replies[n].delivered then [] else [AlertNotSent(Keys(ConditionKey, groups[n]))]
  }

  ghost function RecoveryFailures(groups: seq<seq<Record>>, replies: seq<Reply>): seq<Failed>
    requires |replies| <= |groups|
  {
    if replies == [] then []
    else
      var n := |replies| - 1;
      RecoveryFailures(groups, replies[..n])
      + if replies[n].delivered then [] else [RecoveryNotSent(Keys(KeyOf, groups[n]))]
  }

  lemma {:induction false} AlertAnswered(groups: seq<seq<Condition>>, replies: seq<Reply>, r: Reply)
    requires |replies| < |groups|
    ensures AlertFailures(groups, replies + [r])
         == AlertFailures(groups, replies) + if r.delivered then []
            else [AlertNotSent(Keys(ConditionKey, groups[|replies|]))]
    ensures SomeAccepted(replies + [r]) <==> SomeAccepted(replies) || r.delivered
  {
    HeadTail(replies, [r]);
    AcceptedMore(replies, r);
  }

  lemma {:induction false} RecoveryAnswered(groups: seq<seq<Record>>, replies: seq<Reply>, r: Reply)
    requires |replies| < |groups|
    ensures RecoveryFailures(groups, replies + [r])
         == RecoveryFailures(groups, replies) + if r.delivered then []
            else [RecoveryNotSent(Keys(KeyOf, groups[|replies|]))]
    ensures SomeAccepted(replies + [r]) <==> SomeAccepted(replies) || r.delivered
    ensures AllAccepted(replies + [r]) <==> AllAccepted(replies) && r.delivered
  {
    HeadTail(replies, [r]);
    AcceptedMore(replies, r);
  }

  lemma AcceptedMore(replies: seq<Reply>, r: Reply)
    ensures SomeAccepted(replies + [r]) <==> SomeAccepted(replies) || r.delivered
    ensures AllAccepted(replies + [r]) <==> AllAccepted(replies) && r.delivered
  {
    var all := replies + [r];
    assert all[|replies|] == r;
    assert forall x :: x in all <==> x in replies || x == r;
  }

  /** There is an error about exactly the groups refused. */
  lemma {:induction false} AlertFailuresExactly(groups: seq<seq<Condition>>, replies: seq<Reply>)
    requires |replies| <= |groups|
    ensures AlertFailures(groups, replies) == [] <==> AllAccepted(replies)
    ensures forall f :: f in AlertFailures(groups, replies) <==> exists g: nat ::
      g < |replies| && !replies[g].delivered && f == AlertNotSent(Keys(ConditionKey, groups[g]))
  {
    if replies != [] {
      FrontLast(replies);
      AlertFailuresExactly(groups, replies[..|replies| - 1]);
    }
  }

  lemma {:induction false} RecoveryFailuresExactly(groups: seq<seq<Record>>, replies: seq<Reply>)
    requires |replies| <= |groups|
    ensures RecoveryFailures(groups, replies) == [] <==> AllAccepted(replies)
    ensures forall f :: f in RecoveryFailures(groups, replies) <==> exists g: nat ::
      g < |replies| && !replies[g].delivered && f == RecoveryNotSent(Keys(KeyOf, groups[g]))
  {
    if replies != [] {
      FrontLast(replies);
      RecoveryFailuresExactly(groups, replies[..|replies| - 1]);
    }
  }

  /** All errors of the deliveries of a reconciliation. */
  ghost function Failures(records: Records, batch: Batch, a: Answers): seq<Failed>
    requires |a.alerts| <= |Groups(batch.scope, NewConditions(records, batch))|
    requires |a.recoveries| <= |Groups(batch.scope, Recovered(records, batch))|
  {
    AlertFailures(Groups(batch.scope, NewConditions(records, batch)), a.alerts)
    + RecoveryFailures(Groups(batch.scope, Recovered(records, batch)), a.recoveries)
  }

  lemma FailuresKnown(records: Records, batch: Batch, a: Answers)
    requires |a.alerts| <= |Groups(batch.scope, NewConditions(records, batch))|
    requires |a.recoveries| <= |Groups(batch.scope, Recovered(records, batch))|
    ensures Failures(records, batch, a) == [] <==> AllDelivered(a)
    ensures forall f <- Failures(records, batch, a) :: f.AlertNotSent? || f.RecoveryNotSent?
  {
    AlertFailuresExactly(Groups(batch.scope, NewConditions(records, batch)), a.alerts);
    RecoveryFailuresExactly(Groups(batch.scope, Recovered(records, batch)), a.recoveries);
  }

  /** The call ended before looking at the store. */
  predicate Refused(failures: seq<Failed>) {
    |failures| == 1 && (failures[0].Rejected? || failures[0].Cancelled?)
  }

  function WithSave(failures: seq<Failed>, failed: bool): seq<Failed> {
    if failed then failures + [NotSaved] else failures
  }

  lemma SaveFailureAdded(failures: seq<Failed>, failed: bool)
    requires forall f <- failures :: f.AlertNotSent? || f.RecoveryNotSent?
    ensures var all := WithSave(failures, failed);
      && !Refused(all) && (all == [] <==> failures == [] && !failed)
      && (forall f <- all :: f.AlertNotSent? || f.RecoveryNotSent? || f.NotSaved?)
  {
    var all := WithSave(failures, failed);
    if |all| == 1 { assert all[0] in all; }
  }

  /** No error means exactly that everything was delivered and nothing is left to save. */
  lemma NoErrorExactly(records: Records, batch: Batch, a: Answers, failed: bool)
    requires |a.alerts| <= |Groups(batch.scope, NewConditions(records, batch))|
    requires |a.recoveries| <= |Groups(batch.scope, Recovered(records, batch))|
    ensures WithSave(Failures(records, batch, a), failed) == [] <==> AllDelivered(a) && !failed
  {
    FailuresKnown(records, batch, a);
  }

  ghost predicate AllAccepted(replies: seq<Reply>) { forall r <- replies :: r.delivered }

  ghost predicate SomeAccepted(replies: seq<Reply>) { exists r :: r in replies && r.delivered }

  ghost function Announced(cfg: Config, scope: string, groups: seq<seq<Record>>, replies: seq<Reply>): seq<N.Attempt>
    requires |replies| <= |groups|
  {
    if cfg.sendRecovery then RecoveryAttempts(cfg, scope, groups, replies) else []
  }

  /** The records from position n on are stored. */
  ghost predicate Present(records: Records, items: seq<Record>, n: nat)
    requires n <= |items|
  {
    forall i :: n <= i < |items| ==> items[i].key in records
  }

  /** The alert phase leaves the recovered records in place. */
  lemma StillPresent(cfg: Config, records: Records, batch: Batch, replies: seq<Reply>)
    requires ValidRecords(records) && ValidInput(cfg, batch)
    requires Covers(batch.scope, |NewConditions(records, batch)|, replies)
    ensures Present(Activate(records, NewConditions(records, batch), batch.scope, replies,
      |NewConditions(records, batch)|),
                    Recovered(records, batch), 0)
  {
    var items, gone := NewConditions(records, batch), Recovered(records, batch);
    NewFacts(cfg, records, batch);
    GoneFacts(records, batch);
    forall i | 0 <= i < |gone| ensures gone[i].key in Activate(records, items, batch.scope, replies, |items|) {
      assert gone[i] in gone;
      NotNew(cfg, records, batch, gone[i].key);
      ActivateAt(records, items, batch.scope, replies, |items|, gone[i].key);
    }
  }

  lemma Deliverable(cfg: Config, records: Records, batch: Batch)
    requires ValidRecords(records) && ValidInput(cfg, batch)
    ensures Storable(NewConditions(records, batch)) && Distinct(Keys(KeyOf, Recovered(records, batch)))
  {
    NewFacts(cfg, records, batch);
    GoneFacts(records, batch);
  }

  /** What a refusal blames is wrong, and nothing that is tested before it. */
  ghost predicate Blames(reason: Invalid, cfg: Config, batch: Batch) {
    && (reason.HostnameRequired? <==> Blank(cfg.hostname))
    && (reason.BaseUrlRequired? <==> !Blank(cfg.hostname) && Blank(cfg.baseUrl))
    && (reason.ScopeRequired? <==> !Blank(cfg.hostname) && !Blank(cfg.baseUrl) && Blank(batch.scope))
    && (reason.KeyRequired? || reason.ScopeMismatch? || reason.DuplicateCondition? ==>
          exists i: nat :: BlamesCondition(reason, batch, i))
  }

  /** Condition i is the first bad one. */
  ghost predicate BlamesCondition(reason: Invalid, batch: Batch, i: nat) {
    && i < |batch.conditions|
    && (forall j: nat :: j < i ==> !Blank(batch.conditions[j].key) && batch.conditions[j].scope == batch.scope)
    && Distinct(Keys(ConditionKey, batch.conditions[..i]))
    && var c := batch.conditions[i];
       match reason
       case KeyRequired(position) => position == i + 1 && Blank(c.key)
       case ScopeMismatch(key) => key == c.key && !Blank(key) && c.scope != batch.scope
       case DuplicateCondition(key) =>
         && key == c.key && !Blank(key) && c.scope == batch.scope
         && exists j: nat :: j < i && batch.conditions[j].key == key
       case _ => false
  }

  /** What is blamed when condition i is the first that does not pass. */
  lemma BlamesFirst(cfg: Config, batch: Batch, i: nat, seen: set<string>)
    requires i < |batch.conditions| && Checked(batch.conditions[..i], batch.scope, seen)
    requires !Blank(cfg.hostname) && !Blank(cfg.baseUrl) && !Blank(batch.scope)
    ensures var c := batch.conditions[i];
      && (Blank(c.key) ==> Blames(KeyRequired(i + 1), cfg, batch))
      && (!Blank(c.key) && c.scope != batch.scope ==> Blames(ScopeMismatch(c.key), cfg, batch))
      && (!Blank(c.key) && c.scope == batch.scope && c.key in seen ==> Blames(DuplicateCondition(c.key), cfg, batch))
  {
    var c := batch.conditions[i];
    CheckedEach(batch.conditions, i, batch.scope, seen);
    if Blank(c.key) {
      assert BlamesCondition(KeyRequired(i + 1), batch, i);
    } else if c.scope != batch.scope {
      assert BlamesCondition(ScopeMismatch(c.key), batch, i);
    } else if c.key in seen {
      SeenBefore(batch.conditions, i, batch.scope, seen);
      assert BlamesCondition(DuplicateCondition(c.key), batch, i);
    }
  }

  lemma SeenBefore(conditions: seq<Condition>, i: nat, scope: string, seen: set<string>)
    requires i < |conditions| && Checked(conditions[..i], scope, seen) && conditions[i].key in seen
    ensures exists j: nat :: j < i && conditions[j].key == conditions[i].key
  {
    var ks := Keys(ConditionKey, conditions[..i]);
    assert conditions[i].key in ks;
    var j: nat :| j < |ks| && ks[j] == conditions[i].key;
    assert ks[j] == ConditionKey(conditions[..i][j]) == conditions[j].key;
  }

  /** These conditions pass, and `seen` holds their keys. */
  ghost predicate Checked(conditions: seq<Condition>, scope: string, seen: set<string>) {
    && (forall c <- conditions :: !Blank(c.key) && c.scope == scope) && Distinct(Keys(ConditionKey, conditions))
    && forall k :: k in seen <==> k in Keys(ConditionKey, conditions)
  }

  lemma CheckedEach(conditions: seq<Condition>, i: nat, scope: string, seen: set<string>)
    requires i < |conditions| && Checked(conditions[..i], scope, seen)
    ensures forall j: nat :: j < i ==> !Blank(conditions[j].key) && conditions[j].scope == scope
  {
    forall j: nat | j < i ensures !Blank(conditions[j].key) && conditions[j].scope == scope {
      assert conditions[..i][j] in conditions[..i];
    }
  }

  lemma CheckedMore(conditions: seq<Condition>, i: nat, scope: string, seen: set<string>)
    requires i < |conditions| && Checked(conditions[..i], scope, seen)
    ensures conditions[i] in conditions
    ensures conditions[i].key in seen ==> !Distinct(Keys(ConditionKey, conditions[..i + 1]))
    ensures !Blank(conditions[i].key) && conditions[i].scope == scope && conditions[i].key !in seen ==>
      Checked(conditions[..i + 1], scope, seen + {conditions[i].key})
  {
    assert conditions[..i + 1] == conditions[..i] + [conditions[i]];
    KeysSnoc(ConditionKey, conditions[..i], conditions[i]);
  }

  lemma DeliverySum(cfg: Config, records: Records, log: seq<N.Attempt>, batch: Batch, alerts: seq<Reply>,
                    recoveries: seq<Reply>)
    requires ValidRecords(records) && ValidInput(cfg, batch)
    requires |alerts| == |Groups(batch.scope, NewConditions(records, batch))|
    requires |recoveries| == |Groups(batch.scope, Recovered(records, batch))|
    requires !cfg.sendRecovery ==> AllAccepted(recoveries)
    ensures var a := Answers(alerts, recoveries);
      && Proper(cfg, records, batch, a)
      && (log + AlertAttempts(cfg, batch.scope, Groups(batch.scope, NewConditions(records, batch)), alerts))
         + Announced(cfg, batch.scope, Groups(batch.scope, Recovered(records, batch)), recoveries)
         == log + Attempts(cfg, records, batch, a)
      && (SomeAccepted(alerts) || SomeAccepted(recoveries) <==> SomeDelivered(a))
  {
    SumAgain(log, AlertAttempts(cfg, batch.scope, Groups(batch.scope, NewConditions(records, batch)), alerts),
      Announced(cfg, batch.scope, Groups(batch.scope, Recovered(records, batch)), recoveries));
  }

  /** Removing item number j of a delivered group. */
  lemma DeleteStep(before: Records, items: seq<Record>, group: seq<Record>, scope: string, replies: seq<Reply>,
                   done: nat, end: nat, j: nat)
    requires done < end <= |items| && group == items[done..end] && j < |group| && Distinct(Keys(KeyOf, items))
    requires Covers(scope, done, replies) && Covers(scope, end, replies)
    requires forall i: nat :: done <= i < end ==> replies[GroupOf(scope, i)].delivered
    requires Present(Retire(before, items, scope, replies, done + j), items, done + j)
    ensures var now, key := Retire(before, items, scope, replies, done + j), group[j].key;
      && key in now && now - {key} == Retire(before, items, scope, replies, done + j + 1)
      && Present(now - {key}, items, done + j + 1)
  {
    assert group[j] == items[done + j];
    PresentStep(Retire(before, items, scope, replies, done + j), items, done + j);
  }

  lemma PresentStep(records: Records, items: seq<Record>, n: nat)
    requires n < |items| && Present(records, items, n) && Distinct(Keys(KeyOf, items))
    ensures Present(records - {items[n].key}, items, n + 1)
  {
    var ks := Keys(KeyOf, items);
    forall i | n < i < |items| ensures items[i].key != items[n].key {
      assert ks[i] == KeyOf(items[i]) && ks[n] == KeyOf(items[n]);
    }
  }

  lemma GoneAmongActive(records: Records, batch: Batch)
    ensures var active, conditions := InScope(records, batch.scope), ByKey(batch.conditions);
      GoneByKey(records, batch) == map k | batch.complete && k in active && k !in conditions :: active[k]
  {
  }

  ghost predicate Storable(items: seq<Condition>) {
    forall c <- items :: c.key != "" && c.scope != ""
  }

  function Indexed(active: seq<Record>): Records {
    if active == [] then map[] else Indexed(active[..|active| - 1])[active[|active| - 1].key := active[|active| - 1]]
  }

  lemma IndexedMore(active: seq<Record>, i: nat)
    requires i < |active|
    ensures Indexed(active[..i + 1]) == Indexed(active[..i])[active[i].key := active[i]]
  {
    assert active[..i + 1][..i] == active[..i];
  }

  lemma {:induction false} IndexedAt(active: seq<Record>)
    ensures forall k <- Indexed(active) :: Indexed(active)[k] in active && Indexed(active)[k].key == k
    ensures forall r <- active :: r.key in Indexed(active)
  {
    if active != [] {
      assert active == active[..|active| - 1] + [active[|active| - 1]];
      IndexedAt(active[..|active| - 1]);
    }
  }

  lemma IndexedAll(active: seq<Record>, want: Records)
    requires ValidRecords(want) && active == ValuesInOrder(want)
    ensures Indexed(active) == want
  {
    ValuesInOrderMembers(KeyOf, want);
    IndexedAt(active);
    var m := Indexed(active);
    forall k ensures (k in m <==> k in want) && (k in want ==> m[k] == want[k]) {
      if k in want { assert KeyOf(want[k]) == k && want[k] in active; }
      if k in m { assert m[k] in active && KeyOf(m[k]) == k; }
    }
    SameMap(m, want);
  }
}
