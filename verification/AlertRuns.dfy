/** Whole runs of the alert manager: every key is alerted and removed in strict
    alternation. */
module AlertRuns {
  import opened Text
  import opened State
  import opened RuleTypes
  import opened AlertModel
  import opened AlertLaws
  import N = Notification

  // ---------- alternation ----------

  datatype Mark = Alerted(key: string) | Removed(key: string)

  /** The delivered alerts among the first n conditions. */
  ghost function AlertMarks(items: seq<Condition>, scope: string, replies: seq<Reply>, n: nat): seq<Mark>
    requires n <= |items| && Covers(scope, n, replies)
  {
    if n == 0 then []
    else AlertMarks(items, scope, replies, n - 1)
         + if replies[GroupOf(scope, n - 1)].delivered then [Alerted(items[n - 1].key)] else []
  }

  ghost function RemovalMarks(items: seq<Record>, scope: string, replies: seq<Reply>, n: nat): seq<Mark>
    requires n <= |items| && Covers(scope, n, replies)
  {
    if n == 0 then []
    else RemovalMarks(items, scope, replies, n - 1)
         + if replies[GroupOf(scope, n - 1)].delivered then [Removed(items[n - 1].key)] else []
  }

  /** What one reconciliation did, in order. */
  ghost function CallMarks(cfg: Config, records: Records, batch: Batch, a: Answers): seq<Mark>
    requires Answered(cfg, records, batch, a)
  {
    var added, gone := NewConditions(records, batch), Recovered(records, batch);
    GroupSlice(batch.scope, added, |a.alerts|);
    GroupSlice(batch.scope, gone, |a.recoveries|);
    AlertMarks(added, batch.scope, a.alerts, |added|) + RemovalMarks(gone, batch.scope, a.recoveries, |gone|)
  }

  /** The active keys after a history, or None when some alert repeats an active
      key or some removal concerns an inactive one. */
  function Trace(active: set<string>, marks: seq<Mark>): Option<set<string>> {
    if marks == [] then Some(active)
    else
      match Trace(active, marks[..|marks| - 1])
      case None => None
      case Some(now) => Marked(now, marks[|marks| - 1])
  }

  function Marked(now: set<string>, mark: Mark): Option<set<string>> {
    match mark
    case Alerted(k) => if k in now then None else Some(now + {k})
    case Removed(k) => if k in now then Some(now - {k}) else None
  }

  lemma TraceMore(active: set<string>, marks: seq<Mark>, mark: Mark)
    ensures Trace(active, marks + [mark]) == match Trace(active, marks) case None => None
      case Some(now) => Marked(now, mark)
  {
    HeadTail(marks, [mark]);
  }

  lemma {:induction false} TraceSplit(active: set<string>, a: seq<Mark>, b: seq<Mark>)
    ensures Trace(active, a + b) == match Trace(active, a) case None => None case Some(now) => Trace(now, b)
  {
    if b == [] {
      assert a + b == a;
    } else {
      TraceSplit(active, a, b[..|b| - 1]);
      assert (a + b)[..|a + b| - 1] == a + b[..|b| - 1];
    }
  }

  /** A history that traces alternates: between two alerts of a key lies a
      removal, between two removals an alert. */
  lemma {:induction false} TraceAlternates(active: set<string>, marks: seq<Mark>, i: nat, j: nat)
    requires Trace(active, marks).Some?
    requires i < j < |marks| && marks[i].key == marks[j].key
    requires marks[i].Alerted? == marks[j].Alerted?
    ensures exists m :: i < m < j && marks[m].key == marks[i].key && marks[m].Alerted? != marks[i].Alerted?
  {
    if forall m :: i < m < j && marks[m].key == marks[i].key ==> marks[m].Alerted? == marks[i].Alerted? {
      TracePrefix(active, marks, j + 1);
      assert marks[..j + 1][..j] == marks[..j];
      TraceHolds(active, marks, i, j);
    }
  }

  lemma {:induction false} TracePrefix(active: set<string>, marks: seq<Mark>, n: nat)
    requires Trace(active, marks).Some? && n <= |marks|
    ensures Trace(active, marks[..n]).Some?
  {
    if n == |marks| {
      assert marks[..n] == marks;
    } else {
      TracePrefix(active, marks[..|marks| - 1], n);
      assert marks[..|marks| - 1][..n] == marks[..n];
    }
  }

  lemma {:induction false} TraceHolds(active: set<string>, marks: seq<Mark>, i: nat, j: nat)
    requires Trace(active, marks).Some? && i < j <= |marks|
    requires forall m :: i < m < j && marks[m].key == marks[i].key ==> marks[m].Alerted? == marks[i].Alerted?
    ensures Trace(active, marks[..j]).Some?
    ensures marks[i].key in Trace(active, marks[..j]).value <==> marks[i].Alerted?
    decreases j
  {
    TracePrefix(active, marks, j);
    assert marks[..j][..j - 1] == marks[..j - 1];
    if j > i + 1 { TraceHolds(active, marks, i, j - 1); }
  }

  /** No delivered alert takes over a key that is active elsewhere. */
  ghost predicate NoKeyTaken(cfg: Config, records: Records, batch: Batch, a: Answers)
    requires Proper(cfg, records, batch, a)
  {
    var added := NewConditions(records, batch);
    GroupSlice(batch.scope, added, |a.alerts|);
    forall i: nat :: i < |added| && a.alerts[GroupOf(batch.scope, i)].delivered ==> added[i].key !in records
  }

  ghost predicate Taken(records: Records, items: seq<Condition>, scope: string, replies: seq<Reply>, n: nat)
    requires n <= |items| && Covers(scope, n, replies)
  {
    n > 0 && (Taken(records, items, scope, replies, n - 1)
              || (replies[GroupOf(scope, n - 1)].delivered && items[n - 1].key in records))
  }

  lemma {:induction false} TakenExactly(records: Records, items: seq<Condition>, scope: string, replies: seq<Reply>,
                                        n: nat)
    requires n <= |items| && Covers(scope, n, replies)
    ensures Taken(records, items, scope, replies, n)
      <==> exists i: nat :: i < n && replies[GroupOf(scope, i)].delivered && items[i].key in records
  {
    if n > 0 { TakenExactly(records, items, scope, replies, n - 1); }
  }

  lemma EarlierUntouched(records: Records, items: seq<Condition>, scope: string, replies: seq<Reply>, i: nat)
    requires i < |items| && Covers(scope, i, replies) && Distinct(Keys(ConditionKey, items))
    ensures items[i].key in Activate(records, items, scope, replies, i) <==> items[i].key in records
  {
    DistinctPosition(ConditionKey, items, i);
    forall j: nat | j < i ensures items[j].key != items[i].key {
      assert ConditionKey(items[j]) != ConditionKey(items[i]);
    }
    ActivateAt(records, items, scope, replies, i, items[i].key);
  }

  lemma {:induction false} AlertTrace(records: Records, items: seq<Condition>, scope: string, replies: seq<Reply>,
                                      n: nat)
    requires n <= |items| && Covers(scope, n, replies) && Distinct(Keys(ConditionKey, items))
    ensures Trace(records.Keys, AlertMarks(items, scope, replies, n))
         == if Taken(records, items, scope, replies, n) then None
           else Some(Activate(records, items, scope, replies, n).Keys)
  {
    if n > 0 {
      AlertTrace(records, items, scope, replies, n - 1);
      var front, all := AlertMarks(items, scope, replies, n - 1), AlertMarks(items, scope, replies, n);
      if replies[GroupOf(scope, n - 1)].delivered {
        TraceMore(records.Keys, front, Alerted(items[n - 1].key));
        EarlierUntouched(records, items, scope, replies, n - 1);
        assert Activate(records, items, scope, replies, n).Keys
            == Activate(records, items, scope, replies, n - 1).Keys + {items[n - 1].key};
      } else {
        EmptyFirst(front);
      }
    }
  }

  lemma {:induction false} RemovalTrace(records: Records, items: seq<Record>, scope: string, replies: seq<Reply>,
                                        n: nat)
    requires n <= |items| && Covers(scope, n, replies) && Distinct(Keys(KeyOf, items))
    requires forall i :: 0 <= i < |items| ==> items[i].key in records
    ensures Trace(records.Keys, RemovalMarks(items, scope, replies, n))
         == Some(Retire(records, items, scope, replies, n).Keys)
  {
    if n > 0 {
      RemovalTrace(records, items, scope, replies, n - 1);
      var front, all := RemovalMarks(items, scope, replies, n - 1), RemovalMarks(items, scope, replies, n);
      if replies[GroupOf(scope, n - 1)].delivered {
        TraceMore(records.Keys, front, Removed(items[n - 1].key));
        DistinctPosition(KeyOf, items, n - 1);
        forall i: nat | i < n - 1 ensures items[i].key != items[n - 1].key {
          assert KeyOf(items[i]) != KeyOf(items[n - 1]);
        }
        RetireAt(records, items, scope, replies, n - 1, items[n - 1].key);
        assert Retire(records, items, scope, replies, n).Keys
            == Retire(records, items, scope, replies, n - 1).Keys - {items[n - 1].key};
      } else {
        EmptyFirst(front);
      }
    }
  }

  /** One reconciliation keeps the alternation exactly when no key is taken over. */
  lemma CallAlternates(cfg: Config, records: Records, batch: Batch, a: Answers)
    requires Proper(cfg, records, batch, a)
    ensures Trace(records.Keys, CallMarks(cfg, records, batch, a)).Some? <==> NoKeyTaken(cfg, records, batch, a)
    ensures NoKeyTaken(cfg, records, batch, a) ==>
      Trace(records.Keys, CallMarks(cfg, records, batch, a)) == Some(Reconciled(cfg, records, batch, a).Keys)
  {
    var added, gone := NewConditions(records, batch), Recovered(records, batch);
    GroupSlice(batch.scope, added, |a.alerts|);
    GroupSlice(batch.scope, gone, |a.recoveries|);
    NewFacts(cfg, records, batch);
    GoneFacts(records, batch);
    AlertTrace(records, added, batch.scope, a.alerts, |added|);
    TakenExactly(records, added, batch.scope, a.alerts, |added|);
    var mid := Activate(records, added, batch.scope, a.alerts, |added|);
    forall i | 0 <= i < |gone| ensures gone[i].key in mid {
      assert gone[i] in gone;
      NotNew(cfg, records, batch, gone[i].key);
      ActivateAt(records, added, batch.scope, a.alerts, |added|, gone[i].key);
    }
    RemovalTrace(mid, gone, batch.scope, a.recoveries, |gone|);
    TraceSplit(records.Keys, AlertMarks(added, batch.scope, a.alerts, |added|),
      RemovalMarks(gone, batch.scope, a.recoveries, |gone|));
  }

  /** The call that takes the key of r over for another scope, delivered at time t. */
  function TakeOver(c: Condition, t: int): Call {
    Call(Batch(c.scope, false, [c], []), Answers([Reply(t, true)], []))
  }

  /** For instance whenever a condition of another scope has the key of an active record:
      then a second alert goes out although the first was never removed. */
  lemma KeyTakenOver(cfg: Config, r: Record, c: Condition, t: int)
    requires !Blank(cfg.hostname) && !Blank(cfg.baseUrl) && ValidRecord(r) && !Blank(c.key) && !Blank(c.scope)
    requires c.key == r.key && c.scope != r.scope
    ensures var records, call := map[r.key := r], TakeOver(c, t);
      && Proper(cfg, records, call.batch, call.answers)
      && Trace(records.Keys, CallMarks(cfg, records, call.batch, call.answers)) == None
  {
    var records, batch, a := map[r.key := r], TakeOver(c, t).batch, TakeOver(c, t).answers;
    OnlyNew(records, c);
    TakeOverProper(cfg, records, c, t);
    CallAlternates(cfg, records, batch, a);
    assert NewConditions(records, batch)[0].key in records;
  }

  lemma TakeOverProper(cfg: Config, records: Records, c: Condition, t: int)
    requires !Blank(cfg.hostname) && !Blank(cfg.baseUrl) && !Blank(c.key) && !Blank(c.scope)
    requires ValidRecords(records) && c.key !in InScope(records, c.scope)
    ensures Proper(cfg, records, TakeOver(c, t).batch, TakeOver(c, t).answers)
  {
    OnlyNew(records, c);
    assert TakeOver(c, t).batch.conditions == [c];
  }

  lemma OnlyNew(records: Records, c: Condition)
    requires c.key !in InScope(records, c.scope)
    ensures var batch := Batch(c.scope, false, [c], []);
      NewConditions(records, batch) == [c] && Recovered(records, batch) == []
  {
    var batch := Batch(c.scope, false, [c], []);
    assert [c][..0] == [];
    assert ByKey([c]) == map[c.key := c];
    assert NewByKey(records, batch) == map[c.key := c];
    assert GoneByKey(records, batch) == map[];
    ValuesInOrderMembers(ConditionKey, NewByKey(records, batch));
    assert NewConditions(records, batch)[0] in NewConditions(records, batch);
  }

  // ---------- runs ----------

  ghost predicate PossibleRun(cfg: Config, start: Records, run: seq<Call>)
    decreases |run|, 0
  {
    ValidRecords(start) &&
    (run == [] ||
     var front, last := run[..|run| - 1], run[|run| - 1];
     PossibleRun(cfg, start, front) && Proper(cfg, After(cfg, start, front), last.batch, last.answers))
  }

  ghost function After(cfg: Config, start: Records, run: seq<Call>): Records
    requires PossibleRun(cfg, start, run)
    decreases |run|, 1
  {
    if run == [] then start
    else Reconciled(cfg, After(cfg, start, run[..|run| - 1]), run[|run| - 1].batch, run[|run| - 1].answers)
  }

  ghost function History(cfg: Config, start: Records, run: seq<Call>): seq<Mark>
    requires PossibleRun(cfg, start, run)
  {
    if run == [] then []
    else History(cfg, start, run[..|run| - 1])
         + CallMarks(cfg, After(cfg, start, run[..|run| - 1]), run[|run| - 1].batch, run[|run| - 1].answers)
  }

  lemma RunMore(cfg: Config, start: Records, run: seq<Call>, c: Call)
    requires PossibleRun(cfg, start, run) && Proper(cfg, After(cfg, start, run), c.batch, c.answers)
    ensures PossibleRun(cfg, start, run + [c])
    ensures After(cfg, start, run + [c]) == Reconciled(cfg, After(cfg, start, run), c.batch, c.answers)
  {
    var more := run + [c];
    HeadTail(run, [c]);
    LastCall(cfg, start, more, run, c);
  }

  lemma LastCall(cfg: Config, start: Records, run: seq<Call>, front: seq<Call>, last: Call)
    requires run != [] && front == run[..|run| - 1] && last == run[|run| - 1]
    requires PossibleRun(cfg, start, front) && Proper(cfg, After(cfg, start, front), last.batch, last.answers)
    ensures PossibleRun(cfg, start, run)
    ensures After(cfg, start, run) == Reconciled(cfg, After(cfg, start, front), last.batch, last.answers)
  {
    assert PossibleRun(cfg, start, run);
  }

  /** Everything handed to the sender during a run, with the answers. */
  ghost function Messages(cfg: Config, start: Records, run: seq<Call>): seq<N.Attempt>
    requires PossibleRun(cfg, start, run)
  {
    if run == [] then []
    else Messages(cfg, start, run[..|run| - 1])
         + Attempts(cfg, After(cfg, start, run[..|run| - 1]), run[|run| - 1].batch, run[|run| - 1].answers)
  }

  lemma MessagesMore(cfg: Config, start: Records, run: seq<Call>, c: Call)
    requires PossibleRun(cfg, start, run) && Proper(cfg, After(cfg, start, run), c.batch, c.answers)
    ensures PossibleRun(cfg, start, run + [c])
    ensures Messages(cfg, start, run + [c])
         == Messages(cfg, start, run) + Attempts(cfg, After(cfg, start, run), c.batch, c.answers)
  {
    RunMore(cfg, start, run, c);
    HeadTail(run, [c]);
  }

  /** Every key belongs to one scope. */
  ghost predicate Scoped(records: Records, scopeOf: string -> string) {
    forall k <- records :: records[k].scope == scopeOf(k)
  }

  ghost predicate ScopedBatch(batch: Batch, scopeOf: string -> string) {
    forall c <- batch.conditions :: c.scope == scopeOf(c.key)
  }

  lemma ScopedKept(cfg: Config, records: Records, batch: Batch, a: Answers, scopeOf: string -> string)
    requires Proper(cfg, records, batch, a) && Scoped(records, scopeOf) && ScopedBatch(batch, scopeOf)
    ensures Scoped(Reconciled(cfg, records, batch, a), scopeOf)
    ensures NoKeyTaken(cfg, records, batch, a)
  {
    NewFacts(cfg, records, batch);
    var added := NewConditions(records, batch);
    GroupSlice(batch.scope, added, |a.alerts|);
    forall i: nat | i < |added| ensures added[i].key !in records { assert added[i] in added; }
    var after := Reconciled(cfg, records, batch, a);
    forall k | k in after ensures after[k].scope == scopeOf(k) {
      if k in NewByKey(records, batch) {
        var i := NewPosition(cfg, records, batch, k);
        ReconciledNew(cfg, records, batch, a, i);
        assert added[i] in added;
      } else {
        Confined(cfg, records, batch, a, k);
        if k in GoneByKey(records, batch) {
        } else {
          ReconciledOther(cfg, records, batch, a, k);
        }
      }
    }
  }

  /** Over any run in which keys determine their scope, deliveries and removals
      of every key strictly alternate, and the active keys are those whose last
      event is a delivery. */
  lemma {:induction false} RunAlternates(cfg: Config, start: Records, run: seq<Call>, scopeOf: string -> string)
    requires PossibleRun(cfg, start, run) && Scoped(start, scopeOf)
    requires forall c <- run :: ScopedBatch(c.batch, scopeOf)
    ensures ValidRecords(After(cfg, start, run)) && Scoped(After(cfg, start, run), scopeOf)
    ensures Trace(start.Keys, History(cfg, start, run)) == Some(After(cfg, start, run).Keys)
  {
    if run != [] {
      var front, last := run[..|run| - 1], run[|run| - 1];
      assert last in run && forall c <- front :: c in run;
      RunAlternates(cfg, start, front, scopeOf);
      var before := After(cfg, start, front);
      ReconciledValid(cfg, before, last.batch, last.answers);
      ScopedKept(cfg, before, last.batch, last.answers, scopeOf);
      CallAlternates(cfg, before, last.batch, last.answers);
      TraceSplit(start.Keys, History(cfg, start, front), CallMarks(cfg, before, last.batch, last.answers));
    }
  }
}
