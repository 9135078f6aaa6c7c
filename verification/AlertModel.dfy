/** What one reconciliation does (internal/alerter/manager.go), as a function of
    the stored records, the batch and the answers of the environment. */
module AlertModel {
  import opened Text
  import opened State
  import opened RuleTypes
  import N = Notification
  import Details

  datatype Config = Config(hostname: string, baseUrl: string, sendRecovery: bool)

  /** The clock reading of a delivery and whether it was accepted. */
  datatype Reply = Reply(timestamp: int, delivered: bool)

  type Records = map<string, Record>

  /** What `validate` demands of a batch. */
  ghost predicate ValidInput(cfg: Config, batch: Batch) {
    && !Blank(cfg.hostname) && !Blank(cfg.baseUrl) && !Blank(batch.scope)
    && (forall c <- batch.conditions :: !Blank(c.key) && c.scope == batch.scope)
    && Distinct(Keys(ConditionKey, batch.conditions))
  }

  function ByKey(conditions: seq<Condition>): map<string, Condition> {
    if conditions == [] then map[]
    else ByKey(conditions[..|conditions| - 1])[conditions[|conditions| - 1].key := conditions[|conditions| - 1]]
  }

  lemma {:induction false} ByKeyEnumerates(conditions: seq<Condition>)
    requires Distinct(Keys(ConditionKey, conditions))
    ensures Enumerates(ConditionKey, conditions, ByKey(conditions))
    ensures KeyedBy(ConditionKey, ByKey(conditions))
  {
    if conditions != [] {
      var front, last := conditions[..|conditions| - 1], conditions[|conditions| - 1];
      assert conditions == front + [last];
      KeysSnoc(ConditionKey, front, last);
      ByKeyEnumerates(front);
      InKeys(ConditionKey, front, last.key);
    }
  }

  /** Conditions whose key is not active in the batch's scope. */
  ghost function NewByKey(records: Records, batch: Batch): map<string, Condition> {
    map k | k in ByKey(batch.conditions) && k !in InScope(records, batch.scope) :: ByKey(batch.conditions)[k]
  }

  /** Active records of the scope that a complete batch no longer reports. */
  ghost function GoneByKey(records: Records, batch: Batch): Records {
    map k | batch.complete && k in InScope(records, batch.scope) && k !in ByKey(batch.conditions) :: records[k]
  }

  ghost function NewConditions(records: Records, batch: Batch): seq<Condition> {
    ValuesInOrder(NewByKey(records, batch))
  }

  ghost function Recovered(records: Records, batch: Batch): seq<Record> {
    ValuesInOrder(GoneByKey(records, batch))
  }

  // ---------- delivery groups ----------

  /** Accounts are delivered one by one, everything else in one batch. */
  function Groups<T>(scope: string, items: seq<T>): seq<seq<T>> {
    if items == [] then []
    else if scope != SCOPE_AUTH then [items]
    else seq(|items|, i requires 0 <= i < |items| => items[i..i + 1])
  }

  /** The group that delivers item i. */
  function GroupOf(scope: string, i: nat): nat { if scope == SCOPE_AUTH then i else 0 }

  function Flatten<T>(groups: seq<seq<T>>): seq<T> {
    if groups == [] then [] else Flatten(groups[..|groups| - 1]) + groups[|groups| - 1]
  }

  lemma {:induction false} FlattenSingletons<T>(items: seq<T>, groups: seq<seq<T>>)
    requires |groups| <= |items| && forall i :: 0 <= i < |groups| ==> groups[i] == items[i..i + 1]
    ensures Flatten(groups) == items[..|groups|]
  {
    if groups != [] {
      var n := |groups|;
      FlattenSingletons(items, groups[..n - 1]);
      assert items[..n] == items[..n - 1] + items[n - 1..n];
    }
  }

  /** The groups cut the sorted items into non-empty consecutive pieces. */
  lemma GroupsConcatenate<T>(scope: string, items: seq<T>)
    ensures Flatten(Groups(scope, items)) == items
    ensures forall g <- Groups(scope, items) :: g != [] && (scope == SCOPE_AUTH ==> |g| == 1)
    ensures scope != SCOPE_AUTH ==> |Groups(scope, items)| <= 1
  {
    if items != [] && scope == SCOPE_AUTH {
      FlattenSingletons(items, Groups(scope, items));
      assert items[..|items|] == items;
    } else if items != [] {
      assert [items][..0] == [];
      assert Flatten([items]) == Flatten([]) + items;
    }
  }

  /** Items covered by the first g groups. */
  function DoneAfter<T>(scope: string, items: seq<T>, g: nat): nat {
    if scope == SCOPE_AUTH then g else if g == 0 then 0 else |items|
  }

  lemma GroupSlice<T>(scope: string, items: seq<T>, g: nat)
    requires g <= |Groups(scope, items)|
    ensures DoneAfter(scope, items, g) <= |items|
    ensures forall i: nat :: i < DoneAfter(scope, items, g) ==> GroupOf(scope, i) < g
    ensures g == |Groups(scope, items)| ==> DoneAfter(scope, items, g) == |items|
    ensures g < |Groups(scope, items)| ==>
      && DoneAfter(scope, items, g) <= DoneAfter(scope, items, g + 1) <= |items|
      && Groups(scope, items)[g] == items[DoneAfter(scope, items, g)..DoneAfter(scope, items, g + 1)]
      && forall i: nat :: DoneAfter(scope, items, g) <= i < DoneAfter(scope, items, g + 1) ==> GroupOf(scope, i) == g
  {
  }

  // ---------- messages ----------

  const ESCAPES := "0123456789ABCDEF"

  /** Control characters are written as escapes. */
  function SafeChar(c: char): string {
    if c == '\r' then "\\r" else if c == '\n' then "\\n" else if c == '\t' then "\\t"
    else if c < ' ' || c == '\U{7f}' then
      "\\u00" + [ESCAPES[c as int / 16], ESCAPES[c as int % 16]]
    else [c]
  }

  function HeaderSafe(s: string): string {
    if s == "" then "" else SafeChar(s[0]) + HeaderSafe(s[1..])
  }

  function ObjectName(summary: string, key: string): string {
    HeaderSafe(if Blank(summary) then key else summary)
  }

  lemma SafeCharPrintable(c: char)
    ensures forall x <- SafeChar(c) :: x >= ' ' && x != '\U{7f}'
  {
  }

  lemma {:induction false} HeaderSafePrintable(s: string)
    ensures forall c <- HeaderSafe(s) :: c >= ' ' && c != '\U{7f}'
  {
    if s != "" {
      SafeCharPrintable(s[0]);
      HeaderSafePrintable(s[1..]);
    }
  }

  /** Every character is escaped on its own, and only control characters are. */
  lemma {:induction false} HeaderSafeSum(a: string, b: string)
    ensures HeaderSafe(a + b) == HeaderSafe(a) + HeaderSafe(b)
  {
    if a == "" {
      EmptyFirst(b);
    } else {
      assert (a + b)[1..] == a[1..] + b;
      HeaderSafeSum(a[1..], b);
    }
  }

  predicate Printable(c: char) { c >= ' ' && c != '\U{7f}' }

  lemma {:induction false} HeaderSafePlain(s: string)
    requires forall c <- s :: Printable(c)
    ensures HeaderSafe(s) == s
  {
    if s != "" {
      assert s[0] in s;
      HeaderSafePlain(s[1..]);
      FirstRest(s);
    }
  }

  /** The value of an upper-case hexadecimal digit. */
  function HexValue(c: char): int { if c <= '9' then c as int - '0' as int else c as int - 'A' as int + 10 }

  lemma HexDigit(d: nat)
    requires d < 16
    ensures HexValue(ESCAPES[d]) == d
  {
  }

  /** What stands for a control character: a letter escape or its code in four
      hexadecimal digits. */
  lemma SafeCharExactly(c: char)
    ensures SafeChar('\r') == "\\r" && SafeChar('\n') == "\\n" && SafeChar('\t') == "\\t"
    ensures !Printable(c) && c !in "\r\n\t" ==>
      |SafeChar(c)| == 6 && SafeChar(c)[..4] == "\\u00"
      && 16 * HexValue(SafeChar(c)[4]) + HexValue(SafeChar(c)[5]) == c as int
    ensures HeaderSafe([c]) == SafeChar(c)
  {
    EmptyFirst(SafeChar(c));
    assert [c][1..] == "";
    if !Printable(c) && c !in "\r\n\t" { CodeShown(c); }
  }

  lemma CodeShown(c: char)
    requires !Printable(c) && c != '\r' && c != '\n' && c != '\t'
    ensures |SafeChar(c)| == 6 && SafeChar(c)[..4] == "\\u00"
    ensures 16 * HexValue(SafeChar(c)[4]) + HexValue(SafeChar(c)[5]) == c as int
  {
    HexDigit(c as int / 16);
    HexDigit(c as int % 16);
    HeadTail("\\u00", [ESCAPES[c as int / 16], ESCAPES[c as int % 16]]);
  }

  /** An object is named by the summary, and by the key only if there is none. */
  lemma ObjectNameExactly(summary: string, key: string)
    ensures !Blank(summary) && (forall c <- summary :: Printable(c)) ==> ObjectName(summary, key) == summary
    ensures Blank(summary) && (forall c <- key :: Printable(c)) ==> ObjectName(summary, key) == key
    ensures forall c <- ObjectName(summary, key) :: Printable(c)
  {
    var name := if Blank(summary) then key else summary;
    HeaderSafePrintable(name);
    if forall c <- name :: Printable(c) { HeaderSafePlain(name); }
  }

  ghost function AlertEvent(cfg: Config, c: Condition, t: int): N.Event {
    N.Event(N.Alert, c.scope, ObjectName(c.summary, c.key), cfg.hostname, t, c.key, c.current, c.threshold,
            Details.DetailsText(c.details), cfg.baseUrl)
  }

  ghost function RecoveryEvent(cfg: Config, r: Record, t: int): N.Event {
    N.Event(N.Recovery, r.scope, ObjectName(r.summary, r.key) + " recovered", cfg.hostname, t, r.key, "recovered",
            r.threshold, Details.DetailsText(r.details), cfg.baseUrl)
  }

  ghost function AlertBatch(cfg: Config, scope: string, group: seq<Condition>, t: int): N.Batch {
    N.Batch(N.Alert, scope, cfg.hostname, t, seq(|group|, i requires 0 <= i < |group| => AlertEvent(cfg, group[i], t)))
  }

  ghost function RecoveryBatch(cfg: Config, scope: string, group: seq<Record>, t: int): N.Batch {
    N.Batch(N.Recovery, scope, cfg.hostname, t,
      seq(|group|, i requires 0 <= i < |group| => RecoveryEvent(cfg, group[i], t)))
  }

  // ---------- effect on the records ----------

  function RecordFrom(c: Condition, t: int): Record {
    Record(c.key, c.scope, c.summary, c.current, c.threshold, c.details, t)
  }

  /** The first n conditions, each stored if its group was delivered. */
  ghost function Activate(records: Records, items: seq<Condition>, scope: string, replies: seq<Reply>, n: nat): Records
    requires n <= |items| && Covers(scope, n, replies)
  {
    if n == 0 then records
    else
      var before := Activate(records, items, scope, replies, n - 1);
      var reply := replies[GroupOf(scope, n - 1)];
      if reply.delivered then before[items[n - 1].key := RecordFrom(items[n - 1], reply.timestamp)] else before
  }

  /** The first n records, each removed if its group was delivered. */
  ghost function Retire(records: Records, items: seq<Record>, scope: string, replies: seq<Reply>, n: nat): Records
    requires n <= |items| && Covers(scope, n, replies)
  {
    if n == 0 then records
    else
      var before := Retire(records, items, scope, replies, n - 1);
      if replies[GroupOf(scope, n - 1)].delivered then before - {items[n - 1].key} else before
  }

  /** Answers to every group of a reconciliation; with recoveries switched off
      nothing is sent for them and they count as delivered. */
  datatype Answers = Answers(alerts: seq<Reply>, recoveries: seq<Reply>)

  datatype Call = Call(batch: Batch, answers: Answers)

  ghost predicate Answered(cfg: Config, records: Records, batch: Batch, a: Answers) {
    && |a.alerts| == |Groups(batch.scope, NewConditions(records, batch))|
    && |a.recoveries| == |Groups(batch.scope, Recovered(records, batch))|
    && (!cfg.sendRecovery ==> forall r <- a.recoveries :: r.delivered)
  }

  /** The records after a reconciliation. */
  ghost function Reconciled(cfg: Config, records: Records, batch: Batch, a: Answers): Records
    requires Answered(cfg, records, batch, a)
  {
    var added, gone := NewConditions(records, batch), Recovered(records, batch);
    GroupSlice(batch.scope, added, |a.alerts|);
    GroupSlice(batch.scope, gone, |a.recoveries|);
    Retire(Activate(records, added, batch.scope, a.alerts, |added|), gone, batch.scope, a.recoveries, |gone|)
  }

  /** The batches handed to the sender, in order, with their outcomes. */
  ghost function Attempts(cfg: Config, records: Records, batch: Batch, a: Answers): seq<N.Attempt>
    requires Answered(cfg, records, batch, a)
  {
    AlertAttempts(cfg, batch.scope, Groups(batch.scope, NewConditions(records, batch)), a.alerts)
    + if cfg.sendRecovery then RecoveryAttempts(cfg, batch.scope, Groups(batch.scope, Recovered(records, batch)),
      a.recoveries)
      else []
  }

  ghost function AlertAttempts(cfg: Config, scope: string, groups: seq<seq<Condition>>,
                               replies: seq<Reply>): seq<N.Attempt>
    requires |replies| <= |groups|
  {
    seq(|replies|, i requires 0 <= i < |replies| =>
      N.Attempt(AlertBatch(cfg, scope, groups[i], replies[i].timestamp), replies[i].delivered))
  }

  ghost function RecoveryAttempts(cfg: Config, scope: string, groups: seq<seq<Record>>,
                                  replies: seq<Reply>): seq<N.Attempt>
    requires |replies| <= |groups|
  {
    seq(|replies|, i requires 0 <= i < |replies| =>
      N.Attempt(RecoveryBatch(cfg, scope, groups[i], replies[i].timestamp), replies[i].delivered))
  }

  lemma AlertLogged(log: seq<N.Attempt>, cfg: Config, scope: string, groups: seq<seq<Condition>>, replies: seq<Reply>,
                    r: Reply)
    requires |replies| < |groups|
    ensures log + AlertAttempts(cfg, scope, groups, replies)
            + [N.Attempt(AlertBatch(cfg, scope, groups[|replies|], r.timestamp), r.delivered)]
         == log + AlertAttempts(cfg, scope, groups, replies + [r])
  {
  }

  lemma RecoveryLogged(log: seq<N.Attempt>, cfg: Config, scope: string, groups: seq<seq<Record>>, replies: seq<Reply>,
                       r: Reply)
    requires |replies| < |groups|
    ensures log + RecoveryAttempts(cfg, scope, groups, replies)
            + [N.Attempt(RecoveryBatch(cfg, scope, groups[|replies|], r.timestamp), r.delivered)]
         == log + RecoveryAttempts(cfg, scope, groups, replies + [r])
  {
  }

  ghost predicate AllDelivered(a: Answers) {
    (forall r <- a.alerts :: r.delivered) && (forall r <- a.recoveries :: r.delivered)
  }

  ghost predicate Covers(scope: string, n: nat, replies: seq<Reply>) {
    forall i: nat :: i < n ==> GroupOf(scope, i) < |replies|
  }

  /** Later answers do not change earlier items. */
  lemma {:induction false} ActivateStable(records: Records, items: seq<Condition>, scope: string, replies: seq<Reply>,
                                          r: Reply, n: nat)
    requires n <= |items| && Covers(scope, n, replies)
    ensures Activate(records, items, scope, replies + [r], n) == Activate(records, items, scope, replies, n)
  {
    if n > 0 { ActivateStable(records, items, scope, replies, r, n - 1); }
  }

  lemma {:induction false} RetireStable(records: Records, items: seq<Record>, scope: string, replies: seq<Reply>,
                                        r: Reply, n: nat)
    requires n <= |items| && Covers(scope, n, replies)
    ensures Retire(records, items, scope, replies + [r], n) == Retire(records, items, scope, replies, n)
  {
    if n > 0 { RetireStable(records, items, scope, replies, r, n - 1); }
  }

  /** A refused group changes nothing. */
  lemma {:induction false} ActivateRefused(records: Records, items: seq<Condition>, scope: string, replies: seq<Reply>,
                                           m: nat, n: nat)
    requires m <= n <= |items| && Covers(scope, n, replies)
    requires forall i: nat :: m <= i < n ==> !replies[GroupOf(scope, i)].delivered
    ensures Activate(records, items, scope, replies, n) == Activate(records, items, scope, replies, m)
  {
    if m < n { ActivateRefused(records, items, scope, replies, m, n - 1); }
  }

  lemma {:induction false} RetireRefused(records: Records, items: seq<Record>, scope: string, replies: seq<Reply>,
                                         m: nat, n: nat)
    requires m <= n <= |items| && Covers(scope, n, replies)
    requires forall i: nat :: m <= i < n ==> !replies[GroupOf(scope, i)].delivered
    ensures Retire(records, items, scope, replies, n) == Retire(records, items, scope, replies, m)
  {
    if m < n { RetireRefused(records, items, scope, replies, m, n - 1); }
  }

  /** How one more answered group extends the result. */
  lemma AlertGroupStep(before: Records, items: seq<Condition>, scope: string, replies: seq<Reply>, r: Reply)
    requires |replies| < |Groups(scope, items)|
    ensures var n, m := DoneAfter(scope, items, |replies|), DoneAfter(scope, items, |replies| + 1);
      && n <= m <= |items| && Groups(scope, items)[|replies|] == items[n..m]
      && Covers(scope, n, replies) && Covers(scope, m, replies + [r])
      && (forall i: nat :: n <= i < m ==> (replies + [r])[GroupOf(scope, i)] == r)
      && Activate(before, items, scope, replies + [r], n) == Activate(before, items, scope, replies, n)
      && (!r.delivered ==>
            Activate(before, items, scope, replies + [r], m) == Activate(before, items, scope, replies, n))
  {
    var n, m := DoneAfter(scope, items, |replies|), DoneAfter(scope, items, |replies| + 1);
    GroupSlice(scope, items, |replies|);
    GroupSlice(scope, items, |replies| + 1);
    ActivateStable(before, items, scope, replies, r, n);
    if !r.delivered { ActivateRefused(before, items, scope, replies + [r], n, m); }
  }

  lemma RecoveryGroupStep(before: Records, items: seq<Record>, scope: string, replies: seq<Reply>, r: Reply)
    requires |replies| < |Groups(scope, items)|
    ensures var n, m := DoneAfter(scope, items, |replies|), DoneAfter(scope, items, |replies| + 1);
      && n < m <= |items| && Groups(scope, items)[|replies|] == items[n..m]
      && Covers(scope, n, replies) && Covers(scope, m, replies + [r])
      && (forall i: nat :: n <= i < m ==> (replies + [r])[GroupOf(scope, i)] == r)
      && Retire(before, items, scope, replies + [r], n) == Retire(before, items, scope, replies, n)
      && (!r.delivered ==> Retire(before, items, scope, replies + [r], m) == Retire(before, items, scope, replies, n))
  {
    var n, m := DoneAfter(scope, items, |replies|), DoneAfter(scope, items, |replies| + 1);
    GroupSlice(scope, items, |replies|);
    GroupSlice(scope, items, |replies| + 1);
    RetireStable(before, items, scope, replies, r, n);
    if !r.delivered { RetireRefused(before, items, scope, replies + [r], n, m); }
  }

  // ---------- what happens to one key ----------

  lemma {:induction false} ActivateAt(records: Records, items: seq<Condition>, scope: string, replies: seq<Reply>,
                                      n: nat, k: string)
    requires n <= |items| && Distinct(Keys(ConditionKey, items))
    requires Covers(scope, n, replies)
    ensures var after := Activate(records, items, scope, replies, n);
      && (forall i: nat :: i < n && items[i].key == k && replies[GroupOf(scope, i)].delivered ==>
            k in after && after[k] == RecordFrom(items[i], replies[GroupOf(scope, i)].timestamp))
      && ((forall i: nat :: i < n && items[i].key == k ==> !replies[GroupOf(scope, i)].delivered) ==>
            (k in after <==> k in records) && (k in after ==> after[k] == records[k]))
  {
    if n > 0 {
      ActivateAt(records, items, scope, replies, n - 1, k);
      var ks := Keys(ConditionKey, items);
      forall i | 0 <= i < n - 1 ensures items[i].key != items[n - 1].key {
        assert ks[i] == ConditionKey(items[i]) && ks[n - 1] == ConditionKey(items[n - 1]);
      }
    }
  }

  lemma {:induction false} RetireAt(records: Records, items: seq<Record>, scope: string, replies: seq<Reply>, n: nat,
                                    k: string)
    requires n <= |items|
    requires Covers(scope, n, replies)
    ensures var after := Retire(records, items, scope, replies, n);
      && (k in after <==>
            k in records && forall i: nat :: i < n && items[i].key == k ==> !replies[GroupOf(scope, i)].delivered)
      && (k in after ==> after[k] == records[k])
  {
    if n > 0 { RetireAt(records, items, scope, replies, n - 1, k); }
  }

  lemma ActivateItem(records: Records, items: seq<Condition>, scope: string, replies: seq<Reply>, i: nat)
    requires i < |items| && Distinct(Keys(ConditionKey, items)) && Covers(scope, |items|, replies)
    ensures var after, reply, k := Activate(records, items, scope, replies, |items|), replies[GroupOf(scope, i)],
      items[i].key;
      if reply.delivered then k in after && after[k] == RecordFrom(items[i], reply.timestamp)
      else (k in after <==> k in records) && (k in after ==> after[k] == records[k])
  {
    ActivateAt(records, items, scope, replies, |items|, items[i].key);
    DistinctPosition(ConditionKey, items, i);
    forall j: nat | j < |items| && items[j].key == items[i].key ensures j == i {
      assert ConditionKey(items[j]) == ConditionKey(items[i]);
    }
  }

  lemma RetireItem(records: Records, items: seq<Record>, scope: string, replies: seq<Reply>, i: nat)
    requires i < |items| && Distinct(Keys(KeyOf, items)) && Covers(scope, |items|, replies)
    ensures var after, k := Retire(records, items, scope, replies, |items|), items[i].key;
      if replies[GroupOf(scope, i)].delivered then k !in after
      else (k in after <==> k in records) && (k in after ==> after[k] == records[k])
  {
    RetireAt(records, items, scope, replies, |items|, items[i].key);
    DistinctPosition(KeyOf, items, i);
    forall j: nat | j < |items| && items[j].key == items[i].key ensures j == i {
      assert KeyOf(items[j]) == KeyOf(items[i]);
    }
  }
}
