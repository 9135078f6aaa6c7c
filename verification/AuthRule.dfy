/** From the list of credential files to keyed conditions (Auth and its helpers in
    internal/rule/rule.go). */
module AuthRule {
  import opened Text
  import opened RuleTypes
  import AlertModel
  import R = Rule

  datatype AuthFile = AuthFile(authIndex: string, email: string, account: string, name: string, provider: string,
                               kind: string, status: string, statusMessage: string, disabled: bool, unavailable: bool)

  // ---------- one entry ----------

  const QUOTA_KEYWORDS := ["quota", "usage limit", "limit reached", "exhausted", "\U{989D}\U{5EA6}", "\U{9650}\U{989D}"]

  predicate Contains(s: string, part: string) {
    part <= s || (s != "" && Contains(s[1..], part))
  }

  lemma {:induction false} ContainsMiddle(a: string, part: string, b: string)
    ensures Contains(a + part + b, part)
  {
    var s := a + part + b;
    if a == "" {
      assert s == part + b;
    } else {
      assert s[1..] == a[1..] + part + b;
      ContainsMiddle(a[1..], part, b);
    }
  }

  lemma {:induction false} ContainsPlace(s: string, part: string) returns (a: string, b: string)
    requires Contains(s, part)
    ensures s == a + part + b
  {
    if part <= s {
      a, b := "", s[|part|..];
    } else {
      a, b := ContainsPlace(s[1..], part);
      FirstRest(s);
      a := [s[0]] + a;
    }
  }

  /** strings.Contains: the part occurs somewhere. */
  lemma ContainsExactly(s: string, part: string)
    ensures Contains(s, part) <==> exists a, b :: s == a + part + b
  {
    if Contains(s, part) { var a, b := ContainsPlace(s, part); }
    if a, b :| s == a + part + b { ContainsMiddle(a, part, b); }
  }

  predicate QuotaLike(lowered: string) {
    exists k :: 0 <= k < |QUOTA_KEYWORDS| && Contains(lowered, QUOTA_KEYWORDS[k])
  }

  /** A message is quota-like exactly when some keyword occurs somewhere in it. */
  lemma QuotaExactly(lowered: string)
    ensures QuotaLike(lowered) <==> exists k, a, b :: 0 <= k < |QUOTA_KEYWORDS| && lowered == a + QUOTA_KEYWORDS[k] + b
  {
    if QuotaLike(lowered) {
      var k :| 0 <= k < |QUOTA_KEYWORDS| && Contains(lowered, QUOTA_KEYWORDS[k]);
      ContainsExactly(lowered, QUOTA_KEYWORDS[k]);
    }
    if k, a, b :| 0 <= k < |QUOTA_KEYWORDS| && lowered == a + QUOTA_KEYWORDS[k] + b {
      ContainsMiddle(a, QUOTA_KEYWORDS[k], b);
    }
  }

  /** For instance with any of these words in it. */
  lemma QuotaWords(word: string, a: string, b: string)
    requires word in ["quota", "usage limit", "limit reached", "exhausted", "\U{989D}\U{5EA6}", "\U{9650}\U{989D}"]
    ensures QuotaLike(a + word + b)
  {
    var k :| 0 <= k < |QUOTA_KEYWORDS| && QUOTA_KEYWORDS[k] == word;
    ContainsMiddle(a, word, b);
  }

  /** strings.EqualFold against an ASCII word without the letters k and s, the only
      ones with foldings outside ASCII. */
  predicate EqualFold(a: string, word: string) {
    |a| == |word| && forall i :: 0 <= i < |a| ==> LowerAscii(a[i]) == LowerAscii(word[i])
  }

  predicate Active(status: string) { TrimSpace(status) == "" || EqualFold(TrimSpace(status), "active") }

  /** An entry counts as active exactly when its status is blank or, apart from white
      space around it, the word in any mixture of cases. */
  lemma ActiveExactly(status: string)
    ensures var t := TrimSpace(status);
      && (t == "" ==> Active(status)) && (t != "" && |t| != 6 ==> !Active(status))
      && (|t| == 6 ==>
            (Active(status) <==> forall i :: 0 <= i < 6 ==> t[i] == "active"[i] || t[i] == "ACTIVE"[i]))
  {
    var t := TrimSpace(status);
    if |t| == 6 {
      forall i | 0 <= i < 6
        ensures LowerAscii(t[i]) == LowerAscii("active"[i]) <==> t[i] == "active"[i] || t[i] == "ACTIVE"[i]
      {
        SameLetter(t[i], "active"[i], "ACTIVE"[i]);
      }
    }
  }

  lemma SameLetter(c: char, small: char, capital: char)
    requires 'a' <= small <= 'z' && small as int == capital as int + 32
    ensures LowerAscii(c) == LowerAscii(small) <==> c == small || c == capital
  {
  }

  const UNAVAILABLE := "unavailable"
  const QUOTA := "quota-like status message"
  const NOT_ACTIVE := "non-active status"

  /** Why an entry is unhealthy; `lower` is strings.ToLower. */
  function Reasons(f: AuthFile, lower: string -> string): seq<string> {
    ReasonList(f.unavailable, !f.disabled && QuotaLike(lower(f.statusMessage)), !f.disabled && !Active(f.status))
  }

  function ReasonList(unavailable: bool, quota: bool, notActive: bool): seq<string> {
    (if unavailable then [UNAVAILABLE] else []) + (if quota then [QUOTA] else [])
    + (if notActive then [NOT_ACTIVE] else [])
  }

  /** The entry is available and, unless disabled, has an active or empty status and no
      quota keyword in its message. */
  predicate HealthyEntry(f: AuthFile, lower: string -> string) {
    !f.unavailable && (f.disabled || (Active(f.status) && !QuotaLike(lower(f.statusMessage))))
  }

  /** Each reason is listed exactly when it applies, once and in a fixed order, a disabled
      entry having only the first; no reason is left exactly for a healthy entry. */
  ghost predicate Explains(reasons: seq<string>, f: AuthFile, lower: string -> string) {
    && Listed(reasons, f.unavailable, !f.disabled && QuotaLike(lower(f.statusMessage)),
              !f.disabled && !Active(f.status))
    && (reasons == [] <==> HealthyEntry(f, lower))
  }

  ghost predicate Listed(reasons: seq<string>, unavailable: bool, quota: bool, notActive: bool) {
    && (UNAVAILABLE in reasons <==> unavailable) && (QUOTA in reasons <==> quota)
    && (NOT_ACTIVE in reasons <==> notActive)
    && (forall r <- reasons :: r == UNAVAILABLE || r == QUOTA || r == NOT_ACTIVE)
    && (forall i, j :: 0 <= i < j < |reasons| ==>
      reasons[i] != reasons[j] && reasons[i] != NOT_ACTIVE && reasons[j] != UNAVAILABLE)
  }

  lemma ReasonsDiffer()
    ensures UNAVAILABLE != QUOTA && UNAVAILABLE != NOT_ACTIVE && QUOTA != NOT_ACTIVE
  {
    assert UNAVAILABLE[0] == 'u' && QUOTA[0] == 'q' && NOT_ACTIVE[0] == 'n';
  }

  lemma ReasonsExplain(f: AuthFile, lower: string -> string)
    ensures Explains(Reasons(f, lower), f, lower)
  {
    ListExplains(f.unavailable, !f.disabled && QuotaLike(lower(f.statusMessage)), !f.disabled && !Active(f.status));
  }

  /** In plain words: what each reason says about the entry. */
  lemma ReasonsTell(f: AuthFile, lower: string -> string)
    ensures "unavailable" in Reasons(f, lower) <==> f.unavailable
    ensures "quota-like status message" in Reasons(f, lower) <==>
      !f.disabled && exists k, a, b ::
        0 <= k < |QUOTA_KEYWORDS| && lower(f.statusMessage) == a + QUOTA_KEYWORDS[k] + b
    ensures "non-active status" in Reasons(f, lower) <==>
      !f.disabled && TrimSpace(f.status) != "" && !EqualFold(TrimSpace(f.status), "active")
  {
    ReasonsExplain(f, lower);
    QuotaExactly(lower(f.statusMessage));
  }

  lemma ListExplains(a: bool, b: bool, c: bool)
    ensures Listed(ReasonList(a, b, c), a, b, c) && (ReasonList(a, b, c) == [] <==> !a && !b && !c)
  {
    ReasonsDiffer();
    ThreeOf(UNAVAILABLE, QUOTA, NOT_ACTIVE, a, b, c);
  }

  lemma ThreeOf(x: string, y: string, z: string, a: bool, b: bool, c: bool)
    requires x != y && x != z && y != z
    ensures var l := (if a then [x] else []) + (if b then [y] else []) + (if c then [z] else []);
      && (x in l <==> a) && (y in l <==> b) && (z in l <==> c) && (l == [] <==> !a && !b && !c)
      && (forall r <- l :: r == x || r == y || r == z)
      && (forall i, j :: 0 <= i < j < |l| ==> l[i] != l[j] && l[i] != z && l[j] != x)
  {
    var l := (if a then [x] else []) + (if b then [y] else []) + (if c then [z] else []);
    if a { assert l[0] == x; }
    if b { assert l[if a then 1 else 0] == y; }
    if c { assert l[|l| - 1] == z; }
  }

  method AuthReasons(f: AuthFile, lower: string -> string) returns (reasons: seq<string>)
    ensures Explains(reasons, f, lower)
    ensures reasons == Reasons(f, lower)
  {
    reasons := [];
    if f.unavailable { reasons := reasons + [UNAVAILABLE]; }
    if f.disabled {
      ReasonsExplain(f, lower);
      return;
    }
    var quota := ContainsQuotaKeyword(lower(f.statusMessage));
    if quota { reasons := reasons + [QUOTA]; }
    var status := TrimSpace(f.status);
    if status != "" && !EqualFold(status, "active") { reasons := reasons + [NOT_ACTIVE]; }
    ReasonsExplain(f, lower);
  }

  method ContainsQuotaKeyword(lowered: string) returns (found: bool)
    ensures found <==> QuotaLike(lowered)
    ensures found <==> exists k, a, b :: 0 <= k < |QUOTA_KEYWORDS| && lowered == a + QUOTA_KEYWORDS[k] + b
  {
    QuotaExactly(lowered);
    for k := 0 to |QUOTA_KEYWORDS|
      invariant forall j :: 0 <= j < k ==> !Contains(lowered, QUOTA_KEYWORDS[j])
    {
      if Contains(lowered, QUOTA_KEYWORDS[k]) { return true; }
    }
    return false;
  }

  // ---------- identity and condition ----------

  function FirstNonEmpty(values: seq<string>): string {
    if values == [] then "unknown"
    else if TrimSpace(values[0]) != "" then TrimSpace(values[0])
    else FirstNonEmpty(values[1..])
  }

  function JoinReasons(reasons: seq<string>): string {
    if |reasons| == 0 then "" else if |reasons| == 1 then reasons[0] else reasons[0] + ", " + JoinReasons(reasons[1..])
  }

  /** The first value that is not blank, without the white space around it. */
  lemma {:induction false} FirstNonEmptyExactly(values: seq<string>, i: nat)
    requires i <= |values| && forall j :: 0 <= j < i ==> Blank(values[j])
    ensures i == |values| ==> FirstNonEmpty(values) == "unknown"
    ensures i < |values| && !Blank(values[i]) ==> FirstNonEmpty(values) == TrimSpace(values[i])
  {
    if i > 0 { FirstNonEmptyExactly(values[1..], i - 1); }
  }

  /** The reasons one after the other, separated by a comma and a space. */
  lemma JoinReasonsExactly(a: string, b: string, c: string)
    ensures JoinReasons([]) == "" && JoinReasons([a]) == a && JoinReasons([a, b]) == a + ", " + b
    ensures JoinReasons([a, b, c]) == a + ", " + b + ", " + c
  {
    assert [a, b, c][1..] == [b, c] && [a, b][1..] == [b] && [b, c][1..] == [c];
    assert JoinReasons([b, c]) == b + ", " + c;
    assert a + ", " + (b + ", " + c) == a + ", " + b + ", " + c;
  }

  function Bool(b: bool): string { if b then "true" else "false" }

  function AuthKey(index: string): string { R.AUTH_PREFIX + index }

  function AuthCondition(f: AuthFile, index: string, reasons: seq<string>): Condition {
    var current := JoinReasons(reasons);
    Condition(AuthKey(index), SCOPE_AUTH, "auth " + FirstNonEmpty([f.email, f.account, f.name, index]) + " " + current,
              current, "active and available", AuthDetails(f, index, current))
  }

  function AuthDetails(f: AuthFile, index: string, reason: string): map<string, string> {
    map["kind" := "auth", "auth_index" := index, "name" := f.name, "provider" := f.provider, "type" := f.kind,
        "email" := f.email, "account" := f.account, "status" := f.status, "status_message" := f.statusMessage,
        "disabled" := Bool(f.disabled), "unavailable" := Bool(f.unavailable), "reason" := reason]
  }

  /** What a condition tells about its entry: who, why, and everything the list said. */
  lemma AuthConditionTells(f: AuthFile, index: string, reasons: seq<string>)
    ensures var c := AuthCondition(f, index, reasons);
      && c.key == "auth:" + index && c.scope == "auth"
      && c.current == JoinReasons(reasons) && c.threshold == "active and available"
      && c.summary == "auth " + FirstNonEmpty([f.email, f.account, f.name, index]) + " " + c.current
    ensures var d := AuthCondition(f, index, reasons).details;
      && d.Keys == {"kind", "auth_index", "name", "provider", "type", "email", "account", "status", "status_message",
                    "disabled", "unavailable", "reason"}
      && d["kind"] == "auth" && d["auth_index"] == index && d["reason"] == JoinReasons(reasons)
      && d["name"] == f.name && d["provider"] == f.provider && d["type"] == f.kind
      && d["email"] == f.email && d["account"] == f.account
      && d["status"] == f.status && d["status_message"] == f.statusMessage
      && (d["disabled"] == "true" <==> f.disabled) && (d["unavailable"] == "true" <==> f.unavailable)
  {
  }

  lemma AuthKeyScope(index: string)
    ensures R.ScopeOf(AuthKey(index)) == SCOPE_AUTH
  {
  }

  lemma AuthKeyInjective(a: string, b: string)
    requires AuthKey(a) == AuthKey(b)
    ensures a == b
  {
    assert a == AuthKey(a)[|R.AUTH_PREFIX|..] && b == AuthKey(b)[|R.AUTH_PREFIX|..];
  }

  // ---------- entries and their indexes ----------

  /** A credential file with its trimmed index and what is wrong with it. */
  datatype Entry = Entry(file: AuthFile, index: string, reasons: seq<string>)

  function EntryOf(f: AuthFile, lower: string -> string): Entry {
    Entry(f, TrimSpace(f.authIndex), Reasons(f, lower))
  }

  function Entries(files: seq<AuthFile>, lower: string -> string): (es: seq<Entry>)
    ensures |es| == |files| && forall i :: 0 <= i < |files| ==> es[i] == EntryOf(files[i], lower)
  {
    seq(|files|, i requires 0 <= i < |files| => EntryOf(files[i], lower))
  }

  lemma EntriesMore(files: seq<AuthFile>, i: nat, lower: string -> string)
    requires i < |files|
    ensures Entries(files[..i + 1], lower) == Entries(files[..i], lower) + [EntryOf(files[i], lower)]
  {
  }

  function Count(es: seq<Entry>, index: string): nat {
    if es == [] then 0
    else Count(es[..|es| - 1], index) + if es[|es| - 1].index == index then 1 else 0
  }

  /** No other entry has the same trimmed index. */
  ghost predicate Solo(es: seq<Entry>, i: nat)
    requires i < |es|
  {
    forall j: nat :: j < |es| && j != i ==> es[j].index != es[i].index
  }

  lemma {:induction false} CountNone(es: seq<Entry>, index: string)
    ensures Count(es, index) == 0 <==> forall j: nat :: j < |es| ==> es[j].index != index
  {
    if es != [] {
      var front := es[..|es| - 1];
      CountNone(front, index);
      assert forall j: nat :: j < |front| ==> es[j] == front[j];
    }
  }

  lemma {:induction false} CountOnce(es: seq<Entry>, i: nat)
    requires i < |es|
    ensures Count(es, es[i].index) >= 1
    ensures Count(es, es[i].index) == 1 <==> Solo(es, i)
  {
    var front, last := es[..|es| - 1], es[|es| - 1];
    assert forall j: nat :: j < |front| ==> es[j] == front[j];
    CountNone(front, es[i].index);
    if i < |front| {
      CountOnce(front, i);
      assert Solo(es, i) <==> Solo(front, i) && last.index != es[i].index;
    }
  }

  ghost predicate Counted(counts: map<string, nat>, es: seq<Entry>) {
    && (forall k :: k in counts <==> k != "" && Count(es, k) > 0)
    && (forall k <- counts :: counts[k] == Count(es, k))
  }

  lemma CountedMore(counts: map<string, nat>, es: seq<Entry>, e: Entry)
    requires Counted(counts, es)
    ensures e.index == "" ==> Counted(counts, es + [e])
    ensures e.index != "" ==>
      Counted(counts[e.index := (if e.index in counts then counts[e.index] else 0) + 1], es + [e])
  {
    assert (es + [e])[..|es|] == es;
  }

  lemma CountedAt(counts: map<string, nat>, es: seq<Entry>, i: nat)
    requires Counted(counts, es) && i < |es| && es[i].index != ""
    ensures es[i].index in counts && counts[es[i].index] == Count(es, es[i].index)
  {
    CountOnce(es, i);
  }

  // ---------- the batch ----------

  /** What one entry comes to. */
  datatype Finding = Healthy | Missing | Duplicate | Unhealthy

  function Find(e: Entry, count: nat): Finding {
    if e.index == "" then (if e.reasons == [] then Healthy else Missing)
    else if count > 1 then Duplicate
    else if e.reasons == [] then Healthy
    else Unhealthy
  }

  function FindingOf(es: seq<Entry>, i: nat): Finding
    requires i < |es|
  {
    Find(es[i], Count(es, es[i].index))
  }

  datatype Verdict = Verdict(complete: bool, errors: seq<EntryError>, byKey: map<string, Condition>)

  function Judge(v: Verdict, i: nat, e: Entry, finding: Finding): Verdict {
    match finding
    case Healthy => v
    case Missing => v.(complete := false, errors := v.errors + [MissingIndex(i + 1)])
    case Duplicate => v.(complete := false, errors := v.errors + [DuplicateIndex(i + 1, e.index)])
    case Unhealthy => v.(byKey := v.byKey[AuthKey(e.index) := AuthCondition(e.file, e.index, e.reasons)])
  }

  function Judged(es: seq<Entry>, n: nat): Verdict
    requires n <= |es|
  {
    if n == 0 then Verdict(true, [], map[])
    else Judge(Judged(es, n - 1), n - 1, es[n - 1], FindingOf(es, n - 1))
  }

  ghost function AuthBatch(es: seq<Entry>): Batch {
    var v := Judged(es, |es|);
    Batch(SCOPE_AUTH, v.complete, ValuesInOrder(v.byKey), v.errors)
  }

  /** The array of credential files becomes a batch; missing and duplicate indexes
      make it incomplete. */
  method Auth(files: seq<AuthFile>, lower: string -> string) returns (b: Batch)
    ensures b == AuthBatch(Entries(files, lower))
    ensures R.WellFormed(b)
  {
    var es, counts := Survey(files, lower);
    var verdict := Evaluate(es, counts);
    JudgedKeyed(es, |es|);
    var conditions := R.SortedConditions(verdict.byKey);
    b := Batch(SCOPE_AUTH, verdict.complete, conditions, verdict.errors);
    AuthWellFormed(es);
  }

  lemma AuthWellFormed(es: seq<Entry>)
    ensures R.WellFormed(AuthBatch(es))
  {
    JudgedKeyed(es, |es|);
    JudgedComplete(es, |es|);
    R.MapBatchWellFormed(AuthBatch(es), Judged(es, |es|).byKey);
  }

  method Survey(files: seq<AuthFile>, lower: string -> string) returns (es: seq<Entry>, counts: map<string, nat>)
    ensures es == Entries(files, lower) && Counted(counts, es)
  {
    es, counts := [], map[];
    for i := 0 to |files|
      invariant es == Entries(files[..i], lower) && Counted(counts, es)
    {
      var e := ReadEntry(files[i], lower);
      CountedMore(counts, es, e);
      EntriesMore(files, i, lower);
      es := es + [e];
      if e.index != "" { counts := counts[e.index := (if e.index in counts then counts[e.index] else 0) + 1]; }
    }
    assert files[..|files|] == files;
  }

  method ReadEntry(f: AuthFile, lower: string -> string) returns (e: Entry)
    ensures e == EntryOf(f, lower)
  {
    var reasons := AuthReasons(f, lower);
    e := Entry(f, TrimSpace(f.authIndex), reasons);
  }

  method Evaluate(es: seq<Entry>, counts: map<string, nat>) returns (v: Verdict)
    requires Counted(counts, es)
    ensures v == Judged(es, |es|)
  {
    v := Verdict(true, [], map[]);
    for i := 0 to |es|
      invariant v == Judged(es, i)
    {
      if es[i].index != "" { CountedAt(counts, es, i); }
      JudgedNext(es, i);
      v := EvaluateEntry(v, i, es[i], counts, Count(es, es[i].index));
    }
  }

  lemma JudgedNext(es: seq<Entry>, n: nat)
    requires n < |es|
    ensures Judged(es, n + 1) == Judge(Judged(es, n), n, es[n], Find(es[n], Count(es, es[n].index)))
  {
  }

  method EvaluateEntry(v: Verdict, i: nat, e: Entry, counts: map<string, nat>, ghost count: nat) returns (r: Verdict)
    requires e.index != "" ==> e.index in counts && counts[e.index] == count
    ensures r == Judge(v, i, e, Find(e, count))
  {
    if e.index == "" {
      if |e.reasons| == 0 { return v; }
      return v.(complete := false, errors := v.errors + [MissingIndex(i + 1)]);
    }
    if counts[e.index] > 1 {
      return v.(complete := false, errors := v.errors + [DuplicateIndex(i + 1, e.index)]);
    }
    if |e.reasons| == 0 { return v; }
    return v.(byKey := v.byKey[AuthKey(e.index) := AuthCondition(e.file, e.index, e.reasons)]);
  }

  // ---------- what the batch says ----------

  /** Entry i is unhealthy under an index of its own. */
  ghost predicate Reported(es: seq<Entry>, i: nat)
    requires i < |es|
  {
    es[i].index != "" && Solo(es, i) && es[i].reasons != []
  }

  /** Entry i cannot be judged: unhealthy without an index, or sharing one. */
  ghost predicate Unusable(es: seq<Entry>, i: nat)
    requires i < |es|
  {
    if es[i].index == "" then es[i].reasons != [] else !Solo(es, i)
  }

  lemma FindingExactly(es: seq<Entry>, i: nat)
    requires i < |es|
    ensures FindingOf(es, i).Unhealthy? <==> Reported(es, i)
    ensures FindingOf(es, i).Missing? || FindingOf(es, i).Duplicate? <==> Unusable(es, i)
  {
    CountOnce(es, i);
  }

  lemma JudgeKeyed(v: Verdict, i: nat, e: Entry, finding: Finding)
    requires KeyedBy(ConditionKey, v.byKey) && forall k <- v.byKey :: v.byKey[k].scope == SCOPE_AUTH == R.ScopeOf(k)
    ensures var m := Judge(v, i, e, finding).byKey;
      KeyedBy(ConditionKey, m) && forall k <- m :: m[k].scope == SCOPE_AUTH == R.ScopeOf(k)
  {
    if finding.Unhealthy? { AuthKeyScope(e.index); }
  }

  lemma {:induction false} JudgedKeyed(es: seq<Entry>, n: nat)
    requires n <= |es|
    ensures var m := Judged(es, n).byKey;
      KeyedBy(ConditionKey, m) && forall k <- m :: m[k].scope == SCOPE_AUTH == R.ScopeOf(k)
  {
    if n > 0 {
      JudgedKeyed(es, n - 1);
      JudgeKeyed(Judged(es, n - 1), n - 1, es[n - 1], FindingOf(es, n - 1));
    }
  }

  lemma {:induction false} JudgedComplete(es: seq<Entry>, n: nat)
    requires n <= |es|
    ensures Judged(es, n).complete <==> Judged(es, n).errors == []
    ensures Judged(es, n).complete <==> forall i: nat :: i < n ==> !Unusable(es, i)
  {
    if n > 0 {
      JudgedComplete(es, n - 1);
      JudgedNext(es, n - 1);
      FindingExactly(es, n - 1);
      JudgeComplete(Judged(es, n - 1), n - 1, es[n - 1], FindingOf(es, n - 1));
      assert Judged(es, n).complete <==> Judged(es, n - 1).complete && !Unusable(es, n - 1);
    }
  }

  function ErrorFor(e: Entry, i: nat): EntryError {
    if e.index == "" then MissingIndex(i + 1) else DuplicateIndex(i + 1, e.index)
  }

  /** The errors are those of the entries that cannot be judged, each with its
      position. */
  lemma {:induction false} JudgedErrors(es: seq<Entry>, n: nat)
    requires n <= |es|
    ensures forall e :: e in Judged(es, n).errors <==> exists i: nat ::
      i < n && Unusable(es, i) && e == ErrorFor(es[i], i)
  {
    if n > 0 {
      JudgedErrors(es, n - 1);
      FindingExactly(es, n - 1);
      JudgeErrors(Judged(es, n - 1), n - 1, es[n - 1], FindingOf(es, n - 1));
    }
  }

  lemma JudgeErrors(v: Verdict, i: nat, e: Entry, finding: Finding)
    requires finding.Missing? ==> e.index == ""
    requires finding.Duplicate? ==> e.index != ""
    ensures Judge(v, i, e, finding).errors
         == v.errors + if finding.Missing? || finding.Duplicate? then [ErrorFor(e, i)] else []
  {
  }

  lemma JudgeComplete(v: Verdict, i: nat, e: Entry, finding: Finding)
    requires v.complete <==> v.errors == []
    ensures var r := Judge(v, i, e, finding);
      && (r.complete <==> r.errors == [])
      && (r.complete <==> v.complete && !finding.Missing? && !finding.Duplicate?)
  {
  }

  /** Every key is that of an entry reported, and every entry reported has its key. */
  lemma {:induction false} JudgedKeys(es: seq<Entry>, n: nat)
    requires n <= |es|
    ensures forall k :: k in Judged(es, n).byKey.Keys <==> exists i: nat ::
      i < n && Reported(es, i) && k == AuthKey(es[i].index)
  {
    if n > 0 {
      JudgedKeys(es, n - 1);
      FindingExactly(es, n - 1);
      JudgeKeys(Judged(es, n - 1), n - 1, es[n - 1], FindingOf(es, n - 1));
    }
  }

  lemma JudgeKeys(v: Verdict, i: nat, e: Entry, finding: Finding)
    ensures Judge(v, i, e, finding).byKey.Keys
         == v.byKey.Keys + if finding.Unhealthy? then {AuthKey(e.index)} else {}
  {
  }

  /** The condition under a key is that of the one entry with that index. */
  lemma {:induction false} JudgedCondition(es: seq<Entry>, n: nat, i: nat)
    requires i < n <= |es| && Reported(es, i)
    ensures var e := es[i];
      && AuthKey(e.index) in Judged(es, n).byKey
      && Judged(es, n).byKey[AuthKey(e.index)] == AuthCondition(e.file, e.index, e.reasons)
  {
    FindingExactly(es, n - 1);
    if i < n - 1 {
      JudgedCondition(es, n - 1, i);
      JudgeOther(Judged(es, n - 1), n - 1, es[n - 1], FindingOf(es, n - 1), es[i].index);
    }
  }

  lemma JudgeOther(v: Verdict, i: nat, e: Entry, finding: Finding, index: string)
    requires AuthKey(index) in v.byKey && e.index != index
    ensures var m := Judge(v, i, e, finding).byKey;
      AuthKey(index) in m && m[AuthKey(index)] == v.byKey[AuthKey(index)]
  {
    if AuthKey(e.index) == AuthKey(index) { AuthKeyInjective(e.index, index); }
  }

  /** What a batch of credential files says: its keys are exactly those of the
      entries that are unhealthy under an index of their own, each with that
      entry's condition, and it is complete exactly when every entry could be
      judged; the others are its errors. */
  lemma AuthExact(es: seq<Entry>)
    ensures var m := AlertModel.ByKey(AuthBatch(es).conditions);
      && (forall k :: k in m.Keys <==> exists i: nat :: i < |es| && Reported(es, i) && k == AuthKey(es[i].index))
      && (forall i: nat :: i < |es| && Reported(es, i) ==>
            AuthKey(es[i].index) in m && m[AuthKey(es[i].index)] == AuthCondition(es[i].file, es[i].index,
              es[i].reasons))
    ensures AuthBatch(es).complete <==> AuthBatch(es).errors == []
    ensures AuthBatch(es).complete <==> forall i: nat :: i < |es| ==> !Unusable(es, i)
    ensures forall e :: e in AuthBatch(es).errors <==> exists i: nat ::
      i < |es| && Unusable(es, i) && e == ErrorFor(es[i], i)
  {
    JudgedErrors(es, |es|);
    JudgedKeyed(es, |es|);
    JudgedKeys(es, |es|);
    JudgedComplete(es, |es|);
    R.MapBatchWellFormed(AuthBatch(es), Judged(es, |es|).byKey);
    forall i: nat | i < |es| && Reported(es, i)
      ensures AuthKey(es[i].index) in Judged(es, |es|).byKey
      ensures Judged(es, |es|).byKey[AuthKey(es[i].index)] == AuthCondition(es[i].file, es[i].index, es[i].reasons)
    {
      JudgedCondition(es, |es|, i);
    }
  }

  /** A missing index is told with the position, counted from one, of an unhealthy entry
      without one; a duplicate with the position of every entry that shares it. */
  lemma AuthErrorsTell(es: seq<Entry>, i: nat)
    requires i < |es|
    ensures MissingIndex(i + 1) in AuthBatch(es).errors <==> es[i].index == "" && es[i].reasons != []
    ensures DuplicateIndex(i + 1, es[i].index) in AuthBatch(es).errors <==> es[i].index != "" && !Solo(es, i)
    ensures forall e <- AuthBatch(es).errors :: exists j: nat ::
      j < |es| && (e == MissingIndex(j + 1) || e == DuplicateIndex(j + 1, es[j].index))
  {
    AuthExact(es);
    assert Unusable(es, i) ==> ErrorFor(es[i], i) in AuthBatch(es).errors;
  }

  /** No unhealthy entry goes unnoticed: its key is present or the batch is
      incomplete. */
  lemma UnhealthyNoticed(es: seq<Entry>, i: nat)
    requires i < |es| && es[i].reasons != [] && AuthBatch(es).complete
    ensures es[i].index != "" && AuthKey(es[i].index) in AlertModel.ByKey(AuthBatch(es).conditions)
  {
    AuthExact(es);
    assert !Unusable(es, i);
    assert Reported(es, i);
  }

  /** When a complete batch lacks a key, every entry with that index is healthy, and
      so is every entry without an index. */
  lemma AbsentMeansHealthy(files: seq<AuthFile>, lower: string -> string, index: string)
    requires AuthBatch(Entries(files, lower)).complete
    requires AuthKey(index) !in AlertModel.ByKey(AuthBatch(Entries(files, lower)).conditions)
    ensures forall f <- files ::
      TrimSpace(f.authIndex) == index || TrimSpace(f.authIndex) == "" ==> Reasons(f, lower) == []
  {
    var es := Entries(files, lower);
    forall f | f in files && (TrimSpace(f.authIndex) == index || TrimSpace(f.authIndex) == "")
      ensures Reasons(f, lower) == []
    {
      var i :| 0 <= i < |files| && files[i] == f;
      if es[i].reasons != [] { UnhealthyNoticed(es, i); }
    }
  }
}
