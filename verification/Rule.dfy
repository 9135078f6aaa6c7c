/** From facts to keyed conditions (internal/rule/rule.go). */
module Rule {
  import opened Text
  import opened RuleTypes
  import opened Decimal
  import AlertModel
  import Disk
  import State

  // ---------- scopes and keys ----------

  const DISK_PREFIX := "resource:disk:"
  const AUTH_PREFIX := "auth:"
  const NETWORK_PREFIX := "network:"
  const MEMORY_KEY := "resource:memory"
  const HEALTH_KEY := "health:cliproxy_down"
  const TOTAL_KEY := "network:total_tcp"

  /** The scope a key belongs to, read off its prefix. */
  function ScopeOf(key: string): string {
    if AUTH_PREFIX <= key then SCOPE_AUTH
    else if DISK_PREFIX <= key then SCOPE_DISK
    else if NETWORK_PREFIX <= key then SCOPE_NETWORK
    else if key == MEMORY_KEY then SCOPE_MEMORY
    else if key == HEALTH_KEY then SCOPE_HEALTH
    else ""
  }

  /** What every batch of this module meets: keys not blank and of the batch's
      scope, each once, and errors only in incomplete batches. */
  ghost predicate WellFormed(b: Batch) {
    && (forall c <- b.conditions :: c.scope == b.scope == ScopeOf(c.key) && !Blank(c.key))
    && Distinct(Keys(ConditionKey, b.conditions))
    && (b.errors != [] ==> !b.complete)
    && b.scope in {SCOPE_HEALTH, SCOPE_MEMORY, SCOPE_DISK, SCOPE_NETWORK, SCOPE_AUTH}
  }

  lemma {:induction false} TrimRightKeepsFirst(s: string)
    requires s != "" && !IsSpace(s[0])
    ensures TrimRight(s) != ""
  {
    if IsSpace(s[|s| - 1]) { TrimRightKeepsFirst(s[..|s| - 1]); }
  }

  lemma NotBlank(s: string)
    requires s != "" && !IsSpace(s[0])
    ensures !Blank(s)
  {
    TrimRightKeepsFirst(s);
  }

  lemma ScopesNotBlank(scope: string)
    requires scope in {SCOPE_HEALTH, SCOPE_MEMORY, SCOPE_DISK, SCOPE_NETWORK, SCOPE_AUTH}
    ensures !Blank(scope)
  {
    NotBlank(scope);
  }

  lemma KeyScope(c: Condition, scope: string)
    requires c.scope == scope && ScopeOf(c.key) == scope && scope != ""
    ensures !Blank(c.key)
  {
    NotBlank(c.key);
  }

  /** A well-formed batch keeps "a key determines its scope". */
  lemma WellFormedScoped(b: Batch)
    requires WellFormed(b)
    ensures forall c <- b.conditions :: c.scope == ScopeOf(c.key)
  {
  }

  lemma DifferAt(prefix: string, s: string, i: nat)
    requires i < |prefix| && i < |s| && prefix[i] != s[i]
    ensures !(prefix <= s)
  {
  }

  lemma SingleKeyScopes()
    ensures ScopeOf(HEALTH_KEY) == SCOPE_HEALTH && ScopeOf(MEMORY_KEY) == SCOPE_MEMORY
  {
    DifferAt(AUTH_PREFIX, HEALTH_KEY, 0);
    DifferAt(DISK_PREFIX, HEALTH_KEY, 0);
    DifferAt(NETWORK_PREFIX, HEALTH_KEY, 0);
    DifferAt(AUTH_PREFIX, MEMORY_KEY, 0);
    DifferAt(DISK_PREFIX, MEMORY_KEY, 9);
    DifferAt(NETWORK_PREFIX, MEMORY_KEY, 0);
    DifferAt(MEMORY_KEY, HEALTH_KEY, 0);
  }

  lemma NetworkKeyScope(key: string)
    requires NETWORK_PREFIX <= key
    ensures ScopeOf(key) == SCOPE_NETWORK
  {
    assert key[0] == NETWORK_PREFIX[0];
    DifferAt(AUTH_PREFIX, key, 0);
    DifferAt(DISK_PREFIX, key, 0);
  }

  lemma DiskKeyScope(mountPoint: string)
    ensures ScopeOf(DiskKey(mountPoint)) == SCOPE_DISK
  {
    assert DiskKey(mountPoint)[0] == DISK_PREFIX[0];
    DifferAt(AUTH_PREFIX, DiskKey(mountPoint), 0);
  }

  // ---------- single conditions ----------

  function Health(error: State.Option<string>): (b: Batch)
    ensures b.complete && b.scope == SCOPE_HEALTH && (b.conditions == [] <==> error.None?)
  {
    if error.None? then Batch(SCOPE_HEALTH, true, [], [])
    else Batch(SCOPE_HEALTH, true,
               [Condition(HEALTH_KEY, SCOPE_HEALTH, "CLIProxyAPI health check failed", "down", "healthy",
                          map["error" := error.value, "service" := "CLIProxyAPI"])], [])
  }

  datatype MemoryUsage = MemoryUsage(totalBytes: nat, availableBytes: nat, usedBytes: nat, usedPercent: real)

  function Memory(usage: MemoryUsage, threshold: real): (b: Batch)
    ensures b.complete && b.scope == SCOPE_MEMORY && (b.conditions == [] <==> usage.usedPercent < threshold)
  {
    if !(usage.usedPercent >= threshold) then Batch(SCOPE_MEMORY, true, [], [])
    else
      var current := Percent(usage.usedPercent);
      Batch(SCOPE_MEMORY, true,
            [Condition(MEMORY_KEY, SCOPE_MEMORY, "memory usage " + current, current, Percent(threshold),
                       map["kind" := "memory", "total_bytes" := Digits(usage.totalBytes),
                           "available_bytes" := Digits(usage.availableBytes), "used_bytes" := Digits(usage.usedBytes),
                           "used_percent" := current])], [])
  }

  lemma HealthWellFormed(error: State.Option<string>)
    ensures WellFormed(Health(error))
  {
    SingleKeyScopes();
    if error.Some? { KeyScope(Health(error).conditions[0], SCOPE_HEALTH); }
  }

  lemma MemoryWellFormed(usage: MemoryUsage, threshold: real)
    ensures WellFormed(Memory(usage, threshold))
  {
    SingleKeyScopes();
    if usage.usedPercent >= threshold { KeyScope(Memory(usage, threshold).conditions[0], SCOPE_MEMORY); }
  }

  /** A failed health check is told with its error, under one key. */
  lemma HealthExactly(error: State.Option<string>)
    ensures error.None? ==> Health(error).conditions == []
    ensures error.Some? ==>
      |Health(error).conditions| == 1 &&
      var c := Health(error).conditions[0];
      && c.key == "health:cliproxy_down" && c.scope == "health" && c.current == "down" && c.threshold == "healthy"
      && c.summary == "CLIProxyAPI health check failed"
      && c.details == map["error" := error.value, "service" := "CLIProxyAPI"]
  {
  }

  /** The figure as a text of digits. */
  predicate Reads(text: string, n: int) { Signed(text) && ReadInteger(text) == n }

  /** The memory condition is there exactly when the usage reaches the threshold, and
      shows both. */
  lemma MemoryExactly(usage: MemoryUsage, threshold: real)
    ensures |Memory(usage, threshold).conditions| == if usage.usedPercent >= threshold then 1 else 0
    ensures usage.usedPercent >= threshold ==>
      var c := Memory(usage, threshold).conditions[0];
      && c.key == "resource:memory" && c.scope == "memory"
      && c.current == Percent(usage.usedPercent) && c.threshold == Percent(threshold)
      && c.summary == "memory usage " + c.current
      && c.details.Keys == {"kind", "total_bytes", "available_bytes", "used_bytes", "used_percent"}
      && c.details["kind"] == "memory" && c.details["used_percent"] == c.current
      && Reads(c.details["total_bytes"], usage.totalBytes) && Reads(c.details["used_bytes"], usage.usedBytes)
      && Reads(c.details["available_bytes"], usage.availableBytes)
  {
    IntegerReads(usage.totalBytes);
    IntegerReads(usage.usedBytes);
    IntegerReads(usage.availableBytes);
  }

  /** sortedConditions: the conditions of a map in key order. */
  method SortedConditions(byKey: map<string, Condition>) returns (conditions: seq<Condition>)
    requires KeyedBy(ConditionKey, byKey)
    ensures conditions == ValuesInOrder(byKey)
  {
    conditions := [];
    var pending := byKey.Keys;
    VisitNone(ConditionKey, byKey, pending);
    while pending != {}
      invariant pending <= byKey.Keys
      invariant Visited(ConditionKey, conditions, byKey, pending)
      decreases pending
    {
      var key :| key in pending;
      VisitTake(ConditionKey, conditions, byKey, pending, key);
      conditions := conditions + [byKey[key]];
      pending := pending - {key};
    }
    VisitedAll(ConditionKey, conditions, byKey);
    conditions := SortBy(ConditionKey, conditions);
  }

  lemma {:induction false} ByKeyOfDistinct(conditions: seq<Condition>, m: map<string, Condition>)
    requires KeyedBy(ConditionKey, m) && conditions == ValuesInOrder(m)
    ensures AlertModel.ByKey(conditions) == m
    ensures Distinct(Keys(ConditionKey, conditions)) && forall c :: c in conditions <==> c.key in m && m[c.key] == c
  {
    ValuesInOrderMembers(ConditionKey, m);
    AlertModel.ByKeyEnumerates(conditions);
    var b := AlertModel.ByKey(conditions);
    forall k ensures (k in b <==> k in m) && (k in b ==> b[k] == m[k]) {
      if k in m { assert m[k] in conditions; }
      if k in b { assert b[k] in conditions; }
    }
    SameMap(b, m);
  }

  /** A batch built from a map of conditions of one scope. */
  lemma MapBatchWellFormed(b: Batch, m: map<string, Condition>)
    requires KeyedBy(ConditionKey, m) && b.conditions == ValuesInOrder(m)
    requires forall k <- m :: m[k].scope == b.scope == ScopeOf(k)
    requires b.errors != [] ==> !b.complete
    requires b.scope in {SCOPE_HEALTH, SCOPE_MEMORY, SCOPE_DISK, SCOPE_NETWORK, SCOPE_AUTH}
    ensures WellFormed(b) && AlertModel.ByKey(b.conditions) == m
  {
    ByKeyOfDistinct(b.conditions, m);
    forall c | c in b.conditions ensures c.scope == b.scope == ScopeOf(c.key) && !Blank(c.key) {
      KeyScope(c, b.scope);
    }
  }

  // ---------- network ----------

  datatype TcpUsage = TcpUsage(total: int, servicePort: int)

  function ServicePortKey(port: int): string { "network:service_port:" + Integer(port) }

  ghost function TcpByKey(usage: TcpUsage, port: int, totalThreshold: int, serviceThreshold: int)
    : map<string, Condition>
  {
    (if usage.total >= totalThreshold then map[TOTAL_KEY := TotalCondition(usage, totalThreshold)] else map[])
    + (if usage.servicePort >= serviceThreshold
       then map[ServicePortKey(port) := ServiceCondition(usage, port, serviceThreshold)] else map[])
  }

  function TotalCondition(usage: TcpUsage, threshold: int): Condition {
    var current := Integer(usage.total);
    Condition(TOTAL_KEY, SCOPE_NETWORK, "total TCP connections " + current, current, Integer(threshold),
              map["kind" := "total_tcp", "connections" := current])
  }

  function ServiceCondition(usage: TcpUsage, port: int, threshold: int): Condition {
    var current := Integer(usage.servicePort);
    Condition(ServicePortKey(port), SCOPE_NETWORK, "TCP connections on service port " + Integer(port) + ": " + current,
              current, Integer(threshold),
              map["kind" := "service_port_tcp", "service_port" := Integer(port), "connections" := current])
  }

  lemma TcpKeyed(usage: TcpUsage, port: int, totalThreshold: int, serviceThreshold: int)
    ensures KeyedBy(ConditionKey, TcpByKey(usage, port, totalThreshold, serviceThreshold))
    ensures forall k <- TcpByKey(usage, port, totalThreshold, serviceThreshold) ::
      TcpByKey(usage, port, totalThreshold, serviceThreshold)[k].scope == SCOPE_NETWORK == ScopeOf(k)
  {
    NetworkKeyScope(TOTAL_KEY);
    NetworkKeyScope(ServicePortKey(port));
  }

  /** No condition exactly when both counts are below their thresholds. */
  lemma TcpEmpty(usage: TcpUsage, port: int, totalThreshold: int, serviceThreshold: int)
    ensures |TcpByKey(usage, port, totalThreshold, serviceThreshold)| == 0
      <==> usage.total < totalThreshold && usage.servicePort < serviceThreshold
  {
    assert usage.total >= totalThreshold || usage.servicePort >= serviceThreshold ==>
      TcpByKey(usage, port, totalThreshold, serviceThreshold) != map[] by {
      assert usage.total >= totalThreshold ==> TOTAL_KEY in TcpByKey(usage, port, totalThreshold, serviceThreshold);
      assert usage.servicePort >= serviceThreshold ==>
        ServicePortKey(port) in TcpByKey(usage, port, totalThreshold, serviceThreshold);
    }
  }

  ghost function TcpBatchOf(usage: TcpUsage, port: int, totalThreshold: int, serviceThreshold: int): Batch {
    Batch(SCOPE_NETWORK, true, ValuesInOrder(TcpByKey(usage, port, totalThreshold, serviceThreshold)), [])
  }

  /** One condition per count at or above its threshold, and no other. */
  method Tcp(usage: TcpUsage, port: int, totalThreshold: int, serviceThreshold: int) returns (b: Batch)
    ensures b == TcpBatchOf(usage, port, totalThreshold, serviceThreshold)
    ensures WellFormed(b)
    ensures b.conditions == [] <==> usage.total < totalThreshold && usage.servicePort < serviceThreshold
    ensures TcpTold(AlertModel.ByKey(b.conditions), usage, port, totalThreshold, serviceThreshold)
  {
    TcpExactly(usage, port, totalThreshold, serviceThreshold);
    var byKey := CollectTcp(usage, port, totalThreshold, serviceThreshold);
    TcpKeyed(usage, port, totalThreshold, serviceThreshold);
    TcpEmpty(usage, port, totalThreshold, serviceThreshold);
    var conditions := SortedConditions(byKey);
    b := Batch(SCOPE_NETWORK, true, conditions, []);
    TcpWellFormed(usage, port, totalThreshold, serviceThreshold);
  }

  lemma TcpWellFormed(usage: TcpUsage, port: int, totalThreshold: int, serviceThreshold: int)
    ensures WellFormed(TcpBatchOf(usage, port, totalThreshold, serviceThreshold))
  {
    TcpKeyed(usage, port, totalThreshold, serviceThreshold);
    MapBatchWellFormed(TcpBatchOf(usage, port, totalThreshold, serviceThreshold),
                       TcpByKey(usage, port, totalThreshold, serviceThreshold));
  }

  /** A condition that shows a count and the threshold it has reached. */
  ghost predicate ShowsCount(c: Condition, kind: string, count: int, threshold: int) {
    && c.scope == "network" && Reads(c.current, count) && Reads(c.threshold, threshold)
    && "kind" in c.details && c.details["kind"] == kind
    && "connections" in c.details && c.details["connections"] == c.current
  }

  /** The total has a condition exactly when it reaches its threshold, the service port
      exactly when its count reaches the other one, and each shows its own figures. */
  ghost predicate TcpTold(m: map<string, Condition>, usage: TcpUsage, port: int, totalThreshold: int,
                          serviceThreshold: int) {
    var service := ServicePortKey(port);
    && TOTAL_KEY != service && m.Keys <= {TOTAL_KEY, service}
    && (TOTAL_KEY in m <==> usage.total >= totalThreshold)
    && (service in m <==> usage.servicePort >= serviceThreshold)
    && (TOTAL_KEY in m ==> ShowsCount(m[TOTAL_KEY], "total_tcp", usage.total, totalThreshold))
    && (service in m ==> ShowsCount(m[service], "service_port_tcp", usage.servicePort, serviceThreshold))
  }

  lemma TcpExactly(usage: TcpUsage, port: int, totalThreshold: int, serviceThreshold: int)
    ensures TcpTold(AlertModel.ByKey(TcpBatchOf(usage, port, totalThreshold, serviceThreshold).conditions), usage, port,
      totalThreshold, serviceThreshold)
  {
    TcpKeyed(usage, port, totalThreshold, serviceThreshold);
    MapBatchWellFormed(TcpBatchOf(usage, port, totalThreshold, serviceThreshold),
                       TcpByKey(usage, port, totalThreshold, serviceThreshold));
    TcpMapTold(usage, port, totalThreshold, serviceThreshold);
  }

  lemma TcpMapTold(usage: TcpUsage, port: int, totalThreshold: int, serviceThreshold: int)
    ensures TcpTold(TcpByKey(usage, port, totalThreshold, serviceThreshold), usage, port, totalThreshold,
      serviceThreshold)
  {
    TcpKeysDiffer(port);
    TotalShown(usage, totalThreshold);
    ServiceShown(usage, port, serviceThreshold);
  }

  lemma TcpKeysDiffer(port: int)
    ensures TOTAL_KEY != ServicePortKey(port)
  {
    assert TOTAL_KEY[8] == 't' && ServicePortKey(port)[8] == 's';
  }

  lemma TotalShown(usage: TcpUsage, threshold: int)
    ensures var c := TotalCondition(usage, threshold);
      && ShowsCount(c, "total_tcp", usage.total, threshold) && c.key == "network:total_tcp"
      && c.summary == "total TCP connections " + c.current && c.details.Keys == {"kind", "connections"}
  {
    IntegerReads(usage.total);
    IntegerReads(threshold);
  }

  lemma ServiceShown(usage: TcpUsage, port: int, threshold: int)
    ensures var c := ServiceCondition(usage, port, threshold);
      && ShowsCount(c, "service_port_tcp", usage.servicePort, threshold)
      && c.key == "network:service_port:" + Integer(port)
      && c.summary == "TCP connections on service port " + Integer(port) + ": " + c.current
      && c.details.Keys == {"kind", "service_port", "connections"} && Reads(c.details["service_port"], port)
  {
    IntegerReads(usage.servicePort);
    IntegerReads(threshold);
    IntegerReads(port);
  }

  method CollectTcp(usage: TcpUsage, port: int, totalThreshold: int, serviceThreshold: int)
    returns (byKey: map<string, Condition>)
    ensures byKey == TcpByKey(usage, port, totalThreshold, serviceThreshold)
  {
    byKey := map[];
    if usage.total >= totalThreshold { byKey := byKey[TOTAL_KEY := TotalCondition(usage, totalThreshold)]; }
    if usage.servicePort >= serviceThreshold {
      byKey := byKey[ServicePortKey(port) := ServiceCondition(usage, port, serviceThreshold)];
    }
  }

  // ---------- disks ----------

  function DiskKey(mountPoint: string): string { DISK_PREFIX + mountPoint }

  function DiskCondition(d: Disk.Usage, threshold: real): Condition {
    var current := Percent(d.usedPercent);
    Condition(DiskKey(d.mountPoint), SCOPE_DISK, "disk " + d.mountPoint + " usage " + current, current,
              Percent(threshold),
              map["kind" := "disk", "mount_point" := d.mountPoint, "filesystem_type" := d.filesystemType,
                  "total_bytes" := Digits(d.totalBytes), "used_bytes" := Digits(d.usedBytes),
                  "used_percent" := current])
  }

  /** The fullest disk at or above the threshold per mount point, the first one among equals. */
  function FullestByKey(disks: seq<Disk.Usage>, threshold: real): map<string, Disk.Usage> {
    if disks == [] then map[]
    else WithDisk(FullestByKey(disks[..|disks| - 1], threshold), disks[|disks| - 1], threshold)
  }

  function WithDisk(before: map<string, Disk.Usage>, d: Disk.Usage, threshold: real): map<string, Disk.Usage> {
    var key := DiskKey(d.mountPoint);
    if d.usedPercent < threshold || (key in before && before[key].usedPercent >= d.usedPercent) then before
    else before[key := d]
  }

  /** Every earlier report for d's mount point has less usage than some occurrence of d. */
  ghost predicate FirstFull(disks: seq<Disk.Usage>, d: Disk.Usage) {
    exists i: nat :: i < |disks| && disks[i] == d
      && forall j: nat :: j < i && disks[j].mountPoint == d.mountPoint ==> disks[j].usedPercent < d.usedPercent
  }

  lemma FirstFullKept(front: seq<Disk.Usage>, last: Disk.Usage)
    ensures forall d :: FirstFull(front, d) ==> FirstFull(front + [last], d)
    ensures (forall e <- front :: e.mountPoint == last.mountPoint ==> e.usedPercent < last.usedPercent) ==>
      FirstFull(front + [last], last)
  {
    var all := front + [last];
    forall d | FirstFull(front, d) ensures FirstFull(all, d) {
      var i: nat :| i < |front| && front[i] == d
        && forall j: nat :: j < i && front[j].mountPoint == d.mountPoint ==> front[j].usedPercent < d.usedPercent;
      assert all[i] == d;
    }
    assert all[|front|] == last;
  }

  /** Among equals the first report is kept. */
  lemma {:induction false} FullestFirst(disks: seq<Disk.Usage>, threshold: real, k: string)
    requires k in FullestByKey(disks, threshold)
    ensures FirstFull(disks, FullestByKey(disks, threshold)[k])
  {
    var front, last := disks[..|disks| - 1], disks[|disks| - 1];
    FrontLast(disks);
    FirstFullKept(front, last);
    if k in FullestByKey(front, threshold) { FullestFirst(front, threshold, k); }
    FullestExact(front, threshold);
    if k == DiskKey(last.mountPoint) { FullestReplaced(front, last, threshold); }
  }

  lemma FullestReplaced(front: seq<Disk.Usage>, last: Disk.Usage, threshold: real)
    ensures var before, key := FullestByKey(front, threshold), DiskKey(last.mountPoint);
      WithDisk(before, last, threshold) != before ==>
        forall e <- front :: e.mountPoint == last.mountPoint ==> e.usedPercent < last.usedPercent
  {
    FullestExact(front, threshold);
  }

  /** Among the reports for a mount point the fullest wins, and if none of them
      reaches the threshold there is no condition. */
  lemma {:induction false} FullestExact(disks: seq<Disk.Usage>, threshold: real)
    ensures forall k <- FullestByKey(disks, threshold) ::
      var d := FullestByKey(disks, threshold)[k];
      && d in disks && k == DiskKey(d.mountPoint) && d.usedPercent >= threshold
      && forall e <- disks :: DiskKey(e.mountPoint) == k ==> e.usedPercent <= d.usedPercent
    ensures forall e <- disks :: e.usedPercent >= threshold ==> DiskKey(e.mountPoint) in FullestByKey(disks, threshold)
  {
    if disks != [] {
      FullestExact(disks[..|disks| - 1], threshold);
      assert disks == disks[..|disks| - 1] + [disks[|disks| - 1]];
    }
  }

  ghost function DisksByKey(disks: seq<Disk.Usage>, threshold: real): map<string, Condition> {
    map k | k in FullestByKey(disks, threshold) :: DiskCondition(FullestByKey(disks, threshold)[k], threshold)
  }

  function DiskErrors(errors: seq<Disk.MountError>): seq<EntryError> {
    seq(|errors|, i requires 0 <= i < |errors| => DiskEntry(errors[i].mountPoint))
  }

  ghost function DiskBatchOf(input: Disk.DiskBatch, threshold: real): Batch {
    Batch(SCOPE_DISK, input.complete && input.errors == [], ValuesInOrder(DisksByKey(input.disks, threshold)),
          DiskErrors(input.errors))
  }

  /** One condition per mount point whose usage reaches the threshold, for its
      fullest report; complete only if the collection was. */
  lemma DiskBatchExact(input: Disk.DiskBatch, threshold: real)
    ensures WellFormed(DiskBatchOf(input, threshold))
    ensures AlertModel.ByKey(DiskBatchOf(input, threshold).conditions) == DisksByKey(input.disks, threshold)
  {
    DisksKeyed(input.disks, threshold);
    MapBatchWellFormed(DiskBatchOf(input, threshold), DisksByKey(input.disks, threshold));
  }

  /** No condition means exactly that every disk reported is below the threshold. */
  lemma NoDiskCondition(input: Disk.DiskBatch, threshold: real)
    ensures DiskBatchOf(input, threshold).conditions == [] <==> forall d <- input.disks :: d.usedPercent < threshold
  {
    FullestExact(input.disks, threshold);
    var fullest, byKey := FullestByKey(input.disks, threshold), DisksByKey(input.disks, threshold);
    assert byKey.Keys == fullest.Keys;
    if d :| d in input.disks && d.usedPercent >= threshold {
      assert DiskKey(d.mountPoint) in byKey;
      assert |byKey| > 0;
    }
  }

  lemma DiskKeyInjective(a: string, b: string)
    requires DiskKey(a) == DiskKey(b)
    ensures a == b
  {
    assert a == DiskKey(a)[|DISK_PREFIX|..] && b == DiskKey(b)[|DISK_PREFIX|..];
  }

  /** A report at or above the threshold, and no other for its mount point is fuller. */
  ghost predicate Fullest(disks: seq<Disk.Usage>, threshold: real, d: Disk.Usage) {
    && d in disks && d.usedPercent >= threshold
    && forall e <- disks :: e.mountPoint == d.mountPoint ==> e.usedPercent <= d.usedPercent
  }

  /** A condition that shows a disk and the threshold it has reached. */
  ghost predicate ShowsDisk(c: Condition, d: Disk.Usage, threshold: real) {
    && c.key == "resource:disk:" + d.mountPoint && c.scope == "disk"
    && c.current == Percent(d.usedPercent) && c.threshold == Percent(threshold)
    && c.summary == "disk " + d.mountPoint + " usage " + c.current
    && c.details.Keys == {"kind", "mount_point", "filesystem_type", "total_bytes", "used_bytes", "used_percent"}
    && c.details["kind"] == "disk" && c.details["mount_point"] == d.mountPoint
    && c.details["filesystem_type"] == d.filesystemType && c.details["used_percent"] == c.current
    && Reads(c.details["total_bytes"], d.totalBytes) && Reads(c.details["used_bytes"], d.usedBytes)
  }

  lemma DiskShown(d: Disk.Usage, threshold: real)
    ensures ShowsDisk(DiskCondition(d, threshold), d, threshold)
  {
    IntegerReads(d.totalBytes);
    IntegerReads(d.usedBytes);
  }

  /** A mount point has a condition exactly when some report for it reaches the threshold,
      and it shows a fullest one. */
  ghost predicate DisksTold(m: map<string, Condition>, disks: seq<Disk.Usage>, threshold: real) {
    && (forall p :: DiskKey(p) in m <==> exists d :: d in disks && d.mountPoint == p && d.usedPercent >= threshold)
    && (forall k <- m :: exists d :: Fullest(disks, threshold, d) && ShowsDisk(m[k], d, threshold))
  }

  /** Besides, the batch is complete exactly when the collection was and told no errors,
      and it names the mount points of the errors in order. */
  lemma DisksExactly(input: Disk.DiskBatch, threshold: real)
    ensures DisksTold(AlertModel.ByKey(DiskBatchOf(input, threshold).conditions), input.disks, threshold)
    ensures var b := DiskBatchOf(input, threshold);
      && b.scope == "disk" && (b.complete <==> input.complete && input.errors == [])
      && |b.errors| == |input.errors|
      && forall i :: 0 <= i < |input.errors| ==> b.errors[i] == DiskEntry(input.errors[i].mountPoint)
  {
    DiskBatchExact(input, threshold);
    DisksPresent(input.disks, threshold);
    DisksShown(input.disks, threshold);
  }

  lemma DisksPresent(disks: seq<Disk.Usage>, threshold: real)
    ensures forall p ::
      DiskKey(p) in DisksByKey(disks, threshold) <==>
      exists d :: d in disks && d.mountPoint == p && d.usedPercent >= threshold
  {
    FullestExact(disks, threshold);
    var fullest := FullestByKey(disks, threshold);
    forall p
      ensures DiskKey(p) in fullest <==> exists d :: d in disks && d.mountPoint == p && d.usedPercent >= threshold
    {
      if DiskKey(p) in fullest { DiskKeyInjective(p, fullest[DiskKey(p)].mountPoint); }
    }
  }

  lemma DisksShown(disks: seq<Disk.Usage>, threshold: real)
    ensures var m := DisksByKey(disks, threshold);
      forall k <- m :: exists d :: Fullest(disks, threshold, d) && ShowsDisk(m[k], d, threshold)
  {
    FullestExact(disks, threshold);
    var m, fullest := DisksByKey(disks, threshold), FullestByKey(disks, threshold);
    forall k | k in m ensures Fullest(disks, threshold, fullest[k]) && ShowsDisk(m[k], fullest[k], threshold) {
      DiskShown(fullest[k], threshold);
    }
  }

  method Disks(input: Disk.DiskBatch, threshold: real) returns (b: Batch)
    ensures b == DiskBatchOf(input, threshold)
    ensures WellFormed(b)
    ensures DisksTold(AlertModel.ByKey(b.conditions), input.disks, threshold)
  {
    DisksExactly(input, threshold);
    var byKey := CollectDisks(input.disks, threshold);
    DisksKeyed(input.disks, threshold);
    var conditions := SortedConditions(byKey);
    b := Batch(SCOPE_DISK, input.complete && input.errors == [], conditions, DiskErrors(input.errors));
    DiskBatchExact(input, threshold);
  }

  lemma DisksKeyed(disks: seq<Disk.Usage>, threshold: real)
    ensures KeyedBy(ConditionKey, DisksByKey(disks, threshold))
    ensures forall k <- DisksByKey(disks, threshold) ::
      DisksByKey(disks, threshold)[k].scope == SCOPE_DISK == ScopeOf(k)
  {
    FullestExact(disks, threshold);
    var fullest := FullestByKey(disks, threshold);
    forall k | k in fullest ensures ScopeOf(k) == SCOPE_DISK && DiskCondition(fullest[k], threshold).key == k {
      DiskKeyScope(fullest[k].mountPoint);
    }
  }

  /** The two maps of the loop, filled from the fullest disks. */
  ghost predicate Tracks(byKey: map<string, Condition>, percentByKey: map<string, real>,
                         fullest: map<string, Disk.Usage>, condition: Disk.Usage -> Condition) {
    && byKey.Keys == percentByKey.Keys == fullest.Keys
    && (forall k <- fullest :: byKey[k] == condition(fullest[k]) && percentByKey[k] == fullest[k].usedPercent)
  }

  method CollectDisks(disks: seq<Disk.Usage>, threshold: real) returns (byKey: map<string, Condition>)
    ensures byKey == DisksByKey(disks, threshold)
  {
    byKey := map[];
    var percentByKey: map<string, real> := map[];
    ghost var condition := (d: Disk.Usage) => DiskCondition(d, threshold);
    for i := 0 to |disks|
      invariant Tracks(byKey, percentByKey, FullestByKey(disks[..i], threshold), condition)
    {
      assert disks[..i + 1][..i] == disks[..i];
      byKey, percentByKey := AddDisk(byKey, percentByKey, disks[i], threshold, FullestByKey(disks[..i], threshold));
    }
    assert disks[..|disks|] == disks;
  }

  method AddDisk(before: map<string, Condition>, percents: map<string, real>, disk: Disk.Usage, threshold: real,
                 ghost fullest: map<string, Disk.Usage>)
    returns (byKey: map<string, Condition>, percentByKey: map<string, real>)
    requires Tracks(before, percents, fullest, (d: Disk.Usage) => DiskCondition(d, threshold))
    ensures Tracks(byKey, percentByKey, WithDisk(fullest, disk, threshold),
      (d: Disk.Usage) => DiskCondition(d, threshold))
  {
    byKey, percentByKey := before, percents;
    if !(disk.usedPercent >= threshold) { return; }
    var key := DiskKey(disk.mountPoint);
    if key in percentByKey && percentByKey[key] >= disk.usedPercent { return; }
    TracksMore(before, percents, fullest, (d: Disk.Usage) => DiskCondition(d, threshold), key, disk);
    byKey := byKey[key := DiskCondition(disk, threshold)];
    percentByKey := percentByKey[key := disk.usedPercent];
  }

  lemma TracksMore(byKey: map<string, Condition>, percentByKey: map<string, real>, fullest: map<string, Disk.Usage>,
                   condition: Disk.Usage -> Condition, key: string, d: Disk.Usage)
    requires Tracks(byKey, percentByKey, fullest, condition)
    ensures Tracks(byKey[key := condition(d)], percentByKey[key := d.usedPercent], fullest[key := d], condition)
  {
  }
}
