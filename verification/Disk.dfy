/** Disk usage of the mounted file systems (internal/collector/disk.go and the
    collection loop of internal/collector/proc.go). */
module Disk {
  import opened Text
  import opened State
  import opened Decimal

  type Word = x: int | 0 <= x < WORD

  datatype Mount = Mount(mountPoint: string, filesystemType: string)

  datatype Info = Info(blocks: Word, blocksFree: Word, blockSize: Word)

  datatype Usage = Usage(mountPoint: string, filesystemType: string, totalBytes: Word, usedBytes: Word,
    usedPercent: real)

  datatype Error = ZeroBlocks | ZeroBlockSize | FreeExceedsTotal | TotalOverflow | UsedOverflow
                 | SystemError | TimedOut | Cancelled | NoStatFS

  datatype MountError = MountError(mountPoint: string, error: Error)

  datatype DiskBatch = DiskBatch(disks: seq<Usage>, complete: bool, errors: seq<MountError>)

  // ---------- one file system ----------

  /** The 128-bit product of two words, as bits.Mul64 returns it. */
  function Mul64(a: Word, b: Word): (r: (Word, Word))
    ensures r.0 * WORD + r.1 == a * b
  {
    ProductFits(a, b);
    (a * b / WORD, a * b % WORD)
  }

  lemma ProductFits(a: Word, b: Word)
    ensures 0 <= a * b < WORD * WORD
  {
    Grows(a, WORD - 1, b);
    Grows(b, WORD - 1, WORD - 1);
    Grows(0, a, b);
  }

  lemma Grows(a: int, b: int, c: int)
    requires a <= b && 0 <= c
    ensures a * c <= b * c
  {
  }

  function DiskUsage(mount: Mount, info: Info): Result<Usage, Error> {
    if info.blocks == 0 then Failure(ZeroBlocks)
    else if info.blockSize == 0 then Failure(ZeroBlockSize)
    else if info.blocksFree > info.blocks then Failure(FreeExceedsTotal)
    else
      var total := Mul64(info.blocks, info.blockSize);
      if total.0 != 0 then Failure(TotalOverflow)
      else
        var usedBlocks := info.blocks - info.blocksFree;
        var used := Mul64(usedBlocks, info.blockSize);
        if used.0 != 0 then Failure(UsedOverflow)
        else Success(Usage(mount.mountPoint, mount.filesystemType, total.1, used.1,
                           usedBlocks as real / info.blocks as real * 100.0))
  }

  /** Usage is computed exactly when the figures are sane and the size fits in 64
      bits; then nothing has wrapped around, the used bytes fit in the total, and
      the second overflow check never fires. */
  lemma DiskUsageExact(mount: Mount, info: Info)
    ensures DiskUsage(mount, info).Success? <==>
      info.blocks != 0 && info.blockSize != 0 && info.blocksFree <= info.blocks && info.blocks * info.blockSize < WORD
    ensures DiskUsage(mount, info) != Failure(UsedOverflow)
    ensures DiskUsage(mount, info).Success? ==>
      var u := DiskUsage(mount, info).value;
      && u.mountPoint == mount.mountPoint && u.filesystemType == mount.filesystemType
      && u.totalBytes == info.blocks * info.blockSize
      && u.usedBytes == (info.blocks - info.blocksFree) * info.blockSize <= u.totalBytes
      && 0.0 <= u.usedPercent <= 100.0
      && u.usedPercent * info.blocks as real == 100.0 * (info.blocks - info.blocksFree) as real
  {
    if info.blocksFree <= info.blocks {
      ProductFits(info.blocks, info.blockSize);
      Grows(info.blocks - info.blocksFree, info.blocks, info.blockSize);
      Grows(0, info.blocks - info.blocksFree, info.blockSize);
    }
    if info.blocks != 0 && info.blocksFree <= info.blocks {
      Ratio((info.blocks - info.blocksFree) as real, info.blocks as real);
    }
  }

  /** Which of the refusals it is, the earlier tests first. */
  lemma DiskUsageRefusals(mount: Mount, info: Info)
    ensures var u := DiskUsage(mount, info);
      && (u == Failure(ZeroBlocks) <==> info.blocks == 0)
      && (u == Failure(ZeroBlockSize) <==> info.blocks != 0 && info.blockSize == 0)
      && (u == Failure(FreeExceedsTotal) <==> info.blocksFree > info.blocks > 0 && info.blockSize != 0)
      && (u == Failure(TotalOverflow) <==> info.blocksFree <= info.blocks && info.blocks * info.blockSize >= WORD)
  {
    DiskUsageExact(mount, info);
    ProductFits(info.blocks, info.blockSize);
  }

  lemma Ratio(part: real, whole: real)
    requires 0.0 <= part <= whole && whole > 0.0
    ensures 0.0 <= part / whole * 100.0 <= 100.0
    ensures part / whole * 100.0 * whole == 100.0 * part
  {
    var q := part / whole;
    assert q * whole == part;
  }

  // ---------- which file systems ----------

  const SKIPPED: set<string> := {
    "proc", "sysfs", "tmpfs", "devtmpfs", "devpts", "cgroup", "cgroup2", "overlay", "squashfs", "securityfs",
    "debugfs", "tracefs", "fusectl", "mqueue", "pstore", "autofs", "binfmt_misc", "bpf", "configfs", "hugetlbfs", "nsfs"
  }

  predicate Monitored(m: Mount) {
    m.mountPoint != "" && m.filesystemType != "" && m.filesystemType !in SKIPPED
  }

  function PointOf(m: Mount): string { m.mountPoint }

  /** The first monitored mount of every mount point. */
  function FirstByPoint(mounts: seq<Mount>): map<string, Mount> {
    if mounts == [] then map[]
    else
      var before, last := FirstByPoint(mounts[..|mounts| - 1]), mounts[|mounts| - 1];
      if Monitored(last) && last.mountPoint !in before then before[last.mountPoint := last] else before
  }

  lemma FirstByPointMore(mounts: seq<Mount>, m: Mount)
    ensures var before := FirstByPoint(mounts);
      FirstByPoint(mounts + [m]) ==
      if Monitored(m) && m.mountPoint !in before then before[m.mountPoint := m] else before
  {
    HeadTail(mounts, [m]);
  }

  ghost function Normalized(mounts: seq<Mount>): seq<Mount> { ValuesInOrder(FirstByPoint(mounts)) }

  lemma {:induction false} FirstByPointKeyed(mounts: seq<Mount>)
    ensures KeyedBy(PointOf, FirstByPoint(mounts))
    ensures forall p <- FirstByPoint(mounts) :: FirstByPoint(mounts)[p] in mounts && Monitored(FirstByPoint(mounts)[p])
    ensures forall m <- mounts :: Monitored(m) ==> m.mountPoint in FirstByPoint(mounts)
  {
    if mounts != [] {
      FirstByPointKeyed(mounts[..|mounts| - 1]);
      assert mounts == mounts[..|mounts| - 1] + [mounts[|mounts| - 1]];
    }
  }

  method NormalizeMounts(mounts: seq<Mount>) returns (normalized: seq<Mount>)
    ensures normalized == Normalized(mounts)
  {
    var byMountPoint := IndexMounts(mounts);
    FirstByPointKeyed(mounts);
    normalized := SortedMounts(byMountPoint);
  }

  method IndexMounts(mounts: seq<Mount>) returns (byMountPoint: map<string, Mount>)
    ensures byMountPoint == FirstByPoint(mounts)
  {
    byMountPoint := map[];
    for i := 0 to |mounts|
      invariant byMountPoint == FirstByPoint(mounts[..i])
    {
      assert mounts[..i + 1][..i] == mounts[..i];
      var mount := mounts[i];
      if mount.mountPoint == "" || mount.filesystemType == "" || mount.filesystemType in SKIPPED { continue; }
      if mount.mountPoint !in byMountPoint { byMountPoint := byMountPoint[mount.mountPoint := mount]; }
    }
    assert mounts[..|mounts|] == mounts;
  }

  method SortedMounts(byMountPoint: map<string, Mount>) returns (sorted: seq<Mount>)
    requires KeyedBy(PointOf, byMountPoint)
    ensures sorted == ValuesInOrder(byMountPoint)
  {
    sorted := [];
    var pending := byMountPoint.Keys;
    VisitNone(PointOf, byMountPoint, pending);
    while pending != {}
      invariant pending <= byMountPoint.Keys
      invariant Visited(PointOf, sorted, byMountPoint, pending)
      decreases pending
    {
      var point :| point in pending;
      VisitTake(PointOf, sorted, byMountPoint, pending, point);
      sorted := sorted + [byMountPoint[point]];
      pending := pending - {point};
    }
    VisitedAll(PointOf, sorted, byMountPoint);
    sorted := SortBy(PointOf, sorted);
  }

  /** The normalized mounts: one per monitored mount point, in ascending order,
      each the first listed there; normalizing again changes nothing. */
  lemma NormalizedExact(mounts: seq<Mount>)
    ensures Ascending(Keys(PointOf, Normalized(mounts)))
    ensures forall p :: p in Keys(PointOf, Normalized(mounts)) <==> exists m ::
      m in mounts && Monitored(m) && m.mountPoint == p
    ensures forall m <- Normalized(mounts) :: m in mounts && Monitored(m)
    ensures Normalized(Normalized(mounts)) == Normalized(mounts)
  {
    var first := FirstByPoint(mounts);
    FirstByPointKeyed(mounts);
    ValuesInOrderMembers(PointOf, first);
    var ns := Normalized(mounts);
    forall p ensures p in Keys(PointOf, ns) <==> exists m :: m in mounts && Monitored(m) && m.mountPoint == p {
      assert p in first <==> p in InOrder(first.Keys);
      if p in first { assert first[p] in mounts && Monitored(first[p]) && first[p].mountPoint == PointOf(first[p]); }
    }
    forall m | m in ns ensures m in mounts && Monitored(m) { assert first[PointOf(m)] == m; }
    FirstOfDistinct(ns);
    SameFirst(ns, first);
  }

  /** No mount that is monitored comes before it at its mount point. */
  ghost predicate FirstListed(mounts: seq<Mount>, m: Mount) {
    exists i: nat :: i < |mounts| && mounts[i] == m &&
      forall j: nat :: j < i && mounts[j].mountPoint == m.mountPoint ==>
        mounts[j].filesystemType == "" || mounts[j].filesystemType in SKIPPED
  }

  lemma FirstListedKept(front: seq<Mount>, last: Mount)
    ensures forall m :: FirstListed(front, m) ==> FirstListed(front + [last], m)
    ensures (forall e <- front :: e.mountPoint == last.mountPoint ==> !Monitored(e)) && last.mountPoint != "" ==>
      FirstListed(front + [last], last)
  {
    var all := front + [last];
    forall m | FirstListed(front, m) ensures FirstListed(all, m) {
      var i: nat :| i < |front| && front[i] == m &&
        forall j: nat :: j < i && front[j].mountPoint == m.mountPoint ==>
          front[j].filesystemType == "" || front[j].filesystemType in SKIPPED;
      assert all[i] == m;
    }
    assert all[|front|] == last;
    if (forall e <- front :: e.mountPoint == last.mountPoint ==> !Monitored(e)) && last.mountPoint != "" {
      forall j: nat | j < |front| && all[j].mountPoint == last.mountPoint
        ensures all[j].filesystemType == "" || all[j].filesystemType in SKIPPED
      {
        assert all[j] == front[j] && front[j] in front;
      }
    }
  }

  lemma {:induction false} FirstByPointFirst(mounts: seq<Mount>, p: string)
    requires p in FirstByPoint(mounts)
    ensures FirstListed(mounts, FirstByPoint(mounts)[p])
  {
    var front, last := mounts[..|mounts| - 1], mounts[|mounts| - 1];
    FrontLast(mounts);
    FirstListedKept(front, last);
    FirstByPointKeyed(front);
    if p in FirstByPoint(front) { FirstByPointFirst(front, p); }
  }

  /** Every mount kept has a mount point and a type that is not skipped, and is the first
      such mount listed for its point. */
  lemma NormalizedFirst(mounts: seq<Mount>)
    ensures forall m <- Normalized(mounts) ::
      m.mountPoint != "" && m.filesystemType != "" && m.filesystemType !in SKIPPED && FirstListed(mounts, m)
  {
    FirstByPointKeyed(mounts);
    ValuesInOrderMembers(PointOf, FirstByPoint(mounts));
    forall m | m in Normalized(mounts)
      ensures m.mountPoint != "" && m.filesystemType != "" && m.filesystemType !in SKIPPED && FirstListed(mounts, m)
    {
      assert m == FirstByPoint(mounts)[PointOf(m)];
      FirstByPointFirst(mounts, m.mountPoint);
    }
  }

  lemma {:induction false} FirstOfDistinct(ms: seq<Mount>)
    requires Distinct(Keys(PointOf, ms)) && forall m <- ms :: Monitored(m)
    ensures Enumerates(PointOf, ms, FirstByPoint(ms))
  {
    if ms != [] {
      var front, last := ms[..|ms| - 1], ms[|ms| - 1];
      assert ms == front + [last];
      KeysSnoc(PointOf, front, last);
      FirstOfDistinct(front);
      FirstByPointKeyed(front);
      InKeys(PointOf, front, PointOf(last));
    }
  }

  lemma SameFirst(ms: seq<Mount>, first: map<string, Mount>)
    requires Enumerates(PointOf, ms, first) && KeyedBy(PointOf, first)
    requires Enumerates(PointOf, ms, FirstByPoint(ms))
    ensures FirstByPoint(ms) == first
  {
    FirstByPointKeyed(ms);
    var again := FirstByPoint(ms);
    forall p ensures p in again <==> p in first {
      if p in first { assert first[p] in ms; }
      if p in again { assert again[p] in ms; }
    }
    forall p | p in first ensures again[p] == first[p] { assert again[p] in ms; }
  }

  // ---------- collection ----------

  /** What statting a mount point came to. */
  datatype StatOutcome = Done(result: Result<Info, Error>) | Late | Stopped

  function Measure(m: Mount, outcome: StatOutcome): Result<Usage, Error> {
    match outcome
    case Late => Failure(TimedOut)
    case Stopped => Failure(Cancelled)
    case Done(Failure(e)) => Failure(e)
    case Done(Success(info)) => DiskUsage(m, info)
  }

  /** A measurement is a success exactly if the answer came in time and its figures can be
      used; otherwise it tells which of these went wrong. */
  lemma MeasuredExactly(m: Mount, outcome: StatOutcome)
    ensures Measure(m, outcome).Success? <==>
      outcome.Done? && outcome.result.Success? && DiskUsage(m, outcome.result.value).Success?
    ensures Measure(m, outcome).Success? ==> Measure(m, outcome) == DiskUsage(m, outcome.result.value)
    ensures outcome.Late? ==> Measure(m, outcome) == Failure(TimedOut)
    ensures outcome.Stopped? ==> Measure(m, outcome) == Failure(Cancelled)
    ensures outcome.Done? && outcome.result.Failure? ==> Measure(m, outcome) == Failure(outcome.result.error)
    ensures outcome.Done? && outcome.result.Success? ==> Measure(m, outcome) == DiskUsage(m, outcome.result.value)
  {
  }

  /** One more mount in a batch. */
  function Added(batch: DiskBatch, mount: Mount, o: StatOutcome): DiskBatch {
    match Measure(mount, o)
    case Success(usage) => batch.(disks := batch.disks + [usage])
    case Failure(e) => batch.(complete := false, errors := batch.errors + [MountError(mount.mountPoint, e)])
  }

  /** The batch of the given mounts, in order. */
  function Collected(ms: seq<Mount>, outcome: string -> StatOutcome): DiskBatch {
    if ms == [] then DiskBatch([], true, [])
    else Added(Collected(ms[..|ms| - 1], outcome), ms[|ms| - 1], outcome(ms[|ms| - 1].mountPoint))
  }

  lemma AllOf(ms: seq<Mount>)
    ensures ms[..|ms|] == ms
  {
  }

  lemma CollectedMore(ms: seq<Mount>, i: nat, outcome: string -> StatOutcome)
    requires i < |ms|
    ensures Collected(ms[..i + 1], outcome) == Added(Collected(ms[..i], outcome), ms[i], outcome(ms[i].mountPoint))
  {
    assert ms[..i + 1][..i] == ms[..i];
  }

  /** The plain collector: every mount is statted in turn. */
  method CollectDisks(mounts: seq<Mount>, stat: Option<string -> Result<Info, Error>>) returns (batch: DiskBatch)
    ensures batch == if stat.None? then DiskBatch([], false, [MountError("", NoStatFS)])
                     else Collected(Normalized(mounts), Undisturbed(stat.value))
  {
    var normalized := NormalizeMounts(mounts);
    batch := DiskBatch([], true, []);
    if stat.None? { return DiskBatch([], false, [MountError("", NoStatFS)]); }
    for i := 0 to |normalized|
      invariant batch == Collected(normalized[..i], Undisturbed(stat.value))
    {
      CollectedMore(normalized, i, Undisturbed(stat.value));
      var mount := normalized[i];
      var info := stat.value(mount.mountPoint);
      if info.Success? {
        var usage := DiskUsage(mount, info.value);
        if usage.Success? {
          batch := batch.(disks := batch.disks + [usage.value]);
          continue;
        }
        batch := batch.(complete := false, errors := batch.errors + [MountError(mount.mountPoint, usage.error)]);
      } else {
        batch := batch.(complete := false, errors := batch.errors + [MountError(mount.mountPoint, info.error)]);
      }
    }
    assert normalized[..|normalized|] == normalized;
  }

  function Undisturbed(stat: string -> Result<Info, Error>): string -> StatOutcome {
    (path: string) => Done(stat(path))
  }

  /** The collection stops after mount number i. */
  predicate StopsAt(ms: seq<Mount>, outcome: string -> StatOutcome, cancelled: Option<nat>, i: nat)
    requires i < |ms|
  {
    cancelled.Some? && cancelled.value <= i && Measure(ms[i], outcome(ms[i].mountPoint)).Failure?
  }

  /** How many mounts are visited from number i on: all, or those up to the first
      failure at or after the mount at which the context is cancelled. */
  function Reached(ms: seq<Mount>, outcome: string -> StatOutcome, cancelled: Option<nat>, i: nat): (n: nat)
    requires i <= |ms|
    ensures i <= n <= |ms| && (cancelled.None? ==> n == |ms|)
    ensures n < |ms| ==> n > i && Measure(ms[n - 1], outcome(ms[n - 1].mountPoint)).Failure?
    decreases |ms| - i
  {
    if i == |ms| then i
    else if StopsAt(ms, outcome, cancelled, i) then i + 1
    else Reached(ms, outcome, cancelled, i + 1)
  }

  ghost function CollectedWithin(ms: seq<Mount>, outcome: string -> StatOutcome, cancelled: Option<nat>): DiskBatch {
    Collected(ms[..Reached(ms, outcome, cancelled, 0)], outcome)
  }

  lemma {:induction false} ReachedIs(ms: seq<Mount>, outcome: string -> StatOutcome, cancelled: Option<nat>, i: nat,
                                     n: nat)
    requires i <= n <= |ms| && (forall j: nat :: i <= j && j + 1 < n ==> !StopsAt(ms, outcome, cancelled, j))
    requires if n > i && StopsAt(ms, outcome, cancelled, n - 1) then true else n == |ms|
    ensures Reached(ms, outcome, cancelled, i) == n
    decreases n - i
  {
    if i < n && !StopsAt(ms, outcome, cancelled, i) { ReachedIs(ms, outcome, cancelled, i + 1, n); }
  }

  /** Where the collection ends: after the first mount that fails once the context is
      cancelled, or else after the last one. */
  lemma {:induction false} ReachedExactly(ms: seq<Mount>, outcome: string -> StatOutcome, cancelled: Option<nat>,
                                          i: nat)
    requires i <= |ms|
    ensures var n := Reached(ms, outcome, cancelled, i);
      && (forall j: nat :: i <= j && j + 1 < n ==>
            cancelled.None? || j < cancelled.value || Measure(ms[j], outcome(ms[j].mountPoint)).Success?)
      && (n < |ms| ==>
            && cancelled.Some? && cancelled.value <= n - 1
            && Measure(ms[n - 1], outcome(ms[n - 1].mountPoint)).Failure?)
    decreases |ms| - i
  {
    if i < |ms| && !StopsAt(ms, outcome, cancelled, i) { ReachedExactly(ms, outcome, cancelled, i + 1); }
  }

  /** Only the outcomes of the mounts collected matter. */
  lemma {:induction false} CollectedSame(ms: seq<Mount>, f: string -> StatOutcome, g: string -> StatOutcome)
    requires forall m <- ms :: f(m.mountPoint) == g(m.mountPoint)
    ensures Collected(ms, f) == Collected(ms, g)
  {
    if ms != [] {
      var front, last := ms[..|ms| - 1], ms[|ms| - 1];
      assert ms == front + [last];
      CollectedSame(front, f, g);
    }
  }

  /** A collection that was cut short is incomplete. */
  lemma CutShortIncomplete(ms: seq<Mount>, outcome: string -> StatOutcome, cancelled: Option<nat>)
    ensures CollectedWithin(ms, outcome, cancelled).complete ==>
      Reached(ms, outcome, cancelled, 0) == |ms| && CollectedWithin(ms, outcome, cancelled) == Collected(ms, outcome)
  {
    var n := Reached(ms, outcome, cancelled, 0);
    if n < |ms| {
      assert ms[n - 1] in ms[..n];
      CollectedPartition(ms[..n], outcome);
      FailureListed(ms[..n], outcome, ms[n - 1]);
    } else {
      assert ms[..n] == ms;
    }
  }

  /** Every mount of a collection ends up in exactly one of disks and errors, in
      order; the batch is complete exactly when there are no errors. */
  lemma {:induction false} CollectedPartition(ms: seq<Mount>, outcome: string -> StatOutcome)
    ensures var b := Collected(ms, outcome);
      && |b.disks| + |b.errors| == |ms|
      && (b.complete <==> b.errors == [])
      && (forall d :: d in b.disks <==> exists m :: m in ms && Measure(m, outcome(m.mountPoint)) == Success(d))
      && (forall e :: e in b.errors <==>
            exists m :: m in ms && m.mountPoint == e.mountPoint
              && Measure(m, outcome(m.mountPoint)) == Failure(e.error))
  {
    if ms != [] {
      var front, last := ms[..|ms| - 1], ms[|ms| - 1];
      assert ms == front + [last];
      CollectedPartition(front, outcome);
    }
  }

  function UsagePoint(u: Usage): string { u.mountPoint }

  function ErrorPoint(e: MountError): string { e.mountPoint }

  /** Disks and errors are both in ascending order of mount points from ks. */
  ghost predicate OrderedBy(b: DiskBatch, ks: seq<string>) {
    && Ascending(Keys(UsagePoint, b.disks)) && Ascending(Keys(ErrorPoint, b.errors))
    && (forall p <- Keys(UsagePoint, b.disks) :: p in ks) && (forall p <- Keys(ErrorPoint, b.errors) :: p in ks)
  }

  /** The disks of a batch are in the order of the mounts, and so are the errors. */
  lemma {:induction false} CollectedInOrder(ms: seq<Mount>, outcome: string -> StatOutcome)
    requires Ascending(Keys(PointOf, ms))
    ensures OrderedBy(Collected(ms, outcome), Keys(PointOf, ms))
  {
    if ms != [] {
      var front, last := ms[..|ms| - 1], ms[|ms| - 1];
      FrontLast(ms);
      KeysSnoc(PointOf, front, last);
      AscendingFront(Keys(PointOf, front), last.mountPoint);
      CollectedInOrder(front, outcome);
      AddedInOrder(Collected(front, outcome), last, outcome(last.mountPoint), Keys(PointOf, front));
    }
  }

  lemma AddedInOrder(b: DiskBatch, m: Mount, o: StatOutcome, ks: seq<string>)
    requires OrderedBy(b, ks) && forall k <- ks :: Less(k, m.mountPoint)
    ensures OrderedBy(Added(b, m, o), ks + [m.mountPoint])
  {
    if Measure(m, o).Success? {
      MeasuredAs(m, o);
      KeysSnoc(UsagePoint, b.disks, Measure(m, o).value);
      AscendingMore(Keys(UsagePoint, b.disks), ks, m.mountPoint);
    } else {
      KeysSnoc(ErrorPoint, b.errors, MountError(m.mountPoint, Measure(m, o).error));
      AscendingMore(Keys(ErrorPoint, b.errors), ks, m.mountPoint);
    }
  }

  lemma AscendingFront(ks: seq<string>, k: string)
    requires Ascending(ks + [k])
    ensures Ascending(ks) && forall x <- ks :: Less(x, k)
  {
    forall i, j | 0 <= i < j < |ks| ensures Less(ks[i], ks[j]) {
      assert (ks + [k])[i] == ks[i] && (ks + [k])[j] == ks[j];
    }
    forall i | 0 <= i < |ks| ensures Less(ks[i], k) { assert (ks + [k])[i] == ks[i] && (ks + [k])[|ks|] == k; }
  }

  lemma AscendingMore(ks: seq<string>, all: seq<string>, k: string)
    requires Ascending(ks) && (forall x <- ks :: x in all) && forall x <- all :: Less(x, k)
    ensures Ascending(ks + [k])
  {
  }

  /** A complete batch has measured every monitored mount point. */
  lemma CompleteMeansMeasured(mounts: seq<Mount>, outcome: string -> StatOutcome, m: Mount)
    requires Collected(Normalized(mounts), outcome).complete && m in Normalized(mounts)
    ensures Measure(m, outcome(m.mountPoint)).Success?
    ensures Measure(m, outcome(m.mountPoint)).value in Collected(Normalized(mounts), outcome).disks
    ensures Measure(m, outcome(m.mountPoint)).value.mountPoint == m.mountPoint
  {
    var ms := Normalized(mounts);
    CollectedPartition(ms, outcome);
    if Measure(m, outcome(m.mountPoint)).Failure? {
      FailureListed(ms, outcome, m);
    } else {
      MeasuredAs(m, outcome(m.mountPoint));
    }
  }

  lemma FailureListed(ms: seq<Mount>, outcome: string -> StatOutcome, m: Mount)
    requires m in ms && Measure(m, outcome(m.mountPoint)).Failure?
    ensures Collected(ms, outcome).errors != []
  {
    CollectedPartition(ms, outcome);
    assert MountError(m.mountPoint, Measure(m, outcome(m.mountPoint)).error) in Collected(ms, outcome).errors;
  }

  lemma MeasuredAs(m: Mount, outcome: StatOutcome)
    requires Measure(m, outcome).Success?
    ensures Measure(m, outcome).value.mountPoint == m.mountPoint
  {
    DiskUsageExact(m, outcome.result.value);
  }
}
