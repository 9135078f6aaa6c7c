/** What the bounded rotating log writer (internal/logfile/writer.go) must leave
    on disk.

    `Logs` is the abstract value of the managed files: the active file and the
    canonical backups.  `WriteBytes` writes a stream byte by byte, `Layout` gives
    the same files in closed form, and the lemmas let the writer of module
    LogWriter work in chunks and survive failed file operations. */
module LogModel {
  import opened Text

  type Byte = b: int | 0 <= b < 256
  type Bytes = seq<Byte>

  datatype Limits = Limits(maxSize: int, maxFiles: int, maxTotal: int)
  {
    predicate Valid() { 0 < maxSize <= maxTotal && 0 <= maxFiles }
  }

  datatype Logs = Logs(active: Bytes, backups: map<int, Bytes>)

  const NO_LOGS := Logs([], map[])

  predicate Indexed(l: Logs, o: Limits) {
    forall i <- l.backups :: 1 <= i <= o.maxFiles
  }

  predicate Bounded(l: Logs, o: Limits) {
    |l.active| <= o.maxSize && forall i <- l.backups :: |l.backups[i]| <= o.maxSize
  }

  // ---------- eviction ----------

  /** Bytes in the backups 1..n. */
  function Sum(b: map<int, Bytes>, n: int): nat
    decreases n
  {
    if n <= 0 then 0 else Sum(b, n - 1) + if n in b then |b[n]| else 0
  }

  /** Backup i survives when it fits under the total together with everything newer. */
  predicate Kept(l: Logs, o: Limits, i: int) {
    |l.active| + Sum(l.backups, i) <= o.maxTotal
  }

  function Evict(l: Logs, o: Limits): Logs {
    l.(backups := map i | i in l.backups && Kept(l, o, i) :: l.backups[i])
  }

  function Upto(b: map<int, Bytes>, c: int): map<int, Bytes> {
    map i | i in b && i <= c :: b[i]
  }

  /** Some of the backups that eviction condemns are gone, oldest first. */
  ghost predicate PartlyEvicted(after: Logs, before: Logs, o: Limits) {
    && after.active == before.active
    && exists c: int ::
         && after.backups == Upto(before.backups, c)
         && forall i <- before.backups :: c < i ==> !Kept(before, o, i)
  }

  lemma SumMonotone(b: map<int, Bytes>, i: int, j: int)
    requires i <= j
    ensures Sum(b, i) <= Sum(b, j)
    decreases j - i
  {
    if i < j { SumMonotone(b, i, j - 1); }
  }

  lemma SumSkip(b: map<int, Bytes>, i: int, j: int)
    requires i <= j
    requires forall k :: i < k <= j ==> k !in b
    ensures Sum(b, i) == Sum(b, j)
    decreases j - i
  {
    if i < j { SumSkip(b, i, j - 1); }
  }

  lemma SumAgree(b: map<int, Bytes>, c: map<int, Bytes>, n: int)
    requires forall i :: 1 <= i <= n ==> (i in b <==> i in c)
    requires forall i :: 1 <= i <= n && i in b ==> b[i] == c[i]
    ensures Sum(b, n) == Sum(c, n)
    decreases n
  {
    if n > 0 { SumAgree(b, c, n - 1); }
  }

  lemma EvictSum(l: Logs, o: Limits, i: int)
    requires Kept(l, o, i)
    ensures Sum(Evict(l, o).backups, i) == Sum(l.backups, i)
  {
    forall j | 1 <= j <= i
      ensures j in Evict(l, o).backups <==> j in l.backups
    {
      SumMonotone(l.backups, j, i);
    }
    SumAgree(Evict(l, o).backups, l.backups, i);
  }

  function Append(l: Logs, more: Bytes): Logs { l.(active := l.active + more) }

  /** Evicting earlier changes nothing once the active file has grown. */
  lemma EvictGrow(l: Logs, o: Limits, more: Bytes)
    ensures Evict(Append(Evict(l, o), more), o) == Evict(Append(l, more), o)
  {
    var once := Evict(Append(l, more), o);
    var twice := Evict(Append(Evict(l, o), more), o);
    forall i | i in l.backups
      ensures i in twice.backups <==> i in once.backups
    {
      if Kept(l, o, i) { EvictSum(l, o, i); }
    }
    assert twice.backups == once.backups;
  }

  lemma EvictTwice(l: Logs, o: Limits)
    ensures Evict(Evict(l, o), o) == Evict(l, o)
  {
    EvictGrow(l, o, []);
    assert Append(l, []) == l && Append(Evict(l, o), []) == Evict(l, o);
  }

  lemma PartlyEvictedEvict(after: Logs, before: Logs, o: Limits)
    requires PartlyEvicted(after, before, o)
    ensures Evict(after, o) == Evict(before, o)
  {
    var c :| after.backups == Upto(before.backups, c) && forall i <- before.backups :: c < i ==> !Kept(before, o, i);
    forall i | i in before.backups
      ensures i in Evict(after, o).backups <==> i in Evict(before, o).backups
    {
      if i <= c { SumAgree(after.backups, before.backups, i); }
    }
    assert Evict(after, o).backups == Evict(before, o).backups;
  }

  /** What eviction leaves fits under the total limit. */
  lemma EvictFits(l: Logs, o: Limits)
    requires |l.active| <= o.maxTotal
    ensures |l.active| + Sum(Evict(l, o).backups, o.maxFiles) <= o.maxTotal
  {
    EvictFitsUpto(l, o, o.maxFiles);
  }

  lemma EvictFitsUpto(l: Logs, o: Limits, n: int)
    requires |l.active| <= o.maxTotal
    ensures |l.active| + Sum(Evict(l, o).backups, n) <= o.maxTotal
    decreases n
  {
    if n > 0 {
      EvictFitsUpto(l, o, n - 1);
      if n in Evict(l, o).backups { EvictSum(l, o, n); }
    }
  }

  /** Oldest first, and no more than needed: a backup is gone only if keeping it,
      with everything newer than it, would exceed the total; and every backup
      older than an evicted one is evicted. */
  lemma EvictIsMinimal(l: Logs, o: Limits, i: int, j: int)
    requires i in l.backups && i !in Evict(l, o).backups
    requires j in l.backups && i <= j
    ensures |l.active| + Sum(l.backups, i) > o.maxTotal
    ensures j !in Evict(l, o).backups
  {
    SumMonotone(l.backups, i, j);
  }

  // ---------- rotation ----------

  /** The active file becomes backup 1, backup i becomes backup i+1, the last one is dropped. */
  function Rotated(l: Logs, o: Limits): Logs {
    Logs([], map i | 1 <= i <= o.maxFiles && MovedTo(l, i) :: if i == 1 then l.active else l.backups[i - 1])
  }

  predicate MovedTo(l: Logs, i: int) { i == 1 || i - 1 in l.backups }

  lemma RotatedSum(l: Logs, o: Limits, i: int)
    requires Indexed(l, o) && 1 <= i <= o.maxFiles
    ensures Sum(Rotated(l, o).backups, i) == |l.active| + Sum(l.backups, i - 1)
    decreases i
  {
    if i > 1 { RotatedSum(l, o, i - 1); }
  }

  lemma EvictRotate(l: Logs, o: Limits)
    requires Indexed(l, o)
    ensures Evict(Rotated(Evict(l, o), o), o) == Evict(Rotated(l, o), o)
  {
    var late := Evict(Rotated(l, o), o);
    var early := Evict(Rotated(Evict(l, o), o), o);
    forall i ensures i in early.backups <==> i in late.backups {
      if 1 <= i <= o.maxFiles { EvictRotateAt(l, o, i); }
    }
    assert early.backups == late.backups;
  }

  lemma EvictRotateAt(l: Logs, o: Limits, i: nat)
    requires Indexed(l, o) && 1 <= i <= o.maxFiles
    ensures i in Evict(Rotated(Evict(l, o), o), o).backups <==> i in Evict(Rotated(l, o), o).backups
  {
    RotatedSum(l, o, i);
    RotatedSum(Evict(l, o), o, i);
    if Kept(l, o, i - 1) { EvictSum(l, o, i - 1); }
  }

  /** A full active file is rotated before the next byte. */
  function Ready(l: Logs, o: Limits): Logs {
    if |l.active| >= o.maxSize then Rotated(l, o) else l
  }

  /** Normal form: the pending rotation and the pending evictions done. */
  function Settle(l: Logs, o: Limits): Logs { Evict(Ready(l, o), o) }

  lemma SettleEvict(l: Logs, o: Limits)
    requires Indexed(l, o)
    ensures Settle(Evict(l, o), o) == Settle(l, o)
  {
    if |l.active| >= o.maxSize { EvictRotate(l, o); } else { EvictTwice(l, o); }
  }

  lemma SettleTwice(l: Logs, o: Limits)
    requires o.Valid() && Indexed(l, o)
    ensures Settle(Settle(l, o), o) == Settle(l, o)
  {
    SettleEvict(Ready(l, o), o);
    EvictTwice(Ready(l, o), o);
  }

  // ---------- the byte stream ----------

  /** One byte: rotate if full, append, evict. */
  function WriteByte(l: Logs, o: Limits, b: Byte): Logs {
    Evict(Append(Ready(l, o), [b]), o)
  }

  /** The reference: bytes written one at a time. */
  function WriteBytes(l: Logs, o: Limits, s: Bytes): Logs {
    if s == [] then l else WriteByte(WriteBytes(l, o, s[..|s| - 1]), o, s[|s| - 1])
  }

  lemma {:induction false} WriteBytesIndexed(l: Logs, o: Limits, s: Bytes)
    requires Indexed(l, o)
    ensures Indexed(WriteBytes(l, o, s), o)
  {
    if s != [] { WriteBytesIndexed(l, o, s[..|s| - 1]); }
  }

  /** Cutting the stream differently leaves the same files. */
  lemma {:induction false} WriteSplit(l: Logs, o: Limits, a: Bytes, b: Bytes)
    ensures WriteBytes(WriteBytes(l, o, a), o, b) == WriteBytes(l, o, a + b)
  {
    if b == [] {
      assert a + b == a;
    } else {
      WriteSplit(l, o, a, b[..|b| - 1]);
      assert (a + b)[..|a + b| - 1] == a + b[..|b| - 1];
    }
  }

  /** A chunk that fits in the active file, appended at once and evicted once,
      is the same as its bytes one by one. */
  lemma {:induction false} ChunkIsBytes(l: Logs, o: Limits, x: Bytes)
    requires o.Valid() && Indexed(l, o)
    requires x != [] && |Ready(l, o).active| + |x| <= o.maxSize
    ensures WriteBytes(l, o, x) == Evict(Append(Ready(l, o), x), o)
  {
    var front, last := x[..|x| - 1], x[|x| - 1];
    var ready := Ready(l, o);
    if front == [] {
      assert x == [last];
    } else {
      ChunkIsBytes(l, o, front);
      EvictGrow(Append(ready, front), o, [last]);
      assert Append(Append(ready, front), [last]) == Append(ready, x);
    }
  }

  /** The step of the writer's loop: appending a chunk to files whose normal form
      is that of the reference leaves files whose eviction is the reference. */
  lemma ChunkRefines(v: Logs, w: Logs, o: Limits, x: Bytes)
    requires o.Valid() && Indexed(v, o) && Indexed(w, o)
    requires Settle(v, o) == Settle(w, o)
    requires |v.active| < o.maxSize
    requires x != [] && |v.active| + |x| <= o.maxSize
    ensures Evict(Append(v, x), o) == WriteBytes(w, o, x)
  {
    assert Ready(v, o) == v;
    assert Ready(w, o).active == v.active;
    ChunkIsBytes(w, o, x);
    EvictGrow(v, o, x);
    EvictGrow(Ready(w, o), o, x);
  }

  // ---------- retained content ----------

  /** The backups from n down to 1, oldest first. */
  function Concat(b: map<int, Bytes>, n: int): Bytes
    decreases n
  {
    if n <= 0 then [] else (if n in b then b[n] else []) + Concat(b, n - 1)
  }

  function Retained(l: Logs, o: Limits): Bytes { Concat(l.backups, o.maxFiles) + l.active }

  predicate IsSuffix(r: Bytes, s: Bytes) {
    |r| <= |s| && r == s[|s| - |r|..]
  }

  lemma SuffixTransitive(a: Bytes, b: Bytes, c: Bytes)
    requires IsSuffix(a, b) && IsSuffix(b, c)
    ensures IsSuffix(a, c)
  {
    assert b[|b| - |a|..] == c[|c| - |b|..][|b| - |a|..] == c[|c| - |a|..];
  }

  lemma SuffixAppend(a: Bytes, b: Bytes, x: Bytes)
    requires IsSuffix(a, b)
    ensures IsSuffix(a + x, b + x)
  {
    assert (b + x)[|b| - |a|..] == b[|b| - |a|..] + x;
  }

  lemma SuffixPrepend(x: Bytes, a: Bytes)
    ensures IsSuffix(a, x + a)
  {
  }

  lemma UptoSuffix(b: map<int, Bytes>, c: int, n: int)
    ensures IsSuffix(Concat(Upto(b, c), n), Concat(b, n))
    ensures n <= c ==> Concat(Upto(b, c), n) == Concat(b, n)
    decreases n
  {
    if n > 0 {
      UptoSuffix(b, c, n - 1);
      if n > c {
        var older := if n in b then b[n] else [];
        SuffixPrepend(older, Concat(b, n - 1));
        assert Concat(Upto(b, c), n) == Concat(Upto(b, c), n - 1);
        SuffixTransitive(Concat(Upto(b, c), n - 1), Concat(b, n - 1), Concat(b, n));
      }
    }
  }

  lemma PartlyEvictedSuffix(after: Logs, before: Logs, o: Limits)
    requires PartlyEvicted(after, before, o)
    ensures IsSuffix(Retained(after, o), Retained(before, o))
  {
    var c :| after.backups == Upto(before.backups, c) && forall i <- before.backups :: c < i ==> !Kept(before, o, i);
    UptoSuffix(before.backups, c, o.maxFiles);
    SuffixAppend(Concat(after.backups, o.maxFiles), Concat(before.backups, o.maxFiles), before.active);
  }

  /** The shift loop with the renames of backups above i done: i+1 is free. */
  function Shifted(b: map<int, Bytes>, o: Limits, i: int): map<int, Bytes> {
    map j | 1 <= j <= o.maxFiles && InShifted(b, i, j) :: if j <= i then b[j] else b[j - 1]
  }

  predicate InShifted(b: map<int, Bytes>, i: int, j: int) {
    if j <= i then j in b else j > i + 1 && j - 1 in b
  }

  lemma ShiftedConcat(b: map<int, Bytes>, o: Limits, i: int, n: int)
    requires 0 <= i && n <= o.maxFiles
    requires forall k <- b :: 1 <= k <= o.maxFiles
    ensures Concat(Shifted(b, o, i), n) == if n <= i then Concat(b, n) else Concat(b, n - 1)
    decreases n
  {
    if n > 0 { ShiftedConcat(b, o, i, n - 1); }
  }

  /** Wherever the renames stop, what is left is a suffix of what was there. */
  lemma ShiftedSuffix(l: Logs, o: Limits, i: int)
    requires Indexed(l, o) && 0 <= i < o.maxFiles
    ensures IsSuffix(Retained(l.(backups := Shifted(l.backups, o, i)), o), Retained(l, o))
  {
    ShiftedConcat(l.backups, o, i, o.maxFiles);
    var oldest := if o.maxFiles in l.backups then l.backups[o.maxFiles] else [];
    SuffixPrepend(oldest, Concat(l.backups, o.maxFiles - 1));
    SuffixAppend(Concat(l.backups, o.maxFiles - 1), Concat(l.backups, o.maxFiles), l.active);
  }

  lemma RotatedConcat(l: Logs, o: Limits, n: int)
    requires Indexed(l, o) && 1 <= n <= o.maxFiles
    ensures Concat(Rotated(l, o).backups, n) == Concat(l.backups, n - 1) + l.active
    decreases n
  {
    if n > 1 { RotatedConcat(l, o, n - 1); }
  }

  lemma RotatedSuffix(l: Logs, o: Limits)
    requires o.Valid() && Indexed(l, o)
    ensures IsSuffix(Retained(Rotated(l, o), o), Retained(l, o))
  {
    if o.maxFiles > 0 {
      RotatedConcat(l, o, o.maxFiles);
      var oldest := if o.maxFiles in l.backups then l.backups[o.maxFiles] else [];
      SuffixPrepend(oldest, Concat(l.backups, o.maxFiles - 1));
      SuffixAppend(Concat(l.backups, o.maxFiles - 1), Concat(l.backups, o.maxFiles), l.active);
      EmptyFirst(Concat(Rotated(l, o).backups, o.maxFiles));
    } else {
      EmptyFirst(Concat(Rotated(l, o).backups, o.maxFiles));
    }
  }

  // ---------- closed form ----------

  /** Number of full files before the active one. */
  function FullFiles(o: Limits, s: Bytes): nat
    requires o.Valid()
  {
    if s == [] then 0 else (|s| - 1) / o.maxSize
  }

  lemma FullFilesBounds(o: Limits, s: Bytes)
    requires o.Valid()
    ensures FullFiles(o, s) * o.maxSize <= |s| <= FullFiles(o, s) * o.maxSize + o.maxSize
    ensures s != [] ==> FullFiles(o, s) * o.maxSize < |s|
  {
  }

  lemma MulMonotone(a: int, b: int, m: int)
    requires 0 < m
    ensures a <= b ==> a * m <= b * m
  {
  }

  lemma FullFilesUnique(o: Limits, s: Bytes, q: int)
    requires o.Valid() && s != []
    requires q * o.maxSize < |s| <= q * o.maxSize + o.maxSize
    ensures FullFiles(o, s) == q
  {
    var f := FullFiles(o, s);
    FullFilesBounds(o, s);
    MulMonotone(f + 1, q, o.maxSize);
    MulMonotone(q + 1, f, o.maxSize);
  }

  /** Start of the k-th file of the stream. */
  function Offset(o: Limits, k: int): int { k * o.maxSize }

  lemma OffsetStep(o: Limits, j: int, k: int)
    requires o.Valid() && j <= k
    ensures Offset(o, j) <= Offset(o, k) && Offset(o, k + 1) == Offset(o, k) + o.maxSize
  {
  }

  ghost predicate InLayout(o: Limits, s: Bytes, i: int)
    requires o.Valid()
  {
    var full := FullFiles(o, s);
    1 <= i <= full && i <= o.maxFiles && |s| - Offset(o, full) + Offset(o, i) <= o.maxTotal
  }

  /** The files as a function of the byte stream alone: the stream cut into
      files of maxSize bytes, the last one active, and of the others as many of
      the newest as fit under both limits. */
  ghost function Layout(o: Limits, s: Bytes): Logs
    requires o.Valid()
  {
    var full := FullFiles(o, s);
    FullFilesBounds(o, s);
    Logs(s[Offset(o, full)..],
         map i | 1 <= i <= full && InLayout(o, s, i) :: FileAt(o, s, full - i))
  }

  function FileAt(o: Limits, s: Bytes, k: int): Bytes
    requires o.Valid() && 0 <= k < FullFiles(o, s)
  {
    FullFilesBounds(o, s);
    OffsetStep(o, k + 1, FullFiles(o, s));
    OffsetStep(o, 0, k);
    s[Offset(o, k)..Offset(o, k + 1)]
  }

  lemma LayoutAt(o: Limits, s: Bytes, i: int)
    requires o.Valid()
    ensures i in Layout(o, s).backups <==> InLayout(o, s, i)
    ensures InLayout(o, s, i) ==> Layout(o, s).backups[i] == FileAt(o, s, FullFiles(o, s) - i)
  {
  }

  lemma FileAtLength(o: Limits, s: Bytes, k: int)
    requires o.Valid() && 0 <= k < FullFiles(o, s)
    ensures |FileAt(o, s, k)| == o.maxSize
  {
    FullFilesBounds(o, s);
    OffsetStep(o, k + 1, FullFiles(o, s));
    OffsetStep(o, 0, k);
    OffsetStep(o, k, k);
  }

  lemma LayoutSum(o: Limits, s: Bytes, i: int)
    requires o.Valid() && 0 <= i && (i == 0 || InLayout(o, s, i))
    ensures Sum(Layout(o, s).backups, i) == Offset(o, i)
    decreases i
  {
    if i > 0 {
      OffsetStep(o, i - 1, i - 1);
      LayoutSum(o, s, i - 1);
      LayoutAt(o, s, i);
      FileAtLength(o, s, FullFiles(o, s) - i);
    }
  }

  lemma LayoutStepSame(o: Limits, s: Bytes, b: Byte)
    requires o.Valid() && |Layout(o, s).active| < o.maxSize
    ensures WriteByte(Layout(o, s), o, b) == Layout(o, s + [b])
  {
    var full := FullFiles(o, s);
    var t := s + [b];
    FullFilesBounds(o, s);
    FullFilesUnique(o, t, full);
    var got, want := WriteByte(Layout(o, s), o, b), Layout(o, t);
    assert got.active == want.active;
    forall i: int
      ensures (i in got.backups <==> i in want.backups) && (i in got.backups ==> got.backups[i] == want.backups[i])
    {
      if 1 <= i <= full { LayoutStayAt(o, s, b, i); }
    }
    SameMap(got.backups, want.backups);
  }

  lemma LayoutStayAt(o: Limits, s: Bytes, b: Byte, i: int)
    requires o.Valid() && |Layout(o, s).active| < o.maxSize
    requires 1 <= i <= FullFiles(o, s) == FullFiles(o, s + [b])
    ensures var got, want := WriteByte(Layout(o, s), o, b).backups, Layout(o, s + [b]).backups;
      (i in got <==> i in want) && (i in got ==> got[i] == want[i])
  {
    LayoutAt(o, s, i);
    LayoutAt(o, s + [b], i);
    LayoutStayKept(o, s, b, i);
    SameFile(o, s, b, FullFiles(o, s) - i);
  }

  lemma LayoutStayKept(o: Limits, s: Bytes, b: Byte, i: int)
    requires o.Valid() && 1 <= i <= FullFiles(o, s) == FullFiles(o, s + [b])
    ensures i in Layout(o, s).backups && Kept(Append(Layout(o, s), [b]), o, i) <==> InLayout(o, s + [b], i)
  {
    LayoutAt(o, s, i);
    FullFilesBounds(o, s);
    if InLayout(o, s, i) { LayoutSum(o, s, i); }
  }

  lemma SameFile(o: Limits, s: Bytes, b: Byte, k: int)
    requires o.Valid() && 0 <= k < FullFiles(o, s) && k < FullFiles(o, s + [b])
    ensures FileAt(o, s, k) == FileAt(o, s + [b], k)
  {
    FullFilesBounds(o, s);
    OffsetStep(o, 0, k);
    OffsetStep(o, k + 1, FullFiles(o, s));
  }

  /** A full active file ends exactly at the next file boundary. */
  lemma LayoutFull(o: Limits, s: Bytes, b: Byte)
    requires o.Valid() && |Layout(o, s).active| >= o.maxSize
    ensures |Layout(o, s).active| == o.maxSize && |s| == Offset(o, FullFiles(o, s) + 1)
    ensures FullFiles(o, s + [b]) == FullFiles(o, s) + 1
  {
    var full := FullFiles(o, s);
    FullFilesBounds(o, s);
    OffsetStep(o, full, full);
    FullFilesUnique(o, s + [b], full + 1);
  }

  lemma LayoutRotateAt(o: Limits, s: Bytes, b: Byte, i: int)
    requires o.Valid() && |Layout(o, s).active| >= o.maxSize
    requires 1 <= i <= o.maxFiles
    ensures MovedTo(Layout(o, s), i) && Kept(Append(Rotated(Layout(o, s), o), [b]), o, i) <==> InLayout(o, s + [b], i)
  {
    var l := Layout(o, s);
    LayoutFull(o, s, b);
    RotatedSum(l, o, i);
    OffsetStep(o, i - 1, i - 1);
    LayoutAt(o, s, i - 1);
    OffsetStep(o, FullFiles(o, s), FullFiles(o, s));
    if MovedTo(l, i) { LayoutSum(o, s, i - 1); }
  }

  lemma LayoutRotateFile(o: Limits, s: Bytes, b: Byte, i: int)
    requires o.Valid() && |Layout(o, s).active| >= o.maxSize
    requires InLayout(o, s + [b], i) && MovedTo(Layout(o, s), i)
    ensures Rotated(Layout(o, s), o).backups[i] == FileAt(o, s + [b], FullFiles(o, s + [b]) - i)
  {
    LayoutFull(o, s, b);
    var full := FullFiles(o, s);
    OffsetStep(o, 0, full + 1 - i);
    OffsetStep(o, full + 1 - i, full);
    LayoutAt(o, s, i - 1);
  }

  lemma LayoutStepRotate(o: Limits, s: Bytes, b: Byte)
    requires o.Valid() && |Layout(o, s).active| >= o.maxSize
    ensures WriteByte(Layout(o, s), o, b) == Layout(o, s + [b])
  {
    LayoutFull(o, s, b);
    var got, want := WriteByte(Layout(o, s), o, b), Layout(o, s + [b]);
    forall i: int
      ensures (i in got.backups <==> i in want.backups) && (i in got.backups ==> got.backups[i] == want.backups[i])
    {
      if 1 <= i <= o.maxFiles { LayoutRotateSame(o, s, b, i); }
    }
    SameMap(got.backups, want.backups);
  }

  lemma LayoutRotateSame(o: Limits, s: Bytes, b: Byte, i: int)
    requires o.Valid() && |Layout(o, s).active| >= o.maxSize && 1 <= i <= o.maxFiles
    ensures var got, want := WriteByte(Layout(o, s), o, b).backups, Layout(o, s + [b]).backups;
      (i in got <==> i in want) && (i in got ==> got[i] == want[i])
  {
    LayoutRotateAt(o, s, b, i);
    LayoutAt(o, s + [b], i);
    if i in WriteByte(Layout(o, s), o, b).backups { LayoutRotateFile(o, s, b, i); }
  }

  /** Started on an empty directory, the files are `Layout` of the stream. */
  lemma {:induction false} WriteBytesIsLayout(o: Limits, s: Bytes)
    requires o.Valid()
    ensures WriteBytes(NO_LOGS, o, s) == Layout(o, s)
  {
    if s == [] {
      assert Layout(o, s).backups == map[];
    } else {
      var front, last := s[..|s| - 1], s[|s| - 1];
      WriteBytesIsLayout(o, front);
      assert front + [last] == s;
      if |Layout(o, front).active| < o.maxSize {
        LayoutStepSame(o, front, last);
      } else {
        LayoutStepRotate(o, front, last);
      }
    }
  }
}
