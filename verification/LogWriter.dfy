/** The log writer itself (internal/logfile/writer.go), over a directory whose
    every operation may fail and whose writes may be short. */
module LogWriter {
  import opened LogModel
  import opened Text

  /** A file whose suffix parses as a number; spelling 0 is the canonical one
      ("7"), the others are "07", "+7" and so on. */
  datatype BackupFile = BackupFile(index: nat, spelling: nat)
  {
    predicate Canonical() { spelling == 0 }

    predicate Stray(o: Limits) { index > 0 && (index > o.maxFiles || !Canonical()) }
  }

  datatype Name = Active | Numbered(file: BackupFile) | Unrelated(name: string)

  function BackupPath(index: nat): Name { Numbered(BackupFile(index, 0)) }

  ghost predicate NoStrays(files: map<Name, Bytes>, o: Limits) {
    forall f: BackupFile :: Numbered(f) in files ==> !f.Stray(o)
  }

  /** The files the writer must never touch. */
  predicate IsForeign(n: Name) { n.Unrelated? || (n.Numbered? && n.file.index == 0) }

  ghost predicate SameForeign(now: map<Name, Bytes>, was: map<Name, Bytes>) {
    forall n :: IsForeign(n) ==> (n in now <==> n in was) && (n in now ==> now[n] == was[n])
  }

  ghost function View(files: map<Name, Bytes>, o: Limits): Logs {
    Logs(if Active in files then files[Active] else [],
         map i: int | 1 <= i <= o.maxFiles && BackupPath(i) in files :: files[BackupPath(i)])
  }

  datatype Error = NoError | InvalidOptions | Closed | ShortWrite | ExceedsTotal | FileOperation

  function Failures(failed: bool): nat { if failed then 1 else 0 }

  class Directory {
    var files: map<Name, Bytes>
    ghost var faults: nat // operations that have failed
    ghost var stalls: nat // writes that took nothing without failing

    /** An operation may fail for reasons of its own. */
    method Fails() returns (failed: bool)
      modifies this`faults
      ensures faults == old(faults) + Failures(failed)
    {
      failed := *;
      faults := faults + Failures(failed);
    }

    method Remove(n: Name) returns (failed: bool)
      modifies this
      ensures files == if failed then old(files) else old(files) - {n}
      ensures faults == old(faults) + Failures(failed) && stalls == old(stalls)
    {
      failed := Fails();
      if !failed { files := files - {n}; }
    }

    method Rename(from: Name, to: Name) returns (failed: bool)
      requires from != to
      modifies this
      ensures files == if failed then old(files) else Renamed(old(files), from, to)
      ensures faults == old(faults) + Failures(failed) && stalls == old(stalls)
    {
      failed := Fails();
      if !failed { files := Renamed(files, from, to); }
    }

    method Size(n: Name) returns (failed: bool, size: int)
      modifies this`faults
      ensures !failed ==> size == if n in files then |files[n]| else 0
      ensures faults == old(faults) + Failures(failed)
    {
      failed := Fails();
      size := if n in files then |files[n]| else 0;
    }

    /** Cuts a file that is longer than max; a missing file is no error. */
    method Trim(n: Name, max: nat) returns (failed: bool)
      modifies this
      ensures failed || n !in old(files) ==> files == old(files)
      ensures !failed && n in old(files) ==> files == old(files)[n := Head(old(files)[n], max)]
      ensures faults == old(faults) + Failures(failed) && stalls == old(stalls)
    {
      failed := Fails();
      if !failed && n in files && |files[n]| > max { files := files[n := files[n][..max]]; }
    }

    /** Opens for appending; a failure may come before or after the creation. */
    method OpenAppend(n: Name) returns (failed: bool, size: int)
      modifies this
      ensures files == old(files) || (n !in old(files) && files == old(files)[n := []])
      ensures !failed ==> n in files && size == |files[n]|
      ensures faults == old(faults) + Failures(failed) && stalls == old(stalls)
    {
      var created: bool := *;
      failed := Fails();
      if n !in files && (created || !failed) { files := files[n := []]; }
      size := if n in files then |files[n]| else 0;
    }

    /** Writes some prefix of p. */
    method Append(n: Name, p: Bytes) returns (count: nat, failed: bool)
      requires n in files
      modifies this
      ensures count <= |p| && files == old(files)[n := old(files)[n] + p[..count]]
      ensures faults == old(faults) + Failures(failed) && stalls == old(stalls) + Failures(!failed && count == 0)
    {
      failed := Fails();
      var taken: int := *;
      count := if 0 <= taken <= |p| then taken else |p|;
      files := files[n := files[n] + p[..count]];
      stalls := stalls + Failures(!failed && count == 0);
    }

    /** The numbered files by index, from a listing in any order. */
    method Backups() returns (failed: bool, list: seq<BackupFile>)
      modifies this`faults
      ensures faults == old(faults) + Failures(failed)
      ensures forall f :: f in list <==> f.index > 0 && Numbered(f) in files
      ensures ByIndex(list)
    {
      failed := Fails();
      list := [];
      var rest := files.Keys;
      while rest != {}
        invariant forall f :: f in list <==> f.index > 0 && Numbered(f) in files && Numbered(f) !in rest
        invariant rest <= files.Keys
        invariant ByIndex(list)
        decreases rest
      {
        var n :| n in rest;
        if n.Numbered? && n.file.index > 0 { list := InsertByIndex(n.file, list); }
        rest := rest - {n};
      }
    }
  }

  predicate ByIndex(list: seq<BackupFile>) {
    forall i, j :: 0 <= i < j < |list| ==> list[i].index <= list[j].index && list[i] != list[j]
  }

  function InsertByIndex(f: BackupFile, list: seq<BackupFile>): (r: seq<BackupFile>)
    requires ByIndex(list) && f !in list
    ensures ByIndex(r) && forall g :: g in r <==> g == f || g in list
  {
    if list == [] || f.index <= list[0].index then [f] + list
    else
      assert list == [list[0]] + list[1..];
      var rest := InsertByIndex(f, list[1..]);
      InsertedLater(list[0], rest, list[1..], f);
      [list[0]] + rest
  }

  lemma InsertedLater(first: BackupFile, rest: seq<BackupFile>, tail: seq<BackupFile>, f: BackupFile)
    requires ByIndex([first] + tail) && ByIndex(rest) && forall g :: g in rest <==> g == f || g in tail
    requires first.index <= f.index && first != f
    ensures ByIndex([first] + rest) && forall g :: g in [first] + rest <==> g == f || g in [first] + tail
  {
    var all := [first] + rest;
    forall i, j | 0 <= i < j < |all| ensures all[i].index <= all[j].index && all[i] != all[j] {
      assert all[j] == rest[j - 1] && rest[j - 1] in rest;
      if i > 0 {
        assert all[i] == rest[i - 1];
      } else if rest[j - 1] in tail {
        var k :| 0 <= k < |tail| && tail[k] == rest[j - 1];
        assert ([first] + tail)[k + 1] == tail[k] && ([first] + tail)[0] == first;
      }
    }
  }

  /** Renaming a missing file is no error and changes nothing. */
  function Renamed(files: map<Name, Bytes>, from: Name, to: Name): map<Name, Bytes> {
    if from in files then (files - {from})[to := files[from]] else files
  }

  function Head(b: Bytes, max: nat): Bytes { if |b| > max then b[..max] else b }

  /** The longest prefix that fits. */
  lemma HeadExactly(b: Bytes, max: nat)
    ensures Head(b, max) <= b && |Head(b, max)| == if |b| > max then max else |b|
  {
  }

  ghost function TrimLogs(l: Logs, o: Limits): Logs
    requires o.Valid()
  {
    Logs(Head(l.active, o.maxSize), map i | i in l.backups :: Head(l.backups[i], o.maxSize))
  }

  /** Startup cuts every managed file to the size limit, then evicts. */
  ghost function Startup(l: Logs, o: Limits): Logs
    requires o.Valid()
  {
    Evict(TrimLogs(l, o), o)
  }

  class Writer {
    const path: string
    const limits: Limits
    const dir: Directory
    var open: bool
    var size: int
    var closed: bool
    ghost var start: Logs     // the files after startup
    ghost var accepted: Bytes // every byte a write has reported as written

    /** Holds in every reachable state, whatever has failed so far. */
    ghost predicate Valid()
      reads this, dir
    {
      && limits.Valid()
      && Indexed(start, limits)
      && Keeps(View(dir.files, limits), start, accepted, limits)
      && (open ==> !closed && Usable(View(dir.files, limits)) && Active in dir.files)
    }

    ghost predicate Usable(now: Logs)
      requires limits.Valid()
      reads this
    {
      size == |now.active| && InSync(now, start, accepted, limits)
    }

    /** The state every write that returns no error leaves behind. */
    ghost predicate Settled()
      reads this, dir
    {
      && View(dir.files, limits) == WriteBytes(start, limits, accepted)
      && TotalSize(View(dir.files, limits), limits) <= limits.maxTotal
      && Bounded(View(dir.files, limits), limits)
      && NoStrays(dir.files, limits)
      && open && Active in dir.files
    }

    constructor (path: string, limits: Limits, dir: Directory)
      ensures this.path == path && this.limits == limits && this.dir == dir
      ensures !open && !closed && accepted == []
    {
      this.path, this.limits, this.dir := path, limits, dir;
      open, size, closed := false, 0, false;
      accepted := [];
    }

    /** The first half of enforceTotal: drops strays, measures the rest. */
    method CollectManaged() returns (failed: bool, managed: seq<nat>, total: int)
      requires limits.Valid()
      modifies dir
      ensures dir.faults == old(dir.faults) + Failures(failed) && dir.stalls == old(dir.stalls)
      ensures OnlyStraysGone(dir.files, old(dir.files), limits)
      ensures !failed ==> NoStrays(dir.files, limits) && IndexesOf(managed, View(dir.files, limits).backups)
      ensures !failed ==>
        total == |View(dir.files, limits).active| + Sum(View(dir.files, limits).backups, Last(managed))
    {
      ghost var before := View(dir.files, limits);
      managed := [];
      failed, total := dir.Size(Active);
      if failed { return; }
      var list: seq<BackupFile>;
      failed, list := dir.Backups();
      if failed { return; }
      ghost var was := dir.files;
      var k := 0;
      while k < |list|
        invariant 0 <= k <= |list| && dir.faults == old(dir.faults) && dir.stalls == old(dir.stalls)
        invariant OnlyStraysGone(dir.files, was, limits) && StraysPending(dir.files, limits, list, k)
        invariant Measured(before.backups, list, k, managed)
        invariant total == |before.active| + Sum(before.backups, Last(managed))
      {
        failed, managed, total := CollectOne(list, k, managed, total, was);
        if failed { return; }
        k := k + 1;
      }
      MeasuredAll(before.backups, list, managed);
    }

    /** One turn of that loop. */
    method CollectOne(list: seq<BackupFile>, k: nat, before: seq<nat>, sum: int, ghost was: map<Name, Bytes>)
      returns (failed: bool, managed: seq<nat>, total: int)
      requires k < |list| && list[k].index > 0 && Numbered(list[k]) in was
      requires OnlyStraysGone(dir.files, was, limits) && StraysPending(dir.files, limits, list, k)
      requires Measured(View(was, limits).backups, list, k, before)
      requires sum == |View(was, limits).active| + Sum(View(was, limits).backups, Last(before))
      modifies dir
      ensures dir.faults == old(dir.faults) + Failures(failed) && dir.stalls == old(dir.stalls)
      ensures OnlyStraysGone(dir.files, was, limits)
      ensures !failed ==>
        StraysPending(dir.files, limits, list, k + 1) && Measured(View(was, limits).backups, list, k + 1, managed)
      ensures !failed ==> total == |View(was, limits).active| + Sum(View(was, limits).backups, Last(managed))
    {
      managed, total := before, sum;
      var backup := list[k];
      if backup.index > limits.maxFiles || !backup.Canonical() {
        failed := DropStray(list, k, was);
        MeasuredSkip(View(was, limits).backups, list, k, managed);
      } else {
        var size: int;
        failed, size := MeasureBackup(list, k, was);
        if failed { return; }
        MeasuredNext(View(was, limits).backups, list, k, managed);
        total := total + size;
        managed := managed + [backup.index];
      }
    }

    method DropStray(list: seq<BackupFile>, k: nat, ghost was: map<Name, Bytes>) returns (failed: bool)
      requires k < |list| && list[k].Stray(limits) && StraysPending(dir.files, limits, list, k)
      requires OnlyStraysGone(dir.files, was, limits)
      modifies dir
      ensures dir.faults == old(dir.faults) + Failures(failed) && dir.stalls == old(dir.stalls)
      ensures OnlyStraysGone(dir.files, was, limits)
      ensures !failed ==> StraysPending(dir.files, limits, list, k + 1)
    {
      RemoveStray(dir.files, was, limits, list, k);
      failed := dir.Remove(Numbered(list[k]));
    }

    method MeasureBackup(list: seq<BackupFile>, k: nat, ghost was: map<Name, Bytes>) returns (failed: bool, size: int)
      requires k < |list| && !list[k].Stray(limits) && list[k].index > 0 && StraysPending(dir.files, limits, list, k)
      requires OnlyStraysGone(dir.files, was, limits) && Numbered(list[k]) in was
      modifies dir`faults
      ensures dir.faults == old(dir.faults) + Failures(failed)
      ensures !failed ==> StraysPending(dir.files, limits, list, k + 1)
      ensures !failed ==>
        list[k].index in View(was, limits).backups && size == |View(was, limits).backups[list[k].index]|
    {
      assert list[k] == BackupFile(list[k].index, 0) && BackupPath(list[k].index) == Numbered(list[k]);
      assert list[k..] == [list[k]] + list[k + 1..];
      failed, size := dir.Size(Numbered(list[k]));
    }

    /** The second half: removes the oldest backups while the total is too large. */
    method EvictOldest(managed: seq<nat>, measured: int) returns (failed: bool, total: int, ghost c: nat)
      requires limits.Valid() && IndexesOf(managed, View(dir.files, limits).backups)
      requires measured == |View(dir.files, limits).active| + Sum(View(dir.files, limits).backups, Last(managed))
      modifies dir
      ensures dir.faults == old(dir.faults) + Failures(failed) && dir.stalls == old(dir.stalls)
      ensures EvictedTo(dir.files, old(dir.files), limits, c)
      ensures !failed ==> total == |View(old(dir.files), limits).active| + Sum(View(old(dir.files), limits).backups, c)
      ensures !failed && |View(old(dir.files), limits).active| <= limits.maxTotal ==> total <= limits.maxTotal
    {
      ghost var was := dir.files;
      failed, total, c := false, measured, Last(managed);
      var i := |managed| - 1;
      EvictStart(was, limits, managed);
      while total > limits.maxTotal && i >= 0
        invariant -1 <= i < |managed| && c == Top(managed, i + 1)
        invariant dir.faults == old(dir.faults) && dir.stalls == old(dir.stalls)
        invariant EvictedTo(dir.files, was, limits, c)
        invariant total == |View(was, limits).active| + Sum(View(was, limits).backups, c)
        decreases i
      {
        var size: int;
        failed, size, c := RemoveOldest(managed, i, was);
        if failed { return; }
        total := total - size;
        i := i - 1;
      }
    }

    /** One turn of that loop. */
    method RemoveOldest(managed: seq<nat>, i: nat, ghost was: map<Name, Bytes>)
      returns (failed: bool, size: int, ghost c: nat)
      requires IndexesOf(managed, View(was, limits).backups) && i < |managed|
      requires EvictedTo(dir.files, was, limits, Top(managed, i + 1))
      requires !Kept(View(was, limits), limits, Top(managed, i + 1))
      modifies dir
      ensures dir.faults == old(dir.faults) + Failures(failed) && dir.stalls == old(dir.stalls)
      ensures c == Top(managed, if failed then i + 1 else i)
      ensures EvictedTo(dir.files, was, limits, c)
      ensures !failed ==>
        Sum(View(was, limits).backups, Top(managed, i + 1)) == Sum(View(was, limits).backups, c) + size
    {
      var index := managed[i];
      EvictNext(dir.files, was, limits, managed, i);
      c := Top(managed, i + 1);
      failed, size := dir.Size(BackupPath(index));
      if failed { return; }
      failed := dir.Remove(BackupPath(index));
      if !failed { c := Top(managed, i); }
    }

    method EnforceTotal() returns (err: Error)
      requires limits.Valid() && |View(dir.files, limits).active| <= limits.maxSize
      modifies dir
      ensures SameForeign(dir.files, old(dir.files))
      ensures Active in dir.files <==> old(Active in dir.files)
      ensures PartlyEvicted(View(dir.files, limits), View(old(dir.files), limits), limits)
      ensures err.NoError? || err.FileOperation?
      ensures dir.faults == old(dir.faults) + Failures(err.FileOperation?) && dir.stalls == old(dir.stalls)
      ensures err.NoError? ==>
        View(dir.files, limits) == Evict(View(old(dir.files), limits), limits) && NoStrays(dir.files, limits)
    {
      var failed, managed, total := CollectManaged();
      assert View(dir.files, limits).backups == Upto(View(dir.files, limits).backups, limits.maxFiles);
      if failed { return FileOperation; }
      ghost var was, c := dir.files, 0;
      failed, total, c := EvictOldest(managed, total);
      EvictedRest(dir.files, was, limits, c);
      EvictedPartly(dir.files, was, limits, c);
      if failed { return FileOperation; }
      if total > limits.maxTotal { return ExceedsTotal; }
      return NoError;
    }

    /** The renames of a rotation; a failure stops them where they are. */
    method Shift() returns (failed: bool)
      requires limits.Valid() && Active in dir.files
      modifies dir
      ensures dir.faults == old(dir.faults) + Failures(failed) && dir.stalls == old(dir.stalls)
      ensures SameForeign(dir.files, old(dir.files))
      ensures !failed ==> View(dir.files, limits) == Rotated(View(old(dir.files), limits), limits)
      ensures Shrunk(View(dir.files, limits), View(old(dir.files), limits), limits)
    {
      ghost var was := dir.files;
      ShrunkSame(View(was, limits), limits);
      if limits.maxFiles == 0 {
        failed := dir.Remove(Active);
        RotateNone(was, limits);
        return;
      }
      failed := dir.Remove(BackupPath(limits.maxFiles));
      if failed { return; }
      ShiftStart(was, limits);
      var i := limits.maxFiles - 1;
      while i >= 1
        invariant 0 <= i < limits.maxFiles && dir.faults == old(dir.faults) && dir.stalls == old(dir.stalls)
        invariant ShiftedTo(dir.files, was, limits, i)
      {
        ShiftNext(dir.files, was, limits, i);
        failed := dir.Rename(BackupPath(i), BackupPath(i + 1));
        if failed {
          ShiftShrinks(dir.files, was, limits, i);
          return;
        }
        i := i - 1;
      }
      ShiftShrinks(dir.files, was, limits, 0);
      ShiftLast(dir.files, was, limits);
      ShiftLastForeign(dir.files, was, limits);
      RotatedShrinks(View(was, limits), limits);
      failed := dir.Rename(Active, BackupPath(1));
    }

    method Rotate() returns (err: Error)
      requires limits.Valid() && open && Active in dir.files && Bounded(View(dir.files, limits), limits)
      modifies this`open, this`size, dir
      ensures SameForeign(dir.files, old(dir.files))
      ensures Shrunk(View(dir.files, limits), View(old(dir.files), limits), limits)
      ensures err.NoError? || err.FileOperation?
      ensures dir.faults == old(dir.faults) + Failures(err.FileOperation?) && dir.stalls == old(dir.stalls)
      ensures err.NoError? ==>
        && open && size == 0 && Active in dir.files
        && View(dir.files, limits) == Evict(Rotated(View(old(dir.files), limits), limits), limits)
      ensures !err.NoError? && open ==> dir.files == old(dir.files) && size == old(size)
    {
      ghost var was := View(dir.files, limits);
      ShrunkSame(was, limits);
      var failed := dir.Fails(); // closing the file
      if failed { return FileOperation; }
      open := false;
      failed := Shift();
      if failed { return FileOperation; }
      ghost var shifted := View(dir.files, limits);
      err := EnforceTotal();
      PartlyEvictedShrinks(View(dir.files, limits), shifted, limits);
      ShrunkTransitive(View(dir.files, limits), shifted, was, limits);
      if err != NoError { return; }
      err := OpenActive();
    }

    method OpenActive() returns (err: Error)
      requires !open
      modifies this`open, this`size, dir
      ensures View(dir.files, limits) == View(old(dir.files), limits) && SameForeign(dir.files, old(dir.files))
      ensures old(NoStrays(dir.files, limits)) ==> NoStrays(dir.files, limits)
      ensures err.NoError? || err.FileOperation?
      ensures dir.faults == old(dir.faults) + Failures(err.FileOperation?) && dir.stalls == old(dir.stalls)
      ensures open <==> err.NoError?
      ensures open ==> Active in dir.files && size == |View(dir.files, limits).active|
    {
      if Active !in dir.files { CreateActive(dir.files, limits); }
      var failed, length := dir.OpenAppend(Active);
      if failed { return FileOperation; }
      open, size := true, length;
      return NoError;
    }

    method Write(p: Bytes) returns (written: nat, err: Error)
      requires Valid()
      modifies this`open, this`size, this`accepted, dir
      ensures Valid()
      ensures SameForeign(dir.files, old(dir.files))
      ensures Extends(accepted, old(accepted), p, written)
      ensures err.Closed? <==> !old(open)
      ensures err.NoError? || err.Closed? || err.ShortWrite? || err.FileOperation?
      // it fails only with an operation of the directory
      ensures dir.faults == old(dir.faults) + Failures(err.FileOperation?)
      ensures dir.stalls == old(dir.stalls) + Failures(err.ShortWrite?)
      ensures err.NoError? ==> written == |p|
      ensures err.NoError? && p != [] ==> Settled()
      ensures p == [] || err.Closed? ==> dir.files == old(dir.files)
    {
      NothingWritten(accepted, p);
      if closed || !open { return 0, Closed; }
      if |p| == 0 { return 0, NoError; }
      written := 0;
      var rest := p;
      while |rest| > 0
        invariant Extends(accepted, old(accepted), p, written) && rest == p[written..]
        invariant Valid() && open
        invariant SameForeign(dir.files, old(dir.files))
        invariant written > 0 ==> Settled()
        invariant dir.faults == old(dir.faults) && dir.stalls == old(dir.stalls)
        decreases |rest|
      {
        ghost var was := accepted;
        var n;
        n, err := WriteSome(rest);
        ExtendMore(was, old(accepted), p, written, n);
        written := written + n;
        rest := rest[n..];
        if err != NoError { return; }
      }
      err := NoError;
    }

    /** One turn of the write loop: rotate a full file, then write as much as fits. */
    method WriteSome(rest: Bytes) returns (n: nat, err: Error)
      requires Valid() && open && rest != []
      modifies this`open, this`size, this`accepted, dir
      ensures Valid() && SameForeign(dir.files, old(dir.files))
      ensures n <= |rest| && accepted == old(accepted) + rest[..n]
      ensures err.NoError? || err.ShortWrite? || err.FileOperation?
      ensures dir.faults == old(dir.faults) + Failures(err.FileOperation?)
      ensures dir.stalls == old(dir.stalls) + Failures(err.ShortWrite?)
      ensures err.NoError? ==> n > 0 && Settled()
    {
      if size >= limits.maxSize {
        err := RotateInSync();
        if err != NoError { return 0, err; }
      }
      var capacity := limits.maxSize - size;
      var chunk := |rest|;
      if chunk > capacity { chunk := capacity; }
      n, err := AppendChunk(rest[..chunk]);
      assert rest[..chunk][..n] == rest[..n];
    }

    /** Rotation as the write loop uses it. */
    method RotateInSync() returns (err: Error)
      requires Valid() && open && size >= limits.maxSize
      modifies this`open, this`size, dir
      ensures Valid() && SameForeign(dir.files, old(dir.files))
      ensures err.NoError? || err.FileOperation?
      ensures dir.faults == old(dir.faults) + Failures(err.FileOperation?) && dir.stalls == old(dir.stalls)
      ensures err.NoError? ==> open && size == 0
    {
      ghost var was := View(dir.files, limits);
      err := Rotate();
      KeepsShrunk(View(dir.files, limits), was, start, accepted, limits);
      if err == NoError { InSyncRotate(was, start, accepted, limits); }
    }

    /** One chunk: append what the file takes, then enforce the total. */
    method AppendChunk(chunk: Bytes) returns (n: nat, err: Error)
      requires Valid() && open && chunk != [] && size + |chunk| <= limits.maxSize
      modifies this`size, this`accepted, dir
      ensures Valid() && SameForeign(dir.files, old(dir.files))
      ensures n <= |chunk| && accepted == old(accepted) + chunk[..n]
      ensures err.NoError? || err.ShortWrite? || err.FileOperation?
      ensures dir.faults == old(dir.faults) + Failures(err.FileOperation?)
      ensures dir.stalls == old(dir.stalls) + Failures(err.ShortWrite?)
      ensures err.NoError? ==> n > 0 && Settled()
    {
      ghost var was := View(dir.files, limits);
      ghost var stream := accepted;
      var failed;
      AppendView(dir.files, limits);
      n, failed := dir.Append(Active, chunk);
      accepted := accepted + chunk[..n];
      size := size + n;
      ghost var now := View(dir.files, limits);
      assert now == Append(was, chunk[..n]);
      ChunkAppended(was, start, stream, limits, chunk[..n]);
      if failed { return n, FileOperation; }
      if n == 0 { return n, ShortWrite; }
      err := EnforceTotal();
      ChunkEnforced(View(dir.files, limits), now, start, accepted, limits);
    }

    method Close() returns (failed: bool)
      requires Valid()
      modifies this`open, this`closed, dir`faults
      ensures Valid() && closed && !open
      ensures !old(open) ==> !failed
      ensures dir.faults == old(dir.faults) + Failures(failed)
    {
      if closed { return false; }
      closed := true;
      if !open { return false; }
      failed := dir.Fails();
      open := false;
    }

    /** Drops strays, cuts every managed file to the size limit, evicts. */
    method CleanupExisting() returns (err: Error)
      requires limits.Valid()
      modifies dir
      ensures SameForeign(dir.files, old(dir.files))
      ensures err.NoError? ==>
        && View(dir.files, limits) == Startup(View(old(dir.files), limits), limits)
        && Bounded(View(dir.files, limits), limits)
        && TotalSize(View(dir.files, limits), limits) <= limits.maxTotal
        && NoStrays(dir.files, limits)
      ensures err.NoError? || err.FileOperation?
      ensures dir.faults == old(dir.faults) + Failures(err.FileOperation?) && dir.stalls == old(dir.stalls)
    {
      var failed := TrimAll();
      if failed { return FileOperation; }
      TotalFits(View(dir.files, limits), limits);
      err := EnforceTotal();
    }

    method TrimAll() returns (failed: bool)
      requires limits.Valid()
      modifies dir
      ensures dir.faults == old(dir.faults) + Failures(failed) && dir.stalls == old(dir.stalls)
      ensures SameForeign(dir.files, old(dir.files))
      ensures !failed ==> View(dir.files, limits) == TrimLogs(View(old(dir.files), limits), limits)
    {
      ghost var was := dir.files;
      var list: seq<BackupFile>;
      failed, list := dir.Backups();
      if failed { return; }
      var k := 0;
      while k < |list|
        invariant 0 <= k <= |list| && dir.faults == old(dir.faults) && dir.stalls == old(dir.stalls)
        invariant TrimmedTo(dir.files, was, limits, list[..k])
      {
        var backup := list[k];
        assert list[..k + 1] == list[..k] + [backup];
        TrimNext(dir.files, was, limits, list[..k], backup);
        if backup.index > limits.maxFiles || !backup.Canonical() {
          failed := dir.Remove(Numbered(backup));
        } else {
          failed := dir.Trim(Numbered(backup), limits.maxSize);
        }
        if failed { return; }
        k := k + 1;
      }
      assert list[..k] == list;
      TrimDone(dir.files, was, limits, list);
      failed := dir.Trim(Active, limits.maxSize);
    }

    static method NewWriter(path: string, limits: Limits, dir: Directory) returns (w: Writer?, err: Error)
      modifies dir
      ensures w != null <==> err.NoError?
      ensures SameForeign(dir.files, old(dir.files))
      ensures Blank(path) || !limits.Valid() <==> err.InvalidOptions?
      ensures err.InvalidOptions? ==> dir.files == old(dir.files)
      ensures err.NoError? || err.InvalidOptions? || err.FileOperation?
      ensures dir.faults == old(dir.faults) + Failures(err.FileOperation?) && dir.stalls == old(dir.stalls)
      ensures w != null ==>
        && fresh(w) && w.dir == dir && w.limits == limits && w.Valid()
        && w.Settled() && w.accepted == []
        && w.start == Startup(View(old(dir.files), limits), limits)
    {
      if Blank(path) || limits.maxSize <= 0 || limits.maxFiles < 0 || limits.maxTotal < limits.maxSize {
        return null, InvalidOptions;
      }
      w := new Writer(path, limits, dir);
      err := w.Begin();
      if err != NoError { return null, err; }
    }

    method Begin() returns (err: Error)
      requires limits.Valid() && !open && !closed && accepted == []
      modifies this`open, this`size, this`start, dir
      ensures SameForeign(dir.files, old(dir.files))
      ensures err.NoError? ==>
        Valid() && Settled() && accepted == [] && start == Startup(View(old(dir.files), limits), limits)
      ensures err.NoError? || err.FileOperation?
      ensures dir.faults == old(dir.faults) + Failures(err.FileOperation?) && dir.stalls == old(dir.stalls)
    {
      err := CleanupExisting();
      if err != NoError { return; }
      start := View(dir.files, limits);
      err := OpenActive();
      if err == NoError { Begun(); }
    }

    lemma Begun()
      requires limits.Valid() && open && !closed && accepted == [] && Active in dir.files
      requires View(dir.files, limits) == start && size == |start.active|
      requires Bounded(start, limits) && TotalSize(start, limits) <= limits.maxTotal && NoStrays(dir.files, limits)
      ensures Valid() && Settled()
    {
      StartKeeps(start, limits, accepted);
    }

    /** With a directory that was empty at startup, the files are the layout of
        everything accepted so far, whatever failed in between. */
    lemma SettledLayout()
      requires Valid() && Settled() && start == NO_LOGS
      ensures View(dir.files, limits) == Layout(limits, accepted)
    {
      WriteBytesIsLayout(limits, accepted);
    }
  }

  /** The last of the first n indexes. */
  function Top(s: seq<nat>, n: nat): nat
    requires n <= |s|
  {
    if n == 0 then 0 else s[n - 1]
  }

  function Last(s: seq<nat>): nat { Top(s, |s|) }

  /** The indexes of the backups, ascending. */
  ghost predicate IndexesOf(s: seq<nat>, b: map<int, Bytes>) {
    && (forall i, j :: 0 <= i < j < |s| ==> s[i] < s[j])
    && (forall i :: i in s ==> i in b)
    && (forall i :: i in b ==> i in s)
  }

  /** Every stray is still to come in the listing from k on. */
  ghost predicate StraysPending(files: map<Name, Bytes>, o: Limits, list: seq<BackupFile>, k: nat)
    requires k <= |list|
  {
    forall f: BackupFile :: Numbered(f) in files && f.Stray(o) ==> f in list[k..]
  }

  /** The first k names of the listing are dealt with, `managed` holds the kept ones. */
  ghost predicate Measured(b: map<int, Bytes>, list: seq<BackupFile>, k: nat, managed: seq<nat>)
    requires k <= |list|
  {
    && ByIndex(list)
    && IndexesOf(managed, Upto(b, Last(managed)))
    && (Last(managed) == 0 || BackupFile(Last(managed), 0) in list[..k])
    && forall i <- b :: i > Last(managed) ==> BackupFile(i, 0) in list[k..]
  }

  ghost predicate OnlyStraysGone(now: map<Name, Bytes>, was: map<Name, Bytes>, o: Limits) {
    View(now, o) == View(was, o) && SameForeign(now, was) && (Active in now <==> Active in was)
  }

  lemma RemoveStray(files: map<Name, Bytes>, was: map<Name, Bytes>, o: Limits, list: seq<BackupFile>, k: nat)
    requires k < |list| && list[k].Stray(o) && StraysPending(files, o, list, k)
    requires OnlyStraysGone(files, was, o)
    ensures OnlyStraysGone(files - {Numbered(list[k])}, was, o)
    ensures StraysPending(files - {Numbered(list[k])}, o, list, k + 1)
  {
    assert list[k..] == [list[k]] + list[k + 1..];
  }

  lemma MeasuredSkip(b: map<int, Bytes>, list: seq<BackupFile>, k: nat, managed: seq<nat>)
    requires k < |list| && Measured(b, list, k, managed)
    requires !list[k].Canonical() || list[k].index !in b
    ensures Measured(b, list, k + 1, managed)
  {
    assert list[k..] == [list[k]] + list[k + 1..] && list[..k + 1] == list[..k] + [list[k]];
  }

  lemma MeasuredNext(b: map<int, Bytes>, list: seq<BackupFile>, k: nat, managed: seq<nat>)
    requires k < |list| && Measured(b, list, k, managed)
    requires list[k].Canonical() && list[k].index in b && list[k].index > 0
    ensures Measured(b, list, k + 1, managed + [list[k].index])
    ensures Sum(b, Last(managed + [list[k].index])) == Sum(b, Last(managed)) + |b[list[k].index]|
  {
    var x, c := list[k].index, Last(managed);
    MeasuredBounds(b, list, k, managed);
    SumSkip(b, c, x - 1);
    NextIndex(managed, b, x);
    assert list[k] == BackupFile(x, 0);
    ListNext(b, list, k, c, x);
  }

  /** The rest of the list still holds every backup beyond x. */
  lemma ListNext(b: map<int, Bytes>, list: seq<BackupFile>, k: nat, c: nat, x: nat)
    requires k < |list| && list[k] == BackupFile(x, 0) && c <= x
    requires forall i <- b :: i > c ==> BackupFile(i, 0) in list[k..]
    ensures BackupFile(x, 0) in list[..k + 1]
    ensures forall i <- b :: i > x ==> BackupFile(i, 0) in list[k + 1..]
  {
    assert list[..k + 1] == list[..k] + [list[k]];
    forall i | i in b && i > x ensures BackupFile(i, 0) in list[k + 1..] {
      assert list[k..] == [list[k]] + list[k + 1..];
    }
  }

  /** The next listed backup lies between those measured and those to come. */
  lemma MeasuredBounds(b: map<int, Bytes>, list: seq<BackupFile>, k: nat, managed: seq<nat>)
    requires k < |list| && Measured(b, list, k, managed)
    requires list[k].Canonical() && list[k].index in b && list[k].index > 0
    ensures Last(managed) < list[k].index
    ensures forall i :: Last(managed) < i && i in b ==> list[k].index <= i
  {
    var x, c := list[k].index, Last(managed);
    assert list[k] == BackupFile(x, 0);
    forall i | c < i && i in b ensures x <= i {
      var j :| 0 <= j < |list[k..]| && list[k..][j] == BackupFile(i, 0);
      assert list[k + j] == BackupFile(i, 0);
    }
    if c > 0 {
      var j :| 0 <= j < |list[..k]| && list[..k][j] == BackupFile(c, 0);
      assert list[j] == BackupFile(c, 0);
    }
  }

  lemma NextIndex(managed: seq<nat>, b: map<int, Bytes>, x: nat)
    requires IndexesOf(managed, Upto(b, Last(managed)))
    requires x in b && Last(managed) < x
    requires forall i :: Last(managed) < i < x ==> i !in b
    ensures IndexesOf(managed + [x], Upto(b, x)) && Last(managed + [x]) == x
  {
  }

  lemma MeasuredAll(b: map<int, Bytes>, list: seq<BackupFile>, managed: seq<nat>)
    requires Measured(b, list, |list|, managed)
    ensures IndexesOf(managed, b)
  {
    assert Upto(b, Last(managed)) == b;
  }

  /** A managed backup with an index above c. */
  predicate Above(n: Name, o: Limits, c: nat) { n.Numbered? && n.file.Canonical() && c < n.file.index <= o.maxFiles }

  /** The files without those. */
  ghost function Below(files: map<Name, Bytes>, o: Limits, c: nat): map<Name, Bytes> {
    map n | n in files && !Above(n, o, c) :: files[n]
  }

  ghost predicate Condemned(v: Logs, o: Limits, c: nat) { forall j <- v.backups :: j > c ==> !Kept(v, o, j) }

  /** Every backup above c is gone, and rightly so; nothing else has changed. */
  ghost predicate EvictedTo(now: map<Name, Bytes>, was: map<Name, Bytes>, o: Limits, c: nat) {
    now == Below(was, o, c) && Condemned(View(was, o), o, c)
  }

  lemma BelowView(files: map<Name, Bytes>, o: Limits, c: nat)
    ensures View(Below(files, o, c), o) == View(files, o).(backups := Upto(View(files, o).backups, c))
  {
    var got, want := View(Below(files, o, c), o).backups, Upto(View(files, o).backups, c);
    forall i: int ensures (i in got <==> i in want) && (i in got ==> got[i] == want[i]) {
      if i > 0 { assert BackupPath(i) in files && i <= o.maxFiles ==> (Above(BackupPath(i), o, c) <==> i > c); }
    }
    SameMap(got, want);
  }

  lemma EvictedRest(now: map<Name, Bytes>, was: map<Name, Bytes>, o: Limits, c: nat)
    requires EvictedTo(now, was, o, c)
    ensures SameForeign(now, was) && (Active in now <==> Active in was)
    ensures NoStrays(was, o) ==> NoStrays(now, o)
  {
  }

  lemma EvictedPartly(now: map<Name, Bytes>, was: map<Name, Bytes>, o: Limits, c: nat)
    requires EvictedTo(now, was, o, c)
    ensures PartlyEvicted(View(now, o), View(was, o), o)
    ensures |View(was, o).active| + Sum(View(was, o).backups, c) <= o.maxTotal ==>
      View(now, o) == Evict(View(was, o), o)
  {
    BelowView(was, o, c);
    assert View(now, o).backups == Upto(View(was, o).backups, c);
    EvictDone(View(was, o), o, c);
  }

  lemma EvictStart(files: map<Name, Bytes>, o: Limits, managed: seq<nat>)
    requires IndexesOf(managed, View(files, o).backups)
    ensures EvictedTo(files, files, o, Last(managed))
  {
    var c := Last(managed);
    forall n | n in files ensures !Above(n, o, c) {
      assert Above(n, o, 0) ==> n == BackupPath(n.file.index) && n.file.index in View(files, o).backups;
    }
    SameMap(files, Below(files, o, c));
  }

  /** Nothing lies between two neighbouring managed indexes. */
  lemma NextOldest(b: map<int, Bytes>, managed: seq<nat>, i: nat)
    requires IndexesOf(managed, b) && i < |managed|
    requires forall j <- b :: j > 0
    ensures Top(managed, i) < managed[i]
    ensures managed[i] in b && forall j <- b :: j > Top(managed, i) ==> j >= managed[i]
    ensures Top(managed, i + 1) == managed[i]
  {
    assert managed[i] in managed;
    forall j | j in b && j > Top(managed, i) ensures j >= managed[i] {
      var k :| 0 <= k < |managed| && managed[k] == j;
    }
  }

  /** One turn of the eviction loop: the oldest of the remaining backups. */
  lemma EvictNext(files: map<Name, Bytes>, was: map<Name, Bytes>, o: Limits, managed: seq<nat>, i: nat)
    requires IndexesOf(managed, View(was, o).backups) && i < |managed|
    requires EvictedTo(files, was, o, Top(managed, i + 1))
    requires !Kept(View(was, o), o, Top(managed, i + 1))
    ensures EvictedTo(files - {BackupPath(managed[i])}, was, o, Top(managed, i))
    ensures BackupPath(managed[i]) in files
    ensures Sum(View(was, o).backups, Top(managed, i + 1))
         == Sum(View(was, o).backups, Top(managed, i)) + |files[BackupPath(managed[i])]|
  {
    var b := View(was, o).backups;
    NextOldest(b, managed, i);
    SumSkip(b, Top(managed, i), managed[i] - 1);
    EvictedMore(files, was, o, managed[i], Top(managed, i));
  }

  /** The same in terms of the indexes: x is the oldest left, c the one before it. */
  lemma EvictedMore(files: map<Name, Bytes>, was: map<Name, Bytes>, o: Limits, x: nat, c: nat)
    requires EvictedTo(files, was, o, x) && !Kept(View(was, o), o, x)
    requires x in View(was, o).backups && c < x && forall j <- View(was, o).backups :: j > c ==> j >= x
    ensures EvictedTo(files - {BackupPath(x)}, was, o, c)
    ensures BackupPath(x) in files && files[BackupPath(x)] == View(was, o).backups[x]
  {
    var left, right := files - {BackupPath(x)}, Below(was, o, c);
    forall n: Name ensures (n in left <==> n in right) && (n in left ==> left[n] == right[n]) {
      if n in was && Above(n, o, c) && !Above(n, o, x) {
        assert n == BackupPath(n.file.index) && n.file.index in View(was, o).backups;
      }
    }
    SameMap(left, right);
  }

  lemma EvictDone(v: Logs, o: Limits, c: nat)
    requires Condemned(v, o, c)
    ensures |v.active| + Sum(v.backups, c) <= o.maxTotal ==> Upto(v.backups, c) == Evict(v, o).backups
  {
    forall j | j in v.backups && j <= c ensures Sum(v.backups, j) <= Sum(v.backups, c) {
      SumMonotone(v.backups, j, c);
    }
  }

  // ---------- steps of a rotation ----------

  /** Only the oldest content is gone, and no file has grown. */
  ghost predicate Shrunk(now: Logs, was: Logs, o: Limits) {
    && IsSuffix(Retained(now, o), Retained(was, o))
    && (Bounded(was, o) ==> Bounded(now, o))
  }

  /** Creating an empty active file is invisible. */
  lemma CreateActive(files: map<Name, Bytes>, o: Limits)
    requires Active !in files
    ensures View(files[Active := []], o) == View(files, o)
    ensures SameForeign(files[Active := []], files)
  {
    assert View(files[Active := []], o).backups == View(files, o).backups;
  }

  lemma ShrunkSame(v: Logs, o: Limits)
    ensures Shrunk(v, v, o)
  {
  }

  lemma ShrunkTransitive(a: Logs, b: Logs, c: Logs, o: Limits)
    requires Shrunk(a, b, o) && Shrunk(b, c, o)
    ensures Shrunk(a, c, o)
  {
    SuffixTransitive(Retained(a, o), Retained(b, o), Retained(c, o));
  }

  lemma PartlyEvictedShrinks(after: Logs, before: Logs, o: Limits)
    requires PartlyEvicted(after, before, o)
    ensures Shrunk(after, before, o)
  {
    PartlyEvictedSuffix(after, before, o);
  }

  /** Without backups a rotation removes the active file. */
  lemma RotateNone(files: map<Name, Bytes>, o: Limits)
    requires o.Valid() && o.maxFiles == 0
    ensures View(files - {Active}, o) == Rotated(View(files, o), o)
    ensures Shrunk(View(files - {Active}, o), View(files, o), o)
  {
    assert View(files - {Active}, o).backups == map[];
    assert Rotated(View(files, o), o).backups == map[];
  }

  /** Backup j while the renames above i are done: those have moved up by one. */
  ghost predicate ShiftedAt(now: map<Name, Bytes>, was: map<Name, Bytes>, i: int, j: nat)
    requires j > 0
  {
    var source := BackupPath(if j <= i then j else j - 1);
    if j == i + 1 then BackupPath(j) !in now
    else (BackupPath(j) in now <==> source in was) && (source in was ==> now[BackupPath(j)] == was[source])
  }

  ghost predicate ShiftedTo(now: map<Name, Bytes>, was: map<Name, Bytes>, o: Limits, i: int) {
    && (forall j: nat :: 1 <= j <= o.maxFiles ==> ShiftedAt(now, was, i, j))
    && (forall n :: IsForeign(n) || n == Active ==> (n in now <==> n in was) && (n in now ==> now[n] == was[n]))
  }

  lemma ShiftStart(files: map<Name, Bytes>, o: Limits)
    requires o.maxFiles > 0
    ensures ShiftedTo(files - {BackupPath(o.maxFiles)}, files, o, o.maxFiles - 1)
  {
  }

  lemma RenamedAt(files: map<Name, Bytes>, from: Name, to: Name, n: Name)
    requires from != to
    ensures n in Renamed(files, from, to) <==>
              if from in files then n == to || (n != from && n in files) else n in files
    ensures n in Renamed(files, from, to) ==>
              Renamed(files, from, to)[n] == if from in files && n == to then files[from] else files[n]
  {
  }

  lemma ShiftNext(now: map<Name, Bytes>, was: map<Name, Bytes>, o: Limits, i: nat)
    requires 1 <= i < o.maxFiles && ShiftedTo(now, was, o, i)
    ensures ShiftedTo(Renamed(now, BackupPath(i), BackupPath(i + 1)), was, o, i - 1)
  {
    var next := Renamed(now, BackupPath(i), BackupPath(i + 1));
    assert ShiftedAt(now, was, i, i) && ShiftedAt(now, was, i, i + 1);
    var h := i - 1;
    forall j: nat | 1 <= j <= o.maxFiles ensures ShiftedAt(next, was, h, j) {
      RenamedAt(now, BackupPath(i), BackupPath(i + 1), BackupPath(j));
      assert ShiftedAt(now, was, i, j);
    }
    forall n | IsForeign(n) || n == Active ensures (n in next <==> n in was) && (n in next ==> next[n] == was[n]) {
      RenamedAt(now, BackupPath(i), BackupPath(i + 1), n);
    }
  }

  lemma ShiftLastAt(now: map<Name, Bytes>, was: map<Name, Bytes>, o: Limits, j: nat)
    requires o.maxFiles > 0 && ShiftedTo(now, was, o, 0) && Active in was
    ensures var next, want := View(Renamed(now, Active, BackupPath(1)), o).backups, Rotated(View(was, o), o).backups;
            && (j in next <==> j in want)
            && (j in next ==> next[j] == want[j])
  {
    RenamedAt(now, Active, BackupPath(1), BackupPath(j));
    if 1 <= j <= o.maxFiles { assert ShiftedAt(now, was, 0, j); }
  }

  lemma ShiftLast(now: map<Name, Bytes>, was: map<Name, Bytes>, o: Limits)
    requires o.Valid() && o.maxFiles > 0 && ShiftedTo(now, was, o, 0) && Active in was
    ensures View(Renamed(now, Active, BackupPath(1)), o) == Rotated(View(was, o), o)
  {
    var next, want := View(Renamed(now, Active, BackupPath(1)), o).backups, Rotated(View(was, o), o).backups;
    forall j: int ensures j in next <==> j in want
    {
      if j >= 0 { ShiftLastAt(now, was, o, j); }
    }
    forall j | j in next ensures next[j] == want[j] { ShiftLastAt(now, was, o, j); }
    assert next == want;
  }

  lemma ShiftLastForeign(now: map<Name, Bytes>, was: map<Name, Bytes>, o: Limits)
    requires ShiftedTo(now, was, o, 0)
    ensures SameForeign(Renamed(now, Active, BackupPath(1)), was)
  {
  }

  lemma RotatedShrinks(v: Logs, o: Limits)
    requires o.Valid() && Indexed(v, o)
    ensures Shrunk(Rotated(v, o), v, o)
  {
    RotatedSuffix(v, o);
  }

  lemma ShiftedView(now: map<Name, Bytes>, was: map<Name, Bytes>, o: Limits, i: nat)
    requires i < o.maxFiles && ShiftedTo(now, was, o, i)
    ensures View(now, o) == View(was, o).(backups := Shifted(View(was, o).backups, o, i))
  {
    var next, want := View(now, o).backups, Shifted(View(was, o).backups, o, i);
    forall j: int ensures (j in next <==> j in want) && (j in next ==> next[j] == want[j]) {
      if 1 <= j <= o.maxFiles { assert ShiftedAt(now, was, i, j); }
    }
    SameMap(next, want);
  }

  lemma ShiftShrinks(now: map<Name, Bytes>, was: map<Name, Bytes>, o: Limits, i: nat)
    requires i < o.maxFiles && ShiftedTo(now, was, o, i)
    ensures Shrunk(View(now, o), View(was, o), o)
  {
    ShiftedView(now, was, o, i);
    ShiftedSuffix(View(was, o), o, i);
  }

  // ---------- the writer's invariant ----------

  /** The files are bounded and hold a suffix of everything ever accepted. */
  ghost predicate Keeps(now: Logs, start: Logs, accepted: Bytes, o: Limits) {
    && Bounded(now, o)
    && IsSuffix(Retained(now, o), Retained(start, o) + accepted)
  }

  /** Up to a pending rotation and pending evictions, the files are those of the
      stream written byte by byte. */
  ghost predicate InSync(now: Logs, start: Logs, accepted: Bytes, o: Limits) {
    Settle(now, o) == Settle(WriteBytes(start, o, accepted), o)
  }

  /** Exactly the first n bytes of p have been accepted on top of `before`. */
  ghost predicate Extends(now: Bytes, before: Bytes, p: Bytes, n: nat) {
    n <= |p| && now == before + p[..n]
  }

  ghost function TotalSize(v: Logs, o: Limits): int {
    |v.active| + Sum(v.backups, o.maxFiles)
  }

  lemma TotalFits(v: Logs, o: Limits)
    requires |v.active| <= o.maxTotal
    ensures TotalSize(Evict(v, o), o) <= o.maxTotal
  {
    EvictFits(v, o);
  }

  lemma NothingWritten(before: Bytes, p: Bytes)
    ensures Extends(before, before, p, 0) && p[0..] == p
  {
  }

  lemma ExtendMore(was: Bytes, before: Bytes, p: Bytes, written: nat, n: nat)
    requires Extends(was, before, p, written) && n <= |p| - written
    ensures Extends(was + p[written..][..n], before, p, written + n)
    ensures p[written..][n..] == p[written + n..]
  {
    assert p[..written + n] == p[..written] + p[written..][..n];
  }

  lemma StartKeeps(v: Logs, o: Limits, accepted: Bytes)
    requires o.Valid() && Bounded(v, o) && accepted == []
    ensures Keeps(v, v, accepted, o) && InSync(v, v, accepted, o) && WriteBytes(v, o, accepted) == v
  {
    EmptyFirst(Retained(v, o));
  }

  lemma KeepsShrunk(now: Logs, was: Logs, start: Logs, accepted: Bytes, o: Limits)
    requires Keeps(was, start, accepted, o) && Shrunk(now, was, o)
    ensures Keeps(now, start, accepted, o)
  {
    SuffixTransitive(Retained(now, o), Retained(was, o), Retained(start, o) + accepted);
  }

  lemma KeepsAppend(was: Logs, start: Logs, accepted: Bytes, o: Limits, x: Bytes)
    requires Keeps(was, start, accepted, o) && |was.active| + |x| <= o.maxSize
    ensures Keeps(Append(was, x), start, accepted + x, o)
  {
    SuffixAppend(Retained(was, o), Retained(start, o) + accepted, x);
    assert Retained(Append(was, x), o) == Retained(was, o) + x;
    assert Retained(start, o) + (accepted + x) == Retained(start, o) + accepted + x;
  }

  lemma AppendView(files: map<Name, Bytes>, o: Limits)
    requires Active in files
    ensures forall x: Bytes :: View(files[Active := files[Active] + x], o) == Append(View(files, o), x)
    ensures forall x: Bytes :: SameForeign(files[Active := files[Active] + x], files)
  {
    forall x: Bytes ensures View(files[Active := files[Active] + x], o) == Append(View(files, o), x) {
      assert View(files[Active := files[Active] + x], o).backups == View(files, o).backups;
    }
  }

  lemma InSyncRotate(was: Logs, start: Logs, accepted: Bytes, o: Limits)
    requires o.Valid() && Indexed(was, o) && |was.active| >= o.maxSize
    requires InSync(was, start, accepted, o)
    ensures InSync(Evict(Rotated(was, o), o), start, accepted, o)
  {
    SettleTwice(was, o);
  }

  lemma InSyncAppend(was: Logs, start: Logs, accepted: Bytes, o: Limits, x: Bytes)
    requires o.Valid() && Indexed(was, o) && Indexed(start, o)
    requires InSync(was, start, accepted, o)
    requires |was.active| < o.maxSize && |was.active| + |x| <= o.maxSize
    ensures InSync(Append(was, x), start, accepted + x, o)
    ensures x != [] ==> Evict(Append(was, x), o) == WriteBytes(start, o, accepted + x)
  {
    if x == [] {
      EmptyFirst(was.active);
      EmptyFirst(accepted);
    } else {
      WriteBytesIndexed(start, o, accepted);
      ChunkRefines(was, WriteBytes(start, o, accepted), o, x);
      WriteSplit(start, o, accepted, x);
      SettleEvict(Append(was, x), o);
    }
  }

  lemma InSyncEvicted(now: Logs, was: Logs, start: Logs, accepted: Bytes, o: Limits)
    requires Indexed(was, o) && Indexed(now, o)
    requires PartlyEvicted(now, was, o) && InSync(was, start, accepted, o)
    ensures InSync(now, start, accepted, o)
  {
    PartlyEvictedEvict(now, was, o);
    SettleEvict(now, o);
    SettleEvict(was, o);
  }

  lemma ChunkAppended(was: Logs, start: Logs, accepted: Bytes, o: Limits, x: Bytes)
    requires o.Valid() && Indexed(was, o) && Indexed(start, o)
    requires Keeps(was, start, accepted, o) && InSync(was, start, accepted, o)
    requires |was.active| < o.maxSize && |was.active| + |x| <= o.maxSize
    ensures Keeps(Append(was, x), start, accepted + x, o) && InSync(Append(was, x), start, accepted + x, o)
    ensures x != [] ==> Evict(Append(was, x), o) == WriteBytes(start, o, accepted + x)
  {
    InSyncAppend(was, start, accepted, o, x);
    KeepsAppend(was, start, accepted, o, x);
  }

  lemma ChunkEnforced(now: Logs, was: Logs, start: Logs, accepted: Bytes, o: Limits)
    requires o.Valid() && Indexed(was, o) && Indexed(now, o) && PartlyEvicted(now, was, o)
    requires Keeps(was, start, accepted, o) && InSync(was, start, accepted, o)
    ensures Keeps(now, start, accepted, o) && InSync(now, start, accepted, o)
    ensures now == Evict(was, o) ==> TotalSize(now, o) <= o.maxTotal
  {
    PartlyEvictedShrinks(now, was, o);
    KeepsShrunk(now, was, start, accepted, o);
    InSyncEvicted(now, was, start, accepted, o);
    TotalFits(was, o);
  }

  // ---------- startup ----------

  /** The listed backups are trimmed or, if strays, gone. */
  ghost predicate TrimmedTo(now: map<Name, Bytes>, was: map<Name, Bytes>, o: Limits, done: seq<BackupFile>)
    requires o.Valid()
  {
    && SameForeign(now, was)
    && (Active in now <==> Active in was) && (Active in was ==> now[Active] == was[Active])
    && forall f: BackupFile :: f.index > 0 && !f.Stray(o) ==>
         && (Numbered(f) in now <==> Numbered(f) in was)
         && (Numbered(f) in was ==> now[Numbered(f)] == if f in done then Head(was[Numbered(f)], o.maxSize)
           else was[Numbered(f)])
  }

  lemma TrimNext(now: map<Name, Bytes>, was: map<Name, Bytes>, o: Limits, done: seq<BackupFile>, f: BackupFile)
    requires o.Valid() && TrimmedTo(now, was, o, done) && f.index > 0
    ensures f.Stray(o) ==> TrimmedTo(now - {Numbered(f)}, was, o, done + [f])
    ensures !f.Stray(o) && Numbered(f) in now ==>
              TrimmedTo(now[Numbered(f) := Head(now[Numbered(f)], o.maxSize)], was, o, done + [f])
    ensures !f.Stray(o) && Numbered(f) !in now ==> TrimmedTo(now, was, o, done + [f])
  {
  }

  lemma TrimDone(now: map<Name, Bytes>, was: map<Name, Bytes>, o: Limits, list: seq<BackupFile>)
    requires o.Valid() && TrimmedTo(now, was, o, list)
    requires forall f: BackupFile :: f in list <==> f.index > 0 && Numbered(f) in was
    ensures Active !in now ==> View(now, o) == TrimLogs(View(was, o), o)
    ensures Active in now ==> View(now[Active := Head(now[Active], o.maxSize)], o) == TrimLogs(View(was, o), o)
  {
    TrimmedBackups(now, was, o, list);
    if Active in now { ReplaceActive(now, o, Head(now[Active], o.maxSize)); }
  }

  lemma TrimmedBackups(now: map<Name, Bytes>, was: map<Name, Bytes>, o: Limits, list: seq<BackupFile>)
    requires o.Valid() && TrimmedTo(now, was, o, list)
    requires forall f: BackupFile :: f in list <==> f.index > 0 && Numbered(f) in was
    ensures View(now, o).backups == TrimLogs(View(was, o), o).backups
  {
    var got, want := View(now, o).backups, TrimLogs(View(was, o), o).backups;
    forall i: int ensures (i in got <==> i in want) && (i in got ==> got[i] == want[i]) {
      if 1 <= i <= o.maxFiles { assert !BackupFile(i, 0).Stray(o) && BackupPath(i) == Numbered(BackupFile(i, 0)); }
    }
    SameMap(got, want);
  }

  lemma ReplaceActive(files: map<Name, Bytes>, o: Limits, data: Bytes)
    ensures View(files[Active := data], o) == View(files, o).(active := data)
  {
    SameMap(View(files[Active := data], o).backups, View(files, o).backups);
  }
}
