/** The persisted alert state (internal/state/file.go).  Times are integers and 0
    is the zero time; a document stands for its JSON encoding. */
module State {
  import opened Text

  datatype Option<+T> = None | Some(value: T)
  datatype Result<+T, +E> = Success(value: T) | Failure(error: E)

  datatype Record = Record(key: string, scope: string, summary: string, current: string,
                           threshold: string, details: map<string, string>, activatedAt: int)

  datatype HealthState = HealthState(lastAttempt: int, lastSent: int)
  {
    predicate Valid() {
      && (lastSent != 0 ==> lastAttempt != 0)
      && (lastAttempt != 0 ==> lastAttempt >= lastSent)
    }
  }

  datatype Document = Document(version: int, active: seq<Record>, health: Option<HealthState>)

  /** The state file: absent, not readable as one document, or a document. */
  datatype Disk = Missing | Unreadable | Content(doc: Document)

  datatype Contents = Contents(records: map<string, Record>, health: HealthState)

  datatype OpenError = ReadFailed | UnsupportedVersion(version: int) | InvalidRecord(position: nat)
                     | DuplicateKey(key: string) | InvalidHealth

  const SCHEMA_VERSION := 2
  const NEVER := HealthState(0, 0)

  function KeyOf(r: Record): string { r.key }

  predicate ValidRecord(r: Record) { r.key != "" && r.scope != "" }

  predicate ValidRecords(records: map<string, Record>) {
    forall k <- records :: records[k].key == k && ValidRecord(records[k])
  }

  // ---------- loading ----------

  /** The records of a document, or the first thing wrong with them. */
  function Load(active: seq<Record>): Result<map<string, Record>, OpenError> {
    if active == [] then Success(map[])
    else
      var last := active[|active| - 1];
      match Load(active[..|active| - 1])
      case Failure(e) => Failure(e)
      case Success(m) =>
        if !ValidRecord(last) then Failure(InvalidRecord(|active| - 1))
        else if last.key in m then Failure(DuplicateKey(last.key))
        else Success(m[last.key := last])
  }

  function Restore(disk: Disk): Result<Contents, OpenError> {
    match disk
    case Missing => Success(Contents(map[], NEVER))
    case Unreadable => Failure(ReadFailed)
    case Content(doc) =>
      if doc.version != 1 && doc.version != SCHEMA_VERSION then Failure(UnsupportedVersion(doc.version))
      else
        match Load(doc.active)
        case Failure(e) => Failure(e)
        case Success(records) =>
          if doc.health.None? then Success(Contents(records, NEVER))
          else if !doc.health.value.Valid() then Failure(InvalidHealth)
          else Success(Contents(records, doc.health.value))
  }

  /** What a start finds: over a file that does not open the program runs on with an
      empty store. */
  function Found(disk: Disk): Contents {
    match Restore(disk)
    case Success(contents) => contents
    case Failure(_) => Contents(map[], NEVER)
  }

  /** What Save writes: every record in key order, and the schedule if there is one. */
  ghost function DocumentOf(records: map<string, Record>, health: HealthState): Document {
    Document(SCHEMA_VERSION, ValuesInOrder(records), if health == NEVER then None else Some(health))
  }

  /** Loading fails exactly on an invalid record or a repeated key, and otherwise
      gives every record under its own key. */
  lemma {:induction false} LoadExact(active: seq<Record>)
    ensures Load(active).Success? <==> (forall r <- active :: ValidRecord(r)) && Distinct(Keys(KeyOf, active))
    ensures Load(active).Success? ==>
      forall k, r :: (k in Load(active).value && Load(active).value[k] == r) <==> (r in active && r.key == k)
  {
    if active != [] {
      var front, last := active[..|active| - 1], active[|active| - 1];
      LoadExact(front);
      assert active == front + [last];
      KeysSnoc(KeyOf, front, last);
      if Load(front).Success? {
        assert last.key in Load(front).value <==> last.key in Keys(KeyOf, front) by {
          InKeys(KeyOf, front, last.key);
        }
      }
    }
  }

  lemma FoundValid(disk: Disk)
    ensures ValidRecords(Found(disk).records) && Found(disk).health.Valid()
  {
    if disk.Content? { LoadExact(disk.doc.active); }
  }

  /** A saved store reopens as itself. */
  lemma RestoreSaved(records: map<string, Record>, health: HealthState)
    requires ValidRecords(records) && health.Valid()
    ensures Restore(Content(DocumentOf(records, health))) == Success(Contents(records, health))
  {
    ValuesInOrderMembers(KeyOf, records);
    LoadEnumerated(ValuesInOrder(records), records);
  }

  lemma LoadEnumerated(active: seq<Record>, records: map<string, Record>)
    requires Enumerates(KeyOf, active, records) && ValidRecords(records)
    ensures Load(active) == Success(records)
  {
    assert forall r <- active :: KeyOf(r) in records && records[KeyOf(r)] == r;
    LoadExact(active);
    var loaded := Load(active).value;
    forall k ensures (k in loaded <==> k in records) && (k in records ==> loaded[k] == records[k]) {
      if k in records { assert KeyOf(records[k]) == k && records[k] in active; }
      if k in loaded { assert loaded[k] in active; }
    }
    assert loaded == records;
  }

  /** A document opens exactly in version 1 or 2, with valid records under distinct keys
      and a consistent schedule, if there is one. */
  lemma OpensExactly(doc: Document)
    ensures Restore(Content(doc)).Success? <==>
      && (doc.version == 1 || doc.version == 2)
      && (forall r <- doc.active :: r.key != "" && r.scope != "") && Distinct(Keys(KeyOf, doc.active))
      && (doc.health.Some? ==>
            var h := doc.health.value;
            (h.lastSent != 0 ==> h.lastAttempt != 0) && (h.lastAttempt != 0 ==> h.lastAttempt >= h.lastSent))
    ensures Restore(Content(doc)).Success? ==>
      var c := Restore(Content(doc)).value;
      && c.health == (if doc.health.Some? then doc.health.value else HealthState(0, 0))
      && forall k, r :: (k in c.records && c.records[k] == r) <==> (r in doc.active && r.key == k)
  {
    LoadExact(doc.active);
  }

  /** What is wrong with one that does not open: the version first, then the first bad
      record, then the schedule. */
  lemma RefusedExactly(doc: Document, n: nat)
    ensures doc.version != 1 && doc.version != 2 ==>
      Restore(Content(doc)) == Failure(UnsupportedVersion(doc.version))
    ensures (doc.version == 1 || doc.version == 2) && n < |doc.active| && Load(doc.active[..n]).Success? ==>
      && (!ValidRecord(doc.active[n]) ==> Restore(Content(doc)) == Failure(InvalidRecord(n)))
      && (ValidRecord(doc.active[n]) && doc.active[n].key in Keys(KeyOf, doc.active[..n]) ==>
            Restore(Content(doc)) == Failure(DuplicateKey(doc.active[n].key)))
    ensures (doc.version == 1 || doc.version == 2) && Load(doc.active).Success? ==>
      (doc.health.Some? && !doc.health.value.Valid() <==> Restore(Content(doc)) == Failure(InvalidHealth))
  {
    if n < |doc.active| && Load(doc.active[..n]).Success? {
      LoadNext(doc.active, n, Load(doc.active[..n]).value);
      LoadedKeys(doc.active[..n]);
      if Load(doc.active[..n + 1]).Failure? { LoadPrefix(doc.active, n + 1); }
    }
  }

  lemma LoadedKeys(active: seq<Record>)
    requires Load(active).Success?
    ensures forall k :: k in Keys(KeyOf, active) <==> k in Load(active).value
  {
    LoadExact(active);
    forall k ensures k in Keys(KeyOf, active) <==> k in Load(active).value {
      InKeys(KeyOf, active, k);
      if r :| r in active && KeyOf(r) == k { assert Load(active).value[k] == r; }
      if k in Load(active).value { assert Load(active).value[k] in active; }
    }
  }

  /** What Save writes: version 2, every record once, in ascending order of the keys. */
  lemma SavedExactly(records: map<string, Record>, health: HealthState)
    requires ValidRecords(records)
    ensures var doc := DocumentOf(records, health);
      && doc.version == 2 && Ascending(Keys(KeyOf, doc.active))
      && (forall r :: r in doc.active <==> r.key in records && records[r.key] == r)
      && (doc.health.None? <==> health == HealthState(0, 0)) && (doc.health.Some? ==> doc.health.value == health)
  {
    ValuesInOrderMembers(KeyOf, records);
    forall r ensures r in ValuesInOrder(records) <==> r.key in records && records[r.key] == r {
      assert KeyOf(r) == r.key;
    }
  }

  // ---------- the mutators as functions ----------

  datatype Mutation = Put(record: Record) | Delete(key: string) | SetHealth(value: HealthState)

  /** A rejected value changes nothing. */
  function Apply(c: Contents, m: Mutation): Contents {
    match m
    case Put(r) => if ValidRecord(r) then c.(records := c.records[r.key := r]) else c
    case Delete(k) => c.(records := c.records - {k})
    case SetHealth(h) => if h.Valid() then c.(health := h) else c
  }

  // ---------- the store ----------

  ghost function InScope(records: map<string, Record>, scope: string): map<string, Record> {
    map k | k in records && records[k].scope == scope :: records[k]
  }

  class File {
    var records: map<string, Record>
    var health: HealthState
    var disk: Disk
    ghost var saves: seq<bool> // how writing the file failed or not, once per call of Save

    ghost predicate Valid()
      reads this
    {
      ValidRecords(records) && health.Valid()
    }

    ghost function Now(): Contents
      reads this
    {
      Contents(records, health)
    }

    constructor New(disk: Disk)
      ensures Valid() && records == map[] && health == NEVER && this.disk == disk
    {
      records, health, this.disk := map[], NEVER, disk;
    }

    /** A store is returned in every case, empty when there is an error. */
    static method Open(disk: Disk) returns (store: File, error: Option<OpenError>)
      ensures fresh(store) && store.Valid() && store.disk == disk
      ensures error.None? <==> Restore(disk).Success?
      ensures error.Some? ==> Restore(disk) == Failure(error.value) && store.records == map[] && store.health == NEVER
      ensures error.None? ==> Restore(disk) == Success(Contents(store.records, store.health))
    {
      store := new File.New(disk);
      if disk.Missing? { return store, None; }
      if disk.Unreadable? { return store, Some(ReadFailed); }
      var doc := disk.doc;
      if doc.version != 1 && doc.version != SCHEMA_VERSION { return store, Some(UnsupportedVersion(doc.version)); }
      var i := 0;
      while i < |doc.active|
        invariant 0 <= i <= |doc.active|
        invariant fresh(store) && store.Valid() && store.disk == disk && store.health == NEVER
        invariant Load(doc.active[..i]) == Success(store.records)
      {
        var record := doc.active[i];
        LoadNext(doc.active, i, store.records);
        if !ValidRecord(record) {
          LoadPrefix(doc.active, i + 1);
          store := new File.New(disk);
          return store, Some(InvalidRecord(i));
        }
        if record.key in store.records {
          LoadPrefix(doc.active, i + 1);
          store := new File.New(disk);
          return store, Some(DuplicateKey(record.key));
        }
        store.records := store.records[record.key := record];
        i := i + 1;
      }
      assert doc.active[..i] == doc.active;
      if doc.health.Some? {
        if !doc.health.value.Valid() {
          store := new File.New(disk);
          return store, Some(InvalidHealth);
        }
        store.health := doc.health.value;
      }
      return store, None;
    }

    /** The records of one scope, by key. */
    method ByScope(scope: string) returns (result: seq<Record>)
      requires Valid()
      ensures result == ValuesInOrder(InScope(records, scope))
    {
      ghost var want := InScope(records, scope);
      result := [];
      var pending := records.Keys;
      VisitNone(KeyOf, want, pending);
      while pending != {}
        invariant pending <= records.Keys
        invariant Visited(KeyOf, result, want, pending)
        decreases pending
      {
        var key :| key in pending;
        if records[key].scope == scope {
          VisitTake(KeyOf, result, want, pending, key);
          result := result + [records[key]];
        } else {
          VisitSkip(KeyOf, result, want, pending, key);
        }
        pending := pending - {key};
      }
      VisitedAll(KeyOf, result, want);
      result := SortBy(KeyOf, result);
    }

    method Put(record: Record) returns (failed: bool)
      requires Valid()
      modifies this`records
      ensures Valid()
      ensures failed <==> record.key == "" || record.scope == ""
      ensures Now() == Apply(old(Now()), Mutation.Put(record))
      ensures records == if failed then old(records) else old(records)[record.key := record]
    {
      if !ValidRecord(record) { return true; }
      records := records[record.key := record];
      return false;
    }

    method Delete(key: string) returns (found: bool)
      requires Valid()
      modifies this`records
      ensures Valid()
      ensures found <==> key in old(records)
      ensures Now() == Apply(old(Now()), Mutation.Delete(key))
      ensures records == old(records) - {key}
    {
      if key !in records { return false; }
      records := records - {key};
      return true;
    }

    method SetHealthReport(value: HealthState) returns (failed: bool)
      requires Valid()
      modifies this`health
      ensures Valid()
      ensures failed <==> !value.Valid()
      ensures Now() == Apply(old(Now()), SetHealth(value))
      ensures health == if failed then old(health) else value
    {
      if !value.Valid() { return true; }
      health := value;
      return false;
    }

    /** Replaces the file by a snapshot; a failure can come before or after the
        replacement. */
    method Save() returns (failed: bool)
      requires Valid()
      modifies this`disk, this`saves
      ensures saves == old(saves) + [failed]
      ensures disk == Content(DocumentOf(records, health)) || (failed && disk == old(disk))
    {
      var doc := Snapshot();
      failed := AtomicWrite(doc);
    }

    method Snapshot() returns (doc: Document)
      requires Valid()
      ensures doc == DocumentOf(records, health)
    {
      var snapshot: seq<Record> := [];
      var pending := records.Keys;
      VisitNone(KeyOf, records, pending);
      while pending != {}
        invariant pending <= records.Keys
        invariant Visited(KeyOf, snapshot, records, pending)
        decreases pending
      {
        var key :| key in pending;
        VisitTake(KeyOf, snapshot, records, pending, key);
        snapshot := snapshot + [records[key]];
        pending := pending - {key};
      }
      VisitedAll(KeyOf, snapshot, records);
      snapshot := SortBy(KeyOf, snapshot);
      doc := Document(SCHEMA_VERSION, snapshot, None);
      if health.lastAttempt != 0 || health.lastSent != 0 { doc := doc.(health := Some(health)); }
    }

    method AtomicWrite(doc: Document) returns (failed: bool)
      modifies this`disk, this`saves
      ensures saves == old(saves) + [failed]
      ensures disk == Content(doc) || (failed && disk == old(disk))
    {
      var replaced: bool := *;
      failed := *;
      if replaced || !failed { disk := Content(doc); }
      saves := saves + [failed];
    }
  }

  /** The first failure among the records decides. */
  lemma LoadNext(active: seq<Record>, i: nat, records: map<string, Record>)
    requires i < |active| && Load(active[..i]) == Success(records)
    ensures Load(active[..i + 1]) ==
      if !ValidRecord(active[i]) then Failure(InvalidRecord(i))
      else if active[i].key in records then Failure(DuplicateKey(active[i].key))
      else Success(records[active[i].key := active[i]])
  {
    SliceMore(active, i);
  }

  lemma {:induction false} LoadPrefix(active: seq<Record>, i: nat)
    requires i <= |active| && Load(active[..i]).Failure?
    ensures Load(active) == Load(active[..i])
  {
    if i == |active| {
      assert active[..i] == active;
    } else {
      var front := active[..|active| - 1];
      assert front[..i] == active[..i];
      LoadPrefix(front, i);
    }
  }
}
