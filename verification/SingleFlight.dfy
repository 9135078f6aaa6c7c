/** Shared statfs calls (statFSForMount, statCall and finishStatCall in
    internal/collector/proc.go): requesters, workers, timeouts and cancellations in
    any interleaving. */
module SingleFlight {
  import opened State
  import Disk

  type Reply = Result<Disk.Info, Disk.Error>

  // ---------- the shared table ----------

  /** One call of statfs; finished once it has a result. */
  datatype StatCall = StatCall(path: string, result: Option<Reply>)

  /** Every call ever made, and the table of shared ones. */
  datatype Shared = Shared(calls: seq<StatCall>, table: map<string, nat>)

  function WithCall(s: Shared, path: string): Shared {
    if path in s.table then s
    else Shared(s.calls + [StatCall(path, None)], s.table[path := |s.calls|])
  }

  function Finished(s: Shared, c: nat, reply: Reply): Shared
    requires c < |s.calls|
  {
    s.(calls := s.calls[c := s.calls[c].(result := Some(reply))])
  }

  /** Only the call itself is taken out of the table, never a successor. */
  function Retired(s: Shared, path: string, c: nat): Shared {
    if path in s.table && s.table[path] == c then s.(table := s.table - {path}) else s
  }

  /** The collector's table; each method is one critical section. */
  class Table {
    var calls: seq<StatCall>
    var entries: map<string, nat>

    ghost function Now(): Shared
      reads this
    {
      Shared(calls, entries)
    }

    constructor ()
      ensures Now() == Shared([], map[])
    {
      calls, entries := [], map[];
    }

    method Lookup(path: string) returns (c: nat)
      modifies this
      ensures Now() == WithCall(old(Now()), path)
      ensures path in entries && c == entries[path]
    {
      if path in entries { return entries[path]; }
      c := |calls|;
      calls, entries := calls + [StatCall(path, None)], entries[path := c];
    }

    /** The worker of call c. */
    method Complete(c: nat, reply: Reply)
      requires c < |calls|
      modifies this`calls
      ensures Now() == Finished(old(Now()), c, reply)
    {
      calls := calls[c := calls[c].(result := Some(reply))];
    }

    /** After this the call is no longer shared; a successor made meanwhile is, and so
        is every call of another path. */
    method Finish(path: string, completed: nat)
      modifies this`entries
      ensures Now() == Retired(old(Now()), path, completed)
      ensures path in entries ==> entries[path] != completed
      ensures old(path in entries && entries[path] != completed) ==>
        path in entries && entries[path] == old(entries)[path]
      ensures forall p :: p != path ==> (p in entries <==> p in old(entries))
      ensures forall p <- entries :: p in old(entries) && entries[p] == old(entries)[p]
    {
      if path in entries && entries[path] == completed { entries := entries - {path}; }
    }
  }

  // ---------- the protocol ----------

  datatype Phase = Started | Waiting(call: nat) | Observed(call: nat) | Served(call: nat, reply: Reply) | GaveUp

  datatype Request = Request(path: string, phase: Phase)

  datatype Flight = Flight(shared: Shared, requests: seq<Request>)

  datatype Step = Start(path: string)          // a request for a mount point
                | Look(r: nat)                 // joins or makes a call
                | Complete(c: nat, reply: Reply) // a worker finishes
                | Observe(r: nat)              // sees its call done
                | Conclude(r: nat)             // retires it and returns its result
                | GiveUp(r: nat)               // timeout or cancellation

  const IDLE := Flight(Shared([], map[]), [])

  ghost predicate Enabled(f: Flight, step: Step) {
    match step
    case Start(_) => true
    case Look(r) => r < |f.requests| && f.requests[r].phase.Started?
    case Complete(c, _) => c < |f.shared.calls| && f.shared.calls[c].result.None?
    case Observe(r) =>
      && r < |f.requests| && f.requests[r].phase.Waiting?
      && f.requests[r].phase.call < |f.shared.calls| && f.shared.calls[f.requests[r].phase.call].result.Some?
    case Conclude(r) =>
      && r < |f.requests| && f.requests[r].phase.Observed?
      && f.requests[r].phase.call < |f.shared.calls| && f.shared.calls[f.requests[r].phase.call].result.Some?
    case GiveUp(r) => r < |f.requests| && f.requests[r].phase.Waiting?
  }

  function Moved(f: Flight, r: nat, phase: Phase): Flight
    requires r < |f.requests|
  {
    f.(requests := f.requests[r := f.requests[r].(phase := phase)])
  }

  function Next(f: Flight, step: Step): Flight
    requires Enabled(f, step)
  {
    match step
    case Start(path) => f.(requests := f.requests + [Request(path, Started)])
    case Look(r) =>
      var shared := WithCall(f.shared, f.requests[r].path);
      Moved(f, r, Waiting(shared.table[f.requests[r].path])).(shared := shared)
    case Complete(c, reply) => f.(shared := Finished(f.shared, c, reply))
    case Observe(r) => Moved(f, r, Observed(f.requests[r].phase.call))
    case Conclude(r) =>
      var c := f.requests[r].phase.call;
      Moved(f, r, Served(c, f.shared.calls[c].result.value)).(shared := Retired(f.shared, f.requests[r].path, c))
    case GiveUp(r) => Moved(f, r, GaveUp)
  }

  ghost predicate Possible(run: seq<Step>)
    decreases |run|, 0
  {
    run == [] || (Possible(run[..|run| - 1]) && Enabled(After(run[..|run| - 1]), run[|run| - 1]))
  }

  /** The state after a run from the idle collector. */
  ghost function After(run: seq<Step>): Flight
    requires Possible(run)
    decreases |run|, 1
  {
    if run == [] then IDLE else Next(After(run[..|run| - 1]), run[|run| - 1])
  }

  lemma RunMore(run: seq<Step>, step: Step)
    requires Possible(run) && Enabled(After(run), step)
    ensures Possible(run + [step]) && After(run + [step]) == Next(After(run), step)
  {
    assert (run + [step])[..|run|] == run;
  }

  lemma {:induction false} PossiblePrefix(run: seq<Step>, n: nat)
    requires Possible(run) && n <= |run|
    ensures Possible(run[..n])
  {
    if n == |run| {
      assert run[..n] == run;
    } else {
      var front := run[..|run| - 1];
      PossiblePrefix(front, n);
      assert front[..n] == run[..n];
    }
  }

  // ---------- what every step keeps ----------

  ghost predicate InTable(s: Shared, c: nat)
    requires c < |s.calls|
  {
    s.calls[c].path in s.table && s.table[s.calls[c].path] == c
  }

  ghost predicate SharedKeeps(s: Shared) {
    && (forall p <- s.table :: s.table[p] < |s.calls| && s.calls[s.table[p]].path == p)
    && (forall c: nat :: c < |s.calls| && s.calls[c].result.None? ==> InTable(s, c))
  }

  ghost predicate RequestKeeps(s: Shared, r: Request) {
    && (r.phase.Waiting? || r.phase.Observed? || r.phase.Served? ==>
          r.phase.call < |s.calls| && s.calls[r.phase.call].path == r.path)
    && (r.phase.Observed? ==> s.calls[r.phase.call].result.Some?)
    && (r.phase.Served? ==> s.calls[r.phase.call].result == Some(r.phase.reply))
  }

  ghost predicate Keeps(f: Flight) {
    SharedKeeps(f.shared) && forall r: nat :: r < |f.requests| ==> RequestKeeps(f.shared, f.requests[r])
  }

  /** Calls are never forgotten, and a result never changes. */
  ghost predicate Grown(s: Shared, t: Shared) {
    |s.calls| <= |t.calls| && forall c: nat :: c < |s.calls| ==>
      t.calls[c].path == s.calls[c].path && (s.calls[c].result.Some? ==> t.calls[c].result == s.calls[c].result)
  }

  lemma SharedStep(f: Flight, step: Step)
    requires Keeps(f) && Enabled(f, step)
    ensures SharedKeeps(Next(f, step).shared) && Grown(f.shared, Next(f, step).shared)
  {
    var s, t := f.shared, Next(f, step).shared;
    if step.Conclude? {
      assert RequestKeeps(s, f.requests[step.r]);
    }
    forall c: nat | c < |t.calls| && t.calls[c].result.None? ensures InTable(t, c) {
      if c < |s.calls| { assert InTable(s, c); }
    }
  }

  lemma StepKeeps(f: Flight, step: Step)
    requires Keeps(f) && Enabled(f, step)
    ensures Keeps(Next(f, step))
  {
    SharedStep(f, step);
    var g := Next(f, step);
    forall r: nat | r < |g.requests| ensures RequestKeeps(g.shared, g.requests[r]) {
      if r < |f.requests| { assert RequestKeeps(f.shared, f.requests[r]); }
    }
  }

  lemma {:induction false} RunKeeps(run: seq<Step>)
    requires Possible(run)
    ensures Keeps(After(run))
  {
    if run != [] {
      RunKeeps(run[..|run| - 1]);
      StepKeeps(After(run[..|run| - 1]), run[|run| - 1]);
    }
  }

  // ---------- main results ----------

  /** In every interleaving at most one call per path is unfinished, and it is the
      one in the table. */
  lemma OneUnfinishedPerPath(run: seq<Step>, c: nat, d: nat)
    requires Possible(run)
    requires c < |After(run).shared.calls| && After(run).shared.calls[c].result.None?
    requires d < |After(run).shared.calls| && After(run).shared.calls[d].result.None?
    requires After(run).shared.calls[c].path == After(run).shared.calls[d].path
    ensures c == d && InTable(After(run).shared, c)
  {
    RunKeeps(run);
    assert InTable(After(run).shared, c) && InTable(After(run).shared, d);
  }

  /** What a request returns is the result of a call on its own path. */
  lemma ServedFromOwnPath(run: seq<Step>, r: nat)
    requires Possible(run) && r < |After(run).requests| && After(run).requests[r].phase.Served?
    ensures var f := After(run);
      var q := f.requests[r];
      && q.phase.call < |f.shared.calls| && f.shared.calls[q.phase.call] == StatCall(q.path, Some(q.phase.reply))
  {
    RunKeeps(run);
    assert RequestKeeps(After(run).shared, After(run).requests[r]);
  }

  predicate Uses(q: Request, c: nat) {
    (q.phase.Waiting? || q.phase.Observed? || q.phase.Served?) && q.phase.call == c
  }

  /** Call c is out of the table, and no request from number k on uses it. */
  ghost predicate Gone(f: Flight, c: nat, k: nat) {
    && c < |f.shared.calls| && !InTable(f.shared, c)
    && forall r: nat :: k <= r < |f.requests| ==> !Uses(f.requests[r], c)
  }

  lemma GoneStays(f: Flight, step: Step, c: nat, k: nat)
    requires Keeps(f) && Enabled(f, step) && Gone(f, c, k)
    ensures Gone(Next(f, step), c, k)
  {
    var g := Next(f, step);
    SharedStep(f, step);
    assert !InTable(g.shared, c);
    forall r: nat | k <= r < |g.requests| ensures !Uses(g.requests[r], c) {
      if r < |f.requests| { assert !Uses(f.requests[r], c); }
    }
  }

  /** A call that was retired at some moment of the run never serves a request that
      started after it: such a request gets a call made later. */
  lemma {:induction false} RetiredNeverServes(run: seq<Step>, n: nat, c: nat, r: nat)
    requires n <= |run| && Possible(run) && Possible(run[..n])
    requires c < |After(run[..n]).shared.calls| && !InTable(After(run[..n]).shared, c)
    requires |After(run[..n]).requests| <= r < |After(run).requests|
    ensures !Uses(After(run).requests[r], c)
  {
    GoneAfter(run, n, c);
    assert Gone(After(run), c, |After(run[..n]).requests|);
  }

  lemma {:induction false} GoneAfter(run: seq<Step>, n: nat, c: nat)
    requires n <= |run| && Possible(run) && Possible(run[..n])
    requires c < |After(run[..n]).shared.calls| && !InTable(After(run[..n]).shared, c)
    ensures Gone(After(run), c, |After(run[..n]).requests|)
  {
    if n == |run| {
      assert run[..n] == run;
    } else {
      var front := run[..|run| - 1];
      assert front[..n] == run[..n];
      GoneAfter(front, n, c);
      RunKeeps(front);
      GoneStays(After(front), run[|run| - 1], c, |After(run[..n]).requests|);
    }
  }

  /** A request for a path without a shared call is served, if at all, by a call
      made after the request began. */
  lemma IdleMeansFresh(run: seq<Step>, n: nat, r: nat)
    requires n <= |run| && Possible(run) && Possible(run[..n])
    requires |After(run[..n]).requests| <= r < |After(run).requests|
    requires After(run).requests[r].path !in After(run[..n]).shared.table
    requires After(run).requests[r].phase.Served?
    ensures After(run).requests[r].phase.call >= |After(run[..n]).shared.calls|
  {
    var c := After(run).requests[r].phase.call;
    RunKeeps(run);
    assert RequestKeeps(After(run).shared, After(run).requests[r]);
    if c < |After(run[..n]).shared.calls| {
      CallsGrow(run, n);
      assert After(run[..n]).shared.calls[c].path == After(run).requests[r].path;
      RetiredNeverServes(run, n, c, r);
    }
  }

  lemma {:induction false} CallsGrow(run: seq<Step>, n: nat)
    requires n <= |run| && Possible(run) && Possible(run[..n])
    ensures Grown(After(run[..n]).shared, After(run).shared)
  {
    if n == |run| {
      assert run[..n] == run;
    } else {
      var front := run[..|run| - 1];
      assert front[..n] == run[..n];
      CallsGrow(front, n);
      RunKeeps(front);
      SharedStep(After(front), run[|run| - 1]);
    }
  }

  lemma {:induction false} RequestsGrow(run: seq<Step>, n: nat)
    requires n <= |run| && Possible(run) && Possible(run[..n])
    ensures |After(run[..n]).requests| <= |After(run).requests|
  {
    assert run[..|run|] == run;
    if n < |run| {
      assert run[..|run| - 1][..n] == run[..n];
      RequestsGrow(run[..|run| - 1], n);
    }
  }

  // ---------- how old a result is ----------

  /** The call a request gets when it looks. */
  function CallFor(s: Shared, path: string): nat { if path in s.table then s.table[path] else |s.calls| }

  /** A request keeps the call it got, and a served one its result. */
  lemma {:induction false} CallKept(run: seq<Step>, m: nat, r: nat)
    requires m < |run| && Possible(run) && Possible(run[..m]) && run[m] == Look(r)
    requires r < |After(run[..m]).requests|
    ensures r < |After(run).requests| && After(run).requests[r].path == After(run[..m]).requests[r].path
    ensures After(run).requests[r].phase.GaveUp?
         || Uses(After(run).requests[r], CallFor(After(run[..m]).shared, After(run[..m]).requests[r].path))
  {
    var front := run[..|run| - 1];
    if m == |run| - 1 {
      assert run[..m] == front;
    } else {
      assert front[..m] == run[..m] && front[m] == run[m];
      CallKept(front, m, r);
      UseKept(After(front), run[|run| - 1], r, CallFor(After(run[..m]).shared, After(run[..m]).requests[r].path));
    }
  }

  lemma UseKept(f: Flight, step: Step, r: nat, c: nat)
    requires Enabled(f, step) && r < |f.requests| && (f.requests[r].phase.GaveUp? || Uses(f.requests[r], c))
    ensures var g := Next(f, step);
      && r < |g.requests| && g.requests[r].path == f.requests[r].path
      && (g.requests[r].phase.GaveUp? || Uses(g.requests[r], c))
  {
  }

  /** Requests that are through stay as they are. */
  lemma {:induction false} ThroughStays(run: seq<Step>, n: nat, r: nat)
    requires n <= |run| && Possible(run) && Possible(run[..n]) && r < |After(run[..n]).requests|
    requires After(run[..n]).requests[r].phase.Served? || After(run[..n]).requests[r].phase.GaveUp?
    ensures r < |After(run).requests| && After(run).requests[r] == After(run[..n]).requests[r]
  {
    if n == |run| {
      assert run[..n] == run;
    } else {
      var front := run[..|run| - 1];
      assert front[..n] == run[..n];
      ThroughStays(front, n, r);
    }
  }

  /** A served result is older than its request, which began at step n or later and
      looked at step m, exactly when the path was shared when the request looked, by a
      call made before step n; and if that call had finished by then, its old result
      is what the request returns. */
  lemma OlderExactly(run: seq<Step>, n: nat, m: nat, r: nat)
    requires n <= m < |run| && Possible(run) && Possible(run[..n]) && Possible(run[..m])
    requires run[m] == Look(r) && |After(run[..n]).requests| <= r < |After(run[..m]).requests|
    requires r < |After(run).requests| && After(run).requests[r].phase.Served?
    ensures var born, look, q := |After(run[..n]).shared.calls|, After(run[..m]).shared, After(run).requests[r];
      && (q.phase.call < born <==> q.path in look.table && look.table[q.path] < born)
      && (q.phase.call < born && After(run[..n]).shared.calls[q.phase.call].result.Some? ==>
            After(run[..n]).shared.calls[q.phase.call] == StatCall(q.path, Some(q.phase.reply)))
  {
    CallKept(run, m, r);
    assert run[..m][..n] == run[..n];
    CallsGrow(run[..m], n);
    CallsGrow(run, n);
    ServedFromOwnPath(run, r);
  }

  /** What the file system says of a path from some moment on; calls numbered below
      `since` may have asked it before. */
  datatype World = World(stat: string -> Reply, since: nat)

  /** From step n on every completion tells what the file system says of its call's path,
      unless the call may have asked before. */
  ghost predicate Truthful(run: seq<Step>, n: nat, world: World)
    requires Possible(run)
  {
    |run| <= n ||
    (var front, last := run[..|run| - 1], run[|run| - 1];
     Truthful(front, n, world) &&
     (last.Complete? && last.c >= world.since ==> last.reply == world.stat(After(front).shared.calls[last.c].path)))
  }

  /** Whatever of those calls finished since step n tells the truth. */
  lemma {:induction false} FinishedSince(run: seq<Step>, n: nat, c: nat, world: World)
    requires n <= |run| && Possible(run) && Possible(run[..n]) && Truthful(run, n, world)
    requires world.since <= c < |After(run).shared.calls| && After(run).shared.calls[c].result.Some?
    requires c < |After(run[..n]).shared.calls| ==> After(run[..n]).shared.calls[c].result.None?
    ensures After(run).shared.calls[c].result.value == world.stat(After(run).shared.calls[c].path)
  {
    assert run[..|run|] == run;
    if n < |run| {
      var front, last := run[..|run| - 1], run[|run| - 1];
      assert front[..n] == run[..n];
      RunKeeps(front);
      if c < |After(front).shared.calls| && After(front).shared.calls[c].result.Some? {
        SharedStep(After(front), last);
        FinishedSince(front, n, c, world);
      } else {
        FinishedNow(After(front), last, c);
      }
    }
  }

  lemma FinishedNow(f: Flight, step: Step, c: nat)
    requires Enabled(f, step) && c < |Next(f, step).shared.calls| && Next(f, step).shared.calls[c].result.Some?
    requires c < |f.shared.calls| ==> f.shared.calls[c].result.None?
    ensures step.Complete? && step.c == c && Next(f, step).shared.calls[c] == StatCall(f.shared.calls[c].path,
      Some(step.reply))
  {
  }

  /** A finished call that nobody has taken the result of is still shared. */
  predicate Leftover(s: Shared, path: string) {
    path in s.table && s.table[path] < |s.calls| && s.calls[s.table[path]].result.Some?
  }

  /** The call shared on the path may give an old result: it has finished, or it is one
      of those that may have asked the file system earlier. */
  predicate Stale(s: Shared, path: string, since: nat) {
    Leftover(s, path) || (path in s.table && s.table[path] < since)
  }

  /** A request that began at step n or later returns what the file system says from
      then on, unless its path was shared at step n: then perhaps the result left over
      there, or, if earlier calls may tell anything, what the call shared there told. */
  lemma FreshOrStale(run: seq<Step>, n: nat, r: nat, world: World)
    requires n <= |run| && Possible(run) && Possible(run[..n]) && Truthful(run, n, world)
    requires world.since <= |After(run[..n]).shared.calls|
    requires |After(run[..n]).requests| <= r < |After(run).requests| && After(run).requests[r].phase.Served?
    ensures var q, before := After(run).requests[r], After(run[..n]).shared;
      || q.phase.reply == world.stat(q.path)
      || (Stale(before, q.path, world.since) && q.phase.call == before.table[q.path]
          && (Leftover(before, q.path) ==> before.calls[q.phase.call].result == Some(q.phase.reply)))
  {
    var q, before := After(run).requests[r], After(run[..n]).shared;
    var c := q.phase.call;
    ServedFromOwnPath(run, r);
    if c < |before.calls| && (c < world.since || before.calls[c].result.Some?) {
      CallsGrow(run, n);
      if !InTable(before, c) { RetiredNeverServes(run, n, c, r); }
    } else {
      FinishedSince(run, n, c, world);
    }
  }

  /** If every completion ever tells the truth, so does every result. */
  lemma ServedTruthfully(run: seq<Step>, r: nat, world: World)
    requires Possible(run) && world.since == 0 && Truthful(run, 0, world)
    requires r < |After(run).requests| && After(run).requests[r].phase.Served?
    ensures After(run).requests[r].phase.reply == world.stat(After(run).requests[r].path)
  {
    assert run[..0] == [];
    FreshOrStale(run, 0, r, world);
  }

  // ---------- what is left in the table ----------

  /** The request waits for call c of its path or has not yet retired it, or it gave up. */
  predicate MayLeave(q: Request, path: string, c: nat) {
    q.path == path && (q.phase == Waiting(c) || q.phase == Observed(c) || q.phase.GaveUp?)
  }

  ghost predicate Owned(f: Flight, path: string, c: nat) {
    exists r: nat :: r < |f.requests| && MayLeave(f.requests[r], path, c)
  }

  ghost predicate TableOwned(f: Flight) { forall p <- f.shared.table :: Owned(f, p, f.shared.table[p]) }

  lemma OwnedStep(f: Flight, step: Step, path: string)
    requires Keeps(f) && TableOwned(f) && Enabled(f, step) && path in Next(f, step).shared.table
    ensures Owned(Next(f, step), path, Next(f, step).shared.table[path])
  {
    var g := Next(f, step);
    var c := g.shared.table[path];
    if step.Look? && f.requests[step.r].path == path {
      assert MayLeave(g.requests[step.r], path, c);
    } else {
      assert path in f.shared.table && f.shared.table[path] == c;
      var r: nat :| r < |f.requests| && MayLeave(f.requests[r], path, c);
      assert MayLeave(g.requests[r], path, c);
    }
  }

  /** In every reachable state each entry of the table belongs to a request on its path
      that waits for the call or is about to retire it, or that gave up. */
  lemma {:induction false} EntriesOwned(run: seq<Step>)
    requires Possible(run)
    ensures TableOwned(After(run))
  {
    if run != [] {
      var front, last := run[..|run| - 1], run[|run| - 1];
      EntriesOwned(front);
      RunKeeps(front);
      forall p | p in After(run).shared.table ensures Owned(After(run), p, After(run).shared.table[p]) {
        OwnedStep(After(front), last, p);
      }
    }
  }

  /** Every request for the path was served. */
  ghost predicate AllServed(f: Flight, path: string) {
    forall q <- f.requests :: q.path == path ==> q.phase.Served?
  }

  /** Once all requests for a path were served nothing is left in the table there: what
      is left over needs a request that was not served. */
  lemma ServedLeaveNothing(run: seq<Step>, path: string)
    requires Possible(run) && AllServed(After(run), path)
    ensures path !in After(run).shared.table
  {
    EntriesOwned(run);
  }

  // ---------- witnesses ----------

  /** A timeout leaves its call behind; when it has finished meanwhile, the next
      request for the path is served the old result. */
  function LateAnswer(path: string, reply: Reply): seq<Step> {
    [Start(path), Look(0), GiveUp(0), Complete(0, reply), Start(path), Look(1), Observe(1), Conclude(1)]
  }

  /** The states of that run. */
  function LateState(path: string, reply: Reply, i: nat): Flight
    requires i <= 8
  {
    var calls := [StatCall(path, if i <= 3 then None else Some(reply))];
    var first := if i == 2 then Waiting(0) else GaveUp;
    var second := if i == 5 then Started else if i == 6 then Waiting(0) else if i == 7 then Observed(0)
      else Served(0, reply);
    if i == 0 then IDLE
    else if i == 1 then Flight(Shared([], map[]), [Request(path, Started)])
    else Flight(Shared(calls, if i == 8 then map[] else map[path := 0]),
                [Request(path, first)] + if i <= 4 then [] else [Request(path, second)])
  }

  lemma LateStep(path: string, reply: Reply, i: nat)
    requires i < 8
    ensures Enabled(LateState(path, reply, i), LateAnswer(path, reply)[i])
    ensures Next(LateState(path, reply, i), LateAnswer(path, reply)[i]) == LateState(path, reply, i + 1)
  {
  }

  lemma {:induction false} LateRun(path: string, reply: Reply, i: nat)
    requires i <= 8
    ensures var run := LateAnswer(path, reply);
      Possible(run[..i]) && After(run[..i]) == LateState(path, reply, i)
  {
    var run := LateAnswer(path, reply);
    if i == 0 {
      assert run[..0] == [];
    } else {
      LateRun(path, reply, i - 1);
      LateStep(path, reply, i - 1);
      assert run[..i] == run[..i - 1] + [run[i - 1]];
      RunMore(run[..i - 1], run[i - 1]);
    }
  }

  lemma OldResultServed(path: string, reply: Reply)
    ensures var run := LateAnswer(path, reply);
      && Possible(run) && Possible(run[..4])
      && After(run[..4]).shared.calls == [StatCall(path, Some(reply))] && |After(run[..4]).requests| == 1
      && Leftover(After(run[..4]).shared, path)
      && |After(run).requests| == 2 && After(run).requests[1] == Request(path, Served(0, reply))
  {
    LateRun(path, reply, 4);
    LateRun(path, reply, 8);
    assert LateAnswer(path, reply)[..8] == LateAnswer(path, reply);
  }

  /** Why the identity test: when the second waiter of a finished call comes late, it
      leaves the successor shared; taking out whatever is there would let two
      unfinished calls run on one path. */
  lemma IdentityTestNeeded(path: string, reply: Reply)
    ensures var done := Finished(WithCall(IDLE.shared, path), 0, reply);
      var successor := WithCall(Retired(done, path, 0), path);
      var blind := WithCall(successor.(table := successor.table - {path}), path);
      && successor == Shared([StatCall(path, Some(reply)), StatCall(path, None)], map[path := 1])
      && Retired(successor, path, 0) == successor
      && blind.calls == [StatCall(path, Some(reply)), StatCall(path, None), StatCall(path, None)]
  {
    var done := Finished(WithCall(IDLE.shared, path), 0, reply);
    assert done == Shared([StatCall(path, Some(reply))], map[path := 0]);
    assert Retired(done, path, 0).table == map[];
  }
}
