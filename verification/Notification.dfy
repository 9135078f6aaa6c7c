/** Alert batches (internal/notification/types.go) and their delivery through a
    primary transport with an optional fallback (internal/notification/router.go). */
module Notification {
  import opened Text

  /** The two kinds of a batch, or any other string. */
  datatype Kind = Alert | Recovery | Other(name: string)

  datatype Event = Event(kind: Kind, scope: string, subject: string, hostname: string, timestamp: int,
                         key: string, current: string, threshold: string, details: string, baseUrl: string)

  datatype Batch = Batch(kind: Kind, scope: string, hostname: string, timestamp: int, events: seq<Event>)

  datatype BatchError = NoError | UnknownKind | NoScope | NoHostname | NoTimestamp | NoEvents
                      | KindMismatch | ScopeMismatch | HostnameMismatch | TimestampMismatch
                      | NoKey | DuplicateKey

  function EventKey(e: Event): string { e.key }

  /** A known kind, and every event repeats the batch's kind, scope, host and time, under a key of its own. */
  ghost predicate ValidBatch(b: Batch) {
    && !b.kind.Other? && !Blank(b.scope) && !Blank(b.hostname) && b.timestamp != 0 && b.events != []
    && (forall e <- b.events :: Repeats(e, b)) && Distinct(Keys(EventKey, b.events))
  }

  predicate Repeats(e: Event, b: Batch) {
    && e.kind == b.kind && e.scope == b.scope && e.hostname == b.hostname && e.timestamp == b.timestamp
    && !Blank(e.key)
  }

  /** The first events pass, and `seen` holds their keys. */
  ghost predicate Passed(events: seq<Event>, b: Batch, seen: set<string>) {
    && (forall e <- events :: Repeats(e, b)) && Distinct(Keys(EventKey, events))
    && forall k :: k in seen <==> k in Keys(EventKey, events)
  }

  lemma PassedMore(b: Batch, i: nat, seen: set<string>)
    requires i < |b.events| && Passed(b.events[..i], b, seen)
    ensures b.events[i] in b.events
    ensures b.events[i].key in seen ==> !Distinct(Keys(EventKey, b.events[..i + 1]))
    ensures Repeats(b.events[i], b) && b.events[i].key !in seen ==>
      Passed(b.events[..i + 1], b, seen + {b.events[i].key})
  {
    SliceMore(b.events, i);
    KeysSnoc(EventKey, b.events[..i], b.events[i]);
  }

  /** What an error blames is wrong, and nothing that is tested before it. */
  ghost predicate Blames(error: BatchError, b: Batch) {
    match error
    case NoError => ValidBatch(b)
    case UnknownKind => b.kind.Other?
    case NoScope => !b.kind.Other? && Blank(b.scope)
    case NoHostname => !b.kind.Other? && !Blank(b.scope) && Blank(b.hostname)
    case NoTimestamp => !b.kind.Other? && !Blank(b.scope) && !Blank(b.hostname) && b.timestamp == 0
    case NoEvents => HeaderFine(b) && b.events == []
    case _ => HeaderFine(b) && exists i: nat :: BlamesEvent(error, b, i)
  }

  predicate HeaderFine(b: Batch) {
    !b.kind.Other? && !Blank(b.scope) && !Blank(b.hostname) && b.timestamp != 0
  }

  /** Event i is the first bad one. */
  ghost predicate BlamesEvent(error: BatchError, b: Batch, i: nat) {
    && i < |b.events| && (forall j: nat :: j < i ==> Repeats(b.events[j], b))
    && Distinct(Keys(EventKey, b.events[..i]))
    && var e := b.events[i];
       match error
       case KindMismatch => e.kind != b.kind
       case ScopeMismatch => e.kind == b.kind && e.scope != b.scope
       case HostnameMismatch => e.kind == b.kind && e.scope == b.scope && e.hostname != b.hostname
       case TimestampMismatch =>
         e.kind == b.kind && e.scope == b.scope && e.hostname == b.hostname && e.timestamp != b.timestamp
       case NoKey =>
         && e.kind == b.kind && e.scope == b.scope && e.hostname == b.hostname && e.timestamp == b.timestamp
         && Blank(e.key)
       case DuplicateKey => Repeats(e, b) && exists j: nat :: j < i && b.events[j].key == e.key
       case _ => false
  }

  method ValidateBatch(b: Batch) returns (error: BatchError)
    ensures error.NoError? <==> ValidBatch(b)
    ensures Blames(error, b)
  {
    if b.kind != Alert && b.kind != Recovery { return UnknownKind; }
    if Blank(b.scope) { return NoScope; }
    if Blank(b.hostname) { return NoHostname; }
    if b.timestamp == 0 { return NoTimestamp; }
    if |b.events| == 0 { return NoEvents; }
    var seen: set<string> := {};
    var i := 0;
    while i < |b.events|
      invariant 0 <= i <= |b.events| && Passed(b.events[..i], b, seen)
    {
      error := InspectEvent(b, i, seen);
      if error != NoError { return; }
      seen := seen + {b.events[i].key};
      i := i + 1;
    }
    WholeSlice(b.events);
    return NoError;
  }

  /** One turn of that loop: every field repeats the header, under a new key. */
  method InspectEvent(b: Batch, i: nat, seen: set<string>) returns (error: BatchError)
    requires i < |b.events| && Passed(b.events[..i], b, seen)
    ensures error.NoError? ==> Passed(b.events[..i + 1], b, seen + {b.events[i].key})
    ensures !error.NoError? ==> !ValidBatch(b) && BlamesEvent(error, b, i)
  {
    var event := b.events[i];
    PassedMore(b, i, seen);
    PassedEach(b, i, seen);
    if event.kind != b.kind { return KindMismatch; }
    if event.scope != b.scope { return ScopeMismatch; }
    if event.hostname != b.hostname { return HostnameMismatch; }
    if event.timestamp != b.timestamp { return TimestampMismatch; }
    if Blank(event.key) { return NoKey; }
    if event.key in seen {
      NotDistinctFront(EventKey, b.events, i + 1);
      return DuplicateKey;
    }
    return NoError;
  }

  lemma PassedEach(b: Batch, i: nat, seen: set<string>)
    requires i < |b.events| && Passed(b.events[..i], b, seen)
    ensures forall j: nat :: j < i ==> Repeats(b.events[j], b)
    ensures b.events[i].key in seen ==> exists j: nat :: j < i && b.events[j].key == b.events[i].key
  {
    var front := b.events[..i];
    forall j: nat | j < i ensures Repeats(b.events[j], b) { assert front[j] in front; }
    if b.events[i].key in seen {
      var ks := Keys(EventKey, front);
      var j: nat :| j < |ks| && ks[j] == b.events[i].key;
      assert ks[j] == EventKey(front[j]) == b.events[j].key;
    }
  }

  // ---------- delivery ----------

  datatype Attempt = Attempt(batch: Batch, delivered: bool)

  ghost function Delivered(log: seq<Attempt>): multiset<Batch> {
    if log == [] then multiset{}
    else Delivered(log[..|log| - 1]) + if log[|log| - 1].delivered then multiset{log[|log| - 1].batch} else multiset{}
  }

  /** One transport was given a batch. */
  datatype Offer = Offer(toPrimary: bool, batch: Batch, accepted: bool)

  /** The batches some transport accepted, once for each acceptance. */
  ghost function Accepted(offers: seq<Offer>): multiset<Batch> {
    if offers == [] then multiset{}
    else Accepted(offers[..|offers| - 1]) + if offers[|offers| - 1].accepted then multiset{offers[|offers| - 1].batch}
      else multiset{}
  }

  /** The offers of one delivery: the primary first, then the fallback, exactly if the
      primary refused and there is one that may still be tried; the last answer counts. */
  ghost predicate InTurn(made: seq<Offer>, batch: Batch, mayFallBack: bool, delivered: bool) {
    || (made == [Offer(true, batch, delivered)] && (delivered || !mayFallBack))
    || (mayFallBack && made == [Offer(true, batch, false), Offer(false, batch, delivered)])
  }

  /** A delivered batch was accepted by exactly one transport, any other by none; and
      only valid batches are accepted. */
  ghost predicate Conserved(offers: seq<Offer>, log: seq<Attempt>) {
    Accepted(offers) == Delivered(log) && forall o <- offers :: o.accepted ==> ValidBatch(o.batch)
  }

  lemma AcceptedMore(offers: seq<Offer>, o: Offer)
    ensures Accepted(offers + [o]) == Accepted(offers) + if o.accepted then multiset{o.batch} else multiset{}
  {
    assert (offers + [o])[..|offers|] == offers;
  }

  lemma AcceptedInTurn(offers: seq<Offer>, made: seq<Offer>, b: Batch, mayFallBack: bool, delivered: bool)
    requires InTurn(made, b, mayFallBack, delivered)
    ensures Accepted(offers + made) == Accepted(offers) + if delivered then multiset{b} else multiset{}
  {
    if made == [Offer(true, b, delivered)] {
      AcceptedMore(offers, made[0]);
    } else {
      AcceptedTwo(offers, Offer(true, b, false), Offer(false, b, delivered));
    }
  }

  lemma AcceptedTwo(offers: seq<Offer>, first: Offer, second: Offer)
    requires !first.accepted
    ensures Accepted(offers + [first, second])
         == Accepted(offers) + if second.accepted then multiset{second.batch} else multiset{}
  {
    assert offers + [first, second] == offers + [first] + [second];
    AcceptedMore(offers, first);
    AcceptedMore(offers + [first], second);
  }

  lemma ConservedMore(offers: seq<Offer>, log: seq<Attempt>, made: seq<Offer>, b: Batch, mayFallBack: bool,
                      delivered: bool)
    requires Conserved(offers, log) && InTurn(made, b, mayFallBack, delivered) && (delivered ==> ValidBatch(b))
    ensures Conserved(offers + made, log + [Attempt(b, delivered)])
  {
    AcceptedInTurn(offers, made, b, mayFallBack, delivered);
    assert (log + [Attempt(b, delivered)])[..|log|] == log;
    forall o | o in offers + made && o.accepted ensures ValidBatch(o.batch) {
      if o !in offers { assert o in made; }
    }
  }

  class Router {
    const hasFallback: bool
    ghost var offers: seq<Offer> // to either transport, oldest first
    ghost var log: seq<Attempt>  // what callers were told, oldest first

    ghost predicate Valid()
      reads this
    {
      Conserved(offers, log)
    }

    constructor (hasFallback: bool)
      ensures Valid() && log == []
    {
      this.hasFallback := hasFallback;
      offers, log := [], [];
    }

    /** One transport is given a batch; it refuses an invalid one and may fail on any other. */
    method Offered(toPrimary: bool, batch: Batch) returns (failed: bool)
      modifies this`offers
      ensures offers == old(offers) + [Offer(toPrimary, batch, !failed)]
      ensures !ValidBatch(batch) ==> failed
    {
      var error := ValidateBatch(batch);
      failed := *;
      failed := failed || error != NoError;
      offers := offers + [Offer(toPrimary, batch, !failed)];
    }

    /** Primary first; the fallback only after the primary failed and only while
        the context is not cancelled. */
    method SendBatch(batch: Batch, cancelled: bool) returns (failed: bool)
      requires Valid()
      modifies this
      ensures Valid() && log == old(log) + [Attempt(batch, !failed)]
      ensures old(offers) <= offers
      ensures InTurn(offers[|old(offers)|..], batch, hasFallback && !cancelled, !failed)
      ensures !failed ==> ValidBatch(batch)
    {
      ghost var was := offers;
      failed := Offered(true, batch);
      ghost var made := [Offer(true, batch, !failed)];
      if failed && hasFallback && !cancelled {
        failed := Offered(false, batch);
        made := made + [Offer(false, batch, !failed)];
      }
      assert offers == was + made;
      HeadTail(was, made);
      ConservedMore(was, log, made, batch, hasFallback && !cancelled, !failed);
      log := log + [Attempt(batch, !failed)];
    }
  }
}
